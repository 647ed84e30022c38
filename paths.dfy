/** Path order and display. A `BTreeMap<PathBuf, _>` keeps its keys in Rust's
    `Path` order: component by component, each component compared as a string. */
module Paths {
  import opened Types

  /** Lexicographic order on sequences induced by a strict order on elements. */
  predicate SeqLess<T(==)>(a: seq<T>, b: seq<T>, lt: (T, T) -> bool)
  {
    if a == [] then b != []
    else if b == [] then false
    else lt(a[0], b[0]) || (a[0] == b[0] && SeqLess(a[1..], b[1..], lt))
  }

  ghost predicate StrictTotalOrder<T(!new)>(lt: (T, T) -> bool)
  {
    && (forall x :: !lt(x, x))
    && (forall x, y, z :: lt(x, y) && lt(y, z) ==> lt(x, z))
    && (forall x, y :: x != y ==> lt(x, y) || lt(y, x))
  }

  lemma {:induction false} SeqLessIrreflexive<T(!new)>(a: seq<T>, lt: (T, T) -> bool)
    requires StrictTotalOrder(lt)
    ensures !SeqLess(a, a, lt)
  {
    if a != [] { SeqLessIrreflexive(a[1..], lt); }
  }

  lemma {:induction false} SeqLessTransitive<T(!new)>(a: seq<T>, b: seq<T>, d: seq<T>, lt: (T, T) -> bool)
    requires StrictTotalOrder(lt)
    requires SeqLess(a, b, lt) && SeqLess(b, d, lt)
    ensures SeqLess(a, d, lt)
  {
    if a != [] && b != [] && d != [] && a[0] == b[0] && b[0] == d[0] {
      SeqLessTransitive(a[1..], b[1..], d[1..], lt);
    }
  }

  lemma {:induction false} SeqLessTotal<T(!new)>(a: seq<T>, b: seq<T>, lt: (T, T) -> bool)
    requires StrictTotalOrder(lt)
    requires a != b
    ensures SeqLess(a, b, lt) || SeqLess(b, a, lt)
  {
    if a != [] && b != [] && a[0] == b[0] {
      assert a == [a[0]] + a[1..] && b == [b[0]] + b[1..];
      SeqLessTotal(a[1..], b[1..], lt);
    }
  }

  /** String order (Rust compares UTF-8 bytes, which orders like code points). */
  predicate StrLess(a: string, b: string)
  {
    SeqLess(a, b, (x: char, y: char) => x < y)
  }

  /** `Path` order. */
  predicate PathLess(a: Path, b: Path)
  {
    SeqLess(a, b, StrLess)
  }

  lemma StrLessIsStrictTotal()
    ensures StrictTotalOrder(StrLess)
  {
    var lt := (x: char, y: char) => x < y;
    forall x: string ensures !StrLess(x, x) { SeqLessIrreflexive(x, lt); }
    forall x: string, y: string, z: string | StrLess(x, y) && StrLess(y, z) ensures StrLess(x, z) {
      SeqLessTransitive(x, y, z, lt);
    }
    forall x: string, y: string | x != y ensures StrLess(x, y) || StrLess(y, x) {
      SeqLessTotal(x, y, lt);
    }
  }

  /** Path order is a strict total order, so every finite set of paths has one ascending enumeration. */
  lemma PathLessIsStrictTotal()
    ensures StrictTotalOrder(PathLess)
  {
    StrLessIsStrictTotal();
    forall x: Path ensures !PathLess(x, x) { SeqLessIrreflexive(x, StrLess); }
    forall x: Path, y: Path, z: Path | PathLess(x, y) && PathLess(y, z) ensures PathLess(x, z) {
      SeqLessTransitive(x, y, z, StrLess);
    }
    forall x: Path, y: Path | x != y ensures PathLess(x, y) || PathLess(y, x) {
      SeqLessTotal(x, y, StrLess);
    }
  }

  /** `order` lists the set `s` once each, in strictly ascending path order. */
  ghost predicate AscendingEnumeration(order: seq<Path>, s: set<Path>)
  {
    && (forall i, j :: 0 <= i < j < |order| ==> PathLess(order[i], order[j]))
    && (forall p :: p in order <==> p in s)
  }

  /** `p` is a least element of `s`. */
  predicate IsLeast(p: Path, s: set<Path>)
  {
    p in s && forall q :: q in s ==> !PathLess(q, p)
  }

  /** A non-empty finite set of paths has a least element. */
  lemma {:induction false} HasLeast(s: set<Path>)
    requires s != {}
    ensures exists p :: IsLeast(p, s)
    decreases |s|
  {
    var x :| x in s;
    var rest := s - {x};
    if rest == {} {
      forall q | q in s ensures !PathLess(q, x) {
        assert q !in rest;
        PathLessIrreflexive(x);
      }
      assert IsLeast(x, s);
    } else {
      HasLeast(rest);
      var m :| IsLeast(m, rest);
      if PathLess(x, m) {
        forall q | q in s ensures !PathLess(q, x) {
          if q == x {
            PathLessIrreflexive(x);
          } else {
            assert q in rest;
            if PathLess(q, x) {
              PathLessTransitive(q, x, m);
            }
          }
        }
        assert IsLeast(x, s);
      } else {
        forall q | q in s ensures !PathLess(q, m) {
          if q != x {
            assert q in rest;
          }
        }
        assert IsLeast(m, s);
      }
    }
  }

  lemma PathLessIrreflexive(p: Path)
    ensures !PathLess(p, p)
  {
    StrLessIsStrictTotal();
    SeqLessIrreflexive(p, StrLess);
  }

  lemma PathLessTransitive(a: Path, b: Path, d: Path)
    requires PathLess(a, b) && PathLess(b, d)
    ensures PathLess(a, d)
  {
    StrLessIsStrictTotal();
    SeqLessTransitive(a, b, d, StrLess);
  }

  /** Every finite set of paths has an ascending enumeration. */
  lemma {:induction false} AscendingExists(s: set<Path>)
    ensures exists order :: AscendingEnumeration(order, s)
    decreases |s|
  {
    if s == {} {
      assert AscendingEnumeration([], s);
    } else {
      PathLessIsStrictTotal();
      HasLeast(s);
      var p :| IsLeast(p, s);
      AscendingExists(s - {p});
      var rest :| AscendingEnumeration(rest, s - {p});
      var order := [p] + rest;
      forall i, j | 0 <= i < j < |order| ensures PathLess(order[i], order[j]) {
        assert order[j] == rest[j - 1];
        if i == 0 {
          assert order[j] in s - {p};
        } else {
          assert order[i] == rest[i - 1];
        }
      }
      assert AscendingEnumeration(order, s);
    }
  }

  /** The ascending enumeration is unique: the order in which a `BTreeMap`
      yields its keys depends on the key set alone. */
  lemma {:induction false} AscendingUnique(a: seq<Path>, b: seq<Path>, s: set<Path>)
    requires AscendingEnumeration(a, s) && AscendingEnumeration(b, s)
    ensures a == b
    decreases |a|
  {
    PathLessIsStrictTotal();
    assert a == [] <==> b == [] by {
      if a != [] { assert a[0] in b; }
      if b != [] { assert b[0] in a; }
    }
    if a != [] {
      assert a[0] == b[0] by {
        assert a[0] in b && b[0] in a;
        var k :| 0 <= k < |a| && a[k] == b[0];
        var j :| 0 <= j < |b| && b[j] == a[0];
        assert k == 0 || j == 0;
      }
      var t := s - {a[0]};
      forall p ensures p in a[1..] <==> p in t {
        if p in a[1..] {
          var i :| 0 <= i < |a[1..]| && a[1..][i] == p;
          assert PathLess(a[0], a[i + 1]);
        }
        if p in t {
          var i :| 0 <= i < |a| && a[i] == p;
          assert i != 0;
          assert a[1..][i - 1] == p;
        }
      }
      forall p ensures p in b[1..] <==> p in t {
        if p in b[1..] {
          var i :| 0 <= i < |b[1..]| && b[1..][i] == p;
          assert PathLess(b[0], b[i + 1]);
        }
        if p in t {
          var i :| 0 <= i < |b| && b[i] == p;
          assert i != 0;
          assert b[1..][i - 1] == p;
        }
      }
      AscendingUnique(a[1..], b[1..], t);
      assert a == [a[0]] + a[1..] && b == [b[0]] + b[1..];
    }
  }

  /** The key order of a `BTreeMap` whose key set is `s`. */
  ghost function AscendingOrder(s: set<Path>): (order: seq<Path>)
    ensures AscendingEnumeration(order, s)
  {
    AscendingExists(s);
    var order :| AscendingEnumeration(order, s);
    order
  }

  /** The key order of the `BTreeMap` built from a set of paths: repeatedly take the least one. */
  method SortPaths(s: set<Path>) returns (order: seq<Path>)
    ensures AscendingEnumeration(order, s)
    ensures order == AscendingOrder(s)
  {
    PathLessIsStrictTotal();
    order := [];
    var rest := s;
    while rest != {}
      invariant rest <= s
      invariant forall p :: p in order <==> p in s - rest
      invariant forall i, j :: 0 <= i < j < |order| ==> PathLess(order[i], order[j])
      invariant forall i, q :: 0 <= i < |order| && q in rest ==> PathLess(order[i], q)
      decreases |rest|
    {
      HasLeast(rest);
      var p :| IsLeast(p, rest);
      forall q | q in rest - {p} ensures PathLess(p, q) {
        assert !PathLess(q, p);
      }
      order := order + [p];
      rest := rest - {p};
    }
    AscendingUnique(order, AscendingOrder(s), s);
  }

  /** `path.display()`: the components joined by `/`. */
  function Display(p: Path): string
  {
    if p == [] then ""
    else if |p| == 1 then p[0]
    else p[0] + "/" + Display(p[1..])
  }
}
