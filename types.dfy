/** Shared vocabulary of the snapshot engine: bytes, paths, digests, manifests,
    snapshot records, the error enum and the external collaborators (hashing,
    serialisation, text decoding) that the engine only calls. */
module Types {

  newtype byte = x: int | 0 <= x < 256

  type Bytes = seq<byte>

  /** A path relative to the project root, as its list of components.
      The walker reports `./a/b.txt`; the model keeps `["a", "b.txt"]`. */
  type Path = seq<string>

  /** A lower-case hex digest, used as the object store key. */
  type Digest = string

  /** Relative path to content digest (a `BTreeMap<PathBuf, String>`). */
  type Manifest = map<Path, Digest>

  type u32 = x: int | 0 <= x < 0x1_0000_0000

  /** Opaque wall-clock instant (a `DateTime<Utc>`). */
  datatype Timestamp = Timestamp(ticks: int)

  datatype Snapshot = Snapshot(id: u32, timestamp: Timestamp, message: string, manifestHash: Digest)

  datatype Option<T> = None | Some(value: T)

  /** The variants of the engine's error enum. */
  datatype Error =
    | Io
    | Walk
    | Regex
    | Json
    | Glob
    | Toml
    | Notify
    | SnapshotIdNotFound(id: u32)
    | NoSnapshots
    | ObjectNotFound(hash: Digest)
    | Format

  datatype Result<T> = Ok(value: T) | Err(error: Error) {
    predicate IsFailure() { Err? }
    function PropagateFailure<U>(): Result<U> requires Err? { Err(error) }
    function Extract(): T requires Ok? { value }
  }

  /** The engine's metadata directory, `.devcat`. */
  const HISTORY_DIR: string := ".devcat"

  /** `path.starts_with("./.devcat")` for a walker path `./` + p: Rust compares
      whole components, so `./.devcatx` is not under it. */
  predicate UnderDevcat(p: Path)
  {
    |p| > 0 && p[0] == HISTORY_DIR
  }

  /** The external functions the engine calls but does not define:
      SHA-256 as hex, serde_json on manifests and on history records,
      and `read_to_string`'s UTF-8 decoding. */
  datatype Codec = Codec(
    hash: Bytes -> Digest,
    serManifest: Manifest -> Bytes,
    parseManifest: Bytes -> Option<Manifest>,
    serRecord: Snapshot -> string,
    parseRecord: string -> Option<Snapshot>,
    decodeText: Bytes -> Option<string>)

  /** Collision-freedom of the digest, taken as a hypothesis. */
  ghost predicate HashInjective(c: Codec)
  {
    forall a: Bytes, b: Bytes :: c.hash(a) == c.hash(b) ==> a == b
  }

  /** serde_json reads back what it wrote. */
  ghost predicate ManifestRoundTrips(c: Codec)
  {
    forall m: Manifest :: c.parseManifest(c.serManifest(m)) == Some(m)
  }

  /** The object store is content-addressed: every object sits under its own digest. */
  ghost predicate ContentAddressed(objects: map<Digest, Bytes>, c: Codec)
  {
    forall d :: d in objects ==> c.hash(objects[d]) == d
  }

  // ---------------------------------------------------------------------------
  // UTF-8, the encoding Rust's `String` uses when written to a file.

  /** The UTF-8 encoding of one Unicode scalar value. */
  function Utf8Char(ch: char): (r: Bytes)
    ensures 1 <= |r| <= 4
    ensures (ch as int) < 0x80 <==> |r| == 1
    ensures |r| == 1 ==> r[0] as int == ch as int
  {
    var c := ch as int;
    if c < 0x80 then [c as byte]
    else if c < 0x800 then [(0xC0 + c / 64) as byte, (0x80 + c % 64) as byte]
    else if c < 0x1_0000 then
      [(0xE0 + c / 4096) as byte, (0x80 + (c / 64) % 64) as byte, (0x80 + c % 64) as byte]
    else
      [(0xF0 + c / 262144) as byte, (0x80 + (c / 4096) % 64) as byte,
       (0x80 + (c / 64) % 64) as byte, (0x80 + c % 64) as byte]
  }

  /** Concatenation of a list of byte strings. */
  function Concat(parts: seq<Bytes>): Bytes
  {
    if parts == [] then [] else parts[0] + Concat(parts[1..])
  }

  lemma {:induction false} ConcatAppend(a: seq<Bytes>, b: seq<Bytes>)
    ensures Concat(a + b) == Concat(a) + Concat(b)
  {
    if a == [] {
      assert a + b == b;
    } else {
      assert (a + b)[0] == a[0];
      assert (a + b)[1..] == a[1..] + b;
      ConcatAppend(a[1..], b);
    }
  }

  /** The per-character encodings of a string. */
  function CharCodes(s: string): (r: seq<Bytes>)
    ensures |r| == |s|
  {
    seq(|s|, i requires 0 <= i < |s| => Utf8Char(s[i]))
  }

  /** `str::as_bytes`. */
  function Utf8(s: string): Bytes
  {
    Concat(CharCodes(s))
  }

  /** Encoding distributes over concatenation. */
  lemma Utf8Append(a: string, b: string)
    ensures Utf8(a + b) == Utf8(a) + Utf8(b)
  {
    assert CharCodes(a + b) == CharCodes(a) + CharCodes(b);
    ConcatAppend(CharCodes(a), CharCodes(b));
  }

  /** A string of ASCII characters encodes to its character codes. */
  lemma {:induction false} AsciiConcat(parts: seq<Bytes>)
    requires forall i :: 0 <= i < |parts| ==> |parts[i]| == 1
    ensures Concat(parts) == seq(|parts|, i requires 0 <= i < |parts| => parts[i][0])
  {
    if parts != [] {
      AsciiConcat(parts[1..]);
    }
  }
}
