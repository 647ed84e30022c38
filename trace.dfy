/** The trace command: for each `file:line` reference found in a stack trace,
    reports a window of the file's lines around the referenced one, each file
    once, for its first usable reference. */
module Trace {
  import opened Types

  /** A `file:line` capture of the reference pattern, in order of appearance. */
  datatype Reference = Reference(file: string, line: nat)

  /** The report, one entry per written line. */
  datatype TraceLine =
    | Start(file: string, line: nat)
    | Numbered(number: nat, marked: bool, text: string)
    | Unreadable
    | End(file: string)

  /** The first line of the window, as an index: `(line - 1).saturating_sub(context)`. */
  function WindowStart(line: nat, context: nat): nat
    requires line >= 1
  {
    if line - 1 >= context then line - 1 - context else 0
  }

  /** One past the last line of the window: `line + context`, capped at the line count. */
  function WindowEnd(line: nat, context: nat, count: nat): nat
  {
    if line + context <= count then line + context else count
  }

  /** The numbered lines around `line`; only the referenced line is marked. */
  function Window(line: nat, context: nat, lines: seq<string>): (r: seq<TraceLine>)
    requires line >= 1
    ensures |r| == if WindowStart(line, context) <= WindowEnd(line, context, |lines|)
                   then WindowEnd(line, context, |lines|) - WindowStart(line, context) else 0
    ensures forall k :: 0 <= k < |r| ==> r[k].Numbered?
    ensures forall k :: 0 <= k < |r| ==>
      WindowStart(line, context) < r[k].number <= WindowEnd(line, context, |lines|) && r[k].number <= |lines|
    ensures forall i, j :: 0 <= i < j < |r| ==> r[i].number < r[j].number
    ensures forall k :: 0 <= k < |r| ==> r[k].text == lines[r[k].number - 1]
    ensures forall k :: 0 <= k < |r| ==> (r[k].marked <==> r[k].number == line)
  {
    var start := WindowStart(line, context);
    var end := WindowEnd(line, context, |lines|);
    if start >= end then []
    else seq(end - start, k requires 0 <= k < end - start => Numbered(start + k + 1, start + k + 1 == line, lines[start + k]))
  }

  /** The referenced line is shown, and marked, exactly when the file has that
      many lines; a window never shows more than `2 * context + 1` lines. */
  lemma WindowMarksReferencedLine(line: nat, context: nat, lines: seq<string>)
    requires line >= 1
    ensures (exists k :: 0 <= k < |Window(line, context, lines)| && Window(line, context, lines)[k].marked) <==> line <= |lines|
    ensures |Window(line, context, lines)| <= 2 * context + 1
  {
    var r := Window(line, context, lines);
    if line <= |lines| {
      var k := line - 1 - WindowStart(line, context);
      assert r[k].number == line;
    }
  }

  /** The block written for one reference whose file exists. */
  function Block(ref: Reference, content: Option<seq<string>>, context: nat): seq<TraceLine>
    requires ref.line >= 1
  {
    [Start(ref.file, ref.line)]
      + (match content case None => [Unreadable] case Some(lines) => Window(ref.line, context, lines))
      + [End(ref.file)]
  }

  /** Whether a reference is reported: a nonzero line, an existing file not yet reported. */
  predicate Reported(ref: Reference, files: map<string, Option<seq<string>>>, seen: set<string>)
  {
    ref.line != 0 && ref.file in files && ref.file !in seen
  }

  /** The report for `refs`, given the files already reported. `files` holds the
      paths that exist, with their lines, or `None` when they cannot be read. */
  function TraceFrom(refs: seq<Reference>, files: map<string, Option<seq<string>>>, context: nat, seen: set<string>): seq<TraceLine>
    decreases |refs|
  {
    if refs == [] then []
    else
      var ref := refs[0];
      if Reported(ref, files, seen) then
        Block(ref, files[ref.file], context) + TraceFrom(refs[1..], files, context, seen + {ref.file})
      else TraceFrom(refs[1..], files, context, seen)
  }

  /** A block has exactly one start line, its first. */
  lemma BlockShape(ref: Reference, content: Option<seq<string>>, context: nat)
    requires ref.line >= 1
    ensures Block(ref, content, context)[0] == Start(ref.file, ref.line)
    ensures forall k :: 0 < k < |Block(ref, content, context)| ==> !Block(ref, content, context)[k].Start?
  {
  }

  /** Every reported file exists, was not reported before, and is reported for
      its first reference with a nonzero line. */
  lemma {:induction false} StartsComeFromFirstReferences(refs: seq<Reference>, files: map<string, Option<seq<string>>>,
                                                         context: nat, seen: set<string>)
    ensures forall f, l :: Start(f, l) in TraceFrom(refs, files, context, seen) ==>
      f in files && f !in seen && l > 0
      && exists k :: 0 <= k < |refs| && refs[k] == Reference(f, l)
           && forall j :: 0 <= j < k && refs[j].file == f ==> refs[j].line == 0
    decreases |refs|
  {
    if refs != [] {
      var ref := refs[0];
      var rest := refs[1..];
      var seen' := if Reported(ref, files, seen) then seen + {ref.file} else seen;
      StartsComeFromFirstReferences(rest, files, context, seen');
      var out := TraceFrom(refs, files, context, seen);
      forall f, l | Start(f, l) in out
        ensures f in files && f !in seen && l > 0
        ensures exists k ::
          0 <= k < |refs| && refs[k] == Reference(f, l) && forall j :: 0 <= j < k && refs[j].file == f ==> refs[j].line == 0
      {
        if Reported(ref, files, seen) && Start(f, l) in Block(ref, files[ref.file], context) {
          BlockShape(ref, files[ref.file], context);
          var i :| 0 <= i < |Block(ref, files[ref.file], context)| && Block(ref, files[ref.file], context)[i] == Start(f, l);
          assert i == 0;
          assert refs[0] == Reference(f, l);
        } else {
          assert Start(f, l) in TraceFrom(rest, files, context, seen');
          var k :| 0 <= k < |rest| && rest[k] == Reference(f, l)
            && forall j :: 0 <= j < k && rest[j].file == f ==> rest[j].line == 0;
          assert refs[k + 1] == Reference(f, l);
          if ref.file == f {
            assert !Reported(ref, files, seen);
          }
          forall j | 0 <= j < k + 1 && refs[j].file == f ensures refs[j].line == 0 {
            if j > 0 { assert refs[j] == rest[j - 1]; }
          }
        }
      }
    }
  }

  /** No two start lines name the same file. */
  predicate StartsDistinct(out: seq<TraceLine>)
  {
    forall i, j :: 0 <= i < j < |out| && out[i].Start? && out[j].Start? ==> out[i].file != out[j].file
  }

  /** Each file is reported at most once. */
  lemma {:induction false} EachFileOnce(refs: seq<Reference>, files: map<string, Option<seq<string>>>, context: nat, seen: set<string>)
    ensures StartsDistinct(TraceFrom(refs, files, context, seen))
    decreases |refs|
  {
    if refs != [] {
      var ref := refs[0];
      var rest := refs[1..];
      if Reported(ref, files, seen) {
        var seen' := seen + {ref.file};
        var block := Block(ref, files[ref.file], context);
        var tail := TraceFrom(rest, files, context, seen');
        assert TraceFrom(refs, files, context, seen) == block + tail;
        EachFileOnce(rest, files, context, seen');
        StartsNotSeen(rest, files, context, seen');
        BlockShape(ref, files[ref.file], context);
        DistinctAfterBlock(block, tail, ref.file);
      } else {
        EachFileOnce(rest, files, context, seen);
        assert TraceFrom(refs, files, context, seen) == TraceFrom(rest, files, context, seen);
      }
    }
  }

  /** No file already reported starts a later block. */
  lemma StartsNotSeen(refs: seq<Reference>, files: map<string, Option<seq<string>>>, context: nat, seen: set<string>)
    ensures forall f, l :: Start(f, l) in TraceFrom(refs, files, context, seen) ==> f !in seen
  {
    StartsComeFromFirstReferences(refs, files, context, seen);
  }

  /** A block for `file` followed by lines whose starts are distinct and name
      other files has distinct starts. */
  lemma DistinctAfterBlock(block: seq<TraceLine>, tail: seq<TraceLine>, file: string)
    requires |block| > 0 && block[0].Start? && block[0].file == file
    requires forall k :: 0 < k < |block| ==> !block[k].Start?
    requires StartsDistinct(tail)
    requires forall f, l :: Start(f, l) in tail ==> f != file
    ensures StartsDistinct(block + tail)
  {
    var out := block + tail;
    forall i, j | 0 <= i < j < |out| && out[i].Start? && out[j].Start? ensures out[i].file != out[j].file {
      if i >= |block| {
        assert out[i] == tail[i - |block|] && out[j] == tail[j - |block|];
      } else {
        assert i == 0;
        assert j >= |block|;
        assert out[j] == tail[j - |block|];
        assert Start(out[j].file, out[j].line) in tail;
      }
    }
  }

  /** Every existing file that some reference names with a nonzero line is reported. */
  lemma {:induction false} EveryReferencedFileReported(refs: seq<Reference>, files: map<string, Option<seq<string>>>,
                                                       context: nat, seen: set<string>, k: nat)
    requires k < |refs| && Reported(refs[k], files, seen)
    ensures exists l :: Start(refs[k].file, l) in TraceFrom(refs, files, context, seen)
    decreases |refs|
  {
    var ref := refs[0];
    var rest := refs[1..];
    if Reported(ref, files, seen) {
      var block := Block(ref, files[ref.file], context);
      BlockShape(ref, files[ref.file], context);
      if ref.file == refs[k].file {
        assert TraceFrom(refs, files, context, seen)[0] == Start(ref.file, ref.line);
      } else {
        assert rest[k - 1] == refs[k];
        EveryReferencedFileReported(rest, files, context, seen + {ref.file}, k - 1);
        var l :| Start(refs[k].file, l) in TraceFrom(rest, files, context, seen + {ref.file});
        assert TraceFrom(refs, files, context, seen) == block + TraceFrom(rest, files, context, seen + {ref.file});
      }
    } else {
      assert k > 0;
      assert rest[k - 1] == refs[k];
      EveryReferencedFileReported(rest, files, context, seen, k - 1);
    }
  }

  /** The lines written for one reported reference: the start line, the window
      (or the unreadable note), the end line. */
  method EmitBlock(ref: Reference, content: Option<seq<string>>, context: nat) returns (block: seq<TraceLine>)
    requires ref.line >= 1
    ensures block == Block(ref, content, context)
  {
    block := [Start(ref.file, ref.line)];
    match content {
      case None =>
        block := block + [Unreadable];
      case Some(lines) =>
        var start := WindowStart(ref.line, context);
        var end := WindowEnd(ref.line, context, |lines|);
        if start < end {
          for n := start to end
            invariant block == [Start(ref.file, ref.line)] + Window(ref.line, context, lines)[..n - start]
          {
            var number := n + 1;
            var marked := number == ref.line;
            block := block + [Numbered(number, marked, lines[n])];
          }
          assert Window(ref.line, context, lines)[..end - start] == Window(ref.line, context, lines);
        }
    }
    block := block + [End(ref.file)];
  }

  /** `trace::run`, up to formatting: the report lines in order. */
  method Run(refs: seq<Reference>, files: map<string, Option<seq<string>>>, context: nat) returns (out: seq<TraceLine>)
    ensures out == TraceFrom(refs, files, context, {})
  {
    out := [];
    var seen: set<string> := {};
    for i := 0 to |refs|
      invariant out + TraceFrom(refs[i..], files, context, seen) == TraceFrom(refs, files, context, {})
    {
      var ref := refs[i];
      assert refs[i..][0] == ref && refs[i..][1..] == refs[i + 1..];
      if ref.line == 0 || ref.file !in files || ref.file in seen {
        assert TraceFrom(refs[i..], files, context, seen) == TraceFrom(refs[i + 1..], files, context, seen);
        continue;
      }
      var block := EmitBlock(ref, files[ref.file], context);
      assert TraceFrom(refs[i..], files, context, seen) ==
        block + TraceFrom(refs[i + 1..], files, context, seen + {ref.file});
      assert (out + block) + TraceFrom(refs[i + 1..], files, context, seen + {ref.file})
        == out + (block + TraceFrom(refs[i + 1..], files, context, seen + {ref.file}));
      seen := seen + {ref.file};
      out := out + block;
    }
  }
}
