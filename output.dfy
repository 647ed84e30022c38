/** Output routing: a report is printed, or written to a file that starts with
    the output marker; the marker check is what lets the manifest builder skip
    such files. */
module Output {
  import opened Types

  /** `FILE_SIGNATURE`, the first line of every report written to a file. */
  function FileSignatureText(): string
  {
    "// DEVCAT-OUTPUT-FILE"
  }

  /** `FILE_SIGNATURE.as_bytes()`, spelled out byte by byte. */
  function FileSignature(): Bytes
  {
    [47, 47, 32, 68, 69, 86, 67, 65, 84, 45, 79, 85, 84, 80, 85, 84, 45, 70, 73, 76, 69]
  }

  /** The byte spelling is the UTF-8 encoding of the marker text. */
  lemma SignatureIsEncodedText()
    ensures Utf8(FileSignatureText()) == FileSignature()
  {
    var text := FileSignatureText();
    var codes := CharCodes(text);
    forall i | 0 <= i < |codes|
      ensures |codes[i]| == 1 && codes[i][0] == FileSignature()[i]
    {
      assert (text[i] as int) < 0x80 && text[i] as int == FileSignature()[i] as int;
    }
    AsciiConcat(codes);
  }

  /** Where `handle_output` sends a report. */
  datatype Emitted = Printed(text: string) | Written(path: Path, bytes: Bytes)

  /** `check_file_signature`: `file` is `None` when the file cannot be opened.
      A file shorter than the marker fails `read_exact` and reads as unmarked. */
  predicate CheckFileSignature(file: Option<Bytes>)
  {
    match file
    case None => false
    case Some(b) =>
      var sig := FileSignature();
      |b| >= |sig| && b[..|sig|] == sig
  }

  /** The check accepts exactly the readable files that begin with the marker. */
  lemma SignatureIsPrefix(file: Option<Bytes>)
    ensures CheckFileSignature(file) <==> file.Some? && exists rest :: file.value == FileSignature() + rest
  {
    if file.Some? {
      PrefixIff(file.value, FileSignature());
    }
  }

  lemma PrefixIff(b: Bytes, sig: Bytes)
    ensures (|b| >= |sig| && b[..|sig|] == sig) <==> exists rest :: b == sig + rest
  {
    if |b| >= |sig| && b[..|sig|] == sig {
      assert b == sig + b[|sig|..];
    }
    if exists rest :: b == sig + rest {
      var rest :| b == sig + rest;
      assert b[..|sig|] == sig;
    }
  }

  /** `handle_output`: prints the report, or writes the marker, a newline and
      the report to the given path. */
  function HandleOutput(content: string, output: Option<Path>): (r: Emitted)
    ensures output.None? ==> r == Printed(content)
    ensures output.Some? ==> r.Written? && r.path == output.value
    ensures output.Some? ==> CheckFileSignature(Some(r.bytes))
    ensures output.Some? ==> r.bytes == FileSignature() + Utf8("\n" + content)
  {
    match output
    case None => Printed(content)
    case Some(path) =>
      var text := FileSignatureText() + "\n" + content;
      Utf8Append(FileSignatureText(), "\n" + content);
      SignatureIsEncodedText();
      assert text == FileSignatureText() + ("\n" + content);
      var bytes := Utf8(text);
      assert bytes[..|FileSignature()|] == FileSignature();
      Written(path, bytes)
  }
}
