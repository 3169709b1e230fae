// The line-ending normaliser: it classifies a file by the terminator of its
// first line and, for Windows (CR LF) or classic Mac (CR) files, copies the
// file line by line through a universal-newline reader so that every
// terminator becomes LF. The file system is modelled by the input file's
// bytes and the result says which path is returned and what was written to it.

module LineEnding {
  import opened Wrappers

  newtype byte = x: int | 0 <= x < 256

  const CR: byte := 13
  const LF: byte := 10

  datatype Ending = Windows | Mac | Unix

  datatype LineEndingError =
    | SameFile
    | InvalidEnding(firstLine: seq<byte>)

  /** The exit message; `repr` renders the offending bytes the way Python
      formats a `bytes` value. */
  function Message(e: LineEndingError, repr: seq<byte> -> string): string {
    match e
    case SameFile =>
      "Error - you must omit output file argument if it is identical to input file"
    case InvalidEnding(line) =>
      "Error - invalid line ending in the first line: " + repr(line)
  }

  /** What a run leaves behind: the returned path, plus the bytes written to
      it when a copy was made. */
  datatype Converted =
    | Kept(path: string)
    | Rewritten(path: string, content: seq<byte>)

  /** A CR immediately followed by an LF occurs in `s`. */
  predicate HasCrLf(s: seq<byte>) {
    exists i :: 0 <= i < |s| - 1 && s[i] == CR && s[i + 1] == LF
  }

  /** What a binary `readline` returns: everything up to and including the
      first LF, or the whole file when there is none. */
  function FirstLine(content: seq<byte>): (r: seq<byte>)
    ensures r <= content
    ensures LF in content ==> |r| > 0 && r[|r| - 1] == LF && LF !in r[..|r| - 1]
    ensures LF !in content ==> r == content
  {
    if |content| == 0 then []
    else if content[0] == LF then [LF]
    else [content[0]] + FirstLine(content[1..])
  }

  /** The terminator checks in the order they are tried. */
  function Classify(line: seq<byte>): Option<Ending> {
    if HasCrLf(line) then Some(Windows)
    else if CR in line then Some(Mac)
    else if LF in line then Some(Unix)
    else None
  }

  /** The text a universal-newline reader yields: CR LF and a lone CR both
      read as LF. */
  function Normalise(s: seq<byte>): (r: seq<byte>)
    ensures |r| <= |s|
  {
    if |s| == 0 then []
    else if s[0] == CR then
      if |s| > 1 && s[1] == LF then [LF] + Normalise(s[2..]) else [LF] + Normalise(s[1..])
    else [s[0]] + Normalise(s[1..])
  }

  /** The lines the reader hands out, each ending in its LF, the last one
      possibly without. */
  function TextLines(t: seq<byte>): (r: seq<seq<byte>>)
    decreases |t|
  {
    if |t| == 0 then []
    else
      var n := |FirstLine(t)|;
      [t[..n]] + TextLines(t[n..])
  }

  function Concat(parts: seq<seq<byte>>): seq<byte> {
    if |parts| == 0 then [] else Concat(parts[..|parts| - 1]) + parts[|parts| - 1]
  }

  /** Writing the lines one after the other reproduces the text. */
  lemma {:induction false} ConcatTextLines(t: seq<byte>)
    ensures Concat(TextLines(t)) == t
    decreases |t|
  {
    if |t| > 0 {
      var n := |FirstLine(t)|;
      assert TextLines(t) == [t[..n]] + TextLines(t[n..]);
      ConcatTextLines(t[n..]);
      ConcatCons(t[..n], TextLines(t[n..]));
      TakeDrop(t, n);
    }
  }

  lemma TakeDrop(t: seq<byte>, n: nat)
    requires n <= |t|
    ensures t[..n] + t[n..] == t
  {
  }

  lemma {:induction false} ConcatCons(head: seq<byte>, tail: seq<seq<byte>>)
    ensures Concat([head] + tail) == head + Concat(tail)
    decreases |tail|
  {
    if |tail| > 0 {
      var all := [head] + tail;
      assert all[..|all| - 1] == [head] + tail[..|tail| - 1];
      ConcatCons(head, tail[..|tail| - 1]);
    } else {
      assert [head] + tail == [head];
      assert [head][..0] == [];
    }
  }

  /** The path the copy goes to: the one given, or the input path with
      `.tmp` appended. */
  function Target(inputFile: string, outputFile: Option<string>): (r: string)
    ensures outputFile.Some? ==> r == outputFile.value
    ensures outputFile.None? ==> r != inputFile
  {
    if outputFile.Some? then outputFile.value else inputFile + ".tmp"
  }

  /** A whole run on a file holding `content`, as written: the test that should
      move the copy over the input file asks whether the output path is unset
      after it has been set to the `.tmp` path, so the copy stays at that path
      and that path is returned. */
  function RunAsWritten(inputFile: string, outputFile: Option<string>, content: seq<byte>)
    : Result<Converted, LineEndingError>
  {
    if outputFile == Some(inputFile) then Err(SameFile)
    else
      var first := FirstLine(content);
      match Classify(first)
      case None => Err(InvalidEnding(first))
      case Some(Unix) => Ok(Kept(inputFile))
      case Some(_) => Ok(Rewritten(Target(inputFile, outputFile), Normalise(content)))
  }

  /** Where the converted text ends up: the output path when one is given,
      otherwise the input path, which the copy replaces. */
  function Destination(inputFile: string, outputFile: Option<string>): (r: string)
    ensures outputFile.Some? ==> r == outputFile.value
    ensures outputFile.None? ==> r == inputFile
  {
    if outputFile.Some? then outputFile.value else inputFile
  }

  /** A whole run on a file holding `content`, as intended: without an output
      path the copy replaces the input file and the input path is returned. */
  function Run(inputFile: string, outputFile: Option<string>, content: seq<byte>)
    : Result<Converted, LineEndingError>
  {
    if outputFile == Some(inputFile) then Err(SameFile)
    else
      var first := FirstLine(content);
      match Classify(first)
      case None => Err(InvalidEnding(first))
      case Some(Unix) => Ok(Kept(inputFile))
      case Some(_) => Ok(Rewritten(Destination(inputFile, outputFile), Normalise(content)))
  }

  /**
   * `ch_line_ending`: refuses an output path equal to the input path before
   * reading, classifies the first line, and for a Windows or Mac file copies
   * the lines of the universal-newline reading to the output path, or to the
   * `.tmp` path that then replaces the input file when none is given.
   */
  method ChLineEnding(inputFile: string, outputFile: Option<string>, content: seq<byte>)
    returns (r: Result<Converted, LineEndingError>)
    ensures r == Run(inputFile, outputFile, content)
  {
    if outputFile == Some(inputFile) {
      return Err(SameFile);
    }
    var first := FirstLine(content);
    var ending := Classify(first);
    if ending.None? {
      return Err(InvalidEnding(first));
    }
    if ending == Some(Unix) {
      return Ok(Kept(inputFile));
    }
    var output := outputFile;
    if output.None? {
      output := Some(inputFile + ".tmp");
    }
    var text := Normalise(content);
    var written := WriteLines(TextLines(text));
    ConcatTextLines(text);
    var path := output.value;
    if outputFile.None? {
      path := inputFile;
    }
    return Ok(Rewritten(path, written));
  }

  /** The copy loop: writes the lines one after the other. */
  method WriteLines(lines: seq<seq<byte>>) returns (written: seq<byte>)
    ensures written == Concat(lines)
  {
    written := [];
    for i := 0 to |lines|
      invariant written == Concat(lines[..i])
    {
      assert lines[..i + 1][..i] == lines[..i];
      written := written + lines[i];
    }
    assert lines[..|lines|] == lines;
  }

  // ---------------------------------------------------------------------------
  // Properties.
  // ---------------------------------------------------------------------------

  /** An output path equal to the input path is refused whatever the file holds. */
  lemma SameFileRefused(inputFile: string, content: seq<byte>)
    ensures Run(inputFile, Some(inputFile), content) == Err(SameFile)
  {
  }

  /** The precedence of the checks, stated on the line: Windows iff some CR LF,
      Mac iff a CR but no CR LF, Unix iff an LF but no CR, invalid iff neither. */
  lemma ClassifyPrecedence(line: seq<byte>)
    ensures Classify(line) == Some(Windows) <==> HasCrLf(line)
    ensures Classify(line) == Some(Mac) <==> !HasCrLf(line) && CR in line
    ensures Classify(line) == Some(Unix) <==> CR !in line && LF in line
    ensures Classify(line) == None <==> CR !in line && LF !in line
  {
    if HasCrLf(line) {
      var i :| 0 <= i < |line| - 1 && line[i] == CR && line[i + 1] == LF;
      assert line[i] in line;
    }
  }

  /** A file is refused as having no line ending iff it holds no CR and no LF
      at all. */
  lemma InvalidIffNoTerminator(inputFile: string, outputFile: Option<string>, content: seq<byte>)
    requires outputFile != Some(inputFile)
    ensures Run(inputFile, outputFile, content).Err? <==> CR !in content && LF !in content
  {
    var first := FirstLine(content);
    ClassifyPrecedence(first);
    if LF in content {
      assert LF in first;
    } else if CR in content {
      assert first == content;
    }
  }

  /** A file whose first line ends in LF with no CR before it is left alone,
      whatever follows: the input path comes back and nothing is written. */
  lemma UnixKept(inputFile: string, outputFile: Option<string>, content: seq<byte>)
    requires outputFile != Some(inputFile)
    requires LF in content && CR !in FirstLine(content)
    ensures Run(inputFile, outputFile, content) == Ok(Kept(inputFile))
  {
    var first := FirstLine(content);
    assert first[|first| - 1] == LF;
    ClassifyPrecedence(first);
  }

  /** As written, the copy never goes to the input path, so the input file is
      neither removed nor replaced. */
  lemma InputNeverOverwrittenAsWritten(inputFile: string, outputFile: Option<string>, content: seq<byte>)
    ensures RunAsWritten(inputFile, outputFile, content).Ok? && RunAsWritten(inputFile, outputFile, content).value.Rewritten? ==>
      RunAsWritten(inputFile, outputFile, content).value.path != inputFile
  {
  }

  /** The two forms agree whenever an output path is given. */
  lemma AsWrittenAgreesWithOutput(inputFile: string, outputFile: Option<string>, content: seq<byte>)
    requires outputFile.Some?
    ensures RunAsWritten(inputFile, outputFile, content) == Run(inputFile, outputFile, content)
  {
  }

  /** As intended, a run without an output path returns the input path, and a
      converted file is replaced by its universal-newline reading; with an
      output path the input file is never written. */
  lemma InPlaceWithoutOutput(inputFile: string, outputFile: Option<string>, content: seq<byte>)
    ensures var r := Run(inputFile, outputFile, content);
      outputFile.None? && r.Ok? ==> r.value.path == inputFile
    ensures var r := Run(inputFile, outputFile, content);
      (outputFile.None? && r.Ok? && r.value.Rewritten?) ==> r.value.content == Normalise(content)
    ensures var r := Run(inputFile, outputFile, content);
      (outputFile.Some? && r.Ok? && r.value.Rewritten?) ==> r.value.path != inputFile
  {
  }

  /** Normalised text holds no CR. */
  lemma {:induction false} NormaliseHasNoCr(s: seq<byte>)
    ensures CR !in Normalise(s)
    decreases |s|
  {
    if |s| > 0 {
      if s[0] == CR && |s| > 1 && s[1] == LF {
        NormaliseHasNoCr(s[2..]);
      } else {
        NormaliseHasNoCr(s[1..]);
      }
    }
  }

  /** Text without CR is read back unchanged. */
  lemma {:induction false} NormaliseKeepsPlain(s: seq<byte>)
    requires CR !in s
    ensures Normalise(s) == s
    decreases |s|
  {
    if |s| > 0 {
      assert s[0] != CR by {
        assert s[0] in s;
      }
      NormaliseKeepsPlain(s[1..]);
      assert s == [s[0]] + s[1..];
    }
  }

  /** Converting a converted file changes nothing further. */
  lemma NormaliseIdempotent(s: seq<byte>)
    ensures Normalise(Normalise(s)) == Normalise(s)
  {
    NormaliseHasNoCr(s);
    NormaliseKeepsPlain(Normalise(s));
  }

  /** Every LF written as CR LF. */
  function ToWindows(s: seq<byte>): seq<byte> {
    if |s| == 0 then []
    else (if s[0] == LF then [CR, LF] else [s[0]]) + ToWindows(s[1..])
  }

  /** Every LF written as CR. */
  function ToMac(s: seq<byte>): seq<byte> {
    if |s| == 0 then []
    else (if s[0] == LF then [CR] else [s[0]]) + ToMac(s[1..])
  }

  /** Normalising undoes writing a Unix text with Windows terminators. */
  lemma {:induction false} WindowsRoundTrip(s: seq<byte>)
    requires CR !in s
    ensures Normalise(ToWindows(s)) == s
    decreases |s|
  {
    if |s| > 0 {
      assert s[0] in s;
      var rest := s[1..];
      assert CR !in rest by { assert forall i :: 0 <= i < |rest| ==> rest[i] == s[i + 1]; }
      WindowsRoundTrip(rest);
      var w := ToWindows(s);
      if s[0] == LF {
        assert w == [CR, LF] + ToWindows(rest);
        assert w[2..] == ToWindows(rest);
      } else {
        assert w == [s[0]] + ToWindows(rest);
        assert w[1..] == ToWindows(rest);
      }
    }
  }

  /** Normalising undoes writing a Unix text with Mac terminators. */
  lemma {:induction false} MacRoundTrip(s: seq<byte>)
    requires CR !in s
    ensures Normalise(ToMac(s)) == s
    decreases |s|
  {
    if |s| > 0 {
      assert s[0] in s;
      var rest := s[1..];
      assert CR !in rest by { assert forall i :: 0 <= i < |rest| ==> rest[i] == s[i + 1]; }
      MacRoundTrip(rest);
      var m := ToMac(s);
      assert m[1..] == ToMac(rest);
      if s[0] == LF && |rest| > 0 {
        assert rest[0] in rest;
        MacNoLeadingLf(rest);
      }
    }
  }

  /** A Mac rendering of CR-free text never starts with LF. */
  lemma MacNoLeadingLf(s: seq<byte>)
    requires CR !in s && |s| > 0
    ensures ToMac(s)[0] != LF
  {
    assert s[0] in s;
  }

  /** A line ended by CR LF and then a last line without terminator: a Windows
      file, read back with LF in place of CR LF. */
  lemma WindowsShape(a: seq<byte>, b: seq<byte>)
    requires CR !in a && LF !in a && CR !in b && LF !in b
    ensures Classify(FirstLine(a + [CR, LF] + b)) == Some(Windows)
    ensures Normalise(a + [CR, LF] + b) == a + [LF] + b
  {
    WindowsFirstLine(a, b);
    var plain := a + [LF] + b;
    assert CR !in plain;
    ToWindowsAppend(a, b);
    WindowsRoundTrip(plain);
  }

  /** The first line of such a file ends in CR LF. */
  lemma WindowsFirstLine(a: seq<byte>, b: seq<byte>)
    requires LF !in a
    ensures Classify(FirstLine(a + [CR, LF] + b)) == Some(Windows)
  {
    WindowsFirstLineIs(a, b);
    EndsInCrLf(a);
  }

  /** Such a file's first line runs up to and including the LF after the CR. */
  lemma WindowsFirstLineIs(a: seq<byte>, b: seq<byte>)
    requires LF !in a
    ensures FirstLine(a + [CR, LF] + b) == a + [CR] + [LF]
  {
    var head := a + [CR];
    assert LF !in head;
    assert a + [CR, LF] + b == head + [LF] + b;
    FirstLineAfter(head, b);
  }

  /** A line ending in CR LF holds the pair. */
  lemma EndsInCrLf(a: seq<byte>)
    ensures HasCrLf(a + [CR] + [LF])
  {
    var line := a + [CR] + [LF];
    assert line[|a|] == CR && line[|a| + 1] == LF;
  }

  /** The shape of the repository's Windows sample: a line ended by CR LF,
      then a last line without terminator; the copy ends the first line with
      LF instead. */
  lemma WindowsSample(inputFile: string, out: string, a: seq<byte>, b: seq<byte>)
    requires out != inputFile
    requires CR !in a && LF !in a && CR !in b && LF !in b
    ensures Run(inputFile, Some(out), a + [CR, LF] + b) == Ok(Rewritten(out, a + [LF] + b))
  {
    WindowsShape(a, b);
  }

  /** The Windows sample converted without an output path: as written the
      result stays at the `.tmp` path and the input file is untouched, while
      the intended run replaces the input file. */
  lemma TmpLeftBehind(inputFile: string, a: seq<byte>, b: seq<byte>)
    requires CR !in a && LF !in a && CR !in b && LF !in b
    ensures RunAsWritten(inputFile, None, a + [CR, LF] + b) == Ok(Rewritten(inputFile + ".tmp", a + [LF] + b))
    ensures Run(inputFile, None, a + [CR, LF] + b) == Ok(Rewritten(inputFile, a + [LF] + b))
  {
    WindowsShape(a, b);
  }

  /** The shape of the repository's Mac sample: a line ended by a lone CR,
      then a last line without terminator; the copy ends the first line with
      LF instead. */
  lemma MacSample(inputFile: string, out: string, a: seq<byte>, b: seq<byte>)
    requires out != inputFile
    requires CR !in a && LF !in a && CR !in b && LF !in b
    ensures Run(inputFile, Some(out), a + [CR] + b) == Ok(Rewritten(out, a + [LF] + b))
  {
    var content := a + [CR] + b;
    var plain := a + [LF] + b;
    assert CR !in plain;
    ToMacAppend(a, b);
    MacRoundTrip(plain);
    assert Normalise(content) == plain;
    assert LF !in content;
    assert FirstLine(content) == content;
    assert !HasCrLf(content);
    assert content[|a|] == CR;
  }

  /** Text without LF renders the same in both styles. */
  lemma {:induction false} NoLfUnchanged(s: seq<byte>)
    requires LF !in s
    ensures ToWindows(s) == s && ToMac(s) == s
    decreases |s|
  {
    if |s| > 0 {
      assert s[0] in s;
      assert LF !in s[1..] by { assert forall i :: 0 <= i < |s| - 1 ==> s[1..][i] == s[i + 1]; }
      NoLfUnchanged(s[1..]);
    }
  }

  lemma {:induction false} ToWindowsConcat(x: seq<byte>, y: seq<byte>)
    ensures ToWindows(x + y) == ToWindows(x) + ToWindows(y)
    decreases |x|
  {
    if |x| > 0 {
      assert (x + y)[0] == x[0] && (x + y)[1..] == x[1..] + y;
      ToWindowsConcat(x[1..], y);
    } else {
      assert x + y == y;
    }
  }

  lemma {:induction false} ToMacConcat(x: seq<byte>, y: seq<byte>)
    ensures ToMac(x + y) == ToMac(x) + ToMac(y)
    decreases |x|
  {
    if |x| > 0 {
      assert (x + y)[0] == x[0] && (x + y)[1..] == x[1..] + y;
      ToMacConcat(x[1..], y);
    } else {
      assert x + y == y;
    }
  }

  lemma ToWindowsAppend(a: seq<byte>, b: seq<byte>)
    requires LF !in a && LF !in b
    ensures ToWindows(a + [LF] + b) == a + [CR, LF] + b
  {
    ToWindowsConcat(a + [LF], b);
    ToWindowsConcat(a, [LF]);
    NoLfUnchanged(a);
    NoLfUnchanged(b);
    assert ToWindows([LF]) == [CR, LF];
  }

  lemma ToMacAppend(a: seq<byte>, b: seq<byte>)
    requires LF !in a && LF !in b
    ensures ToMac(a + [LF] + b) == a + [CR] + b
  {
    ToMacConcat(a + [LF], b);
    ToMacConcat(a, [LF]);
    NoLfUnchanged(a);
    NoLfUnchanged(b);
    assert ToMac([LF]) == [CR];
  }

  /** The first line of `a + [LF] + b`, when `a` holds no LF, is `a + [LF]`. */
  lemma {:induction false} FirstLineAfter(a: seq<byte>, b: seq<byte>)
    requires LF !in a
    ensures FirstLine(a + [LF] + b) == a + [LF]
    decreases |a|
  {
    var s := a + [LF] + b;
    if |a| > 0 {
      assert a[0] in a;
      assert s[0] == a[0] && s[1..] == a[1..] + [LF] + b;
      assert LF !in a[1..] by { assert forall i :: 0 <= i < |a| - 1 ==> a[1..][i] == a[i + 1]; }
      FirstLineAfter(a[1..], b);
    } else {
      assert s[0] == LF;
    }
  }
}
