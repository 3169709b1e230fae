// The input validator run before a network build: the expression file must
// carry the isoformId/geneSymbol header and tab-delimited fields without
// spaces or run-together decimals, and the probe file must hold one word per
// line. A file is modelled as the sequence of lines Python's line iterator
// yields, each with its line terminator.

module QcInput {
  import opened Wrappers
  import opened Strings

  /** How a check stops the program: `sys.exit` with a message, or the
      uncaught `IndexError` of a one-field header whose first field matches. */
  datatype QcError =
    | ImproperHeader
    | SpacesNotAllowed
    | MissingTabSpacing
    | MultipleWords
    | HeaderIndexError

  function Message(e: QcError): string {
    match e
    case ImproperHeader => "Error - Improper header in input file"
    case SpacesNotAllowed => "Error - spaces are not allowed, only tabs can delimit input file"
    case MissingTabSpacing => "Error - There are some numeric entries missing tab-spacing"
    case MultipleWords => "Error - There are more than one word per line in this probe file"
    case HeaderIndexError => "IndexError: list index out of range"
  }

  /** What `readline` gives for the first line: "" for an empty file. */
  function Header(lines: seq<string>): string {
    if |lines| == 0 then "" else lines[0]
  }

  /** The lines the loop after `readline` visits. */
  function Body(lines: seq<string>): seq<string> {
    if |lines| == 0 then [] else lines[1..]
  }

  /** The header names the isoform and gene-symbol columns, in that order. */
  predicate HeaderOk(header: string) {
    var words := Split(header, "\t");
    |words| >= 2 && words[0] == "isoformId" && words[1] == "geneSymbol"
  }

  // ---------------------------------------------------------------------------
  // Expression file.
  // ---------------------------------------------------------------------------

  /** One field of a data line: a space is reported before a second `.`. */
  function CheckWord(w: string): (r: Outcome<QcError>)
    ensures r.Pass? <==> ' ' !in w && multiset(w)['.'] <= 1
  {
    if ' ' in w then Fail(SpacesNotAllowed)
    else if multiset(w)['.'] > 1 then Fail(MissingTabSpacing)
    else Pass
  }

  /** The inner loop over the fields of one line. */
  function CheckWords(ws: seq<string>): Outcome<QcError> {
    if |ws| == 0 then Pass
    else if CheckWord(ws[0]).Fail? then CheckWord(ws[0])
    else CheckWords(ws[1..])
  }

  /** The outer loop over the lines after the header. */
  function CheckLines(body: seq<string>): Outcome<QcError> {
    if |body| == 0 then Pass
    else
      var here := CheckWords(Split(body[0], "\t"));
      if here.Fail? then here else CheckLines(body[1..])
  }

  /** `check_exp`: the header first, then every field in file order. */
  function CheckExp(lines: seq<string>): Outcome<QcError> {
    var words := Split(Header(lines), "\t");
    if words[0] != "isoformId" then Fail(ImproperHeader)
    else if |words| < 2 then Fail(HeaderIndexError)
    else if words[1] != "geneSymbol" then Fail(ImproperHeader)
    else CheckLines(Body(lines))
  }

  /** Every field of every line after the header, in file order. */
  function Words(body: seq<string>): seq<string> {
    if |body| == 0 then [] else Split(body[0], "\t") + Words(body[1..])
  }

  /** Field `k` is the first one a check rejects. */
  ghost predicate IsFirstFailure(ws: seq<string>, k: int) {
    0 <= k < |ws| && CheckWord(ws[k]).Fail? &&
    forall j :: 0 <= j < k ==> CheckWord(ws[j]).Pass?
  }

  /** The field loop passes iff every field passes, and otherwise stops with
      the error of the first field that fails. */
  lemma {:induction false} CheckWordsFirstFailure(ws: seq<string>)
    ensures CheckWords(ws).Pass? <==> forall k :: 0 <= k < |ws| ==> CheckWord(ws[k]).Pass?
    ensures CheckWords(ws).Fail? ==>
      exists k :: IsFirstFailure(ws, k) && CheckWord(ws[k]) == CheckWords(ws)
  {
    if |ws| > 0 {
      if CheckWord(ws[0]).Fail? {
        assert IsFirstFailure(ws, 0);
      } else {
        var tail := ws[1..];
        CheckWordsFirstFailure(tail);
        assert forall k :: 1 <= k < |ws| ==> ws[k] == tail[k - 1];
        if CheckWords(tail).Fail? {
          var k :| IsFirstFailure(tail, k) && CheckWord(tail[k]) == CheckWords(tail);
          assert IsFirstFailure(ws, k + 1);
        } else {
          assert forall k :: 0 <= k < |ws| ==> CheckWord(ws[k]).Pass? by {
            forall k | 0 <= k < |ws|
              ensures CheckWord(ws[k]).Pass?
            {
              if k > 0 { assert ws[k] == tail[k - 1]; }
            }
          }
        }
      }
    }
  }

  /** Running the field loop over two runs of fields one after the other. */
  lemma {:induction false} CheckWordsAppend(a: seq<string>, b: seq<string>)
    ensures CheckWords(a + b) == if CheckWords(a).Fail? then CheckWords(a) else CheckWords(b)
  {
    if |a| > 0 {
      assert (a + b)[0] == a[0];
      assert (a + b)[1..] == a[1..] + b;
      CheckWordsAppend(a[1..], b);
    } else {
      assert a + b == b;
    }
  }

  /** The nested loops check the fields exactly as one loop over all of them. */
  lemma {:induction false} CheckLinesFlat(body: seq<string>)
    ensures CheckLines(body) == CheckWords(Words(body))
  {
    if |body| > 0 {
      CheckLinesFlat(body[1..]);
      CheckWordsAppend(Split(body[0], "\t"), Words(body[1..]));
    }
  }

  /** An expression file passes iff its header is right and no field after it
      holds a space or more than one `.`; a header that is not right is always
      what gets reported. */
  lemma CheckExpCharacterised(lines: seq<string>)
    ensures CheckExp(lines).Pass? <==>
      HeaderOk(Header(lines)) &&
      forall k :: 0 <= k < |Words(Body(lines))| ==> CheckWord(Words(Body(lines))[k]).Pass?
    ensures !HeaderOk(Header(lines)) <==>
      CheckExp(lines) in {Fail(ImproperHeader), Fail(HeaderIndexError)}
  {
    CheckLinesFlat(Body(lines));
    CheckWordsFirstFailure(Words(Body(lines)));
  }

  /** A field can only fail with one of the two field messages, and the first
      rejected field in file order decides which. */
  lemma CheckExpFirstField(lines: seq<string>)
    requires HeaderOk(Header(lines)) && CheckExp(lines).Fail?
    ensures CheckExp(lines) in {Fail(SpacesNotAllowed), Fail(MissingTabSpacing)}
    ensures exists k :: (IsFirstFailure(Words(Body(lines)), k) &&
      CheckWord(Words(Body(lines))[k]) == CheckExp(lines))
  {
    CheckLinesFlat(Body(lines));
    CheckWordsFirstFailure(Words(Body(lines)));
  }

  /** Python keeps the line terminator in the last header field, so a header
      naming only the two key columns is rejected. */
  lemma BareHeaderRejected()
    ensures CheckExp(["isoformId\tgeneSymbol\n"]) == Fail(ImproperHeader)
  {
    var a, b := "isoformId", "geneSymbol\n";
    assert "isoformId\tgeneSymbol\n" == a + "\t" + b;
    CharAbsent(a + "\t", '\t');
    CharAbsent(b, '\t');
    SplitPair(a, "\t", b);
  }

  // ---------------------------------------------------------------------------
  // Probe file.
  // ---------------------------------------------------------------------------

  /** `check_probe`: stops at the first line that splits on a space. */
  function CheckProbe(lines: seq<string>): Outcome<QcError> {
    if |lines| == 0 then Pass
    else if |Split(lines[0], " ")| > 1 then Fail(MultipleWords)
    else CheckProbe(lines[1..])
  }

  /** A one-character pattern occurs exactly where that character is. */
  lemma OneCharOccurs(s: string, c: char, j: int)
    ensures OccursAt(s, [c], j) <==> 0 <= j < |s| && s[j] == c
  {
    if 0 <= j < |s| {
      assert s[j..j + 1] == [s[j]];
    }
  }

  /** Where a character is missing, it occurs nowhere as a pattern. */
  lemma CharAbsent(s: string, c: char)
    ensures forall j :: 0 <= j < |s| && s[j] == c <== OccursAt(s, [c], j)
  {
    forall j | OccursAt(s, [c], j)
      ensures 0 <= j < |s| && s[j] == c
    {
      OneCharOccurs(s, c, j);
    }
  }

  /** A line splits on a space into more than one piece iff it holds a space. */
  lemma SplitOnSpace(s: string)
    ensures |Split(s, " ")| > 1 <==> ' ' in s
  {
    if ' ' in s {
      var j :| 0 <= j < |s| && s[j] == ' ';
      OneCharOccurs(s, ' ', j);
      assert FindFrom(s, " ", 0) >= 0;
    } else {
      CharAbsent(s, ' ');
      SplitWithoutSep(s, " ");
    }
  }

  /** A probe file passes iff no line holds a space. */
  lemma {:induction false} CheckProbeCharacterised(lines: seq<string>)
    ensures CheckProbe(lines) in {Pass, Fail(MultipleWords)}
    ensures CheckProbe(lines).Pass? <==> forall i :: 0 <= i < |lines| ==> ' ' !in lines[i]
  {
    if |lines| > 0 {
      SplitOnSpace(lines[0]);
      CheckProbeCharacterised(lines[1..]);
      assert forall i :: 1 <= i < |lines| ==> lines[i] == lines[1..][i - 1];
    }
  }

  // ---------------------------------------------------------------------------
  // The whole run.
  // ---------------------------------------------------------------------------

  /** `main`: the expression file is checked before the probe file. */
  function Qc(expLines: seq<string>, probeLines: seq<string>): Outcome<QcError> {
    var exp := CheckExp(expLines);
    if exp.Fail? then exp else CheckProbe(probeLines)
  }

  /** The run passes iff both files pass, and a failing expression file is
      reported whatever the probe file holds. */
  lemma QcOrder(expLines: seq<string>, probeLines: seq<string>, otherProbe: seq<string>)
    ensures Qc(expLines, probeLines).Pass? <==>
      CheckExp(expLines).Pass? && forall i :: 0 <= i < |probeLines| ==> ' ' !in probeLines[i]
    ensures CheckExp(expLines).Fail? ==>
      Qc(expLines, probeLines) == CheckExp(expLines) == Qc(expLines, otherProbe)
  {
    CheckProbeCharacterised(probeLines);
  }
}
