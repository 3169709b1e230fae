/** The string operations the modelled programs rely on, stated the way the
    source languages define them: Python's str.split, str.join, str.strip,
    re.split on single characters, slicing and the ordering of str; and the
    decimal conversions str(int), atoi and printf's "%03i". */
module Strings {

  /** `pat` occurs in `s` starting at index `i`. */
  predicate OccursAt(s: string, pat: string, i: int)
  {
    0 <= i && i + |pat| <= |s| && s[i..i + |pat|] == pat
  }

  /** The least index at or after `from` where `pat` occurs, or -1 (str.find). */
  function FindFrom(s: string, pat: string, from: nat): (r: int)
    requires |pat| > 0
    ensures r == -1 || (from <= r && OccursAt(s, pat, r))
    ensures forall j :: from <= j && (r == -1 || j < r) ==> !OccursAt(s, pat, j)
    decreases |s| - from
  {
    if from + |pat| > |s| then -1
    else if s[from..from + |pat|] == pat then from
    else FindFrom(s, pat, from + 1)
  }

  /** Python's `s.split(sep)` for a non-empty separator: the pieces between
      the non-overlapping occurrences of `sep`, scanning left to right. */
  function Split(s: string, sep: string): (r: seq<string>)
    requires |sep| > 0
    ensures |r| >= 1
    decreases |s|
  {
    var i := FindFrom(s, sep, 0);
    if i < 0 then [s] else [s[..i]] + Split(s[i + |sep|..], sep)
  }

  /** Python's `sep.join(parts)`. */
  function Join(parts: seq<string>, sep: string): string
  {
    if |parts| == 0 then ""
    else if |parts| == 1 then parts[0]
    else parts[0] + sep + Join(parts[1..], sep)
  }

  /** Joining the pieces of a split with the separator gives the string back. */
  lemma {:induction false} JoinSplit(s: string, sep: string)
    requires |sep| > 0
    ensures Join(Split(s, sep), sep) == s
    decreases |s|
  {
    var i := FindFrom(s, sep, 0);
    if i >= 0 {
      var rest := s[i + |sep|..];
      SplitUnfold(s, sep, i);
      JoinSplit(rest, sep);
      JoinCons(s[..i], Split(rest, sep), sep);
      Reassemble(s, sep, i);
    }
  }

  /** A split at a found separator is the piece before it and the split of the rest. */
  lemma SplitUnfold(s: string, sep: string, i: int)
    requires |sep| > 0 && i == FindFrom(s, sep, 0) && i >= 0
    ensures Split(s, sep) == [s[..i]] + Split(s[i + |sep|..], sep)
  {
  }

  /** A join ends with the last character of its last part, when that part is
      not empty. */
  lemma {:induction false} JoinEndsWithLast(parts: seq<string>, sep: string)
    requires |parts| > 0 && |Last(parts)| > 0
    ensures |Join(parts, sep)| > 0
    ensures Join(parts, sep)[|Join(parts, sep)| - 1] == Last(parts)[|Last(parts)| - 1]
  {
    if |parts| > 1 {
      JoinEndsWithLast(parts[1..], sep);
      assert Last(parts[1..]) == Last(parts);
      var tail := Join(parts[1..], sep);
      assert Join(parts, sep) == (parts[0] + sep) + tail;
    }
  }

  lemma JoinCons(head: string, tail: seq<string>, sep: string)
    requires |tail| >= 1
    ensures Join([head] + tail, sep) == head + sep + Join(tail, sep)
  {
    assert ([head] + tail)[1..] == tail;
  }

  lemma Reassemble(s: string, sep: string, i: int)
    requires OccursAt(s, sep, i)
    ensures s[..i] + sep + s[i + |sep|..] == s
  {
    assert s == s[..i] + s[i..i + |sep|] + s[i + |sep|..];
  }

  /** A string in which `sep` does not occur splits into itself. */
  lemma SplitWithoutSep(s: string, sep: string)
    requires |sep| > 0
    requires forall j :: !OccursAt(s, sep, j)
    ensures Split(s, sep) == [s]
  {
  }

  /** Splitting `a + sep + b` gives back exactly `[a, b]` when the first
      occurrence of `sep` is the one inserted between them and `b` holds none. */
  lemma SplitPair(a: string, sep: string, b: string)
    requires |sep| > 0
    requires forall j :: 0 <= j < |a| ==> !OccursAt(a + sep, sep, j)
    requires forall j :: !OccursAt(b, sep, j)
    ensures Split(a + sep + b, sep) == [a, b]
  {
    var s := a + sep + b;
    assert OccursAt(s, sep, |a|) by {
      assert s[|a|..|a| + |sep|] == sep;
    }
    forall j | 0 <= j < |a|
      ensures !OccursAt(s, sep, j)
    {
      if OccursAt(s, sep, j) {
        assert s[j..j + |sep|] == (a + sep)[j..j + |sep|];
        assert OccursAt(a + sep, sep, j);
      }
    }
    var i := FindFrom(s, sep, 0);
    assert i == |a|;
    assert s[..i] == a;
    assert s[i + |sep|..] == b;
    SplitWithoutSep(b, sep);
  }

  /** The first piece of a split holds no occurrence of the separator. */
  lemma SplitFirstFree(s: string, sep: string)
    requires |sep| > 0
    ensures forall j :: !OccursAt(Split(s, sep)[0], sep, j)
  {
    var i := FindFrom(s, sep, 0);
    if i >= 0 {
      var head := s[..i];
      forall j | OccursAt(head, sep, j)
        ensures false
      {
        assert s[j..j + |sep|] == head[j..j + |sep|];
        assert OccursAt(s, sep, j);
      }
    }
  }

  function Last<T>(xs: seq<T>): T
    requires |xs| > 0
  {
    xs[|xs| - 1]
  }

  lemma LastOfCons<T>(x: T, xs: seq<T>)
    requires |xs| > 0
    ensures Last([x] + xs) == Last(xs)
  {
  }

  /** The last piece of a split holds no occurrence of the separator. */
  lemma {:induction false} SplitLastFree(s: string, sep: string)
    requires |sep| > 0
    ensures forall j :: !OccursAt(Last(Split(s, sep)), sep, j)
    decreases |s|
  {
    var i := FindFrom(s, sep, 0);
    if i >= 0 {
      var rest := s[i + |sep|..];
      SplitLastFree(rest, sep);
      SplitUnfold(s, sep, i);
      LastOfCons(s[..i], Split(rest, sep));
    }
  }

  /** Python's `re.split(p, s)` where the pattern `p` is an alternation of
      single characters (such as "_|\."): split at every character of `delims`. */
  function SplitOnChars(s: string, delims: set<char>): (r: seq<string>)
    ensures |r| >= 1
  {
    if |s| == 0 then [""]
    else
      var rest := SplitOnChars(s[1..], delims);
      if s[0] in delims then [""] + rest
      else [[s[0]] + rest[0]] + rest[1..]
  }

  /** A word free of delimiters followed by a delimiter is one piece of the split. */
  lemma {:induction false} SplitOnCharsWord(w: string, d: char, rest: string, delims: set<char>)
    requires d in delims
    requires forall i :: 0 <= i < |w| ==> w[i] !in delims
    ensures SplitOnChars(w + [d] + rest, delims) == [w] + SplitOnChars(rest, delims)
  {
    if |w| == 0 {
      assert w + [d] + rest == [d] + rest;
      assert ([d] + rest)[1..] == rest;
    } else {
      var s := w + [d] + rest;
      assert s[1..] == w[1..] + [d] + rest;
      SplitOnCharsWord(w[1..], d, rest, delims);
      assert [w[0]] + w[1..] == w;
    }
  }

  /** A word free of delimiters splits into itself. */
  lemma {:induction false} SplitOnCharsPlain(w: string, delims: set<char>)
    requires forall i :: 0 <= i < |w| ==> w[i] !in delims
    ensures SplitOnChars(w, delims) == [w]
  {
    if |w| > 0 {
      SplitOnCharsPlain(w[1..], delims);
      assert [w[0]] + w[1..] == w;
    }
  }

  /** Python's slice `t[i:j]` for 0 <= i, 0 <= j: clamped to the sequence. */
  function Slice<T>(t: seq<T>, i: nat, j: nat): (r: seq<T>)
    ensures |r| == if i < j && i < |t| then (if j < |t| then j else |t|) - i else 0
  {
    if i < j && i < |t| then t[i..if j < |t| then j else |t|] else []
  }

  /** The characters for which Python's str.isspace() holds: tab to carriage
      return, the file/group/record/unit separators, space, NEL, NBSP, the Ogham
      space mark, the en quad to hair space block, the line and paragraph
      separators, and the narrow, mathematical and ideographic spaces. */
  predicate IsSpace(c: char)
  {
    ('\t' <= c <= '\r') || ('\U{001C}' <= c <= ' ') || c == '\U{0085}' || c == '\U{00A0}' ||
    c == '\U{1680}' || ('\U{2000}' <= c <= '\U{200A}') || c == '\U{2028}' || c == '\U{2029}' ||
    c == '\U{202F}' || c == '\U{205F}' || c == '\U{3000}'
  }

  /** The first index at or after `i` that does not hold whitespace (or |s|). */
  function SkipSpace(s: string, i: nat): (k: nat)
    requires i <= |s|
    ensures i <= k <= |s|
    ensures k < |s| ==> !IsSpace(s[k])
    ensures forall j :: i <= j < k ==> IsSpace(s[j])
    decreases |s| - i
  {
    if i < |s| && IsSpace(s[i]) then SkipSpace(s, i + 1) else i
  }

  /** The least index e, lo <= e <= hi, such that s[e..hi] is all whitespace. */
  function SkipSpaceBack(s: string, lo: nat, hi: nat): (e: nat)
    requires lo <= hi <= |s|
    ensures lo <= e <= hi
    ensures e > lo ==> !IsSpace(s[e - 1])
    ensures forall j :: e <= j < hi ==> IsSpace(s[j])
    decreases hi
  {
    if hi > lo && IsSpace(s[hi - 1]) then SkipSpaceBack(s, lo, hi - 1) else hi
  }

  /** Python's `s.strip()`: what remains of `s` once the whitespace at both ends
      is removed; only whitespace is removed, and none is left at either end. */
  function Strip(s: string): (r: string)
    ensures |r| <= |s|
    ensures var k := SkipSpace(s, 0);
      k + |r| <= |s| && r == s[k..k + |r|] &&
      (forall i :: 0 <= i < k ==> IsSpace(s[i])) &&
      (forall i :: k + |r| <= i < |s| ==> IsSpace(s[i]))
    ensures |r| > 0 ==> !IsSpace(r[0]) && !IsSpace(r[|r| - 1])
  {
    var k := SkipSpace(s, 0);
    s[k..SkipSpaceBack(s, k, |s|)]
  }

  /** Python's ordering of str: lexicographic by code point. */
  predicate Less(a: string, b: string)
  {
    if |a| == 0 then |b| > 0
    else |b| > 0 && (a[0] < b[0] || (a[0] == b[0] && Less(a[1..], b[1..])))
  }

  lemma {:induction false} LessIrreflexive(a: string)
    ensures !Less(a, a)
  {
    if |a| > 0 {
      LessIrreflexive(a[1..]);
    }
  }

  lemma {:induction false} LessTransitive(a: string, b: string, c: string)
    requires Less(a, b) && Less(b, c)
    ensures Less(a, c)
  {
    if |a| > 0 && |b| > 0 && |c| > 0 && a[0] == b[0] == c[0] {
      LessTransitive(a[1..], b[1..], c[1..]);
    }
  }

  lemma {:induction false} LessTotal(a: string, b: string)
    requires a != b
    ensures Less(a, b) || Less(b, a)
  {
    if |a| > 0 && |b| > 0 && a[0] == b[0] {
      assert a == [a[0]] + a[1..] && b == [b[0]] + b[1..];
      LessTotal(a[1..], b[1..]);
    }
  }

  lemma {:induction false} LessAsymmetric(a: string, b: string)
    requires Less(a, b)
    ensures !Less(b, a)
  {
    if |a| > 0 && |b| > 0 && a[0] == b[0] {
      LessAsymmetric(a[1..], b[1..]);
    }
  }

  predicate StrictlySorted(s: seq<string>)
  {
    forall i, j :: 0 <= i < j < |s| ==> Less(s[i], s[j])
  }

  /** Insert `x` at its place in a strictly sorted sequence. */
  function Insert(s: seq<string>, x: string): (r: seq<string>)
    requires StrictlySorted(s) && x !in s
    ensures StrictlySorted(r)
    ensures forall y :: y in r <==> y in s || y == x
    ensures |r| == |s| + 1
  {
    if |s| == 0 then [x]
    else if Less(x, s[0]) then
      assert forall j :: 0 <= j < |s| ==> Less(x, s[j]) by {
        forall j | 0 < j < |s| ensures Less(x, s[j]) {
          LessTransitive(x, s[0], s[j]);
        }
      }
      [x] + s
    else
      LessTotal(x, s[0]);
      var t := Insert(s[1..], x);
      assert forall y :: y in t ==> Less(s[0], y);
      [s[0]] + t
  }

  /** The strictly ascending listing of a finite set, as Python's sorted(keys). */
  ghost function SortedOf(ks: set<string>): (r: seq<string>)
    ensures StrictlySorted(r)
    ensures forall y :: y in r <==> y in ks
    decreases |ks|
  {
    if ks == {} then []
    else
      var x :| x in ks;
      Insert(SortedOf(ks - {x}), x)
  }

  /** A finite set has only one strictly ascending listing. */
  lemma {:induction false} SortedUnique(a: seq<string>, b: seq<string>)
    requires StrictlySorted(a) && StrictlySorted(b)
    requires forall y :: y in a <==> y in b
    ensures a == b
    decreases |a|
  {
    assert |a| > 0 ==> a[0] in b;
    assert |b| > 0 ==> b[0] in a;
    if |a| > 0 && |b| > 0 {
      assert a[0] in b;
      assert b[0] in a;
      if a[0] != b[0] {
        var i :| 0 <= i < |b| && b[i] == a[0];
        var j :| 0 <= j < |a| && a[j] == b[0];
        assert Less(b[0], a[0]);
        assert Less(a[0], b[0]);
        LessAsymmetric(a[0], b[0]);
      }
      forall y
        ensures y in a[1..] <==> y in b[1..]
      {
        if y in a[1..] {
          var i :| 1 <= i < |a| && a[i] == y;
          assert Less(a[0], y);
          LessIrreflexive(y);
          assert y in b;
          var k :| 0 <= k < |b| && b[k] == y;
          assert k != 0;
          assert b[1..][k - 1] == y;
        }
        if y in b[1..] {
          var i :| 1 <= i < |b| && b[i] == y;
          assert Less(b[0], y);
          LessIrreflexive(y);
          assert y in a;
          var k :| 0 <= k < |a| && a[k] == y;
          assert k != 0;
          assert a[1..][k - 1] == y;
        }
      }
      SortedUnique(a[1..], b[1..]);
      assert a == [a[0]] + a[1..] && b == [b[0]] + b[1..];
    }
  }

  /** sorted(ks): the set's keys in ascending order. */
  method SortKeys(ks: set<string>) returns (s: seq<string>)
    ensures s == SortedOf(ks)
  {
    var rest := ks;
    s := [];
    while rest != {}
      invariant rest <= ks
      invariant StrictlySorted(s)
      invariant forall y :: y in s <==> y in ks && y !in rest
      decreases |rest|
    {
      var k :| k in rest;
      s := Insert(s, k);
      rest := rest - {k};
    }
    SortedUnique(s, SortedOf(ks));
  }

  predicate IsDigit(c: char)
  {
    '0' <= c <= '9'
  }

  predicate AllDigits(s: string)
  {
    forall i :: 0 <= i < |s| ==> IsDigit(s[i])
  }

  /** The decimal digit character for d. */
  function DigitChar(d: nat): (c: char)
    requires d < 10
    ensures IsDigit(c) && (c as int) - ('0' as int) == d
  {
    (('0' as int) + d) as char
  }

  /** The value of a string of decimal digits (the empty string is 0, as atoi gives). */
  function DigitsValue(s: string): nat
    requires AllDigits(s)
  {
    if |s| == 0 then 0
    else DigitsValue(s[..|s| - 1]) * 10 + ((s[|s| - 1] as int) - ('0' as int))
  }

  /** Python's str(n) and printf's "%i" for a natural number. */
  function NatToString(n: nat): (r: string)
    ensures |r| >= 1 && AllDigits(r)
  {
    if n < 10 then [DigitChar(n)] else NatToString(n / 10) + [DigitChar(n % 10)]
  }

  lemma {:induction false} NatToStringValue(n: nat)
    ensures DigitsValue(NatToString(n)) == n
  {
    if n >= 10 {
      NatToStringValue(n / 10);
      var s := NatToString(n);
      assert s == NatToString(n / 10) + [DigitChar(n % 10)];
      assert s[..|s| - 1] == NatToString(n / 10);
      assert DigitsValue(s) == DigitsValue(NatToString(n / 10)) * 10 + n % 10;
    }
  }

  /** Leading zeros do not change the value of a digit string. */
  lemma {:induction false} LeadingZeros(z: string, s: string)
    requires forall i :: 0 <= i < |z| ==> z[i] == '0'
    requires AllDigits(s)
    ensures AllDigits(z + s) && DigitsValue(z + s) == DigitsValue(s)
    decreases |s|
  {
    assert AllDigits(z);
    if |s| == 0 {
      assert z + s == z;
      ZerosValue(z);
    } else {
      var t := z + s;
      assert t[..|t| - 1] == z + s[..|s| - 1];
      assert t[|t| - 1] == s[|s| - 1];
      LeadingZeros(z, s[..|s| - 1]);
    }
  }

  lemma {:induction false} ZerosValue(z: string)
    requires forall i :: 0 <= i < |z| ==> z[i] == '0'
    ensures AllDigits(z) && DigitsValue(z) == 0
  {
    if |z| > 0 {
      ZerosValue(z[..|z| - 1]);
    }
  }

  /** printf("%03i", n) for a natural n: decimal, left-padded with '0' to width 3. */
  function Pad3(n: nat): (r: string)
    ensures AllDigits(r)
  {
    var d := NatToString(n);
    if |d| >= 3 then d
    else
      var z := seq(3 - |d|, _ => '0');
      LeadingZeros(z, d);
      z + d
  }

  /** "%03i" is at least three characters wide and reads back as the number. */
  lemma Pad3Value(n: nat)
    ensures |Pad3(n)| >= 3
    ensures DigitsValue(Pad3(n)) == n
    ensures n >= 100 ==> Pad3(n) == NatToString(n)
  {
    NatToStringValue(n);
    var d := NatToString(n);
    if |d| < 3 {
      LeadingZeros(seq(3 - |d|, _ => '0'), d);
    }
    if n >= 100 {
      NatToStringAtLeast3(n);
    }
  }

  lemma NatToStringAtLeast3(n: nat)
    requires n >= 100
    ensures |NatToString(n)| >= 3
  {
    var m := n / 10;
    assert m >= 10;
    assert |NatToString(m)| >= 2 by {
      assert NatToString(m) == NatToString(m / 10) + [DigitChar(m % 10)];
    }
    assert NatToString(n) == NatToString(m) + [DigitChar(n % 10)];
  }
}
