/** The expression data set of the network-inference program (Microarray_Set in
    src/matrix.h): the markers (genes), the arrays of probe values and the column
    headers, with the growable tables, the marker lookups, the decision between the
    two input formats and the high/low split of the arrays by one marker. */
module Microarray {
  import opened Wrappers
  import opened Strings

  /** A gene: id, accession (stored with a leading '_'), label, variance, kernel
      bandwidth, and the active and control flags. */
  datatype Marker = Marker(idnum: int, accnum: string, geneLabel: string, variance: real,
                           bandwidth: real, isActive: bool, isControl: bool)

  /** One measurement: the expression value and its p-value. */
  datatype Probe = Probe(value: real, pvalue: real)

  /** Marker(inId, inAccnum, inLabel) and the defaults of the remaining arguments. */
  function NewMarker(id: int, accnum: string, geneLabel: string): (m: Marker)
    ensures m.idnum == id && m.accnum == accnum && m.geneLabel == geneLabel
    ensures m.variance == 0.0 && m.bandwidth == 0.0
    ensures m.isActive && !m.isControl
  {
    Marker(id, accnum, geneLabel, 0.0, 0.0, true, false)
  }

  /** Marker(): id 0, empty accession and label, active, not a control. */
  function DefaultMarker(): (m: Marker)
    ensures m == NewMarker(0, "", "")
    ensures m.isActive && !m.isControl && m.variance == 0.0 && m.bandwidth == 0.0
  {
    NewMarker(0, "", "")
  }

  /** Probe(): value and p-value both 0. */
  function DefaultProbe(): (p: Probe)
    ensures p.value == 0.0 && p.pvalue == 0.0
  {
    Probe(0.0, 0.0)
  }

  function Max(a: int, b: int): int
  {
    if a >= b then a else b
  }

  /** `s` after push_back(fill) until it has more than `i` entries, then entry `i`
      overwritten with `x`: what the Set_* members do to their vector. */
  function Stored<T>(s: seq<T>, i: nat, fill: T, x: T): (r: seq<T>)
    ensures |r| == Max(|s|, i + 1)
    ensures r[i] == x
    ensures forall k :: 0 <= k < |s| && k != i ==> r[k] == s[k]
    ensures forall k :: |s| <= k < |r| && k != i ==> r[k] == fill
  {
    var grown := if i < |s| then s else s + seq(i + 1 - |s|, _ => fill);
    grown[i := x]
  }

  /** The number of active markers of `ms`. */
  function ActiveCount(ms: seq<Marker>): (r: nat)
    ensures r <= |ms|
  {
    if |ms| == 0 then 0
    else ActiveCount(ms[..|ms| - 1]) + (if ms[|ms| - 1].isActive then 1 else 0)
  }

  /** The ids of the active markers. */
  function ActiveIds(ms: seq<Marker>): set<int>
  {
    set i | 0 <= i < |ms| && ms[i].isActive
  }

  /** The count is the number of ids whose marker is active. */
  lemma {:induction false} ActiveCountIsCardinality(ms: seq<Marker>)
    ensures ActiveCount(ms) == |ActiveIds(ms)|
  {
    if |ms| > 0 {
      var n := |ms| - 1;
      var init := ms[..n];
      ActiveCountIsCardinality(init);
      assert ActiveIds(init) == set i | 0 <= i < n && ms[i].isActive;
      if ms[n].isActive {
        assert ActiveIds(ms) == ActiveIds(init) + {n};
        assert n !in ActiveIds(init);
      } else {
        assert ActiveIds(ms) == ActiveIds(init);
      }
    }
  }

  /** isSameGene: the same index, or equal labels other than "---". The label of a
      marker is read only when the two indices differ. */
  function SameGene(ms: seq<Marker>, i: int, j: int): (r: bool)
    requires i == j || (0 <= i < |ms| && 0 <= j < |ms|)
    ensures i == j ==> r
    ensures i != j ==> (r <==> ms[i].geneLabel == ms[j].geneLabel && ms[i].geneLabel != "---")
  {
    i == j || (ms[i].geneLabel == ms[j].geneLabel && ms[i].geneLabel != "---")
  }

  /** Being the same gene is an equivalence on the indices of the markers. */
  lemma SameGeneEquivalence(ms: seq<Marker>, i: int, j: int, k: int)
    requires 0 <= i < |ms| && 0 <= j < |ms| && 0 <= k < |ms|
    ensures SameGene(ms, i, i)
    ensures SameGene(ms, i, j) == SameGene(ms, j, i)
    ensures SameGene(ms, i, j) && SameGene(ms, j, k) ==> SameGene(ms, i, k)
  {
  }

  /** Markers labelled "---" are the same gene only as themselves. */
  lemma UnlabelledDistinct(ms: seq<Marker>, i: int, j: int)
    requires 0 <= i < |ms| && 0 <= j < |ms| && i != j
    requires ms[i].geneLabel == "---"
    ensures !SameGene(ms, i, j)
  {
  }

  /** The first index at or after `from` whose accession is `accnum`, or -1. */
  function AccessionFrom(ms: seq<Marker>, accnum: string, from: nat): (r: int)
    requires from <= |ms|
    ensures r == -1 || (from <= r < |ms| && ms[r].accnum == accnum)
    ensures forall k :: from <= k < |ms| && (r == -1 || k < r) ==> ms[k].accnum != accnum
    decreases |ms| - from
  {
    if from == |ms| then -1
    else if ms[from].accnum == accnum then from
    else AccessionFrom(ms, accnum, from + 1)
  }

  /** getAccessionId: the first marker with accession `accnum`, or -1. */
  function AccessionId(ms: seq<Marker>, accnum: string): (r: int)
    ensures r == -1 <==> forall k :: 0 <= k < |ms| ==> ms[k].accnum != accnum
    ensures r != -1 ==> 0 <= r < |ms| && ms[r].accnum == accnum
    ensures forall k :: 0 <= k < r ==> ms[k].accnum != accnum
  {
    AccessionFrom(ms, accnum, 0)
  }

  /** getProbeId: an all-digit label is read as a number (atoi; the empty label is
      0), any other label is looked up as an accession. */
  function ProbeId(ms: seq<Marker>, name: string): (r: int)
    ensures AllDigits(name) ==> r == DigitsValue(name)
    ensures !AllDigits(name) ==> r == AccessionId(ms, name)
  {
    if AllDigits(name) then DigitsValue(name) else AccessionId(ms, name)
  }

  /** A label given the '_' prefix can never be read as a number, so it resolves to
      an index of a marker with that accession or to -1. */
  lemma PrefixedLabel(ms: seq<Marker>, name: string)
    ensures var r := ProbeId(ms, "_" + name);
      r == AccessionId(ms, "_" + name) && -1 <= r < |ms|
  {
    assert !IsDigit(("_" + name)[0]);
  }

  /** The empty label is the number 0, whatever the markers. */
  lemma EmptyLabel(ms: seq<Marker>)
    ensures ProbeId(ms, "") == 0
  {
  }

  /** The two layouts of an expression file: one value per array, or a value and
      a p-value per array. */
  datatype Format = Values | ValuePairs

  const ReadFailure: string := "Could not read data.(Last line empty?)"
  const HeaderFailure: string := "Error while reading file headers(win/*nux/mac end of line?)."
  const FormatMismatch: string := "Incorrect file format: header line doesn't match the rest of the data."

  /** The number of fields the tab-splitting do-while loops collect from one line:
      after each field the loop stops at the end of the line or at a '\r'. */
  function FieldCount(s: string): (r: nat)
    ensures r >= 1
    decreases |s|
  {
    var p := FindFrom(s, "\t", 0);
    if p < 0 || p + 1 >= |s| || s[p + 1] == '\r' then 1
    else 1 + FieldCount(s[p + 1..])
  }

  predicate NoCarriageReturn(s: string)
  {
    forall k :: 0 <= k < |s| ==> s[k] != '\r'
  }

  /** On a line without '\r' that does not end with a tab, the loops collect every
      tab-separated field. */
  lemma {:induction false} FieldCountPlain(s: string)
    requires NoCarriageReturn(s)
    requires |s| == 0 || s[|s| - 1] != '\t'
    ensures FieldCount(s) == |Split(s, "\t")|
    decreases |s|
  {
    var p := FindFrom(s, "\t", 0);
    if p >= 0 {
      assert s[p..p + 1] == "\t";
      assert s[p] == '\t';
      assert p + 1 < |s|;
      var rest := s[p + 1..];
      assert rest[|rest| - 1] == s[|s| - 1];
      assert NoCarriageReturn(rest) by {
        forall k | 0 <= k < |rest| ensures rest[k] != '\r' {
          assert rest[k] == s[p + 1 + k];
        }
      }
      FieldCountPlain(rest);
    }
  }

  /** A trailing tab opens no field: "a\t" holds one field for the loops. */
  lemma TrailingTab()
    ensures FieldCount("a\t") == 1
  {
    assert "a\t"[1..2] == "\t";
    assert !OccursAt("a\t", "\t", 0) by {
      assert "a\t"[0..1] == "a";
    }
  }

  predicate IsDescription(line: string)
  {
    |line| >= 11 && line[..11] == "Description"
  }

  /** The index of the first line at or after `i` that is no "Description" line. */
  function SkipDescriptions(lines: seq<string>, i: nat): (k: nat)
    requires i <= |lines|
    ensures i <= k <= |lines|
    ensures k < |lines| ==> !IsDescription(lines[k])
    ensures forall j :: i <= j < k ==> IsDescription(lines[j])
    decreases |lines| - i
  {
    if i == |lines| || !IsDescription(lines[i]) then i else SkipDescriptions(lines, i + 1)
  }

  /** The format decision of Microarray_Set::read, for the lines the stream yields
      (a read past the last one fails): the header gives the number of arrays
      (fields less two), the first line after the "Description" lines gives the
      number of values, single values when they are equal, pairs when the values
      are twice the arrays. */
  function DecideFormat(lines: seq<string>): (r: Result<Format, string>)
    ensures |lines| == 0 ==> r == Err(ReadFailure)
    ensures |lines| > 0 && lines[0] == "" ==> r == Err(HeaderFailure)
    ensures r.Ok? ==> (|lines| > 0 && lines[0] != "" &&
      var k := SkipDescriptions(lines, 1);
      k < |lines| &&
      var arrays := FieldCount(lines[0]) - 2;
      var values := FieldCount(lines[k]) - 2;
      (r.value == Values <==> arrays == values) &&
      (r.value == ValuePairs <==> arrays != values && 2 * arrays == values))
    ensures r.Err? && |lines| > 0 && lines[0] != "" ==>
      var k := SkipDescriptions(lines, 1);
      (k == |lines| && r.error == ReadFailure) ||
      (k < |lines| && r.error == FormatMismatch &&
       FieldCount(lines[0]) - 2 != FieldCount(lines[k]) - 2 &&
       2 * (FieldCount(lines[0]) - 2) != FieldCount(lines[k]) - 2)
  {
    if |lines| == 0 then Err(ReadFailure)
    else if lines[0] == "" then Err(HeaderFailure)
    else
      var arrays := FieldCount(lines[0]) - 2;
      var k := SkipDescriptions(lines, 1);
      if k == |lines| then Err(ReadFailure)
      else
        var values := FieldCount(lines[k]) - 2;
        if arrays == values then Ok(Values)
        else if 2 * arrays == values then Ok(ValuePairs)
        else Err(FormatMismatch)
  }

  /** A header of two fields (no arrays) with a first line of two fields is read
      as single values: the first test wins over 2 * 0 == 0. */
  lemma NoArraysAreValues(lines: seq<string>)
    requires |lines| >= 2 && lines[0] != "" && !IsDescription(lines[1])
    requires FieldCount(lines[0]) == 2 && FieldCount(lines[1]) == 2
    ensures DecideFormat(lines) == Ok(Values)
  {
  }

  /** double -> int conversion: truncation toward zero. */
  function Trunc(x: real): (r: int)
    ensures x >= 0.0 ==> r as real <= x < r as real + 1.0
    ensures x < 0.0 ==> r as real - 1.0 < x <= r as real
  {
    if x >= 0.0 then x.Floor else -((-x).Floor)
  }

  /** `order` lists 0..|values|-1 once each, by non-decreasing value: the order in
      which std::sort leaves the (array, value) pairs (equal values in an order the
      library chooses). */
  predicate IncreasingOrder(order: seq<int>, values: seq<real>)
  {
    |order| == |values| &&
    (forall p :: 0 <= p < |order| ==> 0 <= order[p] < |values|) &&
    (forall p, q :: 0 <= p < q < |order| ==> order[p] != order[q]) &&
    (forall p, q :: 0 <= p < q < |order| ==> values[order[p]] <= values[order[q]])
  }

  /** The state a push_back loop leaves, overwritten at `i`, is `Stored`. */
  lemma GrownStored<T>(s0: seq<T>, s: seq<T>, i: nat, fill: T, x: T)
    requires |s0| <= |s| && i < |s| <= Max(|s0|, i + 1)
    requires s == s0 + seq(|s| - |s0|, _ => fill)
    ensures s[i := x] == Stored(s0, i, fill, x)
  {
    if i < |s0| {
      assert s == s0;
    }
  }

  /** y = n * x for x < 1: below n once n > 0, not negative when x is not. */
  lemma ScaleBelow(n: nat, x: real, y: real)
    requires x < 1.0 && y == n as real * x
    ensures n > 0 ==> y < n as real
    ensures x >= 0.0 ==> y >= 0.0
  {
    if n > 0 {
      assert (n as real) * (1.0 - x) > 0.0;
    }
  }

  /** (int)(n * x): the number of arrays in each of the two lists. For x < 1 it is
      less than n. */
  function PercentCount(n: nat, x: real): (k: int)
    requires x < 1.0
    ensures k <= 0 || k < n
    ensures x >= 0.0 ==> k >= 0
  {
    var y := n as real * x;
    ScaleBelow(n, x, y);
    Trunc(y)
  }

  /** Every array holds a probe for marker `mId`. */
  predicate HoldsMarker(u: seq<seq<Probe>>, mId: int)
  {
    (|u| > 0 ==> 0 <= mId) && forall a :: 0 <= a < |u| ==> mId < |u[a]|
  }

  /** The values of marker `mId` across the arrays. */
  function Column(u: seq<seq<Probe>>, mId: int): (v: seq<real>)
    requires HoldsMarker(u, mId)
    ensures |v| == |u|
    ensures forall a :: 0 <= a < |u| ==> 0 <= mId < |u[a]| && v[a] == u[a][mId].value
  {
    if |u| == 0 then []
    else
      assert 0 <= mId < |u[0]|;
      [u[0][mId].value] + Column(u[1..], mId)
  }

  class MicroarraySet {
    var markerset: seq<Marker>
    var uarrays: seq<seq<Probe>>
    var header: seq<string>

    constructor()
      ensures markerset == [] && uarrays == [] && header == []
    {
      markerset := [];
      uarrays := [];
      header := [];
    }

    method GetNumActiveMarkers() returns (n: int)
      ensures n == ActiveCount(markerset)
    {
      n := 0;
      for i := 0 to |markerset|
        invariant n == ActiveCount(markerset[..i])
      {
        assert markerset[..i + 1][..i] == markerset[..i];
        if markerset[i].isActive {
          n := n + 1;
        }
      }
      assert markerset[..|markerset|] == markerset;
    }

    method GetAccessionId(accnum: string) returns (r: int)
      ensures r == AccessionId(markerset, accnum)
    {
      for i := 0 to |markerset|
        invariant forall k :: 0 <= k < i ==> markerset[k].accnum != accnum
      {
        if markerset[i].accnum == accnum {
          return i;
        }
      }
      return -1;
    }

    method GetProbeId(name: string) returns (r: int)
      ensures r == ProbeId(markerset, name)
    {
      for i := 0 to |name|
        invariant forall k :: 0 <= k < i ==> IsDigit(name[k])
      {
        if !IsDigit(name[i]) {
          r := GetAccessionId(name);
          return;
        }
      }
      r := Atoi(name);
    }

    /** atoi on a string of digits (the width of int is not modelled). */
    static method Atoi(s: string) returns (n: nat)
      requires AllDigits(s)
      ensures n == DigitsValue(s)
    {
      n := 0;
      for i := 0 to |s|
        invariant n == DigitsValue(s[..i])
      {
        assert s[..i + 1][..i] == s[..i];
        n := n * 10 + ((s[i] as int) - ('0' as int));
      }
      assert s[..|s|] == s;
    }

    method SetColHeader(i: nat, hdr: string)
      modifies this
      ensures header == Stored(old(header), i, "", hdr)
      ensures markerset == old(markerset) && uarrays == old(uarrays)
    {
      ghost var h0 := header;
      while i >= |header|
        invariant |h0| <= |header| <= Max(|h0|, i + 1)
        invariant header == h0 + seq(|header| - |h0|, _ => "")
        invariant markerset == old(markerset) && uarrays == old(uarrays)
        decreases i + 1 - |header|
      {
        header := header + [""];
      }
      GrownStored(h0, header, i, "", hdr);
      header := header[i := hdr];
    }

    method SetMarker(i: nat, m: Marker)
      modifies this
      ensures markerset == Stored(old(markerset), i, DefaultMarker(), m)
      ensures uarrays == old(uarrays) && header == old(header)
    {
      ghost var m0 := markerset;
      while i >= |markerset|
        invariant |m0| <= |markerset| <= Max(|m0|, i + 1)
        invariant markerset == m0 + seq(|markerset| - |m0|, _ => DefaultMarker())
        invariant uarrays == old(uarrays) && header == old(header)
        decreases i + 1 - |markerset|
      {
        markerset := markerset + [DefaultMarker()];
      }
      GrownStored(m0, markerset, i, DefaultMarker(), m);
      markerset := markerset[i := m];
    }

    method SetProbe(i: nat, j: nat, p: Probe)
      modifies this
      ensures var row := if i < |old(uarrays)| then old(uarrays)[i] else [];
        uarrays == Stored(old(uarrays), i, [], Stored(row, j, DefaultProbe(), p))
      ensures markerset == old(markerset) && header == old(header)
    {
      ghost var u0 := uarrays;
      while i >= |uarrays|
        invariant |u0| <= |uarrays| <= Max(|u0|, i + 1)
        invariant uarrays == u0 + seq(|uarrays| - |u0|, _ => [])
        invariant markerset == old(markerset) && header == old(header)
        decreases i + 1 - |uarrays|
      {
        uarrays := uarrays + [[]];
      }
      ghost var a0 := uarrays[i];
      var row := uarrays[i];
      while j >= |row|
        invariant |a0| <= |row| <= Max(|a0|, j + 1)
        invariant row == a0 + seq(|row| - |a0|, _ => DefaultProbe())
        invariant uarrays == old(uarrays) + seq(|uarrays| - |old(uarrays)|, _ => [])
        invariant markerset == old(markerset) && header == old(header)
        decreases j + 1 - |row|
      {
        row := row + [DefaultProbe()];
      }
      GrownStored(a0, row, j, DefaultProbe(), p);
      GrownStored(u0, uarrays, i, [], a0);
      uarrays := uarrays[i := row[j := p]];
    }

    /** getHighLowPercent for one marker, with `order` the sorted array ids: the
        lower list is the first k = (int)(N * x) sorted positions, the upper list the
        k positions N-k-1 .. N-2. */
    method GetHighLowPercent(x: real, mId: int, order: seq<int>) returns (lower: seq<int>, upper: seq<int>)
      requires x < 1.0
      requires HoldsMarker(uarrays, mId)
      requires IncreasingOrder(order, Column(uarrays, mId))
      ensures var n := |uarrays|; var k := PercentCount(n, x);
        (k <= 0 ==> lower == [] && upper == []) &&
        (k > 0 ==> k < n && lower == order[..k] && upper == order[n - k - 1..n - 1])
    {
      var n := |uarrays|;
      var k := PercentCount(n, x);
      lower, upper := [], [];
      if k <= 0 {
        return;
      }
      assert |order| == n;
      var id := 0;
      while id < k
        invariant 0 <= id <= k < n == |order|
        invariant lower == order[..id] && upper == order[n - k - 1..n - k - 1 + id]
      {
        lower := lower + [order[id]];
        upper := upper + [order[n - k - 1 + id]];
        id := id + 1;
      }
    }
  }

  /** When at most half the arrays are taken, every value in the lower list is at
      most every value in the upper one; when fewer than half, no array is in both;
      the array with the largest value (last sorted position) is never in the upper
      list. */
  lemma HighLowSeparated(values: seq<real>, order: seq<int>, k: int, lower: seq<int>, upper: seq<int>)
    requires IncreasingOrder(order, values)
    requires 0 < k < |values|
    requires lower == order[..k] && upper == order[|values| - k - 1..|values| - 1]
    ensures 2 * k <= |values| ==>
      forall p, q :: 0 <= p < |lower| && 0 <= q < |upper| ==> values[lower[p]] <= values[upper[q]]
    ensures 2 * k < |values| ==>
      forall p, q :: 0 <= p < |lower| && 0 <= q < |upper| ==> lower[p] != upper[q]
    ensures forall q :: 0 <= q < |upper| ==> upper[q] != order[|values| - 1]
  {
    var n := |values|;
    forall p, q | 0 <= p < |lower| && 0 <= q < |upper| && 2 * k <= n
      ensures values[lower[p]] <= values[upper[q]]
    {
      assert lower[p] == order[p] && upper[q] == order[n - k - 1 + q];
      if p < n - k - 1 + q {
        assert values[order[p]] <= values[order[n - k - 1 + q]];
      }
    }
    forall q | 0 <= q < |upper|
      ensures upper[q] != order[n - 1]
    {
      assert upper[q] == order[n - k - 1 + q];
    }
  }
}
