/** The oldest enhancement script (getenhancedconsensusnetwork.py): the
    expression file is read into a dictionary of markers and the network into a
    dictionary of weights keyed "src--tar"; a double loop over the markers
    replaces the weight of every pair of distinct markers that is an edge by a
    record of both symbols, the weight and the coefficients; a last loop writes
    every entry of the dictionary. An entry the double loop never replaced (a
    self-edge, an id missing from the expression file) is still a bare weight,
    and writing it fails. */
module LegacyEnhance {
  import opened Wrappers
  import opened Strings
  import opened Bootstrap
  import opened Enhance
  import opened StandaloneEnhance
  import Consensus

  const Dashes: string := "--"

  datatype LegacyError =
    | BadSampleValue(token: string)   // float() of a sample field
    | BadWeight(token: string)        // float() of a network weight
    | NoSeparator(edge: string)       // tokens[1] of a key without "--"; never raised
                                      // for a key NetworkOf builds (NetworkKeysSplit)
    | NotJoined(edge: string)         // info['srcSymbol'] of a bare weight
    | NestedMi(edge: string)          // '{0:.4f}'.format() of a record

  // ---- command line ----

  datatype Invocation =
    | Usage                                       // the usage text, nothing written
    | MissingOutDir                               // sys.argv[3] past the end
    | Run(expPath: string, netPath: string, outDir: string, subnetPath: Option<string>)

  /** As written: only fewer than three words print the usage, so a call with the
      two input files and no output directory reads both files and then fails
      on sys.argv[3]. */
  function ArgsAsWritten(argv: seq<string>): Invocation
  {
    if |argv| < 3 then Usage
    else if |argv| < 4 then MissingOutDir
    else Run(argv[1], argv[2], argv[3], if |argv| == 5 then Some(argv[4]) else None)
  }

  /** As intended: the three arguments of the usage text are required; a fourth
      one names the subnet file. */
  function Args(argv: seq<string>): (r: Invocation)
    ensures r.Usage? <==> |argv| < 4
    ensures r != MissingOutDir
    ensures r.Run? ==> r == Run(argv[1], argv[2], argv[3], if |argv| == 5 then Some(argv[4]) else None)
  {
    if |argv| < 4 then Usage
    else Run(argv[1], argv[2], argv[3], if |argv| == 5 then Some(argv[4]) else None)
  }

  /** The two agree except on a call with exactly two arguments. */
  lemma ArgsAsWrittenDiffers(argv: seq<string>)
    ensures ArgsAsWritten(argv) == Args(argv) <==> |argv| != 3
    ensures |argv| == 3 ==> ArgsAsWritten(argv) == MissingOutDir && Args(argv) == Usage
  {
  }

  /** The name of the graph file from the tokens of the base name: head, '_', tail. */
  function GraphOf(t: seq<string>): string
    requires |t| >= 1
  {
    NameHead(t) + "_" + NameTail(t)
  }

  function GraphName(path: string): string
  {
    GraphOf(NameTokens(path))
  }

  lemma GraphOfWords(w1: string, w2: string, ws: seq<string>, ext: string)
    requires |ws| >= 1
    ensures GraphOf([w1, w2] + ws + [ext]) == w1 + "_" + w2 + "_" + Join(ws[1..], "_")
  {
    var t := [w1, w2] + ws + [ext];
    assert Slice(t, 0, 2) == [w1, w2];
    assert Slice(t, 3, |t| - 1) == ws[1..];
    assert Join([w1, w2], "_") == w1 + "_" + w2;
  }

  /** A network named w1_w2_w3_..._wn.ext gives the graph w1_w2_w4_..._wn, and the
      enhanced network w1_w2_ncol_w4_..._wn. */
  lemma GraphNameOfWords(w1: string, w2: string, ws: seq<string>, ext: string)
    requires Plain(w1) && Plain(w2) && |ws| >= 1 && AllPlain(ws) && Plain(ext)
    ensures GraphName(Join([w1, w2] + ws, "_") + "." + ext) == w1 + "_" + w2 + "_" + Join(ws[1..], "_")
  {
    AllPlainCons(w1, w2, ws);
    NameTokensOfWords([w1, w2] + ws, ext);
    assert ([w1, w2] + ws) + [ext] == [w1, w2] + ws + [ext];
    GraphOfWords(w1, w2, ws, ext);
  }

  // ---- the expression file ----

  /** A data row of the expression file: id, symbol and the sample fields. */
  datatype ExpRow = ExpRow(id: string, symbol: string, values: seq<string>)

  /** float() of every sample field, or the first that is no number. */
  function SamplesOf(values: seq<string>, parse: Parse): (r: Result<seq<real>, LegacyError>)
    ensures r.Ok? ==> |r.value| == |values|
  {
    if |values| == 0 then Ok([])
    else match SamplesOf(values[..|values| - 1], parse)
      case Err(e) => Err(e)
      case Ok(s) => match parse(values[|values| - 1])
        case None => Err(BadSampleValue(values[|values| - 1]))
        case Some(x) => Ok(s + [x])
  }

  /** The samples are read iff every field is a number, and then field by field. */
  lemma {:induction false} SamplesOfMeaning(values: seq<string>, parse: Parse)
    ensures SamplesOf(values, parse).Ok? <==> forall i :: 0 <= i < |values| ==> parse(values[i]).Some?
    ensures SamplesOf(values, parse).Ok? ==>
      forall i :: 0 <= i < |values| ==> parse(values[i]) == Some(SamplesOf(values, parse).value[i])
  {
    if |values| > 0 {
      var init := values[..|values| - 1];
      SamplesOfMeaning(init, parse);
      assert forall i :: 0 <= i < |init| ==> values[i] == init[i];
    }
  }

  lemma {:induction false} SamplesErrStays(values: seq<string>, k: nat, parse: Parse)
    requires k <= |values| && SamplesOf(values[..k], parse).Err?
    ensures SamplesOf(values, parse) == SamplesOf(values[..k], parse)
    decreases |values| - k
  {
    if k < |values| {
      assert values[..|values| - 1][..k] == values[..k];
      SamplesErrStays(values[..|values| - 1], k, parse);
    } else {
      assert values[..k] == values;
    }
  }

  /** The loop over the sample columns. */
  method ReadSamples(values: seq<string>, parse: Parse) returns (r: Result<seq<real>, LegacyError>)
    ensures r == SamplesOf(values, parse)
  {
    var samples: seq<real> := [];
    for i := 0 to |values|
      invariant SamplesOf(values[..i], parse) == Ok(samples)
    {
      assert values[..i + 1][..i] == values[..i];
      var x := parse(values[i]);
      if x.None? {
        SamplesErrStays(values, i + 1, parse);
        return Err(BadSampleValue(values[i]));
      }
      samples := samples + [x.value];
    }
    assert values[..|values|] == values;
    return Ok(samples);
  }

  /** marker_set: id to symbol and samples, a later row replacing an earlier one
      with the same id. */
  function MarkerSet(rows: seq<ExpRow>, parse: Parse): (r: Result<Table, LegacyError>)
  {
    if |rows| == 0 then Ok(map[])
    else match MarkerSet(rows[..|rows| - 1], parse)
      case Err(e) => Err(e)
      case Ok(m) => match SamplesOf(rows[|rows| - 1].values, parse)
        case Err(e) => Err(e)
        case Ok(s) => Ok(m[rows[|rows| - 1].id := Expression(rows[|rows| - 1].symbol, s)])
  }

  /** The markers are the ids of the rows, each described by its last row. */
  lemma {:induction false} MarkerSetMeaning(rows: seq<ExpRow>, parse: Parse, i: nat)
    requires MarkerSet(rows, parse).Ok?
    ensures forall k :: k in MarkerSet(rows, parse).value <==> exists j :: 0 <= j < |rows| && rows[j].id == k
    ensures (i < |rows| && (forall j :: i < j < |rows| ==> rows[j].id != rows[i].id)) ==>
      SamplesOf(rows[i].values, parse).Ok? &&
      MarkerSet(rows, parse).value[rows[i].id] == Expression(rows[i].symbol, SamplesOf(rows[i].values, parse).value)
  {
    if |rows| > 0 {
      var init := rows[..|rows| - 1];
      MarkerSetMeaning(init, parse, i);
      assert forall j :: 0 <= j < |init| ==> rows[j] == init[j];
      var m := MarkerSet(rows, parse).value;
      forall k | k in m
        ensures exists j :: 0 <= j < |rows| && rows[j].id == k
      {
        if k != rows[|rows| - 1].id {
          var j :| 0 <= j < |init| && init[j].id == k;
          assert rows[j].id == k;
        }
      }
    }
  }

  lemma {:induction false} MarkersErrStays(rows: seq<ExpRow>, k: nat, parse: Parse)
    requires k <= |rows| && MarkerSet(rows[..k], parse).Err?
    ensures MarkerSet(rows, parse) == MarkerSet(rows[..k], parse)
    decreases |rows| - k
  {
    if k < |rows| {
      assert rows[..|rows| - 1][..k] == rows[..k];
      MarkersErrStays(rows[..|rows| - 1], k, parse);
    } else {
      assert rows[..k] == rows;
    }
  }

  /** The loop reading the expression file. */
  method ReadMarkers(rows: seq<ExpRow>, parse: Parse) returns (r: Result<Table, LegacyError>)
    ensures r == MarkerSet(rows, parse)
  {
    var markers: Table := map[];
    for i := 0 to |rows|
      invariant MarkerSet(rows[..i], parse) == Ok(markers)
    {
      assert rows[..i + 1][..i] == rows[..i];
      var samples := ReadSamples(rows[i].values, parse);
      if samples.Err? {
        MarkersErrStays(rows, i + 1, parse);
        return Err(samples.error);
      }
      markers := markers[rows[i].id := Expression(rows[i].symbol, samples.value)];
    }
    assert rows[..|rows|] == rows;
    return Ok(markers);
  }

  // ---- the network file ----

  /** A data row of the network file: source, target and weight fields. */
  datatype NetRow = NetRow(src: string, tar: string, weight: string)

  /** An entry of gene_network: first a weight, then, once joined, a record. */
  datatype NetValue =
    | Weight(w: real)
    | Joined(srcSymbol: string, tarSymbol: string, mi: NetValue, coeffs: Coeffs)

  type Network = map<string, NetValue>

  /** gene_network: "src--tar" to the weight, a later row replacing an earlier one
      with the same key. */
  function NetworkOf(rows: seq<NetRow>, parse: Parse): (r: Result<Network, LegacyError>)
    ensures r.Ok? ==> forall k :: k in r.value ==> r.value[k].Weight? && KeyShaped(k, Dashes)
  {
    if |rows| == 0 then Ok(map[])
    else match NetworkOf(rows[..|rows| - 1], parse)
      case Err(e) => Err(e)
      case Ok(net) =>
        var row := rows[|rows| - 1];
        match parse(row.weight)
          case None => Err(BadWeight(row.weight))
          case Some(w) =>
            var k := Key(row.src, Dashes, row.tar);
            assert KeyShaped(k, Dashes);
            Ok(net[k := Weight(w)])
  }

  /** The keys are those of the rows, each carrying the weight of its last row. */
  lemma {:induction false} NetworkOfMeaning(rows: seq<NetRow>, parse: Parse, i: nat)
    requires NetworkOf(rows, parse).Ok?
    ensures forall k :: k in NetworkOf(rows, parse).value <==>
      exists j :: 0 <= j < |rows| && Key(rows[j].src, Dashes, rows[j].tar) == k
    ensures (i < |rows| &&
      (forall j :: i < j < |rows| ==> Key(rows[j].src, Dashes, rows[j].tar) != Key(rows[i].src, Dashes, rows[i].tar))) ==>
      parse(rows[i].weight).Some? &&
      NetworkOf(rows, parse).value[Key(rows[i].src, Dashes, rows[i].tar)] == Weight(parse(rows[i].weight).value)
  {
    if |rows| > 0 {
      var init := rows[..|rows| - 1];
      NetworkOfMeaning(init, parse, i);
      assert forall j :: 0 <= j < |init| ==> rows[j] == init[j];
      var net := NetworkOf(rows, parse).value;
      var last := rows[|rows| - 1];
      forall k | k in net
        ensures exists j :: 0 <= j < |rows| && Key(rows[j].src, Dashes, rows[j].tar) == k
      {
        if k != Key(last.src, Dashes, last.tar) {
          var j :| 0 <= j < |init| && Key(init[j].src, Dashes, init[j].tar) == k;
          assert rows[j] == init[j];
        }
      }
    }
  }

  lemma {:induction false} NetworkErrStays(rows: seq<NetRow>, k: nat, parse: Parse)
    requires k <= |rows| && NetworkOf(rows[..k], parse).Err?
    ensures NetworkOf(rows, parse) == NetworkOf(rows[..k], parse)
    decreases |rows| - k
  {
    if k < |rows| {
      assert rows[..|rows| - 1][..k] == rows[..k];
      NetworkErrStays(rows[..|rows| - 1], k, parse);
    } else {
      assert rows[..k] == rows;
    }
  }

  /** The loop reading the network file. */
  method ReadNetwork(rows: seq<NetRow>, parse: Parse) returns (r: Result<Network, LegacyError>)
    ensures r == NetworkOf(rows, parse)
  {
    var net: Network := map[];
    for i := 0 to |rows|
      invariant NetworkOf(rows[..i], parse) == Ok(net)
    {
      assert rows[..i + 1][..i] == rows[..i];
      var w := parse(rows[i].weight);
      if w.None? {
        NetworkErrStays(rows, i + 1, parse);
        return Err(BadWeight(rows[i].weight));
      }
      net := net[rows[i].src + Dashes + rows[i].tar := Weight(w.value)];
    }
    assert rows[..|rows|] == rows;
    return Ok(net);
  }

  // ---- the double loop ----

  /** One pass of the inner loop body: the entry of src--tar, for two distinct
      markers, becomes a record holding the entry found there. */
  function JoinPair(net: Network, src: string, tar: string, m: Table, correlate: Correlate): (r: Network)
    ensures r.Keys == net.Keys
  {
    var k := Key(src, Dashes, tar);
    if src in m && tar in m && src != tar && k in net then
      net[k := Joined(m[src].symbol, m[tar].symbol, net[k], correlate(m[src].samples, m[tar].samples))]
    else net
  }

  /** The inner loop: src against every target in order. */
  function JoinRow(net: Network, src: string, tars: seq<string>, m: Table, correlate: Correlate): (r: Network)
    ensures r.Keys == net.Keys
  {
    if |tars| == 0 then net
    else JoinPair(JoinRow(net, src, tars[..|tars| - 1], m, correlate), src, tars[|tars| - 1], m, correlate)
  }

  /** Both loops: every source in order against every target. */
  function JoinAll(net: Network, srcs: seq<string>, tars: seq<string>, m: Table, correlate: Correlate): (r: Network)
    ensures r.Keys == net.Keys
  {
    if |srcs| == 0 then net
    else JoinRow(JoinAll(net, srcs[..|srcs| - 1], tars, m, correlate), srcs[|srcs| - 1], tars, m, correlate)
  }

  predicate NoDash(s: string)
  {
    forall i :: 0 <= i < |s| ==> s[i] != '-'
  }

  /** Marker ids without '-': then no two pairs of markers share a key. */
  predicate DashFreeIds(m: Table)
  {
    forall k :: k in m ==> NoDash(k)
  }

  predicate Distinct(s: seq<string>)
  {
    forall i, j :: 0 <= i < j < |s| ==> s[i] != s[j]
  }

  lemma SortedDistinct(s: seq<string>)
    requires StrictlySorted(s)
    ensures Distinct(s)
  {
    forall i, j | 0 <= i < j < |s|
      ensures s[i] != s[j]
    {
      LessAsymmetric(s[i], s[j]);
    }
  }

  /** Dash-free ids are found back by splitting their key. */
  lemma DashFreeSplit(a: string, b: string)
    requires NoDash(a) && NoDash(b)
    ensures Split(Key(a, Dashes, b), Dashes) == [a, b]
  {
    forall j | 0 <= j < |a|
      ensures !OccursAt(a + Dashes, Dashes, j)
    {
      assert (a + Dashes)[j..j + 2][0] == a[j];
    }
    forall j
      ensures !OccursAt(b, Dashes, j)
    {
      if 0 <= j && j + 2 <= |b| {
        assert b[j..j + 2][0] == b[j];
      }
    }
    SplitPair(a, Dashes, b);
  }

  /** A key splitting into two pieces is the key of those pieces. */
  lemma PiecesKey(k: string)
    requires |Split(k, Dashes)| == 2
    ensures k == Key(Split(k, Dashes)[0], Dashes, Split(k, Dashes)[1])
  {
    var p := Split(k, Dashes);
    JoinSplit(k, Dashes);
    JoinCons(p[0], p[1..], Dashes);
    assert p[1..] == [p[1]];
  }

  /** The edge joins two distinct markers: its key splits into their ids. */
  predicate Linked(k: string, m: Table)
  {
    var p := Split(k, Dashes);
    |p| == 2 && p[0] in m && p[1] in m && p[0] != p[1]
  }

  /** What the double loop makes of the entry `v` at `k`, whatever the order. */
  function RefValue(k: string, v: NetValue, m: Table, correlate: Correlate): NetValue
  {
    var p := Split(k, Dashes);
    if Linked(k, m) then Joined(m[p[0]].symbol, m[p[1]].symbol, v, correlate(m[p[0]].samples, m[p[1]].samples))
    else v
  }

  function RefJoin(net: Network, m: Table, correlate: Correlate): Network
  {
    map k | k in net :: RefValue(k, net[k], m, correlate)
  }

  predicate Hit(k: string, src: string, tars: seq<string>)
  {
    var p := Split(k, Dashes);
    |p| == 2 && p[0] == src && p[1] in tars
  }

  predicate HitAll(k: string, srcs: seq<string>, tars: seq<string>)
  {
    var p := Split(k, Dashes);
    |p| == 2 && p[0] in srcs && p[1] in tars
  }

  predicate DashFreeIn(s: seq<string>, m: Table)
  {
    forall x :: x in s ==> x in m && NoDash(x)
  }

  /** One inner step, at one key. */
  lemma JoinPairAt(r0: Network, net: Network, src: string, init: seq<string>, t: string,
                   m: Table, correlate: Correlate, k: string)
    requires k in r0 && k in net && src in m && t in m && t !in init
    requires Split(Key(src, Dashes, t), Dashes) == [src, t]
    requires |Split(k, Dashes)| == 2 ==> k == Key(Split(k, Dashes)[0], Dashes, Split(k, Dashes)[1])
    requires r0[k] == if Hit(k, src, init) then RefValue(k, net[k], m, correlate) else net[k]
    ensures JoinPair(r0, src, t, m, correlate)[k] ==
      if Hit(k, src, init + [t]) then RefValue(k, net[k], m, correlate) else net[k]
  {
    var p := Split(k, Dashes);
    if k == Key(src, Dashes, t) {
      assert p == [src, t];
      assert !Hit(k, src, init);
      assert Hit(k, src, init + [t]);
    } else {
      assert Hit(k, src, init + [t]) == Hit(k, src, init);
    }
  }

  /** After the inner loop of src, the entry at k has been joined iff k is the key
      of src and one of the targets. */
  lemma {:induction false} JoinRowAt(net: Network, src: string, tars: seq<string>, m: Table, correlate: Correlate, k: string)
    requires k in net && src in m && NoDash(src) && Distinct(tars) && DashFreeIn(tars, m)
    ensures JoinRow(net, src, tars, m, correlate)[k] == if Hit(k, src, tars) then RefValue(k, net[k], m, correlate) else net[k]
  {
    if |tars| > 0 {
      var init := tars[..|tars| - 1];
      var t := tars[|tars| - 1];
      assert forall i :: 0 <= i < |init| ==> init[i] == tars[i] && init[i] != t;
      assert tars == init + [t];
      JoinRowAt(net, src, init, m, correlate, k);
      DashFreeSplit(src, t);
      if |Split(k, Dashes)| == 2 {
        PiecesKey(k);
      }
      JoinPairAt(JoinRow(net, src, init, m, correlate), net, src, init, t, m, correlate, k);
    }
  }

  /** After both loops, the entry at k has been joined iff k is the key of one of
      the sources and one of the targets. */
  lemma {:induction false} JoinAllAt(net: Network, srcs: seq<string>, tars: seq<string>, m: Table, correlate: Correlate, k: string)
    requires k in net && Distinct(srcs) && Distinct(tars) && DashFreeIn(srcs, m) && DashFreeIn(tars, m)
    ensures JoinAll(net, srcs, tars, m, correlate)[k] == if HitAll(k, srcs, tars) then RefValue(k, net[k], m, correlate) else net[k]
  {
    if |srcs| > 0 {
      var init := srcs[..|srcs| - 1];
      var s := srcs[|srcs| - 1];
      assert forall i :: 0 <= i < |init| ==> init[i] == srcs[i] && init[i] != s;
      assert srcs == init + [s];
      JoinAllAt(net, init, tars, m, correlate, k);
      JoinRowAt(JoinAll(net, init, tars, m, correlate), s, tars, m, correlate, k);
    }
  }

  /** With dash-free ids, the double loop over the markers in any order gives what
      the reference gives: every edge between two distinct markers joined, around
      its weight; every other entry as it was. */
  lemma JoinAllIsRef(net: Network, ids: seq<string>, m: Table, correlate: Correlate)
    requires DashFreeIds(m) && Distinct(ids) && forall x :: x in ids <==> x in m
    ensures JoinAll(net, ids, ids, m, correlate) == RefJoin(net, m, correlate)
  {
    var j := JoinAll(net, ids, ids, m, correlate);
    forall k | k in net
      ensures j[k] == RefValue(k, net[k], m, correlate)
    {
      JoinAllAt(net, ids, ids, m, correlate, k);
    }
  }

  // ---- the writing loop ----

  /** The line of one entry: its key's two pieces, the record's symbols, the weight
      inside it and its coefficients. */
  function EdgeRow(edge: string, v: NetValue): (r: Result<EnhancedRow, LegacyError>)
  {
    var t := Split(edge, Dashes);
    if |t| < 2 then Err(NoSeparator(edge))
    else match v
      case Weight(_) => Err(NotJoined(edge))
      case Joined(ss, ts, mi, c) =>
        match mi
          case Joined(_, _, _, _) => Err(NestedMi(edge))
          case Weight(w) => Ok(EnhancedRow(t[0], t[1], ss, ts, w, c))
  }

  /** The keys of a parsed network always split in two, so writing one of its
      entries never fails for want of a separator. */
  lemma NetworkKeysSplit(rows: seq<NetRow>, parse: Parse, k: string, v: NetValue)
    requires NetworkOf(rows, parse).Ok? && k in NetworkOf(rows, parse).value
    ensures |Split(k, Dashes)| >= 2
    ensures EdgeRow(k, v) != Err(NoSeparator(k))
  {
    Consensus.KeyShapedSplits(k, Dashes);
  }

  function EdgeRows(edges: seq<string>, net: Network): (r: Result<seq<EnhancedRow>, LegacyError>)
    requires forall e :: e in edges ==> e in net
    ensures r.Ok? ==> |r.value| == |edges|
  {
    if |edges| == 0 then Ok([])
    else match EdgeRows(edges[..|edges| - 1], net)
      case Err(e) => Err(e)
      case Ok(rows) => match EdgeRow(edges[|edges| - 1], net[edges[|edges| - 1]])
        case Err(e) => Err(e)
        case Ok(row) => Ok(rows + [row])
  }

  /** The lines are those of the entries, in order. */
  lemma {:induction false} EdgeRowsOk(edges: seq<string>, net: Network, i: nat)
    requires (forall e :: e in edges ==> e in net) && EdgeRows(edges, net).Ok? && i < |edges|
    ensures EdgeRow(edges[i], net[edges[i]]) == Ok(EdgeRows(edges, net).value[i])
  {
    if i < |edges| - 1 {
      EdgeRowsOk(edges[..|edges| - 1], net, i);
    }
  }

  /** The error is that of the first entry that fails. */
  lemma {:induction false} EdgeRowsErr(edges: seq<string>, net: Network) returns (i: nat)
    requires (forall e :: e in edges ==> e in net) && EdgeRows(edges, net).Err?
    ensures i < |edges| && EdgeRow(edges[i], net[edges[i]]) == Err(EdgeRows(edges, net).error)
    ensures forall j :: 0 <= j < i ==> EdgeRow(edges[j], net[edges[j]]).Ok?
  {
    var init := edges[..|edges| - 1];
    if EdgeRows(init, net).Err? {
      i := EdgeRowsErr(init, net);
    } else {
      i := |edges| - 1;
      forall j | 0 <= j < i
        ensures EdgeRow(edges[j], net[edges[j]]).Ok?
      {
        EdgeRowsOk(init, net, j);
      }
    }
  }

  /** The writing loop succeeds iff every entry's line can be written. */
  lemma {:induction false} EdgeRowsOkIff(edges: seq<string>, net: Network)
    requires forall e :: e in edges ==> e in net
    ensures EdgeRows(edges, net).Ok? <==> forall i :: 0 <= i < |edges| ==> EdgeRow(edges[i], net[edges[i]]).Ok?
  {
    if EdgeRows(edges, net).Ok? {
      forall i | 0 <= i < |edges|
        ensures EdgeRow(edges[i], net[edges[i]]).Ok?
      {
        EdgeRowsOk(edges, net, i);
      }
    } else {
      var i := EdgeRowsErr(edges, net);
    }
  }

  lemma {:induction false} EdgeErrStays(edges: seq<string>, k: nat, net: Network)
    requires forall e :: e in edges ==> e in net
    requires k <= |edges| && EdgeRows(edges[..k], net).Err?
    ensures EdgeRows(edges, net) == EdgeRows(edges[..k], net)
    decreases |edges| - k
  {
    if k < |edges| {
      assert edges[..|edges| - 1][..k] == edges[..k];
      EdgeErrStays(edges[..|edges| - 1], k, net);
    } else {
      assert edges[..k] == edges;
    }
  }

  /** The subnet test of this script: the stripped symbols. */
  predicate InSubnetStripped(row: EnhancedRow, list: seq<string>)
  {
    Strip(row.sourceSymbol) in list || Strip(row.targetSymbol) in list
  }

  function StrippedAppend(sub: seq<EnhancedRow>, row: EnhancedRow, list: Option<seq<string>>): seq<EnhancedRow>
  {
    if list.Some? && InSubnetStripped(row, list.value) then sub + [row] else sub
  }

  /** The data lines of the subnet file (after its header line). */
  function StrippedSubnetRows(rows: seq<EnhancedRow>, list: seq<string>): (r: seq<EnhancedRow>)
    ensures forall x :: x in r <==> x in rows && InSubnetStripped(x, list)
    ensures |r| <= |rows|
  {
    if |rows| == 0 then []
    else
      var init := rows[..|rows| - 1];
      assert rows == init + [rows[|rows| - 1]];
      StrippedAppend(StrippedSubnetRows(init, list), rows[|rows| - 1], Some(list))
  }

  /** The outputs of the writing loop over `edges`: the text lines after the
      header, the subnet file's lines after its header (written when a subnet
      list is given), and the sheet with the header at row 0. */
  function LegacyOutput(edges: seq<string>, net: Network, list: Option<seq<string>>): Result<Standalone, LegacyError>
    requires forall e :: e in edges ==> e in net
  {
    match EdgeRows(edges, net)
      case Err(e) => Err(e)
      case Ok(rows) =>
        Ok(Standalone(Enhanced(rows, match list case None => None case Some(l) => Some(StrippedSubnetRows(rows, l))),
                      SheetOf(rows)))
  }

  /** The script, with dictionary order taken to be ascending key order. */
  ghost function LegacyEnhanceSpec(expRows: seq<ExpRow>, netRows: seq<NetRow>, subnet: Option<seq<string>>,
                                   parse: Parse, correlate: Correlate): Result<Standalone, LegacyError>
  {
    match MarkerSet(expRows, parse)
      case Err(e) => Err(e)
      case Ok(m) =>
        match NetworkOf(netRows, parse)
          case Err(e) => Err(e)
          case Ok(net) =>
            var ids := SortedOf(m.Keys);
            var joined := JoinAll(net, ids, ids, m, correlate);
            LegacyOutput(SortedOf(joined.Keys), joined, SubnetOption(subnet))
  }

  // ---- the methods ----

  ghost predicate RowInv(joined: Network, start: Network, src: string, ids: seq<string>, j: nat, m: Table, correlate: Correlate)
  {
    j <= |ids| && joined == JoinRow(start, src, ids[..j], m, correlate)
  }

  lemma RowStep(joined: Network, start: Network, src: string, ids: seq<string>, j: nat, m: Table, correlate: Correlate)
    requires RowInv(joined, start, src, ids, j, m, correlate) && j < |ids|
    ensures RowInv(JoinPair(joined, src, ids[j], m, correlate), start, src, ids, j + 1, m, correlate)
  {
    assert ids[..j + 1][..j] == ids[..j];
  }

  /** The inner loop over the targets. */
  method JoinSource(net: Network, src: string, ids: seq<string>, m: Table, correlate: Correlate) returns (joined: Network)
    requires src in m && forall x :: x in ids ==> x in m
    ensures joined == JoinRow(net, src, ids, m, correlate)
  {
    joined := net;
    for j := 0 to |ids|
      invariant RowInv(joined, net, src, ids, j, m, correlate)
    {
      RowStep(joined, net, src, ids, j, m, correlate);
      var tar := ids[j];
      var key := src + Dashes + tar;
      if src != tar && key in joined {
        var s, t := m[src], m[tar];
        joined := joined[key := Joined(s.symbol, t.symbol, joined[key], correlate(s.samples, t.samples))];
      }
    }
    assert ids[..|ids|] == ids;
  }

  /** The double loop over the markers. */
  method JoinPairs(net: Network, ids: seq<string>, m: Table, correlate: Correlate) returns (joined: Network)
    requires forall x :: x in ids ==> x in m
    ensures joined == JoinAll(net, ids, ids, m, correlate)
  {
    joined := net;
    for i := 0 to |ids|
      invariant joined == JoinAll(net, ids[..i], ids, m, correlate)
    {
      assert ids[..i + 1][..i] == ids[..i];
      joined := JoinSource(joined, ids[i], ids, m, correlate);
    }
    assert ids[..|ids|] == ids;
  }

  ghost predicate WriteInv(edges: seq<string>, net: Network, list: Option<seq<string>>, i: nat,
                           rows: seq<EnhancedRow>, sub: seq<EnhancedRow>, sheet: Sheet, rowIndex: nat)
    requires forall e :: e in edges ==> e in net
  {
    i <= |edges| && |rows| == i && EdgeRows(edges[..i], net) == Ok(rows) &&
    (list.Some? ==> sub == StrippedSubnetRows(rows, list.value)) &&
    sheet == SheetOf(rows) && rowIndex == i + 1
  }

  lemma WriteStep(edges: seq<string>, net: Network, list: Option<seq<string>>, i: nat,
                  rows: seq<EnhancedRow>, sub: seq<EnhancedRow>, sheet: Sheet, rowIndex: nat, row: EnhancedRow)
    requires forall e :: e in edges ==> e in net
    requires WriteInv(edges, net, list, i, rows, sub, sheet, rowIndex) && i < |edges|
    requires EdgeRow(edges[i], net[edges[i]]) == Ok(row)
    ensures WriteInv(edges, net, list, i + 1, rows + [row], StrippedAppend(sub, row, list),
                     sheet[rowIndex := DataRow(row)], rowIndex + 1)
  {
    assert edges[..i + 1][..i] == edges[..i];
    assert edges[..i + 1][i] == edges[i];
    SheetStep(rows, row);
    if list.Some? {
      assert (rows + [row])[..|rows|] == rows;
    }
  }

  lemma WriteFails(edges: seq<string>, net: Network, i: nat, rows: seq<EnhancedRow>)
    requires forall e :: e in edges ==> e in net
    requires i < |edges| && EdgeRows(edges[..i], net) == Ok(rows) && EdgeRow(edges[i], net[edges[i]]).Err?
    ensures EdgeRows(edges, net) == Err(EdgeRow(edges[i], net[edges[i]]).error)
  {
    assert edges[..i + 1][..i] == edges[..i];
    assert edges[..i + 1][i] == edges[i];
    EdgeErrStays(edges, i + 1, net);
  }

  lemma WriteDone(edges: seq<string>, net: Network, list: Option<seq<string>>,
                  rows: seq<EnhancedRow>, sub: seq<EnhancedRow>, sheet: Sheet, rowIndex: nat)
    requires forall e :: e in edges ==> e in net
    requires WriteInv(edges, net, list, |edges|, rows, sub, sheet, rowIndex)
    ensures LegacyOutput(edges, net, list) == Ok(Standalone(Enhanced(rows, if list.Some? then Some(sub) else None), sheet))
  {
    assert edges[..|edges|] == edges;
  }

  /** The writing loop: header at sheet row 0, then every entry at the next row. */
  method WriteEdges(edges: seq<string>, net: Network, list: Option<seq<string>>) returns (r: Result<Standalone, LegacyError>)
    requires forall e :: e in edges ==> e in net
    ensures r == LegacyOutput(edges, net, list)
  {
    var sheet: Sheet := map[0 := HeaderRow];
    var rowIndex: nat := 1;
    var rows: seq<EnhancedRow> := [];
    var sub: seq<EnhancedRow> := [];
    for i := 0 to |edges|
      invariant WriteInv(edges, net, list, i, rows, sub, sheet, rowIndex)
    {
      var res := EdgeRow(edges[i], net[edges[i]]);
      if res.Err? {
        WriteFails(edges, net, i, rows);
        return Err(res.error);
      }
      WriteStep(edges, net, list, i, rows, sub, sheet, rowIndex, res.value);
      sheet := sheet[rowIndex := DataRow(res.value)];
      rowIndex := rowIndex + 1;
      rows, sub := rows + [res.value], StrippedAppend(sub, res.value, list);
    }
    WriteDone(edges, net, list, rows, sub, sheet, rowIndex);
    return Ok(Standalone(Enhanced(rows, if list.Some? then Some(sub) else None), sheet));
  }

  /** The script from reading the expression file to the writing loop. */
  method LegacyEnhanceNetwork(expRows: seq<ExpRow>, netRows: seq<NetRow>, subnet: Option<seq<string>>,
                              parse: Parse, correlate: Correlate) returns (r: Result<Standalone, LegacyError>)
    ensures r == LegacyEnhanceSpec(expRows, netRows, subnet, parse, correlate)
  {
    var markers := ReadMarkers(expRows, parse);
    if markers.Err? {
      return Err(markers.error);
    }
    var net := ReadNetwork(netRows, parse);
    if net.Err? {
      return Err(net.error);
    }
    var m := markers.value;
    var ids := SortKeys(m.Keys);
    var joined := JoinPairs(net.value, ids, m, correlate);
    var list := ReadSubnet(subnet);
    var edges := SortKeys(joined.Keys);
    r := WriteEdges(edges, joined, list);
  }

  // ---- what the script writes ----

  /** The line of an edge between two distinct markers. */
  function LinkedRow(k: string, w: real, m: Table, correlate: Correlate): EnhancedRow
    requires Linked(k, m)
  {
    var p := Split(k, Dashes);
    EnhancedRow(p[0], p[1], m[p[0]].symbol, m[p[1]].symbol, w, correlate(m[p[0]].samples, m[p[1]].samples))
  }

  /** A joined weight is written as the line of its edge; an entry the loops left
      alone fails as a bare weight. */
  lemma EdgeRowOfRef(k: string, w: real, m: Table, correlate: Correlate)
    requires KeyShaped(k, Dashes)
    ensures Linked(k, m) ==> EdgeRow(k, RefValue(k, Weight(w), m, correlate)) == Ok(LinkedRow(k, w, m, correlate))
    ensures !Linked(k, m) ==> EdgeRow(k, RefValue(k, Weight(w), m, correlate)) == Err(NotJoined(k))
  {
    Consensus.KeyShapedSplits(k, Dashes);
  }

  lemma LegacyParts(expRows: seq<ExpRow>, netRows: seq<NetRow>, subnet: Option<seq<string>>,
                    parse: Parse, correlate: Correlate)
    requires MarkerSet(expRows, parse).Ok? && NetworkOf(netRows, parse).Ok?
    requires DashFreeIds(MarkerSet(expRows, parse).value)
    ensures var m := MarkerSet(expRows, parse).value;
      var net := NetworkOf(netRows, parse).value;
      var joined := RefJoin(net, m, correlate);
      joined.Keys == net.Keys &&
      LegacyEnhanceSpec(expRows, netRows, subnet, parse, correlate) ==
        LegacyOutput(SortedOf(net.Keys), joined, SubnetOption(subnet))
  {
    var m := MarkerSet(expRows, parse).value;
    var ids := SortedOf(m.Keys);
    SortedDistinct(ids);
    JoinAllIsRef(NetworkOf(netRows, parse).value, ids, m, correlate);
  }

  /** Every entry of the joined network is written as the line of its edge when
      the edge joins two distinct markers, and fails as a bare weight otherwise. */
  lemma EdgeFacts(net: Network, m: Table, correlate: Correlate)
    requires forall k :: k in net ==> net[k].Weight? && KeyShaped(k, Dashes)
    ensures forall k :: k in net && Linked(k, m) ==>
      EdgeRow(k, RefJoin(net, m, correlate)[k]) == Ok(LinkedRow(k, net[k].w, m, correlate))
    ensures forall k :: k in net && !Linked(k, m) ==> EdgeRow(k, RefJoin(net, m, correlate)[k]) == Err(NotJoined(k))
  {
    forall k | k in net
      ensures Linked(k, m) ==> EdgeRow(k, RefJoin(net, m, correlate)[k]) == Ok(LinkedRow(k, net[k].w, m, correlate))
      ensures !Linked(k, m) ==> EdgeRow(k, RefJoin(net, m, correlate)[k]) == Err(NotJoined(k))
    {
      EdgeRowOfRef(k, net[k].w, m, correlate);
    }
  }

  /** With dash-free marker ids, the script succeeds iff every edge of the network
      joins two distinct markers. */
  lemma LegacySucceeds(expRows: seq<ExpRow>, netRows: seq<NetRow>, subnet: Option<seq<string>>,
                       parse: Parse, correlate: Correlate)
    requires MarkerSet(expRows, parse).Ok? && NetworkOf(netRows, parse).Ok?
    requires DashFreeIds(MarkerSet(expRows, parse).value)
    ensures LegacyEnhanceSpec(expRows, netRows, subnet, parse, correlate).Ok? <==>
      forall k :: k in NetworkOf(netRows, parse).value ==> Linked(k, MarkerSet(expRows, parse).value)
  {
    var m := MarkerSet(expRows, parse).value;
    var net := NetworkOf(netRows, parse).value;
    var joined := RefJoin(net, m, correlate);
    var edges := SortedOf(net.Keys);
    LegacyParts(expRows, netRows, subnet, parse, correlate);
    EdgeFacts(net, m, correlate);
    EdgeRowsOkIff(edges, joined);
    forall j | 0 <= j < |edges|
      ensures EdgeRow(edges[j], joined[edges[j]]).Ok? <==> Linked(edges[j], m)
    {
      assert edges[j] in net;
    }
    ListingLinked(edges, net, m);
  }

  lemma ListingLinked(edges: seq<string>, net: Network, m: Table)
    requires forall y :: y in edges <==> y in net
    ensures (forall k :: k in net ==> Linked(k, m)) <==> forall j :: 0 <= j < |edges| ==> Linked(edges[j], m)
  {
    if forall j :: 0 <= j < |edges| ==> Linked(edges[j], m) {
      forall k | k in net
        ensures Linked(k, m)
      {
        var j :| 0 <= j < |edges| && edges[j] == k;
      }
    }
  }

  /** With dash-free marker ids, a successful run writes one line per edge, in key
      order, holding the edge's ids, their symbols, the edge's weight and their
      coefficients. */
  lemma LegacyRows(expRows: seq<ExpRow>, netRows: seq<NetRow>, subnet: Option<seq<string>>,
                   parse: Parse, correlate: Correlate, i: nat)
    requires MarkerSet(expRows, parse).Ok? && NetworkOf(netRows, parse).Ok?
    requires DashFreeIds(MarkerSet(expRows, parse).value)
    requires LegacyEnhanceSpec(expRows, netRows, subnet, parse, correlate).Ok?
    ensures var m := MarkerSet(expRows, parse).value;
      var net := NetworkOf(netRows, parse).value;
      var rows := LegacyEnhanceSpec(expRows, netRows, subnet, parse, correlate).value.enhanced.rows;
      |rows| == |SortedOf(net.Keys)| &&
      (i < |rows| ==> var k := SortedOf(net.Keys)[i];
        Linked(k, m) && rows[i] == LinkedRow(k, net[k].w, m, correlate))
  {
    var m := MarkerSet(expRows, parse).value;
    var net := NetworkOf(netRows, parse).value;
    var joined := RefJoin(net, m, correlate);
    var edges := SortedOf(net.Keys);
    LegacyParts(expRows, netRows, subnet, parse, correlate);
    if i < |edges| {
      EdgeFacts(net, m, correlate);
      EdgeRowsOk(edges, joined, i);
    }
  }

  /** With dash-free marker ids, a failed run fails on an edge that does not join two
      distinct markers. */
  lemma LegacyFails(expRows: seq<ExpRow>, netRows: seq<NetRow>, subnet: Option<seq<string>>,
                    parse: Parse, correlate: Correlate)
    requires MarkerSet(expRows, parse).Ok? && NetworkOf(netRows, parse).Ok?
    requires DashFreeIds(MarkerSet(expRows, parse).value)
    requires LegacyEnhanceSpec(expRows, netRows, subnet, parse, correlate).Err?
    ensures var r := LegacyEnhanceSpec(expRows, netRows, subnet, parse, correlate);
      exists k :: k in NetworkOf(netRows, parse).value && !Linked(k, MarkerSet(expRows, parse).value) && r.error == NotJoined(k)
  {
    var m := MarkerSet(expRows, parse).value;
    var net := NetworkOf(netRows, parse).value;
    var joined := RefJoin(net, m, correlate);
    var edges := SortedOf(net.Keys);
    LegacyParts(expRows, netRows, subnet, parse, correlate);
    EdgeFacts(net, m, correlate);
    var j := EdgeRowsErr(edges, joined);
    assert edges[j] in net;
  }
}
