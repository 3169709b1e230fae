/** The aggregation step shared by the two consensus scripts: every bootstrap
    adjacency file is read line by line; a line not starting with '>' is a hub
    followed by (target, MI) pairs separated by tabs, and every pair is an
    observation of the edge keyed hub + SEP + target. The scripts differ only
    in SEP ("----" in the current script, "--" in the older one). */
module Bootstrap {
  import opened Wrappers
  import opened Strings

  /** One observed edge of one bootstrap run. */
  datatype Edge = Edge(key: string, weight: real)

  /** The exceptions the reading loop can raise. */
  datatype AggregateError =
    | EmptyLine                        // line[0] of an empty line
    | MissingWeight(target: string)    // tokens[index + 1] past the end
    | NotANumber(token: string)        // float() of a token that is no number

  /** Python's float() applied to a token: the value, or None where it raises. */
  type Parse = string -> Option<real>

  /** The edge key built from a hub and a target. */
  function Key(hub: string, sep: string, target: string): string
  {
    hub + sep + target
  }

  predicate IsHeader(line: string)
  {
    |line| > 0 && line[0] == '>'
  }

  /** The observation of the pair whose target sits at token index i. */
  function PairAt(t: seq<string>, i: nat, sep: string, parse: Parse): (r: Result<Edge, AggregateError>)
    requires 1 <= i < |t|
    ensures r.Ok? ==> r.value.key == Key(t[0], sep, t[i]) && i + 1 < |t| && parse(t[i + 1]) == Some(r.value.weight)
    ensures r.Err? <==> i + 1 == |t| || parse(t[i + 1]).None?
  {
    if i + 1 >= |t| then Err(MissingWeight(t[i]))
    else match parse(t[i + 1])
      case None => Err(NotANumber(t[i + 1]))
      case Some(w) => Ok(Edge(Key(t[0], sep, t[i]), w))
  }

  /** The observations of the pairs at token indices 1, 3, ..., 2m - 1, or the first
      error among them. */
  function PairsUpTo(t: seq<string>, m: nat, sep: string, parse: Parse): (r: Result<seq<Edge>, AggregateError>)
    requires 2 * m <= |t|
    ensures r.Ok? ==> |r.value| == m
  {
    if m == 0 then Ok([])
    else match PairsUpTo(t, m - 1, sep, parse)
      case Err(e) => Err(e)
      case Ok(es) => match PairAt(t, 2 * m - 1, sep, parse)
        case Err(e) => Err(e)
        case Ok(e) => Ok(es + [e])
  }

  /** The observations of one data line: its tab-separated tokens are a hub and,
      from index 1 on, every other token is a target followed by its weight. */
  function LineEdges(line: string, sep: string, parse: Parse): Result<seq<Edge>, AggregateError>
  {
    var t := Split(line, "\t");
    PairsUpTo(t, |t| / 2, sep, parse)
  }

  /** What one line of a bootstrap file contributes: nothing for a header line,
      its pairs for a data line, and IndexError for an empty line (line[0]). */
  function LineOutcome(line: string, sep: string, parse: Parse): Result<seq<Edge>, AggregateError>
  {
    if |line| == 0 then Err(EmptyLine)
    else if IsHeader(line) then Ok([])
    else LineEdges(line, sep, parse)
  }

  /** The observations of the lines of a file, or the first error. */
  function FileEdges(lines: seq<string>, sep: string, parse: Parse): Result<seq<Edge>, AggregateError>
  {
    if |lines| == 0 then Ok([])
    else match FileEdges(lines[..|lines| - 1], sep, parse)
      case Err(e) => Err(e)
      case Ok(es) => match LineOutcome(lines[|lines| - 1], sep, parse)
        case Err(e) => Err(e)
        case Ok(more) => Ok(es + more)
  }

  /** The observations of every run, run by run, or the first error. */
  function RunEdges(files: seq<seq<string>>, sep: string, parse: Parse): (r: Result<seq<seq<Edge>>, AggregateError>)
    ensures r.Ok? ==> |r.value| == |files|
  {
    if |files| == 0 then Ok([])
    else match RunEdges(files[..|files| - 1], sep, parse)
      case Err(e) => Err(e)
      case Ok(runs) => match FileEdges(files[|files| - 1], sep, parse)
        case Err(e) => Err(e)
        case Ok(es) => Ok(runs + [es])
  }

  /** The header lines of a file, concatenated. */
  function HeaderText(lines: seq<string>): string
  {
    if |lines| == 0 then ""
    else HeaderText(lines[..|lines| - 1]) + (if IsHeader(lines[|lines| - 1]) then lines[|lines| - 1] else "")
  }

  function Flatten(runs: seq<seq<Edge>>): seq<Edge>
  {
    if |runs| == 0 then [] else Flatten(runs[..|runs| - 1]) + runs[|runs| - 1]
  }

  /** The number of edges each run contributed. */
  function RunCounts(runs: seq<seq<Edge>>): (r: seq<nat>)
    ensures |r| == |runs| && forall i :: 0 <= i < |runs| ==> r[i] == |runs[i]|
  {
    if |runs| == 0 then [] else RunCounts(runs[..|runs| - 1]) + [|runs[|runs| - 1]|]
  }

  /** What the two dictionaries hold for one key: how often it was seen (its
      support) and the sum of its weights. Both dictionaries are always updated
      together and so have the same keys; they are modelled as one map. */
  datatype Stat = Stat(support: nat, miSum: real)

  type Tally = map<string, Stat>

  /** One observation: a new key starts at (1, weight); a known one gains 1 and the weight. */
  function AddEdge(t: Tally, e: Edge): (r: Tally)
    ensures e.key in r && r[e.key].support >= 1
  {
    if e.key in t then t[e.key := Stat(t[e.key].support + 1, t[e.key].miSum + e.weight)]
    else t[e.key := Stat(1, e.weight)]
  }

  /** The dictionaries after the observations `es`, starting from `t`. */
  function TallyFrom(t: Tally, es: seq<Edge>): Tally
  {
    if |es| == 0 then t else AddEdge(TallyFrom(t, es[..|es| - 1]), es[|es| - 1])
  }

  const NoEdges: Tally := map[]

  /** The dictionaries after the observations `es`, starting empty. */
  function TallyOf(es: seq<Edge>): Tally
  {
    TallyFrom(NoEdges, es)
  }

  lemma {:induction false} TallyFromAppend(t: Tally, xs: seq<Edge>, ys: seq<Edge>)
    ensures TallyFrom(t, xs + ys) == TallyFrom(TallyFrom(t, xs), ys)
    decreases |ys|
  {
    if |ys| == 0 {
      assert xs + ys == xs;
    } else {
      var ys' := ys[..|ys| - 1];
      assert (xs + ys)[..|xs + ys| - 1] == xs + ys';
      TallyFromAppend(t, xs, ys');
    }
  }

  /** Reference definitions: the number of observations of a key, and their weight. */
  function Count(es: seq<Edge>, k: string): nat
  {
    if |es| == 0 then 0 else Count(es[..|es| - 1], k) + (if es[|es| - 1].key == k then 1 else 0)
  }

  function WeightSum(es: seq<Edge>, k: string): real
  {
    if |es| == 0 then 0.0 else WeightSum(es[..|es| - 1], k) + (if es[|es| - 1].key == k then es[|es| - 1].weight else 0.0)
  }

  lemma {:induction false} WeightSumAbsent(es: seq<Edge>, k: string)
    requires Count(es, k) == 0
    ensures WeightSum(es, k) == 0.0
  {
    if |es| > 0 {
      WeightSumAbsent(es[..|es| - 1], k);
    }
  }

  /** The dictionaries hold exactly the observed keys; the support of a key is the
      number of its observations and its MI total the sum of their weights. */
  lemma {:induction false} TallyCounts(es: seq<Edge>, k: string)
    ensures k in TallyOf(es) <==> Count(es, k) > 0
    ensures k in TallyOf(es) ==> TallyOf(es)[k] == Stat(Count(es, k), WeightSum(es, k))
  {
    if |es| > 0 {
      var init, e := es[..|es| - 1], es[|es| - 1];
      TallyCounts(init, k);
      var t := TallyOf(init);
      assert TallyOf(es) == AddEdge(t, e);
      if e.key == k {
        assert Count(es, k) == Count(init, k) + 1;
        assert WeightSum(es, k) == WeightSum(init, k) + e.weight;
        if k !in t {
          WeightSumAbsent(init, k);
        }
      } else {
        assert Count(es, k) == Count(init, k);
        assert WeightSum(es, k) == WeightSum(init, k);
      }
    }
  }

  /** Some key of a non-empty tally. */
  ghost function AnyKey(m: Tally): (k: string)
    requires |m| != 0
    ensures k in m
  {
    var k :| k in m; k
  }

  /** The total of the support dictionary's values. */
  ghost function SupportTotal(m: Tally): nat
    decreases |m|
  {
    if |m| == 0 then 0
    else
      var k := AnyKey(m);
      m[k].support + SupportTotal(m - {k})
  }

  lemma {:induction false} SupportTotalRemove(m: Tally, k: string)
    requires k in m
    ensures SupportTotal(m) == m[k].support + SupportTotal(m - {k})
    decreases |m|
  {
    RemoveSmaller(m, k);
    var x := AnyKey(m);
    if x != k {
      var mx, mk := m - {x}, m - {k};
      RemoveSmaller(m, x);
      SupportTotalRemove(mx, k);
      SupportTotalRemove(mk, x);
      RemoveCommutes(m, x, k);
      var rest := mx - {k};
      assert mx[k] == m[k] && mk[x] == m[x];
      assert SupportTotal(mx) == m[k].support + SupportTotal(rest);
      assert SupportTotal(mk) == m[x].support + SupportTotal(rest);
    }
  }

  lemma RemoveSmaller(m: Tally, k: string)
    requires k in m
    ensures |m - {k}| == |m| - 1
    ensures forall j :: j in m - {k} <==> j in m && j != k
    ensures forall j :: j in m - {k} ==> (m - {k})[j] == m[j]
  {
    assert m.Keys == (m - {k}).Keys + {k};
  }

  lemma RemoveCommutes(m: Tally, x: string, k: string)
    ensures m - {x} - {k} == m - {k} - {x}
  {
  }

  /** Every observation adds exactly one to the support total. */
  lemma {:induction false} SupportTotalIsLength(es: seq<Edge>)
    ensures SupportTotal(TallyOf(es)) == |es|
  {
    if |es| > 0 {
      var init, e := es[..|es| - 1], es[|es| - 1];
      var t := TallyOf(init);
      SupportTotalIsLength(init);
      var t' := AddEdge(t, e);
      assert TallyOf(es) == t';
      SupportTotalRemove(t', e.key);
      assert t' - {e.key} == t - {e.key};
      if e.key in t {
        SupportTotalRemove(t, e.key);
      } else {
        assert t - {e.key} == t;
      }
    }
  }

  function Sum(s: seq<nat>): nat
  {
    if |s| == 0 then 0 else Sum(s[..|s| - 1]) + s[|s| - 1]
  }

  lemma {:induction false} RunCountsSum(runs: seq<seq<Edge>>)
    ensures Sum(RunCounts(runs)) == |Flatten(runs)|
  {
    if |runs| > 0 {
      RunCountsSum(runs[..|runs| - 1]);
      assert RunCounts(runs)[..|runs| - 1] == RunCounts(runs[..|runs| - 1]);
    }
  }

  /** The state the reading loop leaves behind. */
  datatype Aggregate = Aggregate(stats: Tally, runEdges: seq<nat>, parameters: string)

  /** The reading loop's outcome: the tally of every observation, each run's edge
      count, and the header lines of the first run. */
  function AggregateSpec(files: seq<seq<string>>, sep: string, parse: Parse): Result<Aggregate, AggregateError>
  {
    match RunEdges(files, sep, parse)
      case Err(e) => Err(e)
      case Ok(runs) =>
        Ok(Aggregate(TallyOf(Flatten(runs)), RunCounts(runs), if |files| > 0 then HeaderText(files[0]) else ""))
  }

  /** The per-run edge counts add up to the total support over all keys. */
  lemma RunCountsMatchSupport(files: seq<seq<string>>, sep: string, parse: Parse)
    requires AggregateSpec(files, sep, parse).Ok?
    ensures var a := AggregateSpec(files, sep, parse).value;
      Sum(a.runEdges) == SupportTotal(a.stats) && |a.runEdges| == |files|
  {
    var runs := RunEdges(files, sep, parse).value;
    RunCountsSum(runs);
    SupportTotalIsLength(Flatten(runs));
  }

  /** `k` is some hub + SEP + target. */
  ghost predicate KeyShaped(k: string, sep: string)
  {
    exists h, t :: k == Key(h, sep, t)
  }

  ghost predicate AllKeyed(es: seq<Edge>, sep: string)
  {
    forall i :: 0 <= i < |es| ==> KeyShaped(es[i].key, sep)
  }

  lemma AllKeyedAppend(xs: seq<Edge>, ys: seq<Edge>, sep: string)
    requires AllKeyed(xs, sep) && AllKeyed(ys, sep)
    ensures AllKeyed(xs + ys, sep)
  {
    forall i | 0 <= i < |xs + ys|
      ensures KeyShaped((xs + ys)[i].key, sep)
    {
      if i >= |xs| {
        assert (xs + ys)[i] == ys[i - |xs|];
      }
    }
  }

  lemma {:induction false} PairsKeyed(t: seq<string>, m: nat, sep: string, parse: Parse)
    requires 2 * m <= |t| && PairsUpTo(t, m, sep, parse).Ok?
    ensures AllKeyed(PairsUpTo(t, m, sep, parse).value, sep)
  {
    if m > 0 {
      PairsKeyed(t, m - 1, sep, parse);
      var e := PairAt(t, 2 * m - 1, sep, parse).value;
      assert KeyShaped(e.key, sep) by {
        assert e.key == Key(t[0], sep, t[2 * m - 1]);
      }
      AllKeyedAppend(PairsUpTo(t, m - 1, sep, parse).value, [e], sep);
    }
  }

  lemma LineKeyed(line: string, sep: string, parse: Parse)
    requires LineOutcome(line, sep, parse).Ok?
    ensures AllKeyed(LineOutcome(line, sep, parse).value, sep)
  {
    if !IsHeader(line) {
      var t := Split(line, "\t");
      PairsKeyed(t, |t| / 2, sep, parse);
    }
  }

  lemma {:induction false} FileKeyed(lines: seq<string>, sep: string, parse: Parse)
    requires FileEdges(lines, sep, parse).Ok?
    ensures AllKeyed(FileEdges(lines, sep, parse).value, sep)
  {
    if |lines| > 0 {
      var init := lines[..|lines| - 1];
      FileKeyed(init, sep, parse);
      LineKeyed(lines[|lines| - 1], sep, parse);
      AllKeyedAppend(FileEdges(init, sep, parse).value, LineOutcome(lines[|lines| - 1], sep, parse).value, sep);
    }
  }

  lemma {:induction false} RunsKeyed(files: seq<seq<string>>, sep: string, parse: Parse)
    requires RunEdges(files, sep, parse).Ok?
    ensures AllKeyed(Flatten(RunEdges(files, sep, parse).value), sep)
  {
    if |files| > 0 {
      var init := files[..|files| - 1];
      RunsKeyed(init, sep, parse);
      FileKeyed(files[|files| - 1], sep, parse);
      var done, cur := RunEdges(init, sep, parse).value, FileEdges(files[|files| - 1], sep, parse).value;
      FlattenSnoc(done, cur);
      AllKeyedAppend(Flatten(done), cur, sep);
    }
  }

  lemma {:induction false} TallyKeyed(es: seq<Edge>, k: string, sep: string)
    requires AllKeyed(es, sep) && k in TallyOf(es)
    ensures KeyShaped(k, sep) && TallyOf(es)[k].support > 0
  {
    TallyCounts(es, k);
    var i := CountWitness(es, k);
  }

  /** Every key of the dictionaries is some hub + SEP + target of the input, and
      was seen at least once. */
  lemma AggregateKeys(files: seq<seq<string>>, sep: string, parse: Parse)
    requires AggregateSpec(files, sep, parse).Ok?
    ensures var a := AggregateSpec(files, sep, parse).value;
      forall k :: k in a.stats ==> KeyShaped(k, sep) && a.stats[k].support > 0
  {
    var es := Flatten(RunEdges(files, sep, parse).value);
    RunsKeyed(files, sep, parse);
    forall k | k in TallyOf(es)
      ensures KeyShaped(k, sep) && TallyOf(es)[k].support > 0
    {
      TallyKeyed(es, k, sep);
    }
  }

  lemma {:induction false} CountWitness(es: seq<Edge>, k: string) returns (i: nat)
    requires Count(es, k) > 0
    ensures i < |es| && es[i].key == k
  {
    if es[|es| - 1].key == k {
      i := |es| - 1;
    } else {
      i := CountWitness(es[..|es| - 1], k);
    }
  }

  // ---- first-error propagation, used by the reading method ----

  lemma {:induction false} PairsErrStays(t: seq<string>, m: nat, n: nat, sep: string, parse: Parse)
    requires m <= n && 2 * n <= |t| && PairsUpTo(t, m, sep, parse).Err?
    ensures PairsUpTo(t, n, sep, parse) == PairsUpTo(t, m, sep, parse)
    decreases n - m
  {
    if m < n {
      PairsErrStays(t, m, n - 1, sep, parse);
    }
  }

  lemma {:induction false} FileErrStays(lines: seq<string>, k: nat, sep: string, parse: Parse)
    requires k <= |lines| && FileEdges(lines[..k], sep, parse).Err?
    ensures FileEdges(lines, sep, parse) == FileEdges(lines[..k], sep, parse)
    decreases |lines| - k
  {
    if k < |lines| {
      assert lines[..|lines| - 1][..k] == lines[..k];
      FileErrStays(lines[..|lines| - 1], k, sep, parse);
    } else {
      assert lines[..k] == lines;
    }
  }

  lemma {:induction false} RunErrStays(files: seq<seq<string>>, k: nat, sep: string, parse: Parse)
    requires k <= |files| && RunEdges(files[..k], sep, parse).Err?
    ensures RunEdges(files, sep, parse) == RunEdges(files[..k], sep, parse)
    decreases |files| - k
  {
    if k < |files| {
      assert files[..|files| - 1][..k] == files[..k];
      RunErrStays(files[..|files| - 1], k, sep, parse);
    } else {
      assert files[..k] == files;
    }
  }

  // ---- one step of each loop, used by the reading methods ----

  lemma PairsSnoc(t: seq<string>, m: nat, es: seq<Edge>, e: Edge, sep: string, parse: Parse)
    requires 2 * (m + 1) <= |t| && PairsUpTo(t, m, sep, parse) == Ok(es)
    requires PairAt(t, 2 * m + 1, sep, parse) == Ok(e)
    ensures PairsUpTo(t, m + 1, sep, parse) == Ok(es + [e])
  {
  }

  lemma FileSnoc(lines: seq<string>, li: nat, cur: seq<Edge>, more: seq<Edge>, sep: string, parse: Parse)
    requires li < |lines| && FileEdges(lines[..li], sep, parse) == Ok(cur)
    requires LineOutcome(lines[li], sep, parse) == Ok(more)
    ensures FileEdges(lines[..li + 1], sep, parse) == Ok(cur + more)
  {
    assert lines[..li + 1][..li] == lines[..li];
  }

  lemma HeaderSnoc(lines: seq<string>, li: nat)
    requires li < |lines|
    ensures HeaderText(lines[..li + 1]) == HeaderText(lines[..li]) + if IsHeader(lines[li]) then lines[li] else ""
  {
    assert lines[..li + 1][..li] == lines[..li];
  }

  lemma RunEdgesSnoc(files: seq<seq<string>>, run: nat, done: seq<seq<Edge>>, cur: seq<Edge>, sep: string, parse: Parse)
    requires run < |files| && RunEdges(files[..run], sep, parse) == Ok(done)
    requires FileEdges(files[run], sep, parse) == Ok(cur)
    ensures RunEdges(files[..run + 1], sep, parse) == Ok(done + [cur])
  {
    assert files[..run + 1][..run] == files[..run];
  }

  lemma FlattenSnoc(done: seq<seq<Edge>>, cur: seq<Edge>)
    ensures Flatten(done + [cur]) == Flatten(done) + cur
    ensures RunCounts(done + [cur]) == RunCounts(done) + [|cur|]
  {
    assert (done + [cur])[..|done|] == done;
  }

  lemma TallyOfSnoc(done: seq<seq<Edge>>, cur: seq<Edge>)
    ensures TallyOf(Flatten(done + [cur])) == TallyFrom(TallyOf(Flatten(done)), cur)
  {
    FlattenSnoc(done, cur);
    TallyFromAppend(NoEdges, Flatten(done), cur);
  }

  lemma Half(n: nat, m: nat)
    requires 2 * m <= n
    ensures m <= n / 2
    ensures n <= 2 * m + 1 ==> n / 2 == m
  {
  }

  lemma TallyFromSnoc(t: Tally, es: seq<Edge>, e: Edge)
    ensures TallyFrom(t, es + [e]) == AddEdge(TallyFrom(t, es), e)
  {
    assert (es + [e])[..|es|] == es;
  }

  /** The dictionary update for one observation: a known key gains 1 and the weight,
      a new key starts at 1 and the weight. */
  method Observe(stats: Tally, key: string, w: real) returns (stats': Tally)
    ensures stats' == AddEdge(stats, Edge(key, w))
  {
    if key in stats {
      stats' := stats[key := Stat(stats[key].support + 1, stats[key].miSum + w)];
    } else {
      stats' := stats[key := Stat(1, w)];
    }
  }

  /** The first error of a line's pairs is the error of the first pair that fails. */
  lemma PairsFailAt(t: seq<string>, m: nat, es: seq<Edge>, sep: string, parse: Parse)
    requires 2 * m + 1 < |t| && PairsUpTo(t, m, sep, parse) == Ok(es)
    requires PairAt(t, 2 * m + 1, sep, parse).Err?
    ensures PairsUpTo(t, |t| / 2, sep, parse) == Err(PairAt(t, 2 * m + 1, sep, parse).error)
  {
    Half(|t|, m + 1);
    PairsErrStays(t, m + 1, |t| / 2, sep, parse);
  }

  /** The state of the pair loop after the first `m` pairs of a line. */
  ghost predicate PairsInv(t: Tally, n: nat, tokens: seq<string>, m: nat, lineEs: seq<Edge>,
                           tally: Tally, count: nat, sep: string, parse: Parse)
  {
    2 * m <= |tokens| && PairsUpTo(tokens, m, sep, parse) == Ok(lineEs) &&
    tally == TallyFrom(t, lineEs) && count == n + |lineEs|
  }

  lemma PairStep(t: Tally, n: nat, tokens: seq<string>, m: nat, lineEs: seq<Edge>,
                 tally: Tally, count: nat, w: real, tally': Tally, sep: string, parse: Parse)
    requires PairsInv(t, n, tokens, m, lineEs, tally, count, sep, parse)
    requires 2 * m + 2 < |tokens| && parse(tokens[2 * m + 2]) == Some(w)
    requires tally' == AddEdge(tally, Edge(tokens[0] + sep + tokens[2 * m + 1], w))
    ensures PairsInv(t, n, tokens, m + 1, lineEs + [Edge(tokens[0] + sep + tokens[2 * m + 1], w)],
                     tally', count + 1, sep, parse)
  {
    var e := Edge(tokens[0] + sep + tokens[2 * m + 1], w);
    PairsSnoc(tokens, m, lineEs, e, sep, parse);
    TallyFromSnoc(t, lineEs, e);
  }

  /** The pair loop over one data line's tokens (index = 1, 3, 5, ...): every pair
      updates the dictionaries and adds one to the current run's edge count `n`. */
  method ReadPairs(t: Tally, n: nat, tokens: seq<string>, sep: string, parse: Parse)
    returns (r: Result<(Tally, nat), AggregateError>)
    requires |tokens| >= 1
    ensures PairsUpTo(tokens, |tokens| / 2, sep, parse).Err? ==>
      r == Err(PairsUpTo(tokens, |tokens| / 2, sep, parse).error)
    ensures PairsUpTo(tokens, |tokens| / 2, sep, parse).Ok? ==>
      var es := PairsUpTo(tokens, |tokens| / 2, sep, parse).value;
      r == Ok((TallyFrom(t, es), n + |es|))
  {
    var stats, count := t, n;
    var hub := tokens[0];
    var index := 1;
    ghost var lineEs: seq<Edge> := [];
    ghost var m: nat := 0;
    while index < |tokens|
      invariant index == 2 * m + 1
      invariant PairsInv(t, n, tokens, m, lineEs, stats, count, sep, parse)
    {
      var key := hub + sep + tokens[index];
      if index + 1 >= |tokens| {
        PairsFailAt(tokens, m, lineEs, sep, parse);
        return Err(MissingWeight(tokens[index]));
      }
      var weight := parse(tokens[index + 1]);
      if weight.None? {
        PairsFailAt(tokens, m, lineEs, sep, parse);
        return Err(NotANumber(tokens[index + 1]));
      }
      var w := weight.value;
      ghost var e := Edge(key, w);
      ghost var before := stats;
      stats := Observe(stats, key, w);
      PairStep(t, n, tokens, m, lineEs, before, count, w, stats, sep, parse);
      count := count + 1;
      lineEs := lineEs + [e];
      index := index + 2;
      m := m + 1;
      assert PairsInv(t, n, tokens, m, lineEs, stats, count, sep, parse);
    }
    Half(|tokens|, m);
    r := Ok((stats, count));
  }

  /** The state of the line loop after the first `li` lines of a file. */
  ghost predicate FileInv(t: Tally, n: nat, params: string, lines: seq<string>, first: bool,
                          li: nat, cur: seq<Edge>, tally: Tally, count: nat, text: string,
                          sep: string, parse: Parse)
  {
    li <= |lines| && FileEdges(lines[..li], sep, parse) == Ok(cur) &&
    tally == TallyFrom(t, cur) && count == n + |cur| &&
    text == params + if first then HeaderText(lines[..li]) else ""
  }

  lemma ConcatAssoc(a: string, b: string, c: string)
    ensures (a + b) + c == a + (b + c)
  {
  }

  lemma LineStep(t: Tally, n: nat, params: string, lines: seq<string>, first: bool,
                 li: nat, cur: seq<Edge>, tally: Tally, count: nat, text: string,
                 more: seq<Edge>, tally': Tally, count': nat, text': string, sep: string, parse: Parse)
    requires FileInv(t, n, params, lines, first, li, cur, tally, count, text, sep, parse)
    requires li < |lines| && LineOutcome(lines[li], sep, parse) == Ok(more)
    requires tally' == TallyFrom(tally, more) && count' == count + |more|
    requires text' == text + if first && IsHeader(lines[li]) then lines[li] else ""
    ensures FileInv(t, n, params, lines, first, li + 1, cur + more, tally', count', text', sep, parse)
  {
    HeaderSnoc(lines, li);
    FileSnoc(lines, li, cur, more, sep, parse);
    TallyFromAppend(t, cur, more);
    var added := if IsHeader(lines[li]) then lines[li] else "";
    if first {
      var h := HeaderText(lines[..li]);
      assert text == params + h;
      assert text' == (params + h) + added;
      ConcatAssoc(params, h, added);
    } else {
      assert text == params;
      assert text' == text;
    }
  }

  /** What ReadLine returns for the next line keeps the line loop's invariant. */
  lemma LineReadStep(t: Tally, n: nat, params: string, lines: seq<string>, first: bool,
                     li: nat, cur: seq<Edge>, tally: Tally, count: nat, text: string,
                     res: Result<(Tally, nat, string), AggregateError>, sep: string, parse: Parse)
    requires FileInv(t, n, params, lines, first, li, cur, tally, count, text, sep, parse)
    requires li < |lines| && res.Ok? && res == LineRead(tally, count, text, lines[li], first, sep, parse)
    ensures LineOutcome(lines[li], sep, parse).Ok?
    ensures FileInv(t, n, params, lines, first, li + 1, cur + LineOutcome(lines[li], sep, parse).value,
                    res.value.0, res.value.1, res.value.2, sep, parse)
  {
    var more := LineOutcome(lines[li], sep, parse).value;
    LineStep(t, n, params, lines, first, li, cur, tally, count, text, more,
             res.value.0, res.value.1, res.value.2, sep, parse);
  }

  /** A line that fails is the file's first error. */
  lemma LineFails(lines: seq<string>, li: nat, sep: string, parse: Parse)
    requires li < |lines| && FileEdges(lines[..li], sep, parse).Ok?
    requires LineOutcome(lines[li], sep, parse).Err?
    ensures FileEdges(lines, sep, parse) == Err(LineOutcome(lines[li], sep, parse).error)
  {
    assert lines[..li + 1][..li] == lines[..li];
    FileErrStays(lines, li + 1, sep, parse);
  }

  /** The body of the line loop: a header line is appended to the parameter text
      when `first`; a data line is split at tabs and read by ReadPairs. */
  function LineRead(tally: Tally, count: nat, text: string, line: string, first: bool, sep: string, parse: Parse)
    : Result<(Tally, nat, string), AggregateError>
  {
    match LineOutcome(line, sep, parse)
    case Err(e) => Err(e)
    case Ok(more) => Ok((TallyFrom(tally, more), count + |more|, text + if first && IsHeader(line) then line else ""))
  }

  method ReadLine(tally: Tally, count: nat, text: string, line: string, first: bool, sep: string, parse: Parse)
    returns (r: Result<(Tally, nat, string), AggregateError>)
    ensures r == LineRead(tally, count, text, line, first, sep, parse)
  {
    if |line| == 0 {
      return Err(EmptyLine);
    }
    var text' := text;
    if line[0] == '>' && first {
      text' := text + line;
    }
    if line[0] != '>' {
      var tokens := Split(line, "\t");
      var res := ReadPairs(tally, count, tokens, sep, parse);
      if res.Err? {
        return Err(res.error);
      }
      assert text + "" == text;
      r := Ok((res.value.0, res.value.1, text));
    } else {
      assert text + "" == text;
      r := Ok((tally, count, text'));
    }
  }

  /** What reading one file does to the tally, the run's counter and the kept
      header text, or the first error. */
  function FileRead(t: Tally, n: nat, params: string, lines: seq<string>, first: bool, sep: string, parse: Parse)
    : Result<(Tally, nat, string), AggregateError>
  {
    match FileEdges(lines, sep, parse)
    case Err(e) => Err(e)
    case Ok(es) => Ok((TallyFrom(t, es), n + |es|, params + if first then HeaderText(lines) else ""))
  }

  /** The line loop over one bootstrap file. */
  method ReadFile(t: Tally, n: nat, params: string, lines: seq<string>, first: bool, sep: string, parse: Parse)
    returns (r: Result<(Tally, nat, string), AggregateError>)
    ensures r == FileRead(t, n, params, lines, first, sep, parse)
  {
    var tally, count, text := t, n, params;
    var li := 0;
    ghost var cur: seq<Edge> := [];
    assert params + "" == params;
    while li < |lines|
      invariant FileInv(t, n, params, lines, first, li, cur, tally, count, text, sep, parse)
    {
      var res := ReadLine(tally, count, text, lines[li], first, sep, parse);
      if res.Err? {
        LineFails(lines, li, sep, parse);
        return Err(res.error);
      }
      ghost var more := LineOutcome(lines[li], sep, parse).value;
      LineReadStep(t, n, params, lines, first, li, cur, tally, count, text, res, sep, parse);
      tally, count, text := res.value.0, res.value.1, res.value.2;
      cur := cur + more;
      li := li + 1;
    }
    FileDone(t, n, params, lines, first, cur, tally, count, text, sep, parse);
    r := Ok((tally, count, text));
  }

  /** The outcome once every line is read. */
  lemma FileDone(t: Tally, n: nat, params: string, lines: seq<string>, first: bool,
                 cur: seq<Edge>, tally: Tally, count: nat, text: string, sep: string, parse: Parse)
    requires FileInv(t, n, params, lines, first, |lines|, cur, tally, count, text, sep, parse)
    ensures FileRead(t, n, params, lines, first, sep, parse) == Ok((tally, count, text))
  {
    assert lines[..|lines|] == lines;
  }

  /** The state of the file loop after the first `run` files. */
  ghost predicate RunsInv(files: seq<seq<string>>, run: nat, done: seq<seq<Edge>>, tally: Tally,
                          runEdges: seq<nat>, parameters: string, sep: string, parse: Parse)
  {
    run <= |files| && RunEdges(files[..run], sep, parse) == Ok(done) &&
    tally == TallyOf(Flatten(done)) && runEdges == RunCounts(done) &&
    parameters == if run > 0 then HeaderText(files[0]) else ""
  }

  /** One iteration of the file loop keeps the loop's invariant. */
  lemma RunStep(files: seq<seq<string>>, run: nat, done: seq<seq<Edge>>, cur: seq<Edge>,
                tally: Tally, runEdges: seq<nat>, parameters: string,
                tally': Tally, count': nat, parameters': string, sep: string, parse: Parse)
    requires RunsInv(files, run, done, tally, runEdges, parameters, sep, parse)
    requires run < |files| && FileEdges(files[run], sep, parse) == Ok(cur)
    requires tally' == TallyFrom(tally, cur) && count' == |cur|
    requires parameters' == parameters + if run == 0 then HeaderText(files[run]) else ""
    ensures RunsInv(files, run + 1, done + [cur], tally', runEdges + [count'], parameters', sep, parse)
  {
    RunEdgesSnoc(files, run, done, cur, sep, parse);
    FlattenSnoc(done, cur);
    TallyOfSnoc(done, cur);
    if run == 0 {
      assert parameters' == HeaderText(files[0]);
    } else {
      assert parameters' == parameters + "";
    }
  }

  /** What ReadFile returns for the next file, started from a zero count, keeps
      the loop's invariant. */
  lemma RunRead(files: seq<seq<string>>, run: nat, done: seq<seq<Edge>>, tally: Tally, runEdges: seq<nat>,
                parameters: string, res: Result<(Tally, nat, string), AggregateError>, sep: string, parse: Parse)
    requires RunsInv(files, run, done, tally, runEdges, parameters, sep, parse)
    requires run < |files| && res.Ok? && res == FileRead(tally, 0, parameters, files[run], run == 0, sep, parse)
    ensures FileEdges(files[run], sep, parse).Ok?
    ensures RunsInv(files, run + 1, done + [FileEdges(files[run], sep, parse).value],
                    res.value.0, runEdges + [res.value.1], res.value.2, sep, parse)
  {
    var cur := FileEdges(files[run], sep, parse).value;
    RunStep(files, run, done, cur, tally, runEdges, parameters, res.value.0, res.value.1, res.value.2, sep, parse);
  }

  /** Overwriting the element just appended is appending the new value. */
  lemma UpdateAppended(s: seq<nat>, x: nat, y: nat)
    ensures (s + [x])[|s| := y] == s + [y]
  {
    assert (s + [x])[|s| := y][|s|] == y;
  }

  /** The outcome once every file is read. */
  lemma RunsDone(files: seq<seq<string>>, done: seq<seq<Edge>>, tally: Tally, runEdges: seq<nat>,
                 parameters: string, sep: string, parse: Parse)
    requires RunsInv(files, |files|, done, tally, runEdges, parameters, sep, parse)
    ensures AggregateSpec(files, sep, parse) == Ok(Aggregate(tally, runEdges, parameters))
  {
    assert files[..|files|] == files;
  }

  /** A file that fails is the first error of the whole reading loop. */
  lemma RunSpecError(files: seq<seq<string>>, run: nat, sep: string, parse: Parse)
    requires run < |files| && RunEdges(files[..run], sep, parse).Ok?
    requires FileEdges(files[run], sep, parse).Err?
    ensures AggregateSpec(files, sep, parse) == Err(FileEdges(files[run], sep, parse).error)
  {
    assert files[..run + 1][..run] == files[..run];
    RunErrStays(files, run + 1, sep, parse);
  }

  /** The reading loop of the consensus scripts: every file, in the given order,
      opens a new run counter and is read by ReadFile; only the first run's
      header lines are kept. */
  method AggregateRuns(files: seq<seq<string>>, sep: string, parse: Parse) returns (r: Result<Aggregate, AggregateError>)
    ensures r == AggregateSpec(files, sep, parse)
  {
    var tally := NoEdges;
    var runEdges: seq<nat> := [];
    var parameters := "";
    var run := 0;
    ghost var done: seq<seq<Edge>> := [];
    while run < |files|
      invariant |runEdges| == run
      invariant RunsInv(files, run, done, tally, runEdges, parameters, sep, parse)
    {
      ghost var before := runEdges;
      runEdges := runEdges + [0];
      var res := ReadFile(tally, runEdges[run], parameters, files[run], run == 0, sep, parse);
      if res.Err? {
        RunSpecError(files, run, sep, parse);
        return Err(res.error);
      }
      RunRead(files, run, done, tally, before, parameters, res, sep, parse);
      ghost var cur := FileEdges(files[run], sep, parse).value;
      UpdateAppended(before, 0, res.value.1);
      tally := res.value.0;
      runEdges := runEdges[run := res.value.1];
      parameters := res.value.2;
      done := done + [cur];
      run := run + 1;
    }
    RunsDone(files, done, tally, runEdges, parameters, sep, parse);
    r := Ok(Aggregate(tally, runEdges, parameters));
  }
}
