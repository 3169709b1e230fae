/** The statistics and the filter that turn the aggregated bootstrap runs into a
    consensus network, and the current script (SJARACNe/bin/create_consensus_network.py,
    function create_consensus_network) built from them.

    With E distinct edges and c_i edges in run i, each run contributes
    p_i = c_i / E: mu is the sum of the p_i and sigma the square root of the sum of
    p_i * (1 - p_i), which np.sqrt turns into NaN when the sum is negative. An
    edge with support s has z = (s - mu) / sigma (100 when sigma is 0) and is kept
    when uprob(z), in the form (as written or intended) the caller chooses, is
    below the threshold. */
module Consensus {
  import opened Wrappers
  import opened Strings
  import opened Uprob
  import opened Bootstrap

  /** A real function the model does not compute itself (exp, sqrt). */
  type RealFn = real -> real

  /** The exceptions that end a consensus script before it writes the network. */
  datatype ConsensusError =
    | ReadError(cause: AggregateError)   // raised while reading the bootstrap files
    | ZeroDivision                       // no edge at all: 0.05 / 0 or c_i / 0
    | MathDomain                         // math.sqrt of a negative sum
    | BadThreshold(token: string)        // float() of the p-value argument
    | MissingTarget(key: string)         // tks[1] of a key holding no separator

  // ---- mu and sigma ----

  function Prob(count: nat, e: nat): real
    requires e > 0
  {
    count as real / e as real
  }

  /** mu: the sum of the runs' edge fractions. */
  function ProbSum(counts: seq<nat>, e: nat): real
    requires e > 0
  {
    if |counts| == 0 then 0.0 else ProbSum(counts[..|counts| - 1], e) + Prob(counts[|counts| - 1], e)
  }

  function Spread(p: real): real
  {
    p * (1.0 - p)
  }

  /** sigma squared: the sum of p * (1 - p) over the runs' edge fractions. */
  function SpreadSum(counts: seq<nat>, e: nat): real
    requires e > 0
  {
    if |counts| == 0 then 0.0 else SpreadSum(counts[..|counts| - 1], e) + Spread(Prob(counts[|counts| - 1], e))
  }

  /** The loop over the runs that accumulates mu and sigma squared. */
  method Moments(counts: seq<nat>, e: nat) returns (mu: real, spread: real)
    requires e > 0
    ensures mu == ProbSum(counts, e) && spread == SpreadSum(counts, e)
  {
    mu, spread := 0.0, 0.0;
    for i := 0 to |counts|
      invariant mu == ProbSum(counts[..i], e) && spread == SpreadSum(counts[..i], e)
    {
      assert counts[..i + 1][..i] == counts[..i];
      var prob := counts[i] as real / e as real;
      mu := mu + prob;
      spread := spread + prob * (1.0 - prob);
    }
    assert counts[..|counts|] == counts;
  }

  lemma DivAdd(a: real, b: real, d: real)
    requires d != 0.0
    ensures a / d + b / d == (a + b) / d
  {
  }

  /** mu is the total edge count of the runs divided by the number of distinct edges. */
  lemma {:induction false} ProbSumIsMean(counts: seq<nat>, e: nat)
    requires e > 0
    ensures ProbSum(counts, e) == Sum(counts) as real / e as real
  {
    if |counts| > 0 {
      var init := counts[..|counts| - 1];
      ProbSumIsMean(init, e);
      DivAdd(Sum(init) as real, counts[|counts| - 1] as real, e as real);
    }
  }

  /** mu is the mean support of an edge: the support total over the number of edges. */
  lemma MuIsMeanSupport(files: seq<seq<string>>, sep: string, parse: Parse)
    requires AggregateSpec(files, sep, parse).Ok? && |AggregateSpec(files, sep, parse).value.stats| > 0
    ensures var a := AggregateSpec(files, sep, parse).value;
      ProbSum(a.runEdges, |a.stats|) == SupportTotal(a.stats) as real / |a.stats| as real
  {
    var a := AggregateSpec(files, sep, parse).value;
    RunCountsMatchSupport(files, sep, parse);
    ProbSumIsMean(a.runEdges, |a.stats|);
  }

  lemma SpreadNonNegative(c: nat, e: nat)
    requires 0 < e && c <= e
    ensures Spread(Prob(c, e)) >= 0.0
  {
    var p := Prob(c, e);
    assert p <= 1.0 by {
      assert p * e as real == c as real;
    }
    ProductNonNegative(p, 1.0 - p);
  }

  /** A run with more edge lines than there are distinct edges (one that lists an
      edge twice) contributes a negative term p * (1 - p), since its p exceeds 1. */
  lemma SpreadNegative(c: nat, e: nat)
    requires 0 < e < c
    ensures Spread(Prob(c, e)) < 0.0
  {
    var p := Prob(c, e);
    assert p > 1.0 by {
      assert p * e as real == c as real;
    }
    ProductPositive(p, p - 1.0);
  }

  /** So a single such run makes sigma squared negative. */
  lemma SpreadSumSingleRunNegative(c: nat, e: nat)
    requires 0 < e < c
    ensures SpreadSum([c], e) < 0.0
  {
    assert [c][..0] == [];
    SpreadNegative(c, e);
  }

  /** When no run has more edges than there are distinct edges, sigma squared is not
      negative, so its square root exists. */
  lemma {:induction false} SpreadSumNonNegative(counts: seq<nat>, e: nat)
    requires e > 0
    requires forall i :: 0 <= i < |counts| ==> counts[i] <= e
    ensures SpreadSum(counts, e) >= 0.0
  {
    if |counts| > 0 {
      SpreadSumNonNegative(counts[..|counts| - 1], e);
      SpreadNonNegative(counts[|counts| - 1], e);
    }
  }

  // ---- the filter ----

  /** The z score of an edge with the given support. A NaN sigma passes the test
      `sigma != 0`, and the division by it gives NaN. */
  function ZScore(support: nat, mu: real, sigma: Float): (z: Float)
    ensures sigma == Num(0.0) ==> z == Num(100.0)
    ensures sigma.NaN? ==> z.NaN?
    ensures sigma.Num? && sigma.value != 0.0 ==> z.Num? && z.value * sigma.value == support as real - mu
  {
    match sigma
      case NaN => NaN
      case Num(v) => if v != 0.0 then Num((support as real - mu) / v) else Num(100.0)
  }

  /** The edge is kept: the tail probability of its z score, in the given form of
      uprob, is below the threshold. */
  predicate Significant(s: Stat, mu: real, sigma: Float, threshold: real, exp: RealFn, form: Form)
  {
    UprobOf(form, ZScore(s.support, mu, sigma), exp) < threshold
  }

  /** One line of the consensus network: source, target and mean MI. */
  datatype Row = Row(source: string, target: string, mi: real)

  /** Every listed key is in the dictionaries with a positive support. */
  predicate Listed(keys: seq<string>, stats: Tally)
  {
    forall i :: 0 <= i < |keys| ==> keys[i] in stats && stats[keys[i]].support > 0
  }

  /** The line written for a kept key: the first two pieces of the key split at the
      separator, and the MI total divided by the support. */
  function RowOf(key: string, s: Stat, sep: string): (r: Row)
    requires |sep| > 0 && |Split(key, sep)| >= 2 && s.support > 0
    ensures r.source == Split(key, sep)[0] && r.target == Split(key, sep)[1]
    ensures r.mi * s.support as real == s.miSum
  {
    var tks := Split(key, sep);
    Row(tks[0], tks[1], s.miSum / s.support as real)
  }

  /** What one key does to the lines written so far: a key that does not split in
      two raises, a significant key adds its line, any other key is skipped. */
  function RowStep(rows: seq<Row>, key: string, s: Stat, mu: real, sigma: Float, threshold: real, sep: string, exp: RealFn, form: Form)
    : Result<seq<Row>, ConsensusError>
    requires |sep| > 0 && s.support > 0
  {
    if |Split(key, sep)| < 2 then Err(MissingTarget(key))
    else if Significant(s, mu, sigma, threshold, exp, form) then Ok(rows + [RowOf(key, s, sep)])
    else Ok(rows)
  }

  /** The writing loop over `keys`, or its first error. */
  function Rows(keys: seq<string>, stats: Tally, mu: real, sigma: Float, threshold: real, sep: string, exp: RealFn, form: Form)
    : Result<seq<Row>, ConsensusError>
    requires |sep| > 0 && Listed(keys, stats)
  {
    if |keys| == 0 then Ok([])
    else
      match Rows(keys[..|keys| - 1], stats, mu, sigma, threshold, sep, exp, form)
        case Err(e) => Err(e)
        case Ok(rows) =>
          var k := keys[|keys| - 1];
          RowStep(rows, k, stats[k], mu, sigma, threshold, sep, exp, form)
  }

  /** Reference definition: the significant keys, in the order of `keys`. */
  function KeptKeys(keys: seq<string>, stats: Tally, mu: real, sigma: Float, threshold: real, exp: RealFn, form: Form)
    : (r: seq<string>)
    requires Listed(keys, stats)
    ensures forall k :: k in r <==> k in keys && k in stats && Significant(stats[k], mu, sigma, threshold, exp, form)
    ensures Listed(r, stats)
  {
    if |keys| == 0 then []
    else
      var init := KeptKeys(keys[..|keys| - 1], stats, mu, sigma, threshold, exp, form);
      var k := keys[|keys| - 1];
      assert forall x :: x in keys <==> x in keys[..|keys| - 1] || x == k by {
        assert keys == keys[..|keys| - 1] + [k];
      }
      if Significant(stats[k], mu, sigma, threshold, exp, form) then init + [k] else init
  }

  /** A subsequence of a strictly ascending sequence is strictly ascending. */
  lemma {:induction false} KeptKeysSorted(keys: seq<string>, stats: Tally, mu: real, sigma: Float, threshold: real, exp: RealFn, form: Form)
    requires Listed(keys, stats) && StrictlySorted(keys)
    ensures StrictlySorted(KeptKeys(keys, stats, mu, sigma, threshold, exp, form))
  {
    if |keys| > 0 {
      var init := keys[..|keys| - 1];
      var k := keys[|keys| - 1];
      KeptKeysSorted(init, stats, mu, sigma, threshold, exp, form);
      var kept := KeptKeys(init, stats, mu, sigma, threshold, exp, form);
      forall x | x in kept
        ensures Less(x, k)
      {
        var j :| 0 <= j < |init| && init[j] == x;
        assert keys[j] == x;
      }
    }
  }

  /** Every key splits into at least two pieces at the separator. */
  predicate AllSplit(keys: seq<string>, sep: string)
    requires |sep| > 0
  {
    forall i :: 0 <= i < |keys| ==> |Split(keys[i], sep)| >= 2
  }

  /** The lines of the given keys, in order. */
  function RowsOf(keys: seq<string>, stats: Tally, sep: string): (r: seq<Row>)
    requires |sep| > 0 && Listed(keys, stats) && AllSplit(keys, sep)
    ensures |r| == |keys|
    ensures forall i :: 0 <= i < |keys| ==> r[i] == RowOf(keys[i], stats[keys[i]], sep)
  {
    if |keys| == 0 then []
    else RowsOf(keys[..|keys| - 1], stats, sep) + [RowOf(keys[|keys| - 1], stats[keys[|keys| - 1]], sep)]
  }

  /** When every key splits, the writing loop succeeds and writes exactly the lines
      of the significant keys, in the order of `keys`. */
  lemma {:induction false} RowsAreKept(keys: seq<string>, stats: Tally, mu: real, sigma: Float, threshold: real, sep: string, exp: RealFn, form: Form)
    requires |sep| > 0 && Listed(keys, stats) && AllSplit(keys, sep)
    ensures var kept := KeptKeys(keys, stats, mu, sigma, threshold, exp, form);
      AllSplit(kept, sep) &&
      Rows(keys, stats, mu, sigma, threshold, sep, exp, form) == Ok(RowsOf(kept, stats, sep))
  {
    var kept := KeptKeys(keys, stats, mu, sigma, threshold, exp, form);
    KeptAllSplit(keys, stats, mu, sigma, threshold, sep, exp, form);
    if |keys| > 0 {
      var init := keys[..|keys| - 1];
      var k := keys[|keys| - 1];
      assert Listed(init, stats) && AllSplit(init, sep) by {
        assert forall i :: 0 <= i < |init| ==> init[i] == keys[i];
      }
      RowsAreKept(init, stats, mu, sigma, threshold, sep, exp, form);
      RowsKeptStep(keys, stats, mu, sigma, threshold, sep, exp, form);
    }
  }

  /** One more key: the loop's lines grow exactly as the kept keys' lines do. */
  lemma RowsKeptStep(keys: seq<string>, stats: Tally, mu: real, sigma: Float, threshold: real, sep: string, exp: RealFn, form: Form)
    requires |sep| > 0 && |keys| > 0 && Listed(keys, stats) && AllSplit(keys, sep)
    requires Listed(keys[..|keys| - 1], stats)
    requires AllSplit(KeptKeys(keys[..|keys| - 1], stats, mu, sigma, threshold, exp, form), sep)
    requires Rows(keys[..|keys| - 1], stats, mu, sigma, threshold, sep, exp, form) ==
      Ok(RowsOf(KeptKeys(keys[..|keys| - 1], stats, mu, sigma, threshold, exp, form), stats, sep))
    requires AllSplit(KeptKeys(keys, stats, mu, sigma, threshold, exp, form), sep)
    ensures Rows(keys, stats, mu, sigma, threshold, sep, exp, form) ==
      Ok(RowsOf(KeptKeys(keys, stats, mu, sigma, threshold, exp, form), stats, sep))
  {
    var init := keys[..|keys| - 1];
    var k := keys[|keys| - 1];
    var initKept := KeptKeys(init, stats, mu, sigma, threshold, exp, form);
    var initRows := RowsOf(initKept, stats, sep);
    assert |Split(k, sep)| >= 2;
    assert Rows(keys, stats, mu, sigma, threshold, sep, exp, form) ==
      RowStep(initRows, k, stats[k], mu, sigma, threshold, sep, exp, form);
    if Significant(stats[k], mu, sigma, threshold, exp, form) {
      KeptKeysLast(keys, stats, mu, sigma, threshold, exp, form);
      var grown := initKept + [k];
      assert grown[..|grown| - 1] == initKept;
      RowsOfLast(grown, stats, sep);
    }
  }

  /** The significant keys of keys that all split also all split. */
  lemma KeptAllSplit(keys: seq<string>, stats: Tally, mu: real, sigma: Float, threshold: real, sep: string, exp: RealFn, form: Form)
    requires |sep| > 0 && Listed(keys, stats) && AllSplit(keys, sep)
    ensures AllSplit(KeptKeys(keys, stats, mu, sigma, threshold, exp, form), sep)
  {
    var kept := KeptKeys(keys, stats, mu, sigma, threshold, exp, form);
    forall i | 0 <= i < |kept|
      ensures |Split(kept[i], sep)| >= 2
    {
      assert kept[i] in keys;
    }
  }

  lemma RowsOfLast(keys: seq<string>, stats: Tally, sep: string)
    requires |sep| > 0 && Listed(keys, stats) && AllSplit(keys, sep) && |keys| > 0
    ensures Listed(keys[..|keys| - 1], stats) && AllSplit(keys[..|keys| - 1], sep)
    ensures RowsOf(keys, stats, sep) ==
      RowsOf(keys[..|keys| - 1], stats, sep) + [RowOf(keys[|keys| - 1], stats[keys[|keys| - 1]], sep)]
  {
    assert forall i :: 0 <= i < |keys| - 1 ==> keys[..|keys| - 1][i] == keys[i];
  }

  lemma {:induction false} RowsErrStays(keys: seq<string>, n: nat, stats: Tally, mu: real, sigma: Float, threshold: real, sep: string, exp: RealFn, form: Form)
    requires |sep| > 0 && Listed(keys, stats) && n <= |keys|
    requires Rows(keys[..n], stats, mu, sigma, threshold, sep, exp, form).Err?
    ensures Rows(keys, stats, mu, sigma, threshold, sep, exp, form) == Rows(keys[..n], stats, mu, sigma, threshold, sep, exp, form)
    decreases |keys| - n
  {
    if n < |keys| {
      assert keys[..|keys| - 1][..n] == keys[..n];
      RowsErrStays(keys[..|keys| - 1], n, stats, mu, sigma, threshold, sep, exp, form);
    } else {
      assert keys[..n] == keys;
    }
  }

  lemma RowsSnoc(keys: seq<string>, i: nat, rows: seq<Row>, stats: Tally, mu: real, sigma: Float, threshold: real, sep: string, exp: RealFn, form: Form)
    requires |sep| > 0 && Listed(keys, stats) && i < |keys|
    requires Rows(keys[..i], stats, mu, sigma, threshold, sep, exp, form) == Ok(rows)
    ensures Rows(keys[..i + 1], stats, mu, sigma, threshold, sep, exp, form) ==
      RowStep(rows, keys[i], stats[keys[i]], mu, sigma, threshold, sep, exp, form)
  {
    assert keys[..i + 1][..i] == keys[..i];
  }

  /** One key of the writing loop: split it, compute z and its p-value, and add the
      line when the p-value is below the threshold. */
  method WriteRow(rows: seq<Row>, key: string, s: Stat, mu: real, sigma: Float, threshold: real, sep: string, exp: RealFn, form: Form)
    returns (r: Result<seq<Row>, ConsensusError>)
    requires |sep| > 0 && s.support > 0
    ensures r == RowStep(rows, key, s, mu, sigma, threshold, sep, exp, form)
  {
    var tks := Split(key, sep);
    if |tks| < 2 {
      return Err(MissingTarget(key));
    }
    var z := if sigma != Num(0.0) then (if sigma.NaN? then NaN else Num((s.support as real - mu) / sigma.value))
      else Num(100.0);
    var pval := Uprob.Uprob(z, exp, form);
    if pval < threshold {
      return Ok(rows + [Row(tks[0], tks[1], s.miSum / s.support as real)]);
    }
    return Ok(rows);
  }

  /** The writing loop over the keys. */
  method WriteRows(keys: seq<string>, stats: Tally, mu: real, sigma: Float, threshold: real, sep: string, exp: RealFn, form: Form)
    returns (r: Result<seq<Row>, ConsensusError>)
    requires |sep| > 0 && Listed(keys, stats)
    ensures r == Rows(keys, stats, mu, sigma, threshold, sep, exp, form)
  {
    var rows: seq<Row> := [];
    for i := 0 to |keys|
      invariant Rows(keys[..i], stats, mu, sigma, threshold, sep, exp, form) == Ok(rows)
    {
      RowsSnoc(keys, i, rows, stats, mu, sigma, threshold, sep, exp, form);
      var step := WriteRow(rows, keys[i], stats[keys[i]], mu, sigma, threshold, sep, exp, form);
      if step.Err? {
        RowsErrStays(keys, i + 1, stats, mu, sigma, threshold, sep, exp, form);
        return step;
      }
      rows := step.value;
    }
    assert keys[..|keys|] == keys;
    return Ok(rows);
  }

  /** A key built from the hub and target splits into at least two pieces. */
  lemma KeyShapedSplits(k: string, sep: string)
    requires |sep| > 0 && KeyShaped(k, sep)
    ensures |Split(k, sep)| >= 2
  {
    var h, t :| k == Key(h, sep, t);
    assert OccursAt(k, sep, |h|) by {
      assert k[|h|..|h| + |sep|] == sep;
    }
    assert FindFrom(k, sep, 0) >= 0;
  }

  /** The sorted keys of an aggregate all split, and are all listed. */
  lemma AggregateKeysSplit(files: seq<seq<string>>, sep: string, parse: Parse)
    requires |sep| > 0 && AggregateSpec(files, sep, parse).Ok?
    ensures var a := AggregateSpec(files, sep, parse).value;
      Listed(SortedOf(a.stats.Keys), a.stats) && AllSplit(SortedOf(a.stats.Keys), sep)
  {
    var a := AggregateSpec(files, sep, parse).value;
    var keys := SortedOf(a.stats.Keys);
    AggregateKeys(files, sep, parse);
    forall i | 0 <= i < |keys|
      ensures keys[i] in a.stats && a.stats[keys[i]].support > 0 && |Split(keys[i], sep)| >= 2
    {
      assert keys[i] in keys;
      KeyShapedSplits(keys[i], sep);
    }
  }

  /** The line of an edge names its hub and target when the hub, followed by the
      separator, holds no earlier separator, and the target holds none. */
  lemma RowOfKey(hub: string, sep: string, target: string, s: Stat)
    requires |sep| > 0 && s.support > 0
    requires forall j :: 0 <= j < |hub| ==> !OccursAt(hub + sep, sep, j)
    requires forall j :: !OccursAt(target, sep, j)
    ensures |Split(Key(hub, sep, target), sep)| >= 2
    ensures RowOf(Key(hub, sep, target), s, sep).source == hub
    ensures RowOf(Key(hub, sep, target), s, sep).target == target
  {
    SplitPair(hub, sep, target);
  }

  // ---- create_consensus_network ----

  const Separator: string := "----"

  /** What bootstrap_info_.txt reports: the number of distinct edges, the
      Bonferroni-corrected alpha, mu and sigma. */
  datatype Info = Info(edgesTested: nat, alpha: real, mu: real, sigma: Float)

  /** The outputs of a consensus script: the info file, the threshold the filter
      used, the parameter report and the network's lines after its header. */
  datatype Consensus = Consensus(info: Info, threshold: real, parameters: string, rows: seq<Row>)

  /** The threshold: the given p-value when there is one, the Bonferroni-corrected
      0.05 / E otherwise. */
  function Threshold(pValue: Option<string>, e: nat, parse: Parse): (r: Result<real, ConsensusError>)
    requires e > 0
    ensures pValue.None? ==> r == Ok(0.05 / e as real)
    ensures pValue.Some? ==> (r.Ok? <==> parse(pValue.value).Some?)
    ensures pValue.Some? && r.Ok? ==> parse(pValue.value) == Some(r.value)
    ensures r.Err? ==> r == Err(BadThreshold(pValue.value))
  {
    match pValue
      case None => Ok(0.05 / e as real)
      case Some(token) =>
        match parse(token)
          case None => Err(BadThreshold(token))
          case Some(p) => Ok(p)
  }

  /** The parameter report: the first run's header lines followed by the run count,
      the source tag and the output network path, one per line. */
  function ParameterReport(headers: string, runs: nat, networkPath: string): (r: string)
    ensures |r| > |headers| && r[..|headers|] == headers && r[|r| - 1] == '\n'
  {
    headers + ">  Bootstrap No: " + NatToString(runs) + "\n" + ">  Source: sjaracne2\n"
      + ">  Output network: " + networkPath + "\n"
  }

  /** np.sqrt: NaN for a negative argument (with a warning, not an exception). */
  function NpSqrt(x: real, sqrt: RealFn): (r: Float)
    ensures r.NaN? <==> x < 0.0
    ensures r.Num? ==> r.value == sqrt(x)
  {
    if x < 0.0 then NaN else Num(sqrt(x))
  }

  /** The script's outcome, with uprob in the given form: `AsWritten` is the
      script's own copy of uprob as its code stands. `networkPath` is out_dir joined
      with consensus_network_3col_.txt. */
  ghost function ConsensusSpec(files: seq<seq<string>>, pValue: Option<string>, networkPath: string,
                               parse: Parse, exp: RealFn, form: Form, sqrt: RealFn): Result<Consensus, ConsensusError>
  {
    match AggregateSpec(files, Separator, parse)
      case Err(e) => Err(ReadError(e))
      case Ok(a) =>
        var e := |a.stats|;
        if e == 0 then Err(ZeroDivision)
        else
          var mu := ProbSum(a.runEdges, e);
          var sigma := NpSqrt(SpreadSum(a.runEdges, e), sqrt);
          match Threshold(pValue, e, parse)
            case Err(err) => Err(err)
            case Ok(threshold) =>
              AggregateKeysSplit(files, Separator, parse);
              match Rows(SortedOf(a.stats.Keys), a.stats, mu, sigma, threshold, Separator, exp, form)
                case Err(err) => Err(err)
                case Ok(rows) =>
                  Ok(Consensus(Info(e, 0.05 / e as real, mu, sigma), threshold,
                               ParameterReport(a.parameters, |files|, networkPath), rows))
  }

  /** create_consensus_network: read the runs, compute mu and sigma, pick the
      threshold, report the parameters and write the significant edges in key order. */
  method CreateConsensusNetwork(files: seq<seq<string>>, pValue: Option<string>, networkPath: string,
                                parse: Parse, exp: RealFn, form: Form, sqrt: RealFn)
    returns (r: Result<Consensus, ConsensusError>)
    ensures r == ConsensusSpec(files, pValue, networkPath, parse, exp, form, sqrt)
  {
    var agg := AggregateRuns(files, Separator, parse);
    if agg.Err? {
      return Err(ReadError(agg.error));
    }
    var a := agg.value;
    var e := |a.stats|;
    if e == 0 {
      return Err(ZeroDivision);
    }
    var mu, spread := Moments(a.runEdges, e);
    var sigma := if spread < 0.0 then NaN else Num(sqrt(spread));
    var threshold := 0.05 / e as real;
    if pValue.Some? {
      var p := parse(pValue.value);
      if p.None? {
        return Err(BadThreshold(pValue.value));
      }
      threshold := p.value;
    }
    var parameters := a.parameters + ">  Bootstrap No: " + NatToString(|files|) + "\n";
    parameters := parameters + ">  Source: sjaracne2\n";
    parameters := parameters + ">  Output network: " + networkPath + "\n";
    var keys := SortKeys(a.stats.Keys);
    AggregateKeysSplit(files, Separator, parse);
    var rows := WriteRows(keys, a.stats, mu, sigma, threshold, Separator, exp, form);
    if rows.Err? {
      return Err(rows.error);
    }
    return Ok(Consensus(Info(e, 0.05 / e as real, mu, sigma), threshold, parameters, rows.value));
  }

  /** The script fails only while reading, with no edge at all, or on a p-value that
      is no number; it never meets a key without the separator. */
  lemma ConsensusFailures(files: seq<seq<string>>, pValue: Option<string>, networkPath: string,
                          parse: Parse, exp: RealFn, form: Form, sqrt: RealFn)
    ensures var r := ConsensusSpec(files, pValue, networkPath, parse, exp, form, sqrt);
      var a := AggregateSpec(files, Separator, parse);
      (r.Err? && r.error.ReadError? <==> a.Err?) &&
      (r.Err? && r.error == ZeroDivision <==> a.Ok? && |a.value.stats| == 0) &&
      (r.Err? && r.error.BadThreshold? <==> a.Ok? && |a.value.stats| > 0 && pValue.Some? && parse(pValue.value).None?) &&
      !(r.Err? && r.error.MissingTarget?) && !(r.Err? && r.error == MathDomain)
  {
    var a := AggregateSpec(files, Separator, parse);
    if a.Ok? && |a.value.stats| > 0 {
      var e := |a.value.stats|;
      var mu := ProbSum(a.value.runEdges, e);
      var sigma := NpSqrt(SpreadSum(a.value.runEdges, e), sqrt);
      var th := Threshold(pValue, e, parse);
      if th.Ok? {
        AggregateKeysSplit(files, Separator, parse);
        RowsAreKept(SortedOf(a.value.stats.Keys), a.value.stats, mu, sigma, th.value, Separator, exp, form);
      }
    }
  }

  /** The pieces of a successful run of the script. */
  lemma ConsensusParts(files: seq<seq<string>>, pValue: Option<string>, networkPath: string,
                       parse: Parse, exp: RealFn, form: Form, sqrt: RealFn)
    requires ConsensusSpec(files, pValue, networkPath, parse, exp, form, sqrt).Ok?
    ensures var c := ConsensusSpec(files, pValue, networkPath, parse, exp, form, sqrt).value;
      var a := AggregateSpec(files, Separator, parse);
      a.Ok? && |a.value.stats| > 0 &&
      c.info == Info(|a.value.stats|, 0.05 / |a.value.stats| as real, ProbSum(a.value.runEdges, |a.value.stats|), c.info.sigma) &&
      Listed(SortedOf(a.value.stats.Keys), a.value.stats) && AllSplit(SortedOf(a.value.stats.Keys), Separator) &&
      Rows(SortedOf(a.value.stats.Keys), a.value.stats, c.info.mu, c.info.sigma, c.threshold, Separator, exp, form) == Ok(c.rows)
  {
    AggregateKeysSplit(files, Separator, parse);
  }

  /** Filtering ascending keys lists the significant ones, ascending, each with its line. */
  lemma FilterFacts(keys: seq<string>, stats: Tally, mu: real, sigma: Float, threshold: real, sep: string, exp: RealFn, form: Form, rows: seq<Row>)
    requires |sep| > 0 && Listed(keys, stats) && AllSplit(keys, sep) && StrictlySorted(keys)
    requires Rows(keys, stats, mu, sigma, threshold, sep, exp, form) == Ok(rows)
    ensures var kept := KeptKeys(keys, stats, mu, sigma, threshold, exp, form);
      StrictlySorted(kept) && AllSplit(kept, sep) && rows == RowsOf(kept, stats, sep)
  {
    KeptKeysSorted(keys, stats, mu, sigma, threshold, exp, form);
    RowsAreKept(keys, stats, mu, sigma, threshold, sep, exp, form);
  }

  /** The network lists exactly the significant edges, each once, in ascending key
      order, each with the first two pieces of its key and its mean MI. */
  lemma ConsensusRows(files: seq<seq<string>>, pValue: Option<string>, networkPath: string,
                      parse: Parse, exp: RealFn, form: Form, sqrt: RealFn)
    requires ConsensusSpec(files, pValue, networkPath, parse, exp, form, sqrt).Ok?
    ensures var c := ConsensusSpec(files, pValue, networkPath, parse, exp, form, sqrt).value;
      var a := AggregateSpec(files, Separator, parse).value;
      Listed(SortedOf(a.stats.Keys), a.stats) &&
      var kept := KeptKeys(SortedOf(a.stats.Keys), a.stats, c.info.mu, c.info.sigma, c.threshold, exp, form);
      StrictlySorted(kept) &&
      (forall k :: k in kept <==> k in a.stats && Significant(a.stats[k], c.info.mu, c.info.sigma, c.threshold, exp, form)) &&
      AllSplit(kept, Separator) && c.rows == RowsOf(kept, a.stats, Separator)
  {
    var c := ConsensusSpec(files, pValue, networkPath, parse, exp, form, sqrt).value;
    var a := AggregateSpec(files, Separator, parse).value;
    ConsensusParts(files, pValue, networkPath, parse, exp, form, sqrt);
    FilterFacts(SortedOf(a.stats.Keys), a.stats, c.info.mu, c.info.sigma, c.threshold, Separator, exp, form, c.rows);
  }

  /** The info file reports E > 0 distinct edges, alpha = 0.05 / E and, as mu, the
      mean support of an edge. */
  lemma ConsensusInfo(files: seq<seq<string>>, pValue: Option<string>, networkPath: string,
                      parse: Parse, exp: RealFn, form: Form, sqrt: RealFn)
    requires ConsensusSpec(files, pValue, networkPath, parse, exp, form, sqrt).Ok?
    ensures var i := ConsensusSpec(files, pValue, networkPath, parse, exp, form, sqrt).value.info;
      var a := AggregateSpec(files, Separator, parse).value;
      i.edgesTested == |a.stats| > 0 && i.alpha == 0.05 / i.edgesTested as real &&
      i.mu == SupportTotal(a.stats) as real / i.edgesTested as real
  {
    var a := AggregateSpec(files, Separator, parse).value;
    var i := ConsensusSpec(files, pValue, networkPath, parse, exp, form, sqrt).value.info;
    ConsensusParts(files, pValue, networkPath, parse, exp, form, sqrt);
    assert i.edgesTested == |a.stats|;
    assert i.alpha == 0.05 / |a.stats| as real;
    assert i.mu == ProbSum(a.runEdges, |a.stats|);
    MuIsMeanSupport(files, Separator, parse);
  }

  /** When every listed key is significant, every one of them is kept, in order. */
  lemma {:induction false} KeptKeysAll(keys: seq<string>, stats: Tally, mu: real, sigma: Float, threshold: real, exp: RealFn, form: Form)
    requires Listed(keys, stats)
    requires forall k :: k in keys && k in stats ==> Significant(stats[k], mu, sigma, threshold, exp, form)
    ensures KeptKeys(keys, stats, mu, sigma, threshold, exp, form) == keys
  {
    if |keys| > 0 {
      var init := keys[..|keys| - 1];
      assert Listed(init, stats) by {
        forall i | 0 <= i < |init|
          ensures init[i] in stats && stats[init[i]].support > 0
        {
          assert init[i] == keys[i];
        }
      }
      assert forall k :: k in init ==> k in keys;
      KeptKeysAll(init, stats, mu, sigma, threshold, exp, form);
      KeptKeysLast(keys, stats, mu, sigma, threshold, exp, form);
      assert keys == init + [keys[|keys| - 1]];
    }
  }

  lemma KeptKeysLast(keys: seq<string>, stats: Tally, mu: real, sigma: Float, threshold: real, exp: RealFn, form: Form)
    requires |keys| > 0 && Listed(keys, stats)
    requires Significant(stats[keys[|keys| - 1]], mu, sigma, threshold, exp, form)
    ensures KeptKeys(keys, stats, mu, sigma, threshold, exp, form)
         == KeptKeys(keys[..|keys| - 1], stats, mu, sigma, threshold, exp, form) + [keys[|keys| - 1]]
  {
  }

  /** sigma is NaN exactly when sigma squared is negative; every z score is then NaN
      and its p-value 0, so with a positive threshold every edge is written, in
      ascending key order. */
  lemma NanSigmaKeepsAll(files: seq<seq<string>>, pValue: Option<string>, networkPath: string,
                         parse: Parse, exp: RealFn, form: Form, sqrt: RealFn)
    requires ConsensusSpec(files, pValue, networkPath, parse, exp, form, sqrt).Ok?
    ensures var c := ConsensusSpec(files, pValue, networkPath, parse, exp, form, sqrt).value;
      var a := AggregateSpec(files, Separator, parse).value;
      |a.stats| > 0 &&
      (c.info.sigma.NaN? <==> SpreadSum(a.runEdges, |a.stats|) < 0.0) &&
      (c.info.sigma.NaN? && c.threshold > 0.0 ==>
        Listed(SortedOf(a.stats.Keys), a.stats) && AllSplit(SortedOf(a.stats.Keys), Separator) &&
        c.rows == RowsOf(SortedOf(a.stats.Keys), a.stats, Separator))
  {
    var c := ConsensusSpec(files, pValue, networkPath, parse, exp, form, sqrt).value;
    var a := AggregateSpec(files, Separator, parse).value;
    ConsensusParts(files, pValue, networkPath, parse, exp, form, sqrt);
    assert c.info.sigma == NpSqrt(SpreadSum(a.runEdges, |a.stats|), sqrt);
    if c.info.sigma.NaN? && c.threshold > 0.0 {
      NanRowsAll(SortedOf(a.stats.Keys), a.stats, c.info.mu, c.info.sigma, c.threshold, Separator, exp, form);
    }
  }

  /** With a NaN sigma and a positive threshold every listed key gives a row. */
  lemma NanRowsAll(keys: seq<string>, stats: Tally, mu: real, sigma: Float, threshold: real, sep: string, exp: RealFn, form: Form)
    requires sigma.NaN? && threshold > 0.0
    requires |sep| > 0 && Listed(keys, stats) && AllSplit(keys, sep)
    ensures Rows(keys, stats, mu, sigma, threshold, sep, exp, form) == Ok(RowsOf(keys, stats, sep))
  {
    forall k | k in keys && k in stats
      ensures Significant(stats[k], mu, sigma, threshold, exp, form)
    {
      assert ZScore(stats[k].support, mu, sigma).NaN?;
    }
    KeptKeysAll(keys, stats, mu, sigma, threshold, exp, form);
    RowsAreKept(keys, stats, mu, sigma, threshold, sep, exp, form);
  }
}
