/** The older consensus script (getconsensusnetwork.py): the same aggregation,
    statistics and filter as create_consensus_network, with "--" as the key
    separator, math.sqrt (which raises on a negative argument), a threshold always
    taken from the command line, and output paths built by appending to the output
    directory. */
module LegacyConsensus {
  import opened Wrappers
  import opened Strings
  import opened Bootstrap
  import opened Uprob
  import opened Consensus

  const LegacySeparator: string := "--"

  const NetworkFile: string := "consensus_network_3col_.txt"

  predicate EndsWithSlash(dir: string)
  {
    |dir| > 0 && dir[|dir| - 1] == '/'
  }

  /** The output path of a file: the directory and the name, with a '/' between
      them unless the directory already ends with one. */
  function JoinPath(dir: string, name: string): (r: string)
    ensures |r| >= |dir| + |name| && r[..|dir|] == dir
    ensures r[|r| - |name|..] == name
    ensures |r| > |name| && r[|r| - |name| - 1] == '/'
    ensures |r| == |dir| + |name| + (if EndsWithSlash(dir) then 0 else 1)
  {
    if EndsWithSlash(dir) then dir + name else dir + "/" + name
  }

  /** A trailing '/' on the output directory does not change any output path. */
  lemma JoinPathTrailingSlash(dir: string, name: string)
    requires !EndsWithSlash(dir)
    ensures JoinPath(dir + "/", name) == JoinPath(dir, name)
  {
    assert EndsWithSlash(dir + "/");
  }

  /** sigma = math.sqrt(sum): ValueError on a negative sum. */
  function Sigma(spread: real, sqrt: RealFn): (r: Result<real, ConsensusError>)
    ensures r.Err? <==> spread < 0.0
    ensures r.Err? ==> r.error == MathDomain
    ensures r.Ok? ==> r.value == sqrt(spread)
  {
    if spread < 0.0 then Err(MathDomain) else Ok(sqrt(spread))
  }

  /** The threshold is always float(sys.argv[2]): the test `sys.argv[2] != None`
      cannot fail, so the Bonferroni-corrected default is never used. */
  function LegacyThreshold(arg: string, parse: Parse): (r: Result<real, ConsensusError>)
    ensures r.Ok? <==> parse(arg).Some?
    ensures r.Ok? ==> parse(arg) == Some(r.value)
    ensures r.Err? ==> r == Err(BadThreshold(arg))
  {
    match parse(arg)
      case None => Err(BadThreshold(arg))
      case Some(p) => Ok(p)
  }

  /** The script's outcome, for the files of the bootstrap directory, the p-value
      argument and the output directory. */
  ghost function LegacySpec(files: seq<seq<string>>, pArg: string, outDir: string,
                            parse: Parse, exp: RealFn, form: Form, sqrt: RealFn): Result<Consensus, ConsensusError>
  {
    match AggregateSpec(files, LegacySeparator, parse)
      case Err(e) => Err(ReadError(e))
      case Ok(a) =>
        var e := |a.stats|;
        if e == 0 then Err(ZeroDivision)
        else
          var mu := ProbSum(a.runEdges, e);
          match Sigma(SpreadSum(a.runEdges, e), sqrt)
            case Err(err) => Err(err)
            case Ok(sigma) =>
              match LegacyThreshold(pArg, parse)
                case Err(err) => Err(err)
                case Ok(threshold) =>
                  AggregateKeysSplit(files, LegacySeparator, parse);
                  match Rows(SortedOf(a.stats.Keys), a.stats, mu, Num(sigma), threshold, LegacySeparator, exp, form)
                    case Err(err) => Err(err)
                    case Ok(rows) =>
                      Ok(Consensus(Info(e, 0.05 / e as real, mu, Num(sigma)), threshold,
                                   ParameterReport(a.parameters, |files|, JoinPath(outDir, NetworkFile)), rows))
  }

  /** The script body, from the reading loop to the writing loop. */
  method LegacyConsensusNetwork(files: seq<seq<string>>, pArg: string, outDir: string,
                                parse: Parse, exp: RealFn, form: Form, sqrt: RealFn)
    returns (r: Result<Consensus, ConsensusError>)
    ensures r == LegacySpec(files, pArg, outDir, parse, exp, form, sqrt)
  {
    var agg := AggregateRuns(files, LegacySeparator, parse);
    if agg.Err? {
      return Err(ReadError(agg.error));
    }
    var a := agg.value;
    var e := |a.stats|;
    if e == 0 {
      return Err(ZeroDivision);
    }
    var mu, spread := Moments(a.runEdges, e);
    if spread < 0.0 {
      return Err(MathDomain);
    }
    var sigma := sqrt(spread);
    var p := parse(pArg);
    if p.None? {
      return Err(BadThreshold(pArg));
    }
    var threshold := p.value;
    var parameters := a.parameters + ">  Bootstrap No: " + NatToString(|files|) + "\n";
    parameters := parameters + ">  Source: sjaracne2\n";
    var path := if EndsWithSlash(outDir) then outDir + NetworkFile else outDir + "/" + NetworkFile;
    parameters := parameters + ">  Output network: " + path + "\n";
    var keys := SortKeys(a.stats.Keys);
    AggregateKeysSplit(files, LegacySeparator, parse);
    var rows := WriteRows(keys, a.stats, mu, Num(sigma), threshold, LegacySeparator, exp, form);
    if rows.Err? {
      return Err(rows.error);
    }
    return Ok(Consensus(Info(e, 0.05 / e as real, mu, Num(sigma)), threshold, parameters, rows.value));
  }

  /** The older script fails while reading, with no edge, on a negative sigma
      squared (only possible when some run has more edges than there are distinct
      edges) or on a p-value that is no number; never on a key. */
  lemma LegacyFailures(files: seq<seq<string>>, pArg: string, outDir: string,
                       parse: Parse, exp: RealFn, form: Form, sqrt: RealFn)
    ensures var r := LegacySpec(files, pArg, outDir, parse, exp, form, sqrt);
      var a := AggregateSpec(files, LegacySeparator, parse);
      (r.Err? && r.error.ReadError? <==> a.Err?) &&
      (r.Err? && r.error == ZeroDivision <==> a.Ok? && |a.value.stats| == 0) &&
      (r.Err? && r.error == MathDomain ==>
        a.Ok? && exists i :: 0 <= i < |a.value.runEdges| && a.value.runEdges[i] > |a.value.stats|) &&
      (r.Err? && r.error.BadThreshold? ==> parse(pArg).None?) &&
      !(r.Err? && r.error.MissingTarget?)
  {
    var a := AggregateSpec(files, LegacySeparator, parse);
    if a.Ok? && |a.value.stats| > 0 {
      var e := |a.value.stats|;
      var counts := a.value.runEdges;
      if forall i :: 0 <= i < |counts| ==> counts[i] <= e {
        SpreadSumNonNegative(counts, e);
      }
      var sigma := Sigma(SpreadSum(counts, e), sqrt);
      var th := LegacyThreshold(pArg, parse);
      if sigma.Ok? && th.Ok? {
        AggregateKeysSplit(files, LegacySeparator, parse);
        RowsAreKept(SortedOf(a.value.stats.Keys), a.value.stats, ProbSum(counts, e), Num(sigma.value), th.value,
                    LegacySeparator, exp, form);
      }
    }
  }

  lemma LegacyParts(files: seq<seq<string>>, pArg: string, outDir: string,
                    parse: Parse, exp: RealFn, form: Form, sqrt: RealFn)
    requires LegacySpec(files, pArg, outDir, parse, exp, form, sqrt).Ok?
    ensures var c := LegacySpec(files, pArg, outDir, parse, exp, form, sqrt).value;
      var a := AggregateSpec(files, LegacySeparator, parse);
      a.Ok? && |a.value.stats| > 0 &&
      parse(pArg) == Some(c.threshold) &&
      Listed(SortedOf(a.value.stats.Keys), a.value.stats) && AllSplit(SortedOf(a.value.stats.Keys), LegacySeparator) &&
      Rows(SortedOf(a.value.stats.Keys), a.value.stats, c.info.mu, c.info.sigma, c.threshold, LegacySeparator, exp, form) == Ok(c.rows)
  {
    AggregateKeysSplit(files, LegacySeparator, parse);
  }

  /** The network lists exactly the significant edges in ascending key order, with
      the threshold given on the command line whatever the number of edges. */
  lemma LegacyRows(files: seq<seq<string>>, pArg: string, outDir: string,
                   parse: Parse, exp: RealFn, form: Form, sqrt: RealFn)
    requires LegacySpec(files, pArg, outDir, parse, exp, form, sqrt).Ok?
    ensures var c := LegacySpec(files, pArg, outDir, parse, exp, form, sqrt).value;
      var a := AggregateSpec(files, LegacySeparator, parse).value;
      parse(pArg) == Some(c.threshold) &&
      Listed(SortedOf(a.stats.Keys), a.stats) &&
      var kept := KeptKeys(SortedOf(a.stats.Keys), a.stats, c.info.mu, c.info.sigma, c.threshold, exp, form);
      StrictlySorted(kept) &&
      (forall k :: k in kept <==> k in a.stats && Significant(a.stats[k], c.info.mu, c.info.sigma, c.threshold, exp, form)) &&
      AllSplit(kept, LegacySeparator) && c.rows == RowsOf(kept, a.stats, LegacySeparator)
  {
    var c := LegacySpec(files, pArg, outDir, parse, exp, form, sqrt).value;
    var a := AggregateSpec(files, LegacySeparator, parse).value;
    LegacyParts(files, pArg, outDir, parse, exp, form, sqrt);
    FilterFacts(SortedOf(a.stats.Keys), a.stats, c.info.mu, c.info.sigma, c.threshold, LegacySeparator, exp, form, c.rows);
  }

  /** With "--" as separator, hub "a-" with target "b" and hub "a" with target "-b"
      share one key, and its line names hub "a" and target "-b". */
  lemma SeparatorCollision()
    ensures Key("a-", LegacySeparator, "b") == Key("a", LegacySeparator, "-b") == "a---b"
    ensures Split("a---b", LegacySeparator) == ["a", "-b"]
  {
    assert "a" + LegacySeparator == "a--";
    forall j | 0 <= j < 1
      ensures !OccursAt("a--", LegacySeparator, j)
    {
      assert "a--"[0..2] == "a-";
    }
    forall j
      ensures !OccursAt("-b", LegacySeparator, j)
    {
      if j == 0 {
        assert "-b"[0..2] == "-b";
      }
    }
    SplitPair("a", LegacySeparator, "-b");
    assert Key("a", LegacySeparator, "-b") == "a---b";
  }
}
