/** Network enhancement: every line of a consensus network is joined with the
    expression table (gene symbol and samples of both ends) and with the
    correlation coefficients of the two sample vectors; lines whose source or
    target symbol is in a subnet list are also written to a subnet file. This
    module holds the pieces the three versions share and the version in
    SJARACNe/bin/create_consensus_network.py (create_enhanced_consensus_network),
    which caches each node's record on first use. */
module Enhance {
  import opened Wrappers
  import opened Strings
  import opened Bootstrap

  // ---- output names ----

  /** The characters of the pattern "_|\." the network's file name is split at. */
  const NameDelims: set<char> := {'_', '.'}

  /** os.path.basename(path), and path.split('/')[-1]: the text after the last '/'. */
  function Basename(path: string): (r: string)
    ensures forall j :: !OccursAt(r, "/", j)
  {
    SplitLastFree(path, "/");
    Last(Split(path, "/"))
  }

  function NameTokens(path: string): (r: seq<string>)
    ensures |r| >= 1
  {
    SplitOnChars(Basename(path), NameDelims)
  }

  /** Tokens 0 and 1, joined by '_'. */
  function NameHead(tokens: seq<string>): string
  {
    Join(Slice(tokens, 0, 2), "_")
  }

  /** Tokens 3 up to, not including, the last one, joined by '_'. */
  function NameTail(tokens: seq<string>): string
    requires |tokens| >= 1
  {
    Join(Slice(tokens, 3, |tokens| - 1), "_")
  }

  /** The enhanced network's name from the tokens of the base name: head,
      "_ncol_", tail. */
  function NcolOf(t: seq<string>): string
    requires |t| >= 1
  {
    NameHead(t) + "_ncol_" + NameTail(t)
  }

  function NcolName(path: string): string
  {
    NcolOf(NameTokens(path))
  }

  /** A word with no name delimiter and no '/'. */
  predicate Plain(w: string)
  {
    forall i :: 0 <= i < |w| ==> w[i] !in NameDelims && w[i] != '/'
  }

  predicate AllPlain(words: seq<string>)
  {
    forall i :: 0 <= i < |words| ==> Plain(words[i])
  }

  lemma {:induction false} SplitWords(words: seq<string>, ext: string)
    requires |words| >= 1 && AllPlain(words) && Plain(ext)
    ensures SplitOnChars(Join(words, "_") + "." + ext, NameDelims) == words + [ext]
  {
    var w := words[0];
    if |words| == 1 {
      assert Join(words, "_") + "." + ext == w + ['.'] + ext;
      SplitOnCharsWord(w, '.', ext, NameDelims);
      SplitOnCharsPlain(ext, NameDelims);
    } else {
      var rest := Join(words[1..], "_") + "." + ext;
      SplitWords(words[1..], ext);
      assert Join(words, "_") + "." + ext == w + ['_'] + rest;
      SplitOnCharsWord(w, '_', rest, NameDelims);
      assert words == [w] + words[1..];
    }
  }

  lemma {:induction false} JoinPlainHasNoSlash(words: seq<string>)
    requires AllPlain(words)
    ensures forall i :: 0 <= i < |Join(words, "_")| ==> Join(words, "_")[i] != '/'
  {
    if |words| > 1 {
      JoinPlainHasNoSlash(words[1..]);
    }
  }

  lemma HasNoSlash(s: string)
    requires forall i :: 0 <= i < |s| ==> s[i] != '/'
    ensures Basename(s) == s
  {
    forall j
      ensures !OccursAt(s, "/", j)
    {
      if 0 <= j < |s| {
        assert s[j..j + 1] == [s[j]];
      }
    }
    SplitWithoutSep(s, "/");
  }

  lemma NameTokensOfWords(words: seq<string>, ext: string)
    requires |words| >= 1 && AllPlain(words) && Plain(ext)
    ensures NameTokens(Join(words, "_") + "." + ext) == words + [ext]
  {
    JoinPlainHasNoSlash(words);
    HasNoSlash(Join(words, "_") + "." + ext);
    SplitWords(words, ext);
  }

  lemma NcolOfWords(w1: string, w2: string, ws: seq<string>, ext: string)
    requires |ws| >= 1
    ensures NcolOf([w1, w2] + ws + [ext]) == w1 + "_" + w2 + "_ncol_" + Join(ws[1..], "_")
  {
    var t := [w1, w2] + ws + [ext];
    assert Slice(t, 0, 2) == [w1, w2];
    assert Slice(t, 3, |t| - 1) == ws[1..];
    assert Join([w1, w2], "_") == w1 + "_" + w2;
  }

  /** A name made of words w1_w2_w3_..._wn.ext loses its third word to "ncol". */
  lemma NcolNameOfWords(w1: string, w2: string, ws: seq<string>, ext: string)
    requires Plain(w1) && Plain(w2) && |ws| >= 1 && AllPlain(ws) && Plain(ext)
    ensures NcolName(Join([w1, w2] + ws, "_") + "." + ext) == w1 + "_" + w2 + "_ncol_" + Join(ws[1..], "_")
  {
    AllPlainCons(w1, w2, ws);
    NameTokensOfWords([w1, w2] + ws, ext);
    assert ([w1, w2] + ws) + [ext] == [w1, w2] + ws + [ext];
    NcolOfWords(w1, w2, ws, ext);
  }

  lemma AllPlainCons(w1: string, w2: string, ws: seq<string>)
    requires Plain(w1) && Plain(w2) && AllPlain(ws)
    ensures AllPlain([w1, w2] + ws)
  {
    var words := [w1, w2] + ws;
    forall i | 0 <= i < |words|
      ensures Plain(words[i])
    {
      if i >= 2 {
        assert words[i] == ws[i - 2];
      }
    }
  }

  lemma ExampleWords()
    ensures Plain("consensus") && Plain("network") && Plain("txt") && AllPlain(["3col", ""])
  {
    assert Plain(["3col", ""][0]) && Plain(["3col", ""][1]);
  }

  lemma ExampleName()
    ensures Join(["consensus", "network"] + ["3col", ""], "_") + "." + "txt" == "consensus_network_3col_.txt"
  {
    var ws := ["3col", ""];
    assert Join(ws, "_") == "3col_";
    assert Join(["consensus", "network"] + ws, "_") == "consensus_" + Join(["network"] + ws, "_");
    assert Join(["network"] + ws, "_") == "network_" + Join(ws, "_");
  }

  lemma ExampleNcol()
    ensures "consensus" + "_" + "network" + "_ncol_" + Join(["3col", ""][1..], "_") == "consensus_network_ncol_"
  {
    assert Join(["3col", ""][1..], "_") == "";
    assert "consensus" + "_" == "consensus_";
    assert "consensus_" + "network" == "consensus_network";
    assert "consensus_network" + "_ncol_" == "consensus_network_ncol_";
  }

  /** The name of the script's own test data. */
  lemma NcolNameExample()
    ensures NcolName("consensus_network_3col_.txt") == "consensus_network_ncol_"
  {
    ExampleWords();
    ExampleName();
    ExampleNcol();
    NcolNameOfWords("consensus", "network", ["3col", ""], "txt");
  }

  // ---- the joined records ----

  /** What linregress (slope, intercept, r, p, stderr), spearmanr (scc, sp) and
      pearsonr (pcc, pp) return for two sample vectors. */
  datatype Coeffs = Coeffs(slope: real, intercept: real, r: real, p: real, stderr: real,
                           scc: real, sp: real, pcc: real, pp: real)

  type Correlate = (seq<real>, seq<real>) -> Coeffs

  /** A row of the expression table: the gene symbol and the sample values. */
  datatype Expression = Expression(symbol: string, samples: seq<real>)

  type Table = map<string, Expression>

  /** One output line: source, target, their symbols, MI and the coefficients
      (written as MI, pearson, spearman, slope, p-value). */
  datatype EnhancedRow = EnhancedRow(source: string, target: string, sourceSymbol: string, targetSymbol: string,
                                     mi: real, coeffs: Coeffs)

  datatype EnhanceError =
    | MissingColumn(line: string)   // tokens[1] or tokens[2] past the end
    | BadMi(token: string)          // float() of the MI column
    | UnknownNode(id: string)       // exp.loc of an id the table lacks
    | MissingValue(id: string)      // values[1] of a record with no sample

  // ---- the subnet list ----

  /** One entry of the subnet list: the line up to its first newline, stripped. */
  function SubnetEntry(line: string): (r: string)
    ensures forall i :: 0 <= i < |r| ==> r[i] != '\n'
    ensures |r| > 0 ==> !IsSpace(r[0]) && !IsSpace(r[|r| - 1])
  {
    var first := Split(line, "\n")[0];
    SplitFirstFree(line, "\n");
    var r := Strip(first);
    assert forall i :: 0 <= i < |r| ==> r[i] != '\n' by {
      forall i | 0 <= i < |r|
        ensures r[i] != '\n'
      {
        var k := SkipSpace(first, 0);
        assert r[i] == first[k + i];
        assert !OccursAt(first, "\n", k + i);
        assert first[k + i..k + i + 1] == [first[k + i]];
      }
    }
    r
  }

  function SubnetList(lines: seq<string>): (r: seq<string>)
    ensures |r| == |lines|
  {
    if |lines| == 0 then [] else SubnetList(lines[..|lines| - 1]) + [SubnetEntry(lines[|lines| - 1])]
  }

  /** Every entry of the list comes from the line at its position. */
  lemma {:induction false} SubnetListAt(lines: seq<string>, i: nat)
    requires i < |lines|
    ensures SubnetList(lines)[i] == SubnetEntry(lines[i])
  {
    if i < |lines| - 1 {
      SubnetListAt(lines[..|lines| - 1], i);
    }
  }

  /** The loop reading the subnet file. */
  method ReadSubnetList(lines: seq<string>) returns (list: seq<string>)
    ensures list == SubnetList(lines)
  {
    list := [];
    for i := 0 to |lines|
      invariant list == SubnetList(lines[..i])
    {
      assert lines[..i + 1][..i] == lines[..i];
      list := list + [SubnetEntry(lines[i])];
    }
    assert lines[..|lines|] == lines;
  }

  /** A line goes to the subnet file when either symbol is in the list. */
  predicate InSubnet(row: EnhancedRow, list: seq<string>)
  {
    row.sourceSymbol in list || row.targetSymbol in list
  }

  function SubnetAppend(sub: seq<EnhancedRow>, row: EnhancedRow, list: Option<seq<string>>): seq<EnhancedRow>
  {
    if list.Some? && InSubnet(row, list.value) then sub + [row] else sub
  }

  /** The lines of the subnet file: the rows passing the test, in their order. */
  function SubnetRows(rows: seq<EnhancedRow>, list: seq<string>): (r: seq<EnhancedRow>)
    ensures forall x :: x in r <==> x in rows && InSubnet(x, list)
    ensures |r| <= |rows|
  {
    if |rows| == 0 then []
    else
      var init := rows[..|rows| - 1];
      assert rows == init + [rows[|rows| - 1]];
      SubnetAppend(SubnetRows(init, list), rows[|rows| - 1], Some(list))
  }

  // ---- the network lines ----

  /** The output line of one network line: tab-separated node1, node2 and MI, the
      records of both nodes (node1 looked up first) and their coefficients. */
  function LineRow(line: string, table: Table, parse: Parse, correlate: Correlate): (r: Result<EnhancedRow, EnhanceError>)
    ensures var t := Split(line, "\t");
      r.Ok? <==> |t| >= 3 && parse(t[2]).Some? && t[0] in table && t[1] in table
    ensures var t := Split(line, "\t");
      r.Ok? ==> r.value.source == t[0] && r.value.target == t[1] && Some(r.value.mi) == parse(t[2]) &&
                r.value.sourceSymbol == table[t[0]].symbol && r.value.targetSymbol == table[t[1]].symbol &&
                r.value.coeffs == correlate(table[t[0]].samples, table[t[1]].samples)
  {
    var t := Split(line, "\t");
    if |t| < 3 then Err(MissingColumn(line))
    else match parse(t[2])
      case None => Err(BadMi(t[2]))
      case Some(mi) =>
        if t[0] !in table then Err(UnknownNode(t[0]))
        else if t[1] !in table then Err(UnknownNode(t[1]))
        else Ok(EnhancedRow(t[0], t[1], table[t[0]].symbol, table[t[1]].symbol, mi,
                            correlate(table[t[0]].samples, table[t[1]].samples)))
  }

  /** The output lines of the given network lines, or the first error. */
  function RowsOfLines(lines: seq<string>, table: Table, parse: Parse, correlate: Correlate)
    : (r: Result<seq<EnhancedRow>, EnhanceError>)
    ensures r.Ok? ==> |r.value| == |lines|
  {
    if |lines| == 0 then Ok([])
    else match RowsOfLines(lines[..|lines| - 1], table, parse, correlate)
      case Err(e) => Err(e)
      case Ok(rows) => match LineRow(lines[|lines| - 1], table, parse, correlate)
        case Err(e) => Err(e)
        case Ok(row) => Ok(rows + [row])
  }

  /** On success there is one output line per network line, in input order. */
  lemma {:induction false} RowsOfLinesOk(lines: seq<string>, table: Table, parse: Parse, correlate: Correlate, i: nat)
    requires RowsOfLines(lines, table, parse, correlate).Ok? && i < |lines|
    ensures LineRow(lines[i], table, parse, correlate) == Ok(RowsOfLines(lines, table, parse, correlate).value[i])
  {
    if i < |lines| - 1 {
      RowsOfLinesOk(lines[..|lines| - 1], table, parse, correlate, i);
    }
  }

  /** On failure the error is that of the first line that fails. */
  lemma {:induction false} RowsOfLinesErr(lines: seq<string>, table: Table, parse: Parse, correlate: Correlate)
    returns (i: nat)
    requires RowsOfLines(lines, table, parse, correlate).Err?
    ensures i < |lines| && LineRow(lines[i], table, parse, correlate) == Err(RowsOfLines(lines, table, parse, correlate).error)
    ensures forall j :: 0 <= j < i ==> LineRow(lines[j], table, parse, correlate).Ok?
  {
    var init := lines[..|lines| - 1];
    if RowsOfLines(init, table, parse, correlate).Err? {
      i := RowsOfLinesErr(init, table, parse, correlate);
    } else {
      i := |lines| - 1;
      forall j | 0 <= j < i
        ensures LineRow(lines[j], table, parse, correlate).Ok?
      {
        RowsOfLinesOk(init, table, parse, correlate, j);
      }
    }
  }

  /** The lines after the header line (fnet.readline() skips the first). */
  function Body(lines: seq<string>): seq<string>
  {
    if |lines| == 0 then [] else lines[1..]
  }

  /** The network's lines after its header, and the subnet file's lines when a
      subnet list is given. */
  datatype Enhanced = Enhanced(rows: seq<EnhancedRow>, subnetRows: Option<seq<EnhancedRow>>)

  const CurrentHeader: seq<string> :=
    ["source", "target", "source.symbol", "target.symbol", "MI", "pearson", "spearman", "slope", "p-value"]

  /** The subnet list, when a subnet file is given. */
  function SubnetOption(subnet: Option<seq<string>>): Option<seq<string>>
  {
    match subnet case None => None case Some(s) => Some(SubnetList(s))
  }

  /** The outcome of enhancing the network lines `body`, with the subnet list
      `list` when there is one. */
  function LinesSpec(body: seq<string>, table: Table, list: Option<seq<string>>, parse: Parse, correlate: Correlate)
    : Result<Enhanced, EnhanceError>
  {
    match RowsOfLines(body, table, parse, correlate)
      case Err(e) => Err(e)
      case Ok(rows) =>
        Ok(Enhanced(rows, match list case None => None case Some(l) => Some(SubnetRows(rows, l))))
  }

  /** The outcome of enhancing `lines` (the whole network file), with `subnet` the
      subnet file's lines when one is given. */
  function EnhanceSpec(lines: seq<string>, table: Table, subnet: Option<seq<string>>, parse: Parse, correlate: Correlate)
    : Result<Enhanced, EnhanceError>
  {
    LinesSpec(Body(lines), table, SubnetOption(subnet), parse, correlate)
  }

  /** Every successful run writes one line per network line after the header,
      the output of that line. */
  lemma EnhanceRows(lines: seq<string>, table: Table, subnet: Option<seq<string>>, parse: Parse, correlate: Correlate, i: nat)
    requires EnhanceSpec(lines, table, subnet, parse, correlate).Ok?
    ensures |EnhanceSpec(lines, table, subnet, parse, correlate).value.rows| == |Body(lines)|
    ensures i < |Body(lines)| ==>
      LineRow(Body(lines)[i], table, parse, correlate) == Ok(EnhanceSpec(lines, table, subnet, parse, correlate).value.rows[i])
  {
    if i < |Body(lines)| {
      RowsOfLinesOk(Body(lines), table, parse, correlate, i);
    }
  }

  /** The subnet file is written exactly when a subnet list is given, and holds
      exactly the lines with a symbol in the list. */
  lemma EnhanceSubnet(lines: seq<string>, table: Table, subnet: Option<seq<string>>, parse: Parse, correlate: Correlate)
    requires EnhanceSpec(lines, table, subnet, parse, correlate).Ok?
    ensures var e := EnhanceSpec(lines, table, subnet, parse, correlate).value;
      (subnet.Some? <==> e.subnetRows.Some?) &&
      (subnet.Some? ==> forall x :: x in e.subnetRows.value <==> x in e.rows && InSubnet(x, SubnetList(subnet.value)))
  {
  }

  // ---- create_enhanced_consensus_network ----

  /** The cache holds records of the table, unchanged. */
  predicate Cached(cache: Table, table: Table)
  {
    forall k :: k in cache ==> k in table && cache[k] == table[k]
  }

  /** The record of a node: from the cache when it is there, otherwise read from
      the table and stored in the cache. */
  method Fetch(cache: Table, table: Table, node: string) returns (r: Result<Expression, EnhanceError>, cache': Table)
    requires Cached(cache, table)
    ensures r == if node in table then Ok(table[node]) else Err(UnknownNode(node))
    ensures Cached(cache', table)
    ensures cache' == if node in cache || node !in table then cache else cache[node := table[node]]
  {
    if node in cache {
      return Ok(cache[node]), cache;
    }
    if node !in table {
      return Err(UnknownNode(node)), cache;
    }
    var e := table[node];
    return Ok(e), cache[node := e];
  }

  /** One network line, with the cache. */
  method EnhanceLine(cache: Table, line: string, table: Table, parse: Parse, correlate: Correlate)
    returns (r: Result<EnhancedRow, EnhanceError>, cache': Table)
    requires Cached(cache, table)
    ensures r == LineRow(line, table, parse, correlate) && Cached(cache', table)
  {
    var tokens := Split(line, "\t");
    if |tokens| < 3 {
      return Err(MissingColumn(line)), cache;
    }
    var mi := parse(tokens[2]);
    if mi.None? {
      return Err(BadMi(tokens[2])), cache;
    }
    var e1, c1 := Fetch(cache, table, tokens[0]);
    if e1.Err? {
      return Err(e1.error), c1;
    }
    var e2, c2 := Fetch(c1, table, tokens[1]);
    if e2.Err? {
      return Err(e2.error), c2;
    }
    var coeffs := correlate(e1.value.samples, e2.value.samples);
    return Ok(EnhancedRow(tokens[0], tokens[1], e1.value.symbol, e2.value.symbol, mi.value, coeffs)), c2;
  }

  ghost predicate EnhanceInv(body: seq<string>, i: nat, rows: seq<EnhancedRow>, sub: seq<EnhancedRow>,
                             list: Option<seq<string>>, cache: Table, table: Table, parse: Parse, correlate: Correlate)
  {
    i <= |body| && RowsOfLines(body[..i], table, parse, correlate) == Ok(rows) && Cached(cache, table) &&
    (list.Some? ==> sub == SubnetRows(rows, list.value))
  }

  lemma EnhanceStep(body: seq<string>, i: nat, rows: seq<EnhancedRow>, sub: seq<EnhancedRow>, row: EnhancedRow,
                    list: Option<seq<string>>, cache: Table, table: Table, parse: Parse, correlate: Correlate)
    requires EnhanceInv(body, i, rows, sub, list, cache, table, parse, correlate) && i < |body|
    requires LineRow(body[i], table, parse, correlate) == Ok(row)
    ensures EnhanceInv(body, i + 1, rows + [row], SubnetAppend(sub, row, list), list, cache, table, parse, correlate)
  {
    assert body[..i + 1][..i] == body[..i];
    if list.Some? {
      assert (rows + [row])[..|rows|] == rows;
    }
  }

  lemma EnhanceFails(body: seq<string>, i: nat, table: Table, parse: Parse, correlate: Correlate)
    requires i < |body| && RowsOfLines(body[..i], table, parse, correlate).Ok?
    requires LineRow(body[i], table, parse, correlate).Err?
    ensures RowsOfLines(body, table, parse, correlate) == Err(LineRow(body[i], table, parse, correlate).error)
  {
    assert body[..i + 1][..i] == body[..i];
    RowsErrStays(body, i + 1, table, parse, correlate);
  }

  lemma {:induction false} RowsErrStays(lines: seq<string>, k: nat, table: Table, parse: Parse, correlate: Correlate)
    requires k <= |lines| && RowsOfLines(lines[..k], table, parse, correlate).Err?
    ensures RowsOfLines(lines, table, parse, correlate) == RowsOfLines(lines[..k], table, parse, correlate)
    decreases |lines| - k
  {
    if k < |lines| {
      assert lines[..|lines| - 1][..k] == lines[..k];
      RowsErrStays(lines[..|lines| - 1], k, table, parse, correlate);
    } else {
      assert lines[..k] == lines;
    }
  }

  lemma EnhanceDone(body: seq<string>, rows: seq<EnhancedRow>, sub: seq<EnhancedRow>, list: Option<seq<string>>,
                    cache: Table, table: Table, parse: Parse, correlate: Correlate)
    requires EnhanceInv(body, |body|, rows, sub, list, cache, table, parse, correlate)
    ensures LinesSpec(body, table, list, parse, correlate) == Ok(Enhanced(rows, if list.Some? then Some(sub) else None))
  {
    assert body[..|body|] == body;
  }

  method ReadSubnet(subnet: Option<seq<string>>) returns (list: Option<seq<string>>)
    ensures list == SubnetOption(subnet)
  {
    list := None;
    if subnet.Some? {
      var entries := ReadSubnetList(subnet.value);
      list := Some(entries);
    }
  }

  /** The writing loop, each node's record fetched through the cache; the result
      is the same as looking every node up afresh. */
  method EnhanceLines(body: seq<string>, table: Table, list: Option<seq<string>>, parse: Parse, correlate: Correlate)
    returns (r: Result<Enhanced, EnhanceError>)
    ensures r == LinesSpec(body, table, list, parse, correlate)
  {
    var cache: Table := map[];
    var rows: seq<EnhancedRow> := [];
    var sub: seq<EnhancedRow> := [];
    for i := 0 to |body|
      invariant EnhanceInv(body, i, rows, sub, list, cache, table, parse, correlate)
    {
      var res, cache' := EnhanceLine(cache, body[i], table, parse, correlate);
      if res.Err? {
        EnhanceFails(body, i, table, parse, correlate);
        return Err(res.error);
      }
      EnhanceStep(body, i, rows, sub, res.value, list, cache', table, parse, correlate);
      rows, sub, cache := rows + [res.value], SubnetAppend(sub, res.value, list), cache';
    }
    EnhanceDone(body, rows, sub, list, cache, table, parse, correlate);
    return Ok(Enhanced(rows, if list.Some? then Some(sub) else None));
  }

  /** create_enhanced_consensus_network: read the subnet list, skip the network's
      header line, and write every later line. */
  method CreateEnhancedConsensusNetwork(lines: seq<string>, table: Table, subnet: Option<seq<string>>,
                                        parse: Parse, correlate: Correlate)
    returns (r: Result<Enhanced, EnhanceError>)
    ensures r == EnhanceSpec(lines, table, subnet, parse, correlate)
  {
    var list := ReadSubnet(subnet);
    var body := Body(lines);
    r := EnhanceLines(body, table, list, parse, correlate);
  }
}
