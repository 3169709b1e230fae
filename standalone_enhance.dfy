/** The standalone enhancement script (SJARACNe/bin/get_enhanced_consensus_network.py):
    the same rows as create_enhanced_consensus_network, looked up in the
    expression table afresh for every line, a header labelling the slope "rho",
    and a spreadsheet copy of the text output. Two lines of it do not do what
    they evidently mean; each is modelled as written (the *AsWritten members)
    and as intended, and the method uses the intended form. */
module StandaloneEnhance {
  import opened Wrappers
  import opened Strings
  import opened Bootstrap
  import opened Enhance

  const StandaloneHeader: seq<string> :=
    ["source", "target", "source.symbol", "target.symbol", "MI", "pearson", "spearman", "rho", "p-value"]

  /** Both headers label the same nine columns, except the slope's. */
  lemma HeadersDiffer()
    ensures |StandaloneHeader| == |CurrentHeader| == 9
    ensures forall i :: 0 <= i < 9 && i != 7 ==> StandaloneHeader[i] == CurrentHeader[i]
    ensures StandaloneHeader[7] == "rho" && CurrentHeader[7] == "slope"
  {
  }

  // ---- the subnet test of line 81 ----

  /** A cell of an expression table row. */
  datatype Cell = Text(text: string) | Number(value: real)

  /** exp.loc[id].values: the symbol column, then the samples. */
  function Values(e: Expression): (r: seq<Cell>)
    ensures |r| == 1 + |e.samples| && r[0] == Text(e.symbol)
    ensures forall i :: 0 <= i < |e.samples| ==> r[i + 1] == Number(e.samples[i])
  {
    [Text(e.symbol)] + seq(|e.samples|, i requires 0 <= i < |e.samples| => Number(e.samples[i]))
  }

  /** `c in subnet_list`: only a text cell can equal an entry of the list. */
  predicate CellIn(c: Cell, list: seq<string>)
  {
    c.Text? && c.text in list
  }

  /** As written, the second symbol is exp.loc[node1].values[1], the first sample
      of node1: it fails when node1 has no sample, and a sample never matches a
      list entry, so node2's symbol plays no part. */
  function SubnetTestAsWritten(node1: string, e1: Expression, e2: Expression, list: seq<string>)
    : (r: Result<bool, EnhanceError>)
  {
    var v1 := Values(e1);
    if |v1| < 2 then Err(MissingValue(node1))
    else Ok(CellIn(v1[0], list) || CellIn(v1[1], list))
  }

  /** The test as written fails iff node1 has no sample and otherwise asks only
      about node1's symbol. */
  lemma SubnetTestAsWrittenIgnoresTarget(node1: string, e1: Expression, e2: Expression, list: seq<string>)
    ensures var r := SubnetTestAsWritten(node1, e1, e2, list);
      (r.Err? <==> |e1.samples| == 0) &&
      (r.Err? ==> r.error == MissingValue(node1)) &&
      (r.Ok? ==> (r.value <==> e1.symbol in list))
  {
    var v1 := Values(e1);
    if |e1.samples| > 0 {
      assert v1[1] == Number(e1.samples[0]);
    }
  }

  /** A line whose target alone has a listed symbol is left out of the subnet file
      as written, and kept by the intended test. */
  lemma SubnetTestCounterexample()
    ensures SubnetTestAsWritten("g1", Expression("A", [1.0]), Expression("B", [2.0]), ["B"]) == Ok(false)
    ensures InSubnet(EnhancedRow("g1", "g2", "A", "B", 0.5, Coeffs(0.0, 0.0, 0.0, 0.0, 0.0, 0.0, 0.0, 0.0, 0.0)), ["B"])
  {
    SubnetTestAsWrittenIgnoresTarget("g1", Expression("A", [1.0]), Expression("B", [2.0]), ["B"]);
    assert "A" != "B";
  }

  /** One network line as written: the row of LineRow, failing when node1 has no
      sample, and whether it goes to the subnet file. */
  function LineAsWritten(line: string, table: Table, list: seq<string>, parse: Parse, correlate: Correlate)
    : (r: Result<(EnhancedRow, bool), EnhanceError>)
  {
    match LineRow(line, table, parse, correlate)
      case Err(e) => Err(e)
      case Ok(row) =>
        match SubnetTestAsWritten(row.source, table[row.source], table[row.target], list)
          case Err(e) => Err(e)
          case Ok(b) => Ok((row, b))
  }

  /** Where the line as written differs from the intended line: it fails on a
      node1 with no sample, and it sends a row to the subnet file iff its source
      symbol is listed, whatever its target symbol. */
  lemma LineAsWrittenDiffers(line: string, table: Table, list: seq<string>, parse: Parse, correlate: Correlate)
    requires LineRow(line, table, parse, correlate).Ok?
    ensures var row := LineRow(line, table, parse, correlate).value;
      var r := LineAsWritten(line, table, list, parse, correlate);
      (r.Err? <==> |table[row.source].samples| == 0) &&
      (r.Ok? ==> r.value.0 == row && (r.value.1 <==> row.sourceSymbol in list))
  {
    var row := LineRow(line, table, parse, correlate).value;
    SubnetTestAsWrittenIgnoresTarget(row.source, table[row.source], table[row.target], list);
  }

  // ---- the spreadsheet of lines 64-92 ----

  datatype SheetRow = HeaderRow | DataRow(row: EnhancedRow)

  /** The worksheet: row number to row. */
  type Sheet = map<nat, SheetRow>

  /** As written: the header at row 0, then row_index, still 0, for the first data
      row, so every data row i lands at row i. */
  function SheetAsWritten(rows: seq<EnhancedRow>): Sheet
  {
    if |rows| == 0 then map[0 := HeaderRow]
    else SheetAsWritten(rows[..|rows| - 1])[|rows| - 1 := DataRow(rows[|rows| - 1])]
  }

  /** As intended: the header at row 0 and data row i at row i + 1. */
  function SheetOf(rows: seq<EnhancedRow>): Sheet
  {
    if |rows| == 0 then map[0 := HeaderRow]
    else SheetOf(rows[..|rows| - 1])[|rows| := DataRow(rows[|rows| - 1])]
  }

  /** The intended sheet has |rows| + 1 rows: the header first and then every data
      row in order. */
  lemma {:induction false} SheetOfLayout(rows: seq<EnhancedRow>)
    ensures var s := SheetOf(rows);
      (forall k :: k in s <==> 0 <= k <= |rows|) && 0 in s && s[0] == HeaderRow &&
      (forall i :: 0 <= i < |rows| ==> i + 1 in s && s[i + 1] == DataRow(rows[i]))
  {
    if |rows| > 0 {
      var init := rows[..|rows| - 1];
      SheetOfLayout(init);
      var s := SheetOf(rows);
      assert s == SheetOf(init)[|rows| := DataRow(rows[|rows| - 1])];
      assert forall k :: k in s <==> 0 <= k <= |rows|;
      assert s[0] == HeaderRow;
      forall i | 0 <= i < |rows|
        ensures i + 1 in s && s[i + 1] == DataRow(rows[i])
      {
        if i < |rows| - 1 {
          assert rows[i] == init[i];
          assert s[i + 1] == SheetOf(init)[i + 1];
        }
      }
    }
  }

  /** The sheet as written holds the data rows at 0 .. |rows| - 1 and the header only
      when there is no data row. */
  lemma {:induction false} SheetAsWrittenLayout(rows: seq<EnhancedRow>)
    ensures var s := SheetAsWritten(rows);
      (forall k :: k in s <==> 0 <= k < |rows| || k == 0) &&
      (forall i :: 0 <= i < |rows| ==> i in s && s[i] == DataRow(rows[i])) &&
      (|rows| == 0 ==> 0 in s && s[0] == HeaderRow)
  {
    if |rows| > 0 {
      var init := rows[..|rows| - 1];
      SheetAsWrittenLayout(init);
      var s := SheetAsWritten(rows);
      assert s == SheetAsWritten(init)[|rows| - 1 := DataRow(rows[|rows| - 1])];
      assert forall k :: k in s <==> 0 <= k < |rows| || k == 0;
      forall i | 0 <= i < |rows|
        ensures i in s && s[i] == DataRow(rows[i])
      {
        if i < |rows| - 1 {
          assert rows[i] == init[i];
          assert s[i] == SheetAsWritten(init)[i];
        }
      }
    }
  }

  /** With one data row or more, the header as written is overwritten and the sheet
      has no header row at all. */
  lemma SheetAsWrittenLosesHeader(rows: seq<EnhancedRow>)
    requires |rows| > 0
    ensures HeaderRow !in SheetAsWritten(rows).Values
    ensures 0 in SheetAsWritten(rows) && SheetAsWritten(rows)[0] == DataRow(rows[0])
    ensures 0 in SheetOf(rows) && SheetOf(rows)[0] == HeaderRow
  {
    SheetAsWrittenLayout(rows);
    SheetOfLayout(rows);
    var s := SheetAsWritten(rows);
    forall k | k in s
      ensures s[k] != HeaderRow
    {
      assert s[k] == DataRow(rows[k]);
    }
  }

  // ---- the script ----

  /** The text output and subnet file, and the spreadsheet. */
  datatype Standalone = Standalone(enhanced: Enhanced, sheet: Sheet)

  function StandaloneSpec(lines: seq<string>, table: Table, subnet: Option<seq<string>>, parse: Parse, correlate: Correlate)
    : Result<Standalone, EnhanceError>
  {
    match EnhanceSpec(lines, table, subnet, parse, correlate)
      case Err(e) => Err(e)
      case Ok(e) => Ok(Standalone(e, SheetOf(e.rows)))
  }

  /** One network line, both records read from the table. */
  method StandaloneLine(line: string, table: Table, parse: Parse, correlate: Correlate)
    returns (r: Result<EnhancedRow, EnhanceError>)
    ensures r == LineRow(line, table, parse, correlate)
  {
    var tokens := Split(line, "\t");
    if |tokens| < 3 {
      return Err(MissingColumn(line));
    }
    var mi := parse(tokens[2]);
    if mi.None? {
      return Err(BadMi(tokens[2]));
    }
    if tokens[0] !in table {
      return Err(UnknownNode(tokens[0]));
    }
    if tokens[1] !in table {
      return Err(UnknownNode(tokens[1]));
    }
    var e1, e2 := table[tokens[0]], table[tokens[1]];
    return Ok(EnhancedRow(tokens[0], tokens[1], e1.symbol, e2.symbol, mi.value, correlate(e1.samples, e2.samples)));
  }

  lemma SheetStep(rows: seq<EnhancedRow>, row: EnhancedRow)
    ensures SheetOf(rows + [row]) == SheetOf(rows)[|rows| + 1 := DataRow(row)]
  {
    assert (rows + [row])[..|rows|] == rows;
  }

  /** create_enhanced_consensus_network of the standalone script, with the
      intended subnet test and row numbers: the same text output and subnet file
      as the current version, and a sheet with the header above all rows. */
  method StandaloneEnhanceNetwork(lines: seq<string>, table: Table, subnet: Option<seq<string>>,
                                  parse: Parse, correlate: Correlate)
    returns (r: Result<Standalone, EnhanceError>)
    ensures r == StandaloneSpec(lines, table, subnet, parse, correlate)
  {
    var list := ReadSubnet(subnet);
    var sheet: Sheet := map[0 := HeaderRow];
    var rowIndex := 1;
    var body := Body(lines);
    var rows: seq<EnhancedRow> := [];
    var sub: seq<EnhancedRow> := [];
    for i := 0 to |body|
      invariant EnhanceInv(body, i, rows, sub, list, map[], table, parse, correlate)
      invariant |rows| == i && rowIndex == i + 1 && sheet == SheetOf(rows)
    {
      var res := StandaloneLine(body[i], table, parse, correlate);
      if res.Err? {
        EnhanceFails(body, i, table, parse, correlate);
        return Err(res.error);
      }
      EnhanceStep(body, i, rows, sub, res.value, list, map[], table, parse, correlate);
      SheetStep(rows, res.value);
      sheet := sheet[rowIndex := DataRow(res.value)];
      rowIndex := rowIndex + 1;
      rows, sub := rows + [res.value], SubnetAppend(sub, res.value, list);
    }
    EnhanceDone(body, rows, sub, list, map[], table, parse, correlate);
    return Ok(Standalone(Enhanced(rows, if list.Some? then Some(sub) else None), sheet));
  }
}
