# SJARACNe core, modelled in Dafny

SJARACNe reconstructs gene regulatory networks from expression data. The C++
program estimates the mutual information (MI) of gene pairs on bootstrap
samples of a microarray set. It then prunes indirect edges with the data
processing inequality (DPI) and writes each bootstrap network as an
adjacency file. Python scripts merge the bootstrap networks into a consensus
network. An edge is kept when its support across the runs is significantly
above the mean support, judged by the upper tail of the standard normal
distribution. Further scripts enrich the consensus network with per-edge
statistics and gene symbols. Two small validators check the input files
first.

This project models those parts and proves properties about them:

| file | module | models |
|---|---|---|
| `wrappers.dfy` | `Wrappers` | `Option`, `Result` and `Outcome` (pass or fail with an error) |
| `strings.dfy` | `Strings` | Python's `str.split`, `strip` and `'/'.join`, string ordering and `sorted`, decimal conversions |
| `uprob.dfy` | `Uprob` | `uprob`, the upper normal tail probability (`statistics.py`, copied in `create_consensus_network.py`) |
| `bootstrap.dfy` | `Bootstrap` | the reading loop both consensus scripts share: support and MI totals per edge key, and edge counts per run |
| `consensus.dfy` | `Consensus` | mu, sigma, z-score, threshold and the filter of `create_consensus_network` |
| `legacy_consensus.dfy` | `LegacyConsensus` | the older `getconsensusnetwork.py` |
| `enhance.dfy` | `Enhance` | `create_enhanced_consensus_network` |
| `standalone_enhance.dfy` | `StandaloneEnhance` | the standalone `get_enhanced_consensus_network.py` |
| `legacy_enhance.dfy` | `LegacyEnhance` | the older `getenhancedconsensusnetwork.py` |
| `microarray.dfy` | `Microarray` | markers, probes and the `Microarray_Set` class: active-marker count, accession and probe ids, file-format decision, high/low percent cut |
| `matrix.dfy` | `AdjacencyMatrix` | the `Matrix` class: node rows, symmetric MI storage, DPI reduction, reading and writing adjacency text |
| `param.dfy` | `Param` | the `Parameter` class: defaults, `checkParameter`, `getFileName`, `createOutfileName` |
| `util.dfy` | `Util` | `median` and `interQuartileRange`, in the original and the rewritten `util.cpp` |
| `qc.dfy` | `QcInput` | `QC_input.py`: the expression-file and probe-file checks |
| `lineending.dfy` | `LineEnding` | `ch_line_ending.py`: detecting and converting Windows and Mac line endings |

Conventions:

- Doubles are modelled as reals.
- Files are modelled as sequences of lines, each line keeping its terminator
  as Python reads it.
- Functions the model does not define are parameters. These include `float()`
  parsing (`parse`), `exp`, `sqrt`, `atof`, the MI estimator and number
  formatting, and they stay uninterpreted. Only the NaN that `np.sqrt` returns
  for a negative argument is modelled (`Uprob.Float`), because it changes which
  edges the consensus script keeps.
- Python 2 dictionary order is modelled as ascending key order.
- A loop in the source becomes a `method` with its invariants, proved equal to a
  specification function. The lemmas state their properties about that
  function.
- When the source is an object that updates its fields (`Matrix`,
  `Microarray_Set`, `Parameter`), the model is a `class`.

Where a comment or docstring disagrees with the code, or the code is evidently
wrong, the code as written has a member of its own, and the script-level
members use the corrected behaviour beside it:

- `getconsensusnetwork.py:78` tests `sys.argv[2] != None`, which is always
  true, so the Bonferroni default is never used. This is not corrected:
  `LegacyConsensus.LegacyThreshold` follows the code.
- The uprob polynomial (`statistics.py:12` and its copy in
  `create_consensus_network.py`) is `Uprob.UprobAsWritten` as written and
  `Uprob.UprobSpec` as intended. Here the consensus filter and both consensus
  scripts take the form as a parameter (`Uprob.Form`): `AsWritten` states the
  scripts as they stand, and `Intended` states them with the corrected polynomial.
- `get_enhanced_consensus_network.py:81` reads the second gene's symbol from
  the first gene's row, and lines 66-92 write the sheet's header and first data
  row to the same row. As written these are `StandaloneEnhance.SubnetTestAsWritten`,
  `StandaloneEnhance.LineAsWritten` and `StandaloneEnhance.SheetAsWritten`;
  `StandaloneEnhance.StandaloneEnhanceNetwork` uses the corrected behaviour.
- `getenhancedconsensusnetwork.py:17` checks for fewer than three argv entries
  but reads argv[3]: `LegacyEnhance.ArgsAsWritten` as written, `LegacyEnhance.Args`
  corrected.
- `ch_line_ending.py` tests for a missing output path only after replacing it
  with the `.tmp` path: `LineEnding.RunAsWritten` as written;
  `LineEnding.ChLineEnding` uses the corrected `LineEnding.Run`.
- `Matrix::read` (src/matrix.cpp:195-197) never returns on a text made only of
  '>' lines without a final newline: `AdjacencyMatrix.ReadAsWritten` as written;
  the method `AdjacencyMatrix.Matrix.Read` uses the corrected header loop.

Each of these, except the first, is a row under "## Findings".

## Model

| member | source | states |
|---|---|---|
| Uprob.SmallBranch | statistics.py:12 | for a base of at least 1, base to the power -16, halved, lies in (0, 1/2] |
| Uprob.PolyBaseAtLeastOne | statistics.py:12 | the small-argument polynomial, nested as the Perl original nests it, is at least 1 for a non-negative argument |
| Uprob.PolyBaseIsReference | statistics.py:12 | the nested polynomial equals the expanded polynomial of Abramowitz and Stegun formula 26.2.19 for every argument |
| Uprob.PolyBaseAsWrittenAtLeastOne | statistics.py:12 | the polynomial as both Python copies parenthesise it is also at least 1 for a non-negative argument |
| Uprob.DeviationZeroIff | SJARACNe/bin/create_consensus_network.py:238-240 | two values that differ by the deviation of the as-written polynomial, a^3 (1 - a) (d4 + a d5 + a^2 d6), are equal for a >= 0 if and only if a is 0 or 1 |
| Uprob.PolyBaseAsWrittenAgreesOnlyAtZeroOne | statistics.py:12 | for a non-negative argument the as-written polynomial equals formula 26.2.19 if and only if the argument is 0 or 1 |
| Uprob.Tail | statistics.py:14-15 | the continued fraction the loop builds, started from index i, lies between 0 and i / a |
| Uprob.Gaussian | statistics.py:16 | the exponent -a^2 / 2 is never positive |
| Uprob.LargeBranch | statistics.py:16 | for a >= 1.9 and an exponential value in [0, 1], the large-argument value lies in [0, 1/2] |
| Uprob.SmallBranchInjective | statistics.py:12 | distinct polynomial values give distinct small-branch probabilities |
| Uprob.UprobAsWrittenAgreesElsewhere | statistics.py:11-12 | wherever abs(n) is 0, 1 or at least 1.9 the as-written uprob equals the intended one |
| Uprob.UprobAsWrittenAtHalf | tests/test_create_consensus_network.py:48-49 | at the test's argument 0.5 the as-written and the intended uprob differ |
| Uprob.Uprob | statistics.py:9-19 | the method, with the loop p = i / (abs(n) + p) for i from 18 down to 1, returns 0 for a NaN argument (every comparison fails); for a number it returns, in form Intended, the upper-tail probability by the nested formula 26.2.19, and in form AsWritten the value the Python code computes (UprobAsWritten) |
| Uprob.UprobAtZero | statistics.py:10-12 | uprob(0) is 1/2 |
| Uprob.UprobSymmetric | statistics.py:17-18 | for the intended polynomial, uprob(-n) = 1 - uprob(n) for every n |
| Uprob.UprobTails | statistics.py:10-19 | for n > 100 the probability is exactly 0, and for n < -100 exactly 1 |
| Uprob.UprobRange | statistics.py:9-19 | for an exponential that maps non-positive arguments into [0, 1], the intended uprob(n) is in [0, 1/2] for n >= 0 and in [1/2, 1] for n <= 0 |
| Uprob.UprobOfSymmetric | statistics.py:9-19 | for the polynomial as written and the intended one alike, uprob(-n) = 1 - uprob(n) for every n |
| Uprob.UprobOfRange | statistics.py:9-19 | for the polynomial as written and the intended one alike, and an exponential that maps non-positive arguments into [0, 1], uprob(n) is in [0, 1/2] for n >= 0 and in [1/2, 1] for n <= 0 |
| Bootstrap.PairAt | SJARACNe/bin/create_consensus_network.py:74-87 | a pair fails exactly when no weight token follows the target or the weight does not parse; otherwise it observes key hub + SEP + target with the parsed weight |
| Bootstrap.PairsUpTo | SJARACNe/bin/create_consensus_network.py:74-89 | when no pair fails, the first m pairs give exactly m observations |
| Bootstrap.RunEdges | SJARACNe/bin/create_consensus_network.py:58-91 | when no file fails, there is one list of observations per file |
| Bootstrap.RunCounts | SJARACNe/bin/create_consensus_network.py:58-91 | each run's counter is the number of edges that run contributed |
| Bootstrap.AddEdge | SJARACNe/bin/create_consensus_network.py:76-87 | after an observation, its key is in both dictionaries with a support of at least 1 |
| Bootstrap.TallyFromAppend | SJARACNe/bin/create_consensus_network.py:58-91 | tallying two runs of observations one after the other equals tallying their concatenation |
| Bootstrap.TallyCounts | SJARACNe/bin/create_consensus_network.py:76-87 | a key is in the dictionaries if and only if it was observed; its support is its number of observations and its MI total the sum of their weights |
| Bootstrap.SupportTotalIsLength | SJARACNe/bin/create_consensus_network.py:76-89 | the supports of all keys add up to the number of observations |
| Bootstrap.RunCountsSum | SJARACNe/bin/create_consensus_network.py:59-89 | the per-run counters add up to the number of observations |
| Bootstrap.RunCountsMatchSupport | SJARACNe/bin/create_consensus_network.py:51-91 | after a successful read there is one counter per file, and the counters add up to the total support |
| Bootstrap.AggregateKeys | SJARACNe/bin/create_consensus_network.py:75-87 | every key of the dictionaries is some hub + SEP + target and has positive support |
| Bootstrap.Observe | SJARACNe/bin/create_consensus_network.py:76-87 | the dictionary update of one pair is the AddEdge tally step |
| Bootstrap.PairsFailAt | SJARACNe/bin/create_consensus_network.py:74-80 | the error of a line's pair loop is the error of the first pair that fails |
| Bootstrap.ReadPairs | SJARACNe/bin/create_consensus_network.py:74-89 | the pair loop either raises the first pair error or leaves the tally of the line's observations, with the run counter raised by their number |
| Bootstrap.LineFails | SJARACNe/bin/create_consensus_network.py:62-89 | a line that fails, after lines that succeeded, is the file's error |
| Bootstrap.ReadLine | SJARACNe/bin/create_consensus_network.py:62-89 | one line either raises its error, or adds its pairs to the tally and the counter, and, in the first run, appends a header line to the parameter text |
| Bootstrap.ReadFile | SJARACNe/bin/create_consensus_network.py:61-89 | the line loop over one file is the file's specification, with header lines kept only for the first run |
| Bootstrap.RunSpecError | SJARACNe/bin/create_consensus_network.py:58-91 | a failing file, after files that succeeded, is the error of the whole reading loop |
| Bootstrap.AggregateRuns | SJARACNe/bin/create_consensus_network.py:51-91 | the file loop computes the aggregation specification: the tally, the per-run counters and the first run's headers |
| Consensus.Moments | SJARACNe/bin/create_consensus_network.py:93-99 | the loop over the runs gives mu as the sum of c_i / E and sigma squared as the sum of p_i (1 - p_i) |
| Consensus.ProbSumIsMean | SJARACNe/bin/create_consensus_network.py:96-98 | mu is the total of the run counters divided by E |
| Consensus.MuIsMeanSupport | SJARACNe/bin/create_consensus_network.py:93-98 | mu is the mean support of a distinct edge |
| Consensus.SpreadSumNonNegative | SJARACNe/bin/create_consensus_network.py:99-100 | when no run has more edges than there are distinct edges, sigma squared is not negative |
| Consensus.SpreadNegative | SJARACNe/bin/create_consensus_network.py:96-99 | a run with more edge lines than there are distinct edges (an edge listed twice) adds a negative term p (1 - p) |
| Consensus.SpreadSumSingleRunNegative | SJARACNe/bin/create_consensus_network.py:96-99 | so one such run makes sigma squared negative |
| Consensus.NpSqrt | SJARACNe/bin/create_consensus_network.py:100 | np.sqrt gives NaN exactly for a negative argument, and the square root otherwise |
| Consensus.ZScore | SJARACNe/bin/create_consensus_network.py:136 | z is 100 when sigma is 0, NaN when sigma is NaN (NaN != 0 holds), and otherwise z times sigma is the support minus mu |
| Consensus.RowOf | SJARACNe/bin/create_consensus_network.py:131-145 | a written line names the first two pieces of the key, and its MI times the support is the MI total |
| Consensus.KeptKeys | SJARACNe/bin/create_consensus_network.py:129-142 | the kept keys are exactly the listed keys whose p-value is below the threshold |
| Consensus.KeptKeysSorted | SJARACNe/bin/create_consensus_network.py:129-142 | filtering strictly ascending keys keeps them strictly ascending |
| Consensus.RowsOf | SJARACNe/bin/create_consensus_network.py:129-145 | one line per key, in order, each the RowOf of its key |
| Consensus.RowsAreKept | SJARACNe/bin/create_consensus_network.py:128-145 | when every key splits, the writing loop succeeds and writes exactly the lines of the kept keys, in order |
| Consensus.WriteRow | SJARACNe/bin/create_consensus_network.py:131-145 | one iteration splits the key and adds its line exactly when the key is significant; a key without a second piece raises |
| Consensus.WriteRows | SJARACNe/bin/create_consensus_network.py:128-145 | the writing loop is the Rows specification |
| Consensus.KeyShapedSplits | SJARACNe/bin/create_consensus_network.py:131-133 | a key built from a hub and a target splits into at least two pieces |
| Consensus.AggregateKeysSplit | SJARACNe/bin/create_consensus_network.py:129-133 | every sorted key of a successful aggregation is in the dictionaries and splits |
| Consensus.RowOfKey | SJARACNe/bin/create_consensus_network.py:131-133 | a line names its own hub and target when the hub followed by the separator holds no earlier separator and the target holds none |
| Consensus.Threshold | SJARACNe/bin/create_consensus_network.py:110-112 | the threshold is 0.05 / E without a p-value, the parsed p-value when it parses, and an error otherwise |
| Consensus.ParameterReport | SJARACNe/bin/create_consensus_network.py:116-119 | the report starts with the first run's header lines, is longer and ends with a newline |
| Consensus.CreateConsensusNetwork | SJARACNe/bin/create_consensus_network.py:39-146 | the script body is the ConsensusSpec specification: with form AsWritten the filter uses uprob exactly as the script's own copy (lines 229-247) computes it, and sigma is NaN when sigma squared is negative |
| Consensus.ConsensusFailures | SJARACNe/bin/create_consensus_network.py:58-145 | the script fails exactly on a read error, on no edge at all (division by zero) or on a p-value that does not parse; never on a key without a separator and never on a square-root domain error |
| Consensus.ConsensusParts | SJARACNe/bin/create_consensus_network.py:93-145 | a successful run reports E > 0, alpha = 0.05 / E and mu as computed, and writes the Rows of the sorted keys |
| Consensus.FilterFacts | SJARACNe/bin/create_consensus_network.py:128-145 | filtering ascending keys writes the kept keys, ascending, each with its line |
| Consensus.ConsensusRows | SJARACNe/bin/create_consensus_network.py:124-145 | the network lists exactly the significant edges, each once, in ascending key order, with the first two key pieces and the mean MI |
| Consensus.KeptKeysAll | SJARACNe/bin/create_consensus_network.py:128-145 | when every listed key is significant, all of them are kept, in order |
| Consensus.NanRowsAll | SJARACNe/bin/create_consensus_network.py:128-145 | with a NaN sigma and a positive threshold, the writing loop succeeds and writes the line of every listed key, in order |
| Consensus.NanSigmaKeepsAll | SJARACNe/bin/create_consensus_network.py:99-145 | sigma is NaN exactly when sigma squared is negative; then every p-value is 0, so with a positive threshold every edge is written, in ascending key order |
| Consensus.ConsensusInfo | SJARACNe/bin/create_consensus_network.py:103-107 | the info file reports E > 0 edges tested, alpha = 0.05 / E, and mu equal to the mean support |
| LegacyConsensus.JoinPath | getconsensusnetwork.py:62 | the output path starts with the directory and ends with '/' and the name, with a '/' added only when the directory lacks one |
| LegacyConsensus.JoinPathTrailingSlash | getconsensusnetwork.py:82-89 | a trailing '/' on the output directory changes no output path |
| LegacyConsensus.Sigma | getconsensusnetwork.py:71 | math.sqrt fails exactly on a negative sum, and otherwise gives its square root |
| LegacyConsensus.LegacyThreshold | getconsensusnetwork.py:77-79 | the threshold is always the parsed command-line value, and an error when it does not parse |
| LegacyConsensus.LegacyConsensusNetwork | getconsensusnetwork.py:20-101 | the script body is the LegacySpec specification, with "--" as the separator; with form AsWritten the filter uses statistics.uprob exactly as statistics.py computes it |
| LegacyConsensus.LegacyFailures | getconsensusnetwork.py:27-101 | the script fails on a read error or on no edge (exactly), on a negative sigma squared only when some run has more edges than there are distinct edges, and on a threshold argument only when it does not parse |
| LegacyConsensus.LegacyParts | getconsensusnetwork.py:67-101 | a successful run uses the command-line threshold and writes the Rows of the sorted keys |
| LegacyConsensus.LegacyRows | getconsensusnetwork.py:94-101 | the network lists exactly the significant edges in ascending key order, whatever the number of edges |
| LegacyConsensus.SeparatorCollision | getconsensusnetwork.py:37 | with "--", hub "a-" with target "b" and hub "a" with target "-b" share the key "a---b", which splits as hub "a" and target "-b" |
| Enhance.Basename | SJARACNe/bin/create_consensus_network.py:163 | the base name holds no '/' |
| Enhance.NameTokens | SJARACNe/bin/create_consensus_network.py:164 | splitting at '_' and '.' gives at least one token |
| Enhance.SplitWords | SJARACNe/bin/create_consensus_network.py:164 | a name of delimiter-free words joined by '_', plus '.' and an extension, splits back into those words and the extension |
| Enhance.NameTokensOfWords | SJARACNe/bin/create_consensus_network.py:163-164 | the base name of such a name is the name itself, so its tokens are its words and its extension |
| Enhance.NcolNameOfWords | SJARACNe/bin/create_consensus_network.py:163-166 | the output name of w1_w2_w3_..._wn.ext is w1_w2_ncol_ followed by w4 .. wn joined by '_' (the third word and the extension are dropped) |
| Enhance.NcolNameExample | SJARACNe/bin/create_consensus_network.py:163-166 | consensus_network_3col_.txt gives the output name consensus_network_ncol_ |
| Enhance.SubnetEntry | SJARACNe/bin/create_consensus_network.py:177 | a subnet entry holds no newline and neither starts nor ends with white space |
| Enhance.SubnetList | SJARACNe/bin/create_consensus_network.py:176-177 | one entry per line of the subnet file |
| Enhance.SubnetListAt | SJARACNe/bin/create_consensus_network.py:176-177 | entry i is the entry of line i |
| Enhance.ReadSubnetList | SJARACNe/bin/create_consensus_network.py:175-177 | the reading loop builds the SubnetList of the file |
| Enhance.SubnetRows | SJARACNe/bin/create_consensus_network.py:221-223 | the subnet file holds exactly the lines with a symbol in the list, and no more lines than the network |
| Enhance.LineRow | SJARACNe/bin/create_consensus_network.py:187-219 | a line succeeds if and only if it has at least three fields, its MI parses and both nodes are in the expression table; the output then carries both nodes, the parsed MI, both table symbols and the coefficients of node1's and node2's samples |
| Enhance.RowsOfLines | SJARACNe/bin/create_consensus_network.py:186-219 | on success there is one output line per network line |
| Enhance.RowsOfLinesOk | SJARACNe/bin/create_consensus_network.py:186-219 | on success output line i is the output of network line i |
| Enhance.RowsOfLinesErr | SJARACNe/bin/create_consensus_network.py:186-219 | on failure the error is that of the first line that fails, and every earlier line succeeds |
| Enhance.EnhanceRows | SJARACNe/bin/create_consensus_network.py:182-219 | a successful run writes one line per network line after the header, each the output of that line |
| Enhance.EnhanceSubnet | SJARACNe/bin/create_consensus_network.py:171-223 | the subnet file is written exactly when a subnet list is given, and holds exactly the written lines with a symbol in the list |
| Enhance.Fetch | SJARACNe/bin/create_consensus_network.py:192-210 | a node's record is its table record whether or not it is cached; an unknown node raises; the cache keeps only table records and gains the node on first use |
| Enhance.EnhanceLine | SJARACNe/bin/create_consensus_network.py:187-219 | one line through the cache gives the same output as looking both nodes up afresh |
| Enhance.EnhanceLines | SJARACNe/bin/create_consensus_network.py:186-223 | the cached writing loop equals the uncached specification LinesSpec |
| Enhance.ReadSubnet | SJARACNe/bin/create_consensus_network.py:171-177 | the subnet list is read exactly when a subnet file is given |
| Enhance.CreateEnhancedConsensusNetwork | SJARACNe/bin/create_consensus_network.py:149-223 | the function body is the EnhanceSpec specification |
| StandaloneEnhance.HeadersDiffer | SJARACNe/bin/get_enhanced_consensus_network.py:51-52 | both scripts' headers name the same nine columns, except column 7, which is "rho" here and "slope" in the current script |
| StandaloneEnhance.Values | SJARACNe/bin/get_enhanced_consensus_network.py:78-81 | a table row's values are the symbol cell followed by one number cell per sample |
| StandaloneEnhance.SubnetTestAsWritten | SJARACNe/bin/get_enhanced_consensus_network.py:80-81 | the subnet test as written: the second "symbol" is node1's first sample (its absence raises) |
| StandaloneEnhance.SubnetTestAsWrittenIgnoresTarget | SJARACNe/bin/get_enhanced_consensus_network.py:80-95 | the test as written fails exactly when node1 has no sample, and otherwise holds exactly when node1's symbol is listed |
| StandaloneEnhance.SubnetTestCounterexample | SJARACNe/bin/get_enhanced_consensus_network.py:81 | a line whose target alone has the listed symbol "B" is left out as written and kept by the intended test |
| StandaloneEnhance.LineAsWritten | SJARACNe/bin/get_enhanced_consensus_network.py:74-96 | one network line as written, its output and its subnet decision |
| StandaloneEnhance.LineAsWrittenDiffers | SJARACNe/bin/get_enhanced_consensus_network.py:74-96 | for a line the intended form accepts, the as-written line fails exactly when node1 has no sample, and otherwise gives the same output and sends it to the subnet file exactly when its source symbol is listed |
| StandaloneEnhance.SheetAsWritten | SJARACNe/bin/get_enhanced_consensus_network.py:66-92 | the sheet as written, with the first data row written at index 0 |
| StandaloneEnhance.SheetAsWrittenLayout | SJARACNe/bin/get_enhanced_consensus_network.py:66-92 | the sheet as written holds data row i at index i, and the header only when there is no data row |
| StandaloneEnhance.SheetAsWrittenLosesHeader | SJARACNe/bin/get_enhanced_consensus_network.py:66-92 | with at least one data row, the sheet as written has no header row, and index 0 holds the first data row where the intended sheet has the header |
| StandaloneEnhance.SheetOf | SJARACNe/bin/get_enhanced_consensus_network.py:64-92 | the intended sheet: the header at index 0 and data row i at index i + 1 |
| StandaloneEnhance.SheetOfLayout | SJARACNe/bin/get_enhanced_consensus_network.py:64-92 | the intended sheet has exactly the indices 0 .. n, the header at 0 and data row i at i + 1 |
| StandaloneEnhance.SheetStep | SJARACNe/bin/get_enhanced_consensus_network.py:91-92 | writing one more data row stores it at the next index and changes nothing else |
| StandaloneEnhance.StandaloneLine | SJARACNe/bin/get_enhanced_consensus_network.py:74-89 | one line, with both records read from the table afresh, gives the same output as the current script's LineRow |
| StandaloneEnhance.StandaloneEnhanceNetwork | SJARACNe/bin/get_enhanced_consensus_network.py:33-100 | the intended script body: the same text output and subnet file as the current script, and the intended sheet |
| LegacyEnhance.ArgsAsWritten | getenhancedconsensusnetwork.py:17-21 | the usage check as written: only fewer than three words print the usage |
| LegacyEnhance.Args | getenhancedconsensusnetwork.py:17-73 | the intended check: the usage is printed exactly when one of the three arguments is missing; otherwise the run gets the three paths, and the subnet file exactly when there are four arguments |
| LegacyEnhance.ArgsAsWrittenDiffers | getenhancedconsensusnetwork.py:17-73 | the two checks agree except on a call with exactly two arguments, which as written reads both files and then fails on the missing output directory |
| LegacyEnhance.GraphOfWords | getenhancedconsensusnetwork.py:101 | the graph name of tokens w1, w2, ws and an extension is w1_w2_ followed by ws without its first word, joined by '_' |
| LegacyEnhance.GraphNameOfWords | getenhancedconsensusnetwork.py:60-62 | a network named w1_w2_w3_..._wn.ext gives the graph name w1_w2_w4_..._wn |
| LegacyEnhance.SamplesOf | getenhancedconsensusnetwork.py:29-31 | reading the samples gives one value per sample field |
| LegacyEnhance.SamplesOfMeaning | getenhancedconsensusnetwork.py:29-31 | the samples are read exactly when every field parses, and then each value is its field parsed |
| LegacyEnhance.ReadSamples | getenhancedconsensusnetwork.py:29-31 | the sample loop computes SamplesOf |
| LegacyEnhance.MarkerSetMeaning | getenhancedconsensusnetwork.py:23-32 | the markers are exactly the row ids, and each is described by the symbol and samples of its last row |
| LegacyEnhance.ReadMarkers | getenhancedconsensusnetwork.py:23-32 | the reading loop computes MarkerSet |
| LegacyEnhance.NetworkOf | getenhancedconsensusnetwork.py:34-40 | every entry of the network dictionary is a bare weight under a key src--tar |
| LegacyEnhance.NetworkOfMeaning | getenhancedconsensusnetwork.py:34-40 | the keys are exactly src--tar of the rows, and each carries the parsed weight of its last row |
| LegacyEnhance.ReadNetwork | getenhancedconsensusnetwork.py:34-40 | the reading loop computes NetworkOf |
| LegacyEnhance.JoinPair | getenhancedconsensusnetwork.py:44-58 | one inner step changes no key of the dictionary |
| LegacyEnhance.JoinRow | getenhancedconsensusnetwork.py:43-58 | the inner loop changes no key of the dictionary |
| LegacyEnhance.JoinAll | getenhancedconsensusnetwork.py:42-58 | the double loop changes no key of the dictionary |
| LegacyEnhance.SortedDistinct | getenhancedconsensusnetwork.py:42-43 | marker ids taken in ascending order are distinct |
| LegacyEnhance.DashFreeSplit | getenhancedconsensusnetwork.py:85-87 | a key of two ids without '-' splits back into those two ids |
| LegacyEnhance.PiecesKey | getenhancedconsensusnetwork.py:85-87 | a key that splits into two pieces is those pieces joined by "--" |
| LegacyEnhance.JoinRowAt | getenhancedconsensusnetwork.py:43-58 | after the inner loop of src, an entry is joined exactly when its key is src--t for some target t, and is otherwise unchanged |
| LegacyEnhance.JoinAllAt | getenhancedconsensusnetwork.py:42-58 | after both loops, an entry is joined exactly when its key is s--t for some source s and target t, and is otherwise unchanged |
| LegacyEnhance.JoinAllIsRef | getenhancedconsensusnetwork.py:42-58 | with dash-free ids, the double loop in any order joins every edge between two distinct markers around its weight and leaves every other entry as it was |
| LegacyEnhance.EdgeRows | getenhancedconsensusnetwork.py:83-89 | when no entry fails, there is one line per entry |
| LegacyEnhance.EdgeRowsOk | getenhancedconsensusnetwork.py:83-89 | line i is the line of entry i |
| LegacyEnhance.EdgeRowsErr | getenhancedconsensusnetwork.py:83-89 | the error is that of the first entry that fails, and every earlier entry succeeds |
| LegacyEnhance.EdgeRowsOkIff | getenhancedconsensusnetwork.py:83-89 | the writing loop succeeds exactly when every entry can be written |
| LegacyEnhance.StrippedSubnetRows | getenhancedconsensusnetwork.py:91-93 | the subnet lines are exactly the written lines whose stripped source or target symbol is listed |
| LegacyEnhance.JoinSource | getenhancedconsensusnetwork.py:43-58 | the inner loop computes JoinRow |
| LegacyEnhance.JoinPairs | getenhancedconsensusnetwork.py:42-58 | the double loop computes JoinAll |
| LegacyEnhance.WriteEdges | getenhancedconsensusnetwork.py:76-94 | the writing loop writes the header at sheet row 0, then entry i at row i + 1, and computes LegacyOutput |
| LegacyEnhance.LegacyEnhanceNetwork | getenhancedconsensusnetwork.py:23-94 | the script body is the LegacyEnhanceSpec specification |
| LegacyEnhance.NetworkKeysSplit | getenhancedconsensusnetwork.py:83-86 | every key of the parsed network splits in two at "--", so writing its entry never fails for want of a separator |
| LegacyEnhance.EdgeRowOfRef | getenhancedconsensusnetwork.py:84-88 | a joined weight is written as the line of its edge; an entry the loops left alone fails as a bare weight |
| LegacyEnhance.LegacyParts | getenhancedconsensusnetwork.py:23-94 | with dash-free ids the script writes the order-free reference join, in ascending key order, and the join keeps the network's keys |
| LegacyEnhance.EdgeFacts | getenhancedconsensusnetwork.py:42-88 | every entry of the joined network is written as the line of its edge when the edge joins two distinct markers, and fails otherwise |
| LegacyEnhance.LegacySucceeds | getenhancedconsensusnetwork.py:23-94 | with dash-free ids, the script succeeds exactly when every edge of the network joins two distinct markers |
| LegacyEnhance.ListingLinked | getenhancedconsensusnetwork.py:83 | every edge is linked exactly when every listed key is, for any listing of the keys |
| LegacyEnhance.LegacyRows | getenhancedconsensusnetwork.py:83-89 | a successful run writes one line per edge, in key order, holding the edge's ids, their symbols, its weight and their coefficients |
| LegacyEnhance.LegacyFails | getenhancedconsensusnetwork.py:83-89 | a failed run fails on an edge that does not join two distinct markers |
| Microarray.NewMarker | src/matrix.h:93-97 | a new marker has the given id, accession and label, zero variance and bandwidth, and is active and no control |
| Microarray.DefaultMarker | src/matrix.h:93-97 | the default marker is the new marker with id 0 and empty accession and label |
| Microarray.DefaultProbe | src/matrix.h:117-118 | the default probe has value and p-value 0 |
| Microarray.Stored | src/matrix.cpp:557-586 | growing a vector with a fill value until it has index i, then storing x there, gives length max(old length, i + 1), x at i, the old entries elsewhere and the fill value in the new slots |
| Microarray.ActiveCount | src/matrix.cpp:509-519 | the number of active markers is at most the number of markers |
| Microarray.ActiveCountIsCardinality | src/matrix.cpp:509-519 | the count of active markers equals the number of ids of active markers |
| Microarray.SameGene | src/matrix.cpp:523-527 | an index is always its own gene; two different indices are the same gene exactly when their labels are equal and not "---" |
| Microarray.SameGeneEquivalence | src/matrix.cpp:523-527 | being the same gene is reflexive, symmetric and transitive |
| Microarray.UnlabelledDistinct | src/matrix.cpp:525-526 | a marker labelled "---" is the same gene as no other index |
| Microarray.AccessionFrom | src/matrix.cpp:535-539 | the search from an index returns -1 or a later index with that accession, and no index in between has it |
| Microarray.AccessionId | src/matrix.cpp:531-540 | the result is -1 exactly when no marker has the accession, and otherwise the first marker that has it |
| Microarray.ProbeId | src/matrix.cpp:544-553 | an all-digit label is read as its decimal value, and any other label is looked up as an accession |
| Microarray.PrefixedLabel | src/matrix.cpp:544-553 | a label with the '_' prefix the reader adds is always looked up as an accession, so it gives -1 or a marker index |
| Microarray.EmptyLabel | src/matrix.cpp:546-552 | the empty label has no non-digit, so it is atoi(""), which is 0 |
| Microarray.FieldCount | src/matrix.cpp:752-757 | the do-while tab loop collects at least one field |
| Microarray.FieldCountPlain | src/matrix.cpp:687-695 | on a line without '\r' that does not end in a tab, the loop collects every tab-separated field |
| Microarray.TrailingTab | src/matrix.cpp:752-757 | a trailing tab opens no field: "a\t" gives one field |
| Microarray.SkipDescriptions | src/matrix.cpp:739-743 | the scan stops at the first line that is not a Description line, or at the end |
| Microarray.DecideFormat | src/matrix.cpp:721-852 | no line fails the read; an empty header fails the header read; otherwise single values when the arrays of the header equal the values of the first data line, value pairs when the values are twice the arrays; the read fails when the lines run out, and the format is rejected when neither holds |
| Microarray.NoArraysAreValues | src/matrix.cpp:761-803 | a two-field header with a two-field first line is read as single values, since that test comes first |
| Microarray.Trunc | src/matrix.cpp:995 | the double-to-int conversion truncates toward zero |
| Microarray.GrownStored | src/matrix.cpp:559-562 | the push_back loop followed by the store gives Stored |
| Microarray.PercentCount | src/matrix.cpp:995 | for x < 1, (int)(N * x) is not positive or less than N, and it is not negative for x >= 0 |
| Microarray.Column | src/matrix.cpp:990-991 | the values of one marker, one per array |
| Microarray.MicroarraySet.constructor | src/matrix.h:134-135 | a new set has no markers, no arrays and no header |
| Microarray.MicroarraySet.GetNumActiveMarkers | src/matrix.cpp:509-519 | the loop counts the active markers |
| Microarray.MicroarraySet.GetAccessionId | src/matrix.cpp:531-540 | the loop returns AccessionId |
| Microarray.MicroarraySet.GetProbeId | src/matrix.cpp:544-553 | the digit check returns ProbeId |
| Microarray.MicroarraySet.Atoi | src/matrix.cpp:552 | a string of digits converts to the number it spells |
| Microarray.MicroarraySet.SetColHeader | src/matrix.cpp:557-563 | the header becomes Stored(header, i, "", hdr), and markers and arrays are unchanged |
| Microarray.MicroarraySet.SetMarker | src/matrix.cpp:567-573 | the markers become Stored(markers, i, Marker(), m), and arrays and header are unchanged |
| Microarray.MicroarraySet.SetProbe | src/matrix.cpp:577-586 | array i grows to hold probe j, which is set to p; missing arrays are added empty and missing probes as Probe(); markers and header are unchanged |
| Microarray.MicroarraySet.GetHighLowPercent | src/matrix.cpp:982-1002 | for k = (int)(N * x): no list when k is not positive; otherwise the lower list is the first k sorted positions and the upper list the positions N-k-1 .. N-2 |
| Microarray.HighLowSeparated | src/matrix.cpp:995-1001 | when at most half the arrays are taken, no lower value exceeds an upper value; when fewer than half, no array is in both lists; the array at the last sorted position is never in the upper list |
| AdjacencyMatrix.NewNode | src/matrix.h:26-36 | a new edge holds the given mutual information and no intermediate (-1) |
| AdjacencyMatrix.SaveInRow | src/matrix.cpp:164-174 | the row gains the neighbour if missing; the neighbour gets the new mutual information and keeps its old intermediate (or -1 when new); every other neighbour is unchanged |
| AdjacencyMatrix.Save | src/matrix.cpp:164-174 | only row i changes, and it changes as SaveInRow says; the number of rows stays |
| AdjacencyMatrix.SaveLastWins | src/matrix.cpp:164-174 | saving the same cell twice leaves what the second save alone leaves |
| AdjacencyMatrix.SaveCommutes | src/matrix.cpp:164-174 | saves of two different cells give the same matrix in either order |
| AdjacencyMatrix.Add | src/matrix.cpp:386-392 | addNode never changes the number of rows |
| AdjacencyMatrix.AddStores | src/matrix.cpp:386-392 | addNode stores the value at (i, j), and at (j, i) as well when symmetric; a non-symmetric add is one save; every other row is left alone |
| AdjacencyMatrix.SymmetricAt | src/matrix.cpp:386-392 | in a symmetric matrix an edge (a, k) has a row k that holds a with the same mutual information |
| AdjacencyMatrix.AddKeepsSymmetric | src/matrix.cpp:386-392 | a symmetric add keeps every edge mirrored with equal mutual information |
| AdjacencyMatrix.AddCell | src/matrix.cpp:386-392 | after a symmetric add a cell exists iff it existed before or is (i, j) or (j, i); every other existing cell keeps its node |
| AdjacencyMatrix.NodeMICases | src/matrix.cpp:396-420 | with non-negative values the lookup is -1 exactly when neither row was computed, is non-negative exactly when one was, is the stored value when the first computed row holds the other gene, and 0 when it does not |
| AdjacencyMatrix.NodeMISymmetric | src/matrix.cpp:396-420 | on a symmetric matrix the lookup of (a, b) equals the lookup of (b, a) |
| AdjacencyMatrix.NodeMIAfterAdd | src/matrix.cpp:386-420 | after a symmetric add of v for (i, j), the lookups of (i, j) and (j, i) both give v |
| AdjacencyMatrix.SameMIKeys | src/matrix.cpp:442-443 | two rows with the same mutual information map have the same neighbours, the same size and equal values |
| AdjacencyMatrix.SameMINodeMI | src/matrix.cpp:396-420 | the lookup depends only on the edges and their mutual information, not on the intermediates |
| AdjacencyMatrix.SameMIRow | src/matrix.cpp:470-473 | replacing one row by one with the same neighbours and values keeps every mutual information |
| AdjacencyMatrix.SameMIOrder | src/matrix.cpp:445-446 | a sort order by decreasing mutual information stays valid for any row with the same values |
| AdjacencyMatrix.Pairs | src/matrix.cpp:440-446 | miVector has one pair per sorted neighbour, holding that neighbour's id and mutual information |
| AdjacencyMatrix.Scan | src/matrix.cpp:457-477 | a result is a position before i whose value exceeds minMI and that explains the edge, and every earlier position exceeds minMI and does not explain it |
| AdjacencyMatrix.ScanFinds | src/matrix.cpp:457-477 | if some position q before i explains the edge and no value up to q is at most minMI, the scan finds a position |
| AdjacencyMatrix.ScanSameMI | src/matrix.cpp:457-477 | the scan gives the same answer on any two matrices with the same mutual information |
| AdjacencyMatrix.IndexOf | src/matrix.cpp:440-446 | the position returned holds the id looked for |
| AdjacencyMatrix.PickSameMI | src/matrix.cpp:450-478 | the intermediate chosen for a sorted position is the same on matrices with the same mutual information |
| AdjacencyMatrix.ReducedRow | src/matrix.cpp:436-479 | the pruned row has the same neighbours and the same mutual information as the original |
| AdjacencyMatrix.DpiRule | src/matrix.cpp:450-478 | for 0 <= epsilon < 1 the scan picks an intermediate exactly when some neighbour c has both edges above MI(row, b) / (1 - epsilon) without TF protection; the one picked is such a neighbour and no neighbour sorted before it is |
| AdjacencyMatrix.MinMIAbove | src/matrix.cpp:455 | for 0 <= epsilon < 1 and a non-negative value, minMI is at least that value |
| AdjacencyMatrix.ReducedEdge | src/matrix.cpp:436-479 | after pruning an edge keeps its mutual information; if a neighbour explains it, the recorded intermediate is one that does; if none does, the edge is unchanged |
| AdjacencyMatrix.ReducedRowAt | src/matrix.cpp:450-478 | the edge of the neighbour at sorted position i is what the scan for position i decides |
| AdjacencyMatrix.ReducedRowAgain | src/matrix.cpp:483-501 | pruning a row after it or other rows were already pruned gives the same row |
| AdjacencyMatrix.RowsReducedStep | src/matrix.cpp:488-501 | pruning one more row keeps the other rows pruned or untouched as they were |
| AdjacencyMatrix.HeaderEnd | src/matrix.cpp:195-197 | the index returned is the first line at or after the start that does not begin with '>', and every line skipped begins with '>' |
| AdjacencyMatrix.GrowRows | src/matrix.cpp:213-214 | there are then max(old count, n) rows; old rows are unchanged and new rows are empty |
| AdjacencyMatrix.PairStep | src/matrix.cpp:219-241 | the hub's row still exists after one pair |
| AdjacencyMatrix.PairStepSaves | src/matrix.cpp:223-237 | a value below the threshold changes nothing; at or above it an unknown target throws "Cannot find marker" before anything changes; a known target gets the value in the hub's row and every other edge is kept |
| AdjacencyMatrix.LinesLoadStep | src/matrix.cpp:199-244 | the lines are read in order and reading stops at the first line that throws |
| AdjacencyMatrix.PairsLoadKeeps | src/matrix.cpp:219-241 | the pairs of a line keep every edge at or above the threshold and every id a known marker, and leave the markers as they were |
| AdjacencyMatrix.PairStepKeeps | src/matrix.cpp:223-237 | one pair keeps every edge at or above the threshold and every id a known marker |
| AdjacencyMatrix.LineLoadKeeps | src/matrix.cpp:201-241 | one line keeps those two invariants and the number of markers |
| AdjacencyMatrix.ReadKeeps | src/matrix.cpp:191-245 | reading the whole file keeps those two invariants and the number of markers |
| AdjacencyMatrix.HubOnly | src/matrix.cpp:204-214 | an unknown hub throws "Cannot find marker" and changes nothing; a known hub with no pair is made active and given a row, and nothing else changes |
| AdjacencyMatrix.ReadAsWrittenHangs | src/matrix.cpp:195-197 | the source's header loop never ends exactly when every line of the text starts with '>', and such a text does not end with a newline; on any other text the source loads what ReadSpec loads |
| AdjacencyMatrix.ReadPiecesHangs | src/matrix.cpp:195-197 | on the lines of a text, the source's header loop never ends exactly when every line starts with '>'; otherwise it loads the lines from the first non-'>' one up to, and not including, the last piece of the text |
| AdjacencyMatrix.SkipHeader | src/matrix.cpp:195-197 | the header loop stops at the first line that does not start with '>', or after the last line when every line does |
| AdjacencyMatrix.HeaderWithoutNewline | src/matrix.cpp:195-197 | on the text ">h" the source never returns, while the intended reading loads nothing and passes |
| AdjacencyMatrix.HeaderOnlyLoadsNothing | src/matrix.cpp:191-199 | the intended reading of a text whose lines before the last all start with '>' loads nothing and passes |
| AdjacencyMatrix.UnterminatedLastLine | src/matrix.cpp:199-243 | a last line without a newline is never processed, and the same line followed by a newline is |
| AdjacencyMatrix.ShownOf | src/matrix.cpp:266-267 | keeps exactly the ids that are shown, and keeps them increasing |
| AdjacencyMatrix.MinExists | src/matrix.cpp:261 | every non-empty set of ids has a smallest element, where std::map iteration starts |
| AdjacencyMatrix.AscendingOf | src/matrix.cpp:261 | the keys of a row, each once, in increasing order |
| AdjacencyMatrix.AscendingKeys | src/matrix.cpp:261 | the loop lists the keys in exactly that increasing order |
| AdjacencyMatrix.ShownIds | src/matrix.cpp:261-267 | the ids written for a row are increasing and are exactly the neighbours that are shown |
| AdjacencyMatrix.ShownCellsAll | src/matrix.cpp:261-277 | going through the ascending keys writes the cells of exactly the shown ids, in order |
| AdjacencyMatrix.WriteTextStep | src/matrix.cpp:319-334 | the written text is the lines of the rows one after another |
| AdjacencyMatrix.TriangularWritesOnce | src/matrix.cpp:266-267 | in the triangular mode, with reduced edges written, each edge of a symmetric matrix between different genes is written on exactly one of its two rows |
| AdjacencyMatrix.FullRowWritten | src/matrix.cpp:266-267 | without the triangular mode every neighbour is written when reduced edges are written, and otherwise exactly those without an intermediate |
| AdjacencyMatrix.CalculateMI | src/matrix.cpp:1189-1227 | 0 for the same gene; 0 when the pairwise estimate is below the threshold; the estimate itself when there is no noise correction |
| AdjacencyMatrix.RowEdges | src/matrix.cpp:1241-1248 | the loop over the columns never changes the number of rows |
| AdjacencyMatrix.RowEdgesAdds | src/matrix.cpp:1241-1248 | every edge the loop adds goes to an active column from the start, not the control or the row itself, and holds the non-zero calculateMI value, which is at least the threshold when there is no noise correction |
| AdjacencyMatrix.RowEdgesComplete | src/matrix.cpp:1241-1248 | conversely, every active column from the start up to numMarkers, other than the control, whose calculateMI value is non-zero is in the row afterwards with that value |
| AdjacencyMatrix.RowEdgesKeeps | src/matrix.cpp:1241-1248 | a column before the loop's start keeps the node it had |
| AdjacencyMatrix.ComputeOneRow | src/matrix.cpp:1231-1249 | the matrix becomes RowEdges of the old matrix from column row + 1 (half matrix) or 0; the output flags are unchanged |
| AdjacencyMatrix.Matrix.constructor | src/matrix.h:43-53 | no rows and all three output flags off |
| AdjacencyMatrix.Matrix.SaveNode | src/matrix.cpp:164-174 | the rows become Save of the old rows; the flags are unchanged |
| AdjacencyMatrix.Matrix.AddNode | src/matrix.cpp:386-392 | the rows become Add of the old rows; the flags are unchanged |
| AdjacencyMatrix.Matrix.CreateEntries | src/matrix.cpp:376-382 | adds max(numEntries, 0) empty rows at the end; the flags are unchanged |
| AdjacencyMatrix.Matrix.GrowTo | src/matrix.cpp:213-214 | the rows become GrowRows of the old rows |
| AdjacencyMatrix.Matrix.FindIntermediate | src/matrix.cpp:457-477 | the inner loop's result is Scan from position 0 |
| AdjacencyMatrix.Matrix.ReduceOneNode | src/matrix.cpp:436-479 | only the given row changes, and it becomes ReducedRow of the old matrix; the flags are unchanged |
| AdjacencyMatrix.Matrix.MarkIntermediate | src/matrix.cpp:467-476 | only the given row changes: the found intermediate is recorded on the neighbour's edge when it is present |
| AdjacencyMatrix.Matrix.Reduce | src/matrix.cpp:483-505 | every row when no ids are given, else each row in the ids, becomes ReducedRow of the old matrix; the other rows and the row count stay |
| AdjacencyMatrix.Matrix.ReadLine | src/matrix.cpp:201-243 | the rows, the markers and the outcome become those of LineLoad; arrays, header and flags stay |
| AdjacencyMatrix.Matrix.ReadPair | src/matrix.cpp:219-241 | the rows and the error become those of PairStep |
| AdjacencyMatrix.Matrix.Read | src/matrix.cpp:191-245 | the rows, the markers and the outcome become those of ReadSpec on the whole text, the header loop stopping at the end of the text; arrays, header and flags stay |
| AdjacencyMatrix.Matrix.WriteGeneLine | src/matrix.cpp:249-280 | the text written is GeneLineText for the row |
| AdjacencyMatrix.Matrix.Write | src/matrix.cpp:319-334 | the text is WriteText over all rows in order when no ids are given, else over the ids in order |
| Param.ToUpper | src/param.cpp:29-40 | exactly the ASCII letters come out upper case, no lower-case letter comes out, and every character that is not a lower-case letter is kept |
| Param.ToUpperIdempotent | src/param.cpp:29-40 | converting a character twice is converting it once |
| Param.EqualIgnoreCase | src/param.cpp:29-40 | true exactly when both strings have the same length and agree position by position after toupper |
| Param.SameIgnoringCaseEquivalence | src/param.cpp:29-40 | the comparison is reflexive, symmetric and transitive |
| Param.OnSpellings | src/param.cpp:91-92 | exactly "on", "On", "oN" and "ON" compare equal to "on" |
| Param.HubName | src/param.cpp:49-50 | an empty hub stays empty; any other hub gets a leading '_' followed by the hub |
| Param.LastIndexOf | src/param.cpp:97-104 | the index returned holds the character and no later index does; -1 when there is none |
| Param.NormalDir | src/param.cpp:97-104 | the directory then ends in '/'; it is kept exactly when it already did, and otherwise gets one '/' appended |
| Param.NormalDirIdempotent | src/param.cpp:97-104 | normalising a normalised directory changes nothing |
| Param.Parameter.constructor | src/param.h:40-46 | every numeric field at its default, verbose "off", home_dir "./" and the lists empty |
| Param.Parameter.CheckParameter | src/param.cpp:44-105 | throws exactly the first failing check; the hub is prefixed once the input file check passes; home_dir is normalised only when every check passes; every other field is unchanged |
| Param.Parameter.CreateOutfileName | src/param.cpp:209-243 | sets outfile to OutfileName of the parameters and changes nothing else |
| Param.CheckErrorIsFirstFailure | src/param.cpp:44-105 | the failure thrown does fail and every check before it passes; nothing is thrown exactly when no check fails |
| Param.OutfileNameShape | src/param.cpp:209-243 | the output name starts with the stripped input file name and ends in ".adj" |
| Param.DefaultsPass | src/param.cpp:16-26 | the defaults with an input file pass every check and keep home_dir "./"; without an input file the first check fails |
| Param.PlainOutfileName | src/param.cpp:209-243 | with no hub, control gene, threshold, DPI tolerance below 1 or bootstrap run, the name is the stripped input file, "_k", the kernel width and ".adj" |
| Param.RunNumberSuffix | src/param.cpp:236-242 | for a bootstrap run the name ends in "_r", at least three digits that read back as the run number, and ".adj" |
| Param.StripExtension | src/param.cpp:201-203 | the result is a prefix of the name, and the whole name when it has no '.' |
| Param.GetFileName | src/param.cpp:185-205 | the result is never longer than the name |
| Param.LastIndexOfAfter | src/param.cpp:187 | the last occurrence of c in s + c + t, when t holds no c, is at index len(s) |
| Param.FileNameDropsExtension | src/param.cpp:185-205 | dir/base.ext becomes dir/base |
| Param.PlainFileNameKept | src/param.cpp:185-205 | a bare name with no directory and no extension comes back unchanged |
| Param.BackslashBecomesSlash | src/param.cpp:187-198 | a directory split at a backslash is joined back with '/' |
| Util.Median | src/util.cpp:11-23 | 0 for no entries; otherwise the mean of the entries at (n-1)/2 and n/2, which is the middle entry when n is odd |
| Util.LowerHalf | src/util.cpp:29-34 | the first size/2 entries |
| Util.UpperHalf | src/util.cpp:38-43 | the last size/2 entries |
| Util.InterQuartileRange | src/util.cpp:27-48 | the result is the median of the upper half minus the median of the lower half of the first size entries |
| Util.MedianBounds | src/util.cpp:11-23 | the median of sorted data lies between its first and its last entry |
| Util.IqrOfTiny | src/util.cpp:27-48 | with fewer than two entries the range is 0 |
| Util.IqrNonNegative | src/util.cpp:27-48 | on sorted data the range is never negative |
| Util.ShiftRight | SJARACNe/src/util.cpp:18-19 | a right shift never grows a value, and a shift by at least one at least halves it |
| Util.ShiftRightOnce | SJARACNe/src/util.cpp:18-19 | a shift by one is integer halving |
| Util.FastMedianAgrees | SJARACNe/src/util.cpp:11-25 | the rewritten median equals the original median for every count |
| Util.FastIqrReadsPrefix | SJARACNe/src/util.cpp:29-80 | the rewritten range reads nothing at or beyond index size |
| Util.InPlaceMedianAgrees | SJARACNe/src/util.cpp:51-56 | the median read in place equals the original median of the entries copied out |
| Util.FastQ1Agrees | SJARACNe/src/util.cpp:40-57 | for two or more entries the rewritten lower quartile equals the original one |
| Util.FastQ3Agrees | SJARACNe/src/util.cpp:60-77 | for two or more entries the rewritten upper quartile equals the original one |
| Util.FastIqrAgrees | SJARACNe/src/util.cpp:29-80 | the rewritten range equals the original range for every size, including 0 and 1 |
| Util.FastIqrOfTiny | SJARACNe/src/util.cpp:35-47 | the rewritten range is 0 for sizes 0 and 1 |
| QcInput.CheckWord | SJARACNe/bin/QC_input.py:25-29 | a field passes exactly when it has no space and at most one '.' |
| QcInput.CheckWordsFirstFailure | SJARACNe/bin/QC_input.py:25-29 | the field loop passes iff every field passes, and otherwise fails with the error of the first failing field |
| QcInput.CheckWordsAppend | SJARACNe/bin/QC_input.py:23-29 | checking two runs of fields in a row stops at the first run's failure, else gives the second run's result |
| QcInput.CheckLinesFlat | SJARACNe/bin/QC_input.py:23-29 | the loop over lines and fields is one loop over all fields in file order |
| QcInput.CheckExpCharacterised | SJARACNe/bin/QC_input.py:15-29 | an expression file passes iff its header names isoformId then geneSymbol and no later field has a space or two dots; a wrong header is always what is reported |
| QcInput.CheckExpFirstField | SJARACNe/bin/QC_input.py:23-29 | with a good header a failure is one of the two field errors, the one of the first failing field |
| QcInput.BareHeaderRejected | SJARACNe/bin/QC_input.py:18-21 | a header made of only the two key columns is rejected, because the newline stays in the last field |
| QcInput.OneCharOccurs | SJARACNe/bin/QC_input.py:35 | a one-character pattern occurs exactly where that character is |
| QcInput.CharAbsent | SJARACNe/bin/QC_input.py:35 | a one-character pattern occurs only where that character is |
| QcInput.SplitOnSpace | SJARACNe/bin/QC_input.py:35-36 | a line splits on ' ' into more than one piece iff it holds a space |
| QcInput.CheckProbeCharacterised | SJARACNe/bin/QC_input.py:31-37 | a probe file fails only with the one-word error, and passes iff no line holds a space |
| QcInput.QcOrder | SJARACNe/bin/QC_input.py:12-13 | a run passes iff the expression file passes and no probe line holds a space; a failing expression file is reported whatever the probe file holds |
| LineEnding.FirstLine | SJARACNe/bin/ch_line_ending.py:36-37 | the first line is a prefix of the file; it ends at the first LF when there is one and is the whole file otherwise |
| LineEnding.Normalise | SJARACNe/bin/ch_line_ending.py:51-54 | the universal-newline reading is never longer than the bytes |
| LineEnding.ConcatTextLines | SJARACNe/bin/ch_line_ending.py:53-54 | writing the lines the reader gives, one after another, reproduces the text |
| LineEnding.Target | SJARACNe/bin/ch_line_ending.py:49-50 | the copy goes to the given output path, and otherwise to a path other than the input path |
| LineEnding.Destination | SJARACNe/bin/ch_line_ending.py:25-27 | the converted text ends up at the output path when one is given, else at the input path |
| LineEnding.ChLineEnding | SJARACNe/bin/ch_line_ending.py:21-61 | the result is Run: same-file refusal, then the first line's class, then the copy to its destination |
| LineEnding.WriteLines | SJARACNe/bin/ch_line_ending.py:53-54 | the bytes written are the lines one after another |
| LineEnding.SameFileRefused | SJARACNe/bin/ch_line_ending.py:29-30 | an output path equal to the input path is refused whatever the file holds |
| LineEnding.ClassifyPrecedence | SJARACNe/bin/ch_line_ending.py:38-47 | Windows iff the line has CR LF; Mac iff a CR but no CR LF; Unix iff an LF but no CR; invalid iff neither |
| LineEnding.InvalidIffNoTerminator | SJARACNe/bin/ch_line_ending.py:36-47 | a file is refused for its ending iff it holds no CR and no LF at all |
| LineEnding.UnixKept | SJARACNe/bin/ch_line_ending.py:42-45 | a first line ending in LF with no CR returns the input path and nothing is written |
| LineEnding.InputNeverOverwrittenAsWritten | SJARACNe/bin/ch_line_ending.py:49-59 | as written, a copy never goes to the input path |
| LineEnding.AsWrittenAgreesWithOutput | SJARACNe/bin/ch_line_ending.py:49-59 | with an output path the code as written and the intended run agree |
| LineEnding.InPlaceWithoutOutput | SJARACNe/bin/ch_line_ending.py:21-28 | as intended, without an output path the input path is returned and a converted file is replaced by its universal-newline reading; with an output path the input file is never written |
| LineEnding.NormaliseHasNoCr | SJARACNe/bin/ch_line_ending.py:51-54 | the converted text holds no CR |
| LineEnding.NormaliseKeepsPlain | SJARACNe/bin/ch_line_ending.py:51-54 | text without CR is copied unchanged |
| LineEnding.NormaliseIdempotent | SJARACNe/bin/ch_line_ending.py:51-54 | converting a converted file changes nothing further |
| LineEnding.WindowsRoundTrip | SJARACNe/bin/ch_line_ending.py:51-54 | converting a Unix text written with CR LF endings gives the Unix text back |
| LineEnding.MacRoundTrip | SJARACNe/bin/ch_line_ending.py:51-54 | converting a Unix text written with CR endings gives the Unix text back |
| LineEnding.MacNoLeadingLf | SJARACNe/bin/ch_line_ending.py:40 | a Mac rendering of CR-free text never starts with LF |
| LineEnding.WindowsShape | SJARACNe/bin/ch_line_ending.py:38-54 | a line ended by CR LF then a last line with no terminator is classed Windows and reads back with LF in place of CR LF |
| LineEnding.WindowsFirstLine | SJARACNe/bin/ch_line_ending.py:36-38 | such a file's first line is classed Windows |
| LineEnding.WindowsFirstLineIs | SJARACNe/bin/ch_line_ending.py:36-37 | such a file's first line runs up to and including the LF after the CR |
| LineEnding.EndsInCrLf | SJARACNe/bin/ch_line_ending.py:38 | a line ending in CR LF holds the pair |
| LineEnding.WindowsSample | tests/test_ch_line_ending.py:45-47 | the Windows sample copied to an output path has its first line ended by LF instead |
| LineEnding.TmpLeftBehind | SJARACNe/bin/ch_line_ending.py:49-59 | on the Windows sample without an output path, as written the result stays at the .tmp path, while the intended run replaces the input file |
| LineEnding.MacSample | tests/test_ch_line_ending.py:50-52 | the Mac sample copied to an output path has its first line ended by LF instead |
| LineEnding.NoLfUnchanged | SJARACNe/bin/ch_line_ending.py:51-54 | text without LF looks the same in Windows and Mac style |
| LineEnding.ToWindowsConcat | SJARACNe/bin/ch_line_ending.py:51-54 | Windows style distributes over concatenation |
| LineEnding.ToMacConcat | SJARACNe/bin/ch_line_ending.py:51-54 | Mac style distributes over concatenation |
| LineEnding.ToWindowsAppend | SJARACNe/bin/ch_line_ending.py:51-54 | two LF-free parts joined by LF become the same parts joined by CR LF |
| LineEnding.ToMacAppend | SJARACNe/bin/ch_line_ending.py:51-54 | two LF-free parts joined by LF become the same parts joined by CR |
| LineEnding.FirstLineAfter | SJARACNe/bin/ch_line_ending.py:36-37 | the first line of a + LF + b, when a has no LF, is a + LF |
| Strings.FindFrom | SJARACNe/bin/create_consensus_network.py:68 | the index returned is the first occurrence of the pattern at or after the start, or -1 when there is none |
| Strings.Split | SJARACNe/bin/create_consensus_network.py:68 | a split always gives at least one piece |
| Strings.JoinSplit | SJARACNe/bin/create_consensus_network.py:68-89 | joining the pieces of a split with the separator gives the string back |
| Strings.SplitWithoutSep | SJARACNe/bin/QC_input.py:35 | a string without the separator splits into itself |
| Strings.SplitPair | SJARACNe/bin/QC_input.py:19-20 | a + sep + b splits into exactly [a, b] when sep first occurs between them and b holds none |
| Strings.SplitFirstFree | SJARACNe/bin/create_consensus_network.py:177 | the first piece of a split holds no separator |
| Strings.SplitLastFree | SJARACNe/bin/create_consensus_network.py:68 | the last piece of a split holds no separator |
| Strings.SplitOnChars | SJARACNe/bin/create_consensus_network.py:164 | re.split on single characters gives at least one piece |
| Strings.SplitOnCharsWord | SJARACNe/bin/create_consensus_network.py:164 | a word free of delimiters, then a delimiter, is one piece of the split |
| Strings.SplitOnCharsPlain | SJARACNe/bin/create_consensus_network.py:164 | a word free of delimiters splits into itself |
| Strings.Slice | SJARACNe/bin/create_consensus_network.py:165-166 | a Python slice of non-negative bounds has the length of the clamped range |
| Strings.SkipSpace | SJARACNe/bin/create_consensus_network.py:177 | the index returned is the first non-whitespace at or after the start, and everything skipped is whitespace |
| Strings.SkipSpaceBack | SJARACNe/bin/create_consensus_network.py:177 | everything from the index returned to the end is whitespace, and the character before it is not |
| Strings.Strip | SJARACNe/bin/create_consensus_network.py:177 | the result is a piece of the string with only whitespace removed at both ends, and it neither starts nor ends with whitespace |
| Strings.LessIrreflexive | SJARACNe/bin/create_consensus_network.py:129 | no string sorts before itself |
| Strings.LessTransitive | SJARACNe/bin/create_consensus_network.py:129 | the string order is transitive |
| Strings.LessTotal | SJARACNe/bin/create_consensus_network.py:129 | of two different strings one sorts before the other |
| Strings.LessAsymmetric | SJARACNe/bin/create_consensus_network.py:129 | two strings never sort before each other |
| Strings.Insert | SJARACNe/bin/create_consensus_network.py:129 | inserting a new key keeps the listing strictly sorted, adds exactly that key and grows it by one |
| Strings.SortedOf | SJARACNe/bin/create_consensus_network.py:129 | the listing is strictly ascending and holds exactly the keys |
| Strings.SortedUnique | SJARACNe/bin/create_consensus_network.py:129 | a set of keys has only one strictly ascending listing |
| Strings.SortKeys | SJARACNe/bin/create_consensus_network.py:129 | the keys come out as that one ascending listing |
| Strings.NatToString | SJARACNe/bin/create_consensus_network.py:104 | str(n) is a non-empty string of digits |
| Strings.NatToStringValue | SJARACNe/bin/create_consensus_network.py:104 | the digits of str(n) read back as n |
| Strings.LeadingZeros | src/param.cpp:238 | leading zeros do not change the value of a digit string |
| Strings.Pad3 | src/param.cpp:238 | "%03i" prints only digits |
| Strings.Pad3Value | src/param.cpp:238 | "%03i" prints at least three digits, reads back as the number, and is plain decimal from 100 on |

## Left out

- File and stream plumbing: opening files, the "Unable to open" throws, closing. Every reader takes the text or the lines of its file, and every writer that finishes returns the text it writes.
- Consensus.ConsensusSpec: on an error the script has already written part of its output, and the model returns only the error. bootstrap_info_.txt is complete (SJARACNe/bin/create_consensus_network.py:103-107) before `float(p_value)` raises (line 112); with no edge, its line "Total edge tested: 0" is written (line 104) before the division by zero (line 105); and consensus_network_3col_.txt holds its header and the rows before a key without a separator (lines 124-145) when that key raises.
- LegacyConsensus.LegacySpec: likewise, bootstrap_info_.txt holds "Total edge tested: 0" (getconsensusnetwork.py:63) before the division by zero (line 64), and its first two lines before `math.sqrt` of a negative sum fails; the model returns only the error.
- Enhance.EnhanceSpec: the subnet file is created (SJARACNe/bin/create_consensus_network.py:174) and the output file holds its header and earlier rows (lines 184-223) when a line fails; the model returns only the error. The same holds for StandaloneEnhance.StandaloneSpec (SJARACNe/bin/get_enhanced_consensus_network.py:58-96) and for LegacyEnhance.LegacyEnhanceSpec (getenhancedconsensusnetwork.py:68-93).
- Console output: the progress prints of the C++ program, the DPI running time and the `maxNpar` report (src/matrix.cpp:348, 371, 485-486, 503-504), and the stderr prints of the Python scripts. None of them affects a result.
- `Matrix::write(data, ids, p, writeFull)` (src/matrix.cpp:338-372): the file writer adds a fixed block of '>' header lines in front of the text that `Write` models.
- `Matrix::writeGeneList` (src/matrix.cpp:284-315): a debugging writer that nothing in the core reads.
- `createEdgeMatrix`, `Compute_Pairwise_MI`, `filter`, `variance`, `computeMarkerBandwidth`, `bootStrap` and `addNoise`: floating-point numerics and random numbers. The MI estimate is the `pairwise` parameter of `CalculateMI`.
- AdjacencyMatrix.CalculateMI: the noise-corrected value (src/matrix.cpp:1219-1226) is the `correct` parameter. Its ensures say nothing about it beyond its being what is added when non-zero.
- The value parsing of `readMarkerWithPvalue` and `readMarkerNoPvalue` (src/matrix.cpp:604-677). Only the format decision of `read` is modelled, and the parsed cells are left to `Set_Probe`'s contract.
- `readProbeList`, `displayParameter`, `findThreshold`, `parseParameter` and the rest of `src/main.cpp`: command-line and configuration plumbing.
- The note that `checkParameter` prints when both a threshold and a p-value are given (src/param.cpp:68-70). It is a print and never an error, so the model has no check for it.
- Number formatting: `"%0.3g"`, `"%0.2g"` and the stream's formatting of a double are function parameters (`g3`, `g2`, `fmt`). Python's `'{0:.4f}'` is not modelled: the output rows of the scripts hold the numbers, not their text. Only `"%03i"` is defined (`Strings.Pad3`).
- `atof`, `float()`, `exp`, `sqrt`, `log`, the scipy correlations (Pearson, Spearman, linear regression) and `repr` of bytes are function parameters.
- Uprob.UprobAsWrittenAtHalf: the as-written uprob is shown to differ from the intended one at n = 0.5; for other small arguments the difference follows from Uprob.PolyBaseAsWrittenAgreesOnlyAtZeroOne and Uprob.SmallBranchInjective but is not stated as one lemma over every n, because that statement puts both degree-6 polynomials, their 16th powers and the continued fraction in one proof obligation the solver does not settle quickly.
- Uprob: the accuracy of the polynomial and the continued fraction (the test values 0.02275, 0.30852, 0.84134) is not stated. The branch structure is stated for both forms, and the symmetry and the ranges for both forms too (Uprob.UprobOfSymmetric, Uprob.UprobOfRange).
- `std::sort`'s order among neighbours with equal mutual information, and among arrays with equal values, is not fixed: `ReduceOneNode` takes the sorted order as its `order` parameter, `Reduce` as `orders`, and `GetHighLowPercent` as `order`, each required to be a sorting.
- AdjacencyMatrix.Matrix.ReduceOneNode: requires epsilon != 1, where minMI would divide by zero; src/main.cpp only calls `reduce` then. The same holds for `Reduce`.
- Microarray.MicroarraySet.GetHighLowPercent: requires x < 1. It returns the two lists as fresh values rather than appending to vectors the caller passes in.
- Util.InterQuartileRange: requires size <= 2^31 - 3, so that size + 2 fits the 32-bit `int`. Other integer overflow (counts and sizes) is not modelled either.
- Doubles are reals; rounding is not modelled.
- `toupper` is modelled for the ASCII letters of the "C" locale only.
- `getconsensusnetwork.py`: the tar extraction and `rmtree` of the run directories (lines 52-59), and the network name taken from the directory path (lines 47-50).
- Directory listing order (`os.listdir`): the run files are given as a sequence in the order they are read.
- The command-line layer of the scripts (`argparse`, `main`), `sys.exit` turned into an error value, and the `mkdir` of the output directory.
- pandas `read_csv` and `.loc` become a `Table` map from id to its row; the xlsx workbook becomes a `Sheet` map from row index to row.
- The igraph graph files and plots of `getenhancedconsensusnetwork.py` (lines 101-149): only the graph name is modelled.
- Python 2 dictionary iteration order is modelled as ascending key order.
- LegacyEnhance.StrippedSubnetRows: `getenhancedconsensusnetwork.py` is Python 2, whose `str.strip()` removes only the ASCII whitespace characters (space, tab, newline, vertical tab, form feed, carriage return); the model's `Strings.Strip` removes Python 3's wider set, so a symbol with other whitespace at an end (U+0085, U+00A0 and the like) is stripped where the script keeps it.
- LegacyEnhance.SamplesOf: `csv.DictReader`'s handling of repeated header names (the last column wins) and of rows with more or fewer fields than the header (the `restkey` list, `None` values) is not modelled; each row is taken as an id, a symbol and one value per sample field.
- Consensus.NanSigmaKeepsAll: the info file's text (`str(sigma)` giving `nan`) is not modelled; the model records sigma as the value NaN.
- Python's decoding of the text files is assumed to be the identity on the characters read; `ch_line_ending.py` is modelled on bytes.
- The CLI and pipeline scripts (`SJARACNe/sjaracne.py`, `generate_pipeline.py`, `bootstrap.py`, `setup.py`) and `SJARACNe/src/parseargs.h` are not part of this model.

## Findings

| source | as written | input that shows it | evidently intended | confidence | as-written member | corrected member |
|---|---|---|---|---|---|---|
| statistics.py:12 | the third coefficient is added, not nested: `0.0211410061 + a*0.0032776263 + a*(…)` (also in SJARACNe/bin/create_consensus_network.py) | any 0 < abs(n) < 1.9 other than 1, e.g. n = 0.5; tests/test_create_consensus_network.py:48-49 expects the as-written uprob(0.5), 0.308518356555, which the nested form does not give | the nested polynomial of Abramowitz and Stegun formula 26.2.19, as in the Perl uprob the file ports | not executed | Uprob.UprobAsWritten, with Uprob.UprobAsWrittenAtHalf, Uprob.PolyBaseAsWrittenAgreesOnlyAtZeroOne and Uprob.UprobAsWrittenAgreesElsewhere | Uprob.Uprob, with Uprob.PolyBaseIsReference |
| SJARACNe/bin/get_enhanced_consensus_network.py:81 | the second symbol is read from node1's record at column 1 (its first sample) | a line whose target's symbol is listed and whose source's is not | node2's symbol, column 0 of node2's record | not executed | StandaloneEnhance.SubnetTestAsWritten, with StandaloneEnhance.SubnetTestCounterexample | StandaloneEnhance.StandaloneEnhanceNetwork, with Enhance.EnhanceSubnet |
| SJARACNe/bin/get_enhanced_consensus_network.py:66-92 | the header is written at row 0 and the first data row is written at row 0 too | a network file with one data line | data rows from row 1 on, below the header | not executed | StandaloneEnhance.SheetAsWritten, with StandaloneEnhance.SheetAsWrittenLosesHeader | StandaloneEnhance.SheetOf, with StandaloneEnhance.SheetOfLayout |
| getenhancedconsensusnetwork.py:17 | the usage is printed only for fewer than three argv entries, but argv[3] is read later | a call with two arguments (argv of length 3) | the usage for fewer than four argv entries | not executed | LegacyEnhance.ArgsAsWritten, with LegacyEnhance.ArgsAsWrittenDiffers | LegacyEnhance.Args |
| SJARACNe/bin/ch_line_ending.py:49-59 | `output_file is None` is checked after `output_file` was set to the .tmp path, so the copy is never moved over the input | a Windows file with no output path given | the converted copy replaces the input file and the input path is returned | not executed | LineEnding.RunAsWritten, with LineEnding.TmpLeftBehind | LineEnding.Run, with LineEnding.ChLineEnding and LineEnding.InPlaceWithoutOutput |
| src/matrix.cpp:195-197 | the header loop calls `std::getline` again while the line starts with '>', without checking the stream; at the end of the file getline fails and leaves the line unchanged | an ADJ file made only of '>' lines whose last line has no newline, e.g. ">h" | the header loop stops at the end of the file, and nothing is loaded | not executed | AdjacencyMatrix.ReadAsWritten, with AdjacencyMatrix.ReadAsWrittenHangs and AdjacencyMatrix.HeaderWithoutNewline | AdjacencyMatrix.Matrix.Read, with AdjacencyMatrix.ReadSpec and AdjacencyMatrix.HeaderOnlyLoadsNothing |
