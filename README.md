# SatSwarm core in Dafny

SatSwarm is a research framework for simulating a swarm of small SAT-solving
cores that share one clause table and exchange messages over a grid, torus
or fully connected network, together with a Python pipeline that generates
unsatisfiable 3-SAT benchmarks and collects MiniSat statistics on them. This
project models the core of both halves and proves the properties their code
promises.

**Python benchmark pipeline**

- `Generator`, `UnsatGenEval`, `UnsatGenTest`: `generate_unsat_3sat` in its
  two variants (`num_clauses - 2` and `num_clauses - 1` base clauses). Each
  draws a hidden assignment and builds biased 3-variable clauses. It then
  appends two conflict clauses. Both conflict clauses are proved false under
  the hidden assignment, and every clause is proved to use three distinct
  variables in range. Randomness is a stream of draws passed in.
- `CnfText`: the DIMACS text both writers produce. `write_cnf_file` pads or
  truncates clauses to three literals. The inline writer joins them as they
  are. For both, the header count equals the number of clause lines, and the
  text passes the DIMACS check of `MinisatTester`.
- `MinisatTester`: from unsat_generator/minisat_tester.py, the exit-code
  policy, `extract_minisat_info`, `check_cnf_file` and the per-file loop of
  `main`. An unmatched statistic is absent. UNSATISFIABLE wins over
  SATISFIABLE.
- `MinisatEval`: from minisat_eval/minisat_eval.py, `parse_minisat_output`,
  the per-file record and the `.cnf` filter. An unmatched field is 0, and the
  exit code is never read.
- `Pattern`: the fragment of Python's `re` those parsers use. `Text` holds
  the string helpers, and `int`, `str`, `split`, `strip`, `readlines` and
  `sorted`.

**Rust solver and simulator (src/structures/)**

- `MicrosatClauses`, `MicrosatExpr`, `MicrosatState`, `MicrosatOps`,
  `MicrosatSolve`, `Microsat`: the DPLL solver of microsat.rs.
  - The `Expression` object is a class. Its internal operations act on its
    fields as a value.
  - The action log is read as one group per operation, each paired with
    the state saved before it.
  - The invariant ties `num_active_clauses` to the enabled clauses and the
    literal index to the clauses. It is proved to be kept by `remove_clause`,
    `enable_clause`, `remove_literal_from_clauses`,
    `remove_clauses_with_literal` and `assign_variable`.
  - `backtrack` is proved to undo exactly the groups logged since the newest
    speculation, restoring the state saved before it.
  - `solve_dpll` is proved to leave the expression as its caller's
    speculation found it. A SAT leaf it records comes with a model of the
    clauses it searched.
- `ClauseTables`: the clause table of clause_table.rs. It covers
  `load_file` on text, `random`, and the query FIFO of `recieve_message`. It
  also covers `clock_update`, which sends one substitution mask per
  in-flight query and cycle.
- `Messages`: the delayed circular buffer and message queue of message.rs.
  The clock is a parameter. node.rs carries its own copy of the buffer,
  which `Nodes` reuses because the code is the same.
- `Nodes`: the node state machine of node.rs. Each operation is proved
  against a before/after predicate on snapshots of the node and its queue.
  The file has two odd points:
  - The UNSAT arm of `process_clause` is dead: `Nodes.UnsatUnreachable`.
    The mask is applied only when `check_tautology` has found a reset open
    term, and a Reset entry is never False. This is stated as a property of
    the code, because the code does not show what the intended test would be.
  - `backtrack` would panic if that arm were reached: see Findings.
- `Neighbors`, `Arenas`: the grid, torus and dense neighbour tables. The
  trace and network arenas share one `Arena`, since trace.rs and network.rs
  hold the same code. The constructors are proved to build exactly the
  tables described by lists of edges. `NodeStates` holds the one node-state
  type (Idle, Busy, SAT, Sleep) that both simulators import, as both
  source files import one `NodeState`.
- `Traces`: the `Trace` record of trace.rs, with its sentinels and Debug
  text, `div_up`, and the cycle accounting of `propagate`.
- `Network`: `run_event_loop` of network.rs, with the node operations as
  parameters. Two quirks are proved as stated:
  - A sleeping neighbour woken by a busy node becomes Idle but is never put
    back on the heap: `Network.WokenNotScheduled`.
  - SAT can only be reported for a node that was already SAT when the loop
    began (`Network.KeepsSatFromStart` and the ensures of `RunEventLoop`).
- `Graphs`: the map-based graph of graph.rs.
- `SatSwarms`: satswarm.rs, with the arena, `grid`, `recover_model` and the
  Success broadcast of `send_message`.
  - `recover_model` first maps variable 0 to false
    (`SatSwarms.RecoveredZero`). A later term on variable 0 in state True
    still overrides that (`SatSwarms.RecoveredZeroOverridden`). This is
    described as the code's behaviour, since the code does not make clear
    whether variable 0 is meant to stay false.
- `Testing`: `parse_topology` of testing.rs.
- `NodeMessage`: the 3-bit check of node_message.rs.

Panics of the Rust code become `None`, `false` or an `ok` flag, except
where "## Left out" names a `requires` that excludes the panicking input.
Integer widths are written out where the code can overflow.

## Model

| member | source | states |
|---|---|---|
| ClauseTables.ClauseMax | src/structures/clause_table.rs:131 | the largest variable of a clause: one of its three terms has it and no term has a larger one |
| ClauseTables.MaxVar | src/structures/clause_table.rs:131 | the largest variable over all clauses, None exactly for an empty table (where `unwrap` panics); it bounds every term and some term has it |
| ClauseTables.MaskMeaning | src/structures/clause_table.rs:174-186 | a term on the queried variable is True exactly when the queried value makes it true and False exactly when it makes it false; any other term is Reset exactly for a reset query on a later variable, and never True or False |
| ClauseTables.BuildMask | src/structures/clause_table.rs:171-186 | the loop builds the mask the per-term rule gives (MaskFor, described by MaskMeaning) |
| ClauseTables.Retained | src/structures/clause_table.rs:164 | only queries with updates left stay in flight |
| ClauseTables.QueryLifetime | src/structures/clause_table.rs:164-189 | a query with u updates left is still in flight after j <= u clock updates, with u - j left, so it answers the clauses n - u, ..., n - 1 in order |
| ClauseTables.QueryDropped | src/structures/clause_table.rs:164-189 | once its last clause is answered, the next update removes the query |
| ClauseTables.FirstZero | src/structures/clause_table.rs:107-111 | the position of the first word reading as 0: no earlier word is 0 and the word there is 0, or the line has none |
| ClauseTables.ParseClauseLine | src/structures/clause_table.rs:106-120 | the word loop over a clause line panics exactly when the line is malformed (a word after the 0, a word that is not an i32, a literal of magnitude 255 or more, a fourth literal) and otherwise yields the clause ClauseOfLine describes, padded with variable-0 terms |
| ClauseTables.ScanStopsAtEnd | src/structures/clause_table.rs:103-104 | nothing after a line starting with "%" is read |
| ClauseTables.HeaderRestarts | src/structures/clause_table.rs:92-100 | a "p cnf" line discards the clauses read before it |
| ClauseTables.StepKindIndependent | src/structures/clause_table.rs:87-125 | whether a line panics, ends the file or is read on does not depend on the lines before it |
| ClauseTables.ClauseTable.Make | src/structures/clause_table.rs:60-66 | the struct literal: the given clauses, their count, the given variable count, no queries |
| ClauseTables.ClauseTable.Placeholder | src/structures/clause_table.rs:35-44 | ten blank clauses over one variable and no queries |
| ClauseTables.ClauseTable.NumberOfVars | src/structures/clause_table.rs:144-146 | the largest variable of the table (None where the source panics on an empty table) |
| ClauseTables.ClauseTable.GetBlankState | src/structures/clause_table.rs:238-241 | one all-Symbolic clause state per clause |
| ClauseTables.ClauseTable.ReceiveMessage | src/structures/clause_table.rs:210-236 | a query from a node joins the back of the buffer with every clause to answer; an abort from a node changes nothing; anything else panics; the table and the in-flight queries are untouched |
| ClauseTables.ClauseTable.ClockUpdate | src/structures/clause_table.rs:148-204 | the front query leaves the buffer and is answered VariableNotFound or admitted (replacing its source's query); queries with nothing left are dropped; every remaining query, in the map's visiting order, is sent the mask of its next clause and has one clause fewer left |
| ClauseTables.SentConcat | src/structures/clause_table.rs:167-202 | messages sent in two batches reach the queue as one batch would |
| ClauseTables.Random | src/structures/clause_table.rs:46-67 | with the random draws given: the drawn clauses, each variable below the variable count, then the dummy clause; None where `% 0` panics (clauses over no variables) |
| ClauseTables.LoadFile | src/structures/clause_table.rs:69-142 | "SAT expected" is that the lower-cased path lacks "unsat"; a table is returned exactly when the lines scan without a panic, the count matches the header and the largest variable matches it; the table is the clauses read plus the dummy clause over the header's count plus one |
| ClauseTables.ReadLine | src/structures/clause_table.rs:88-124 | one turn of the line loop is `LineStep`: a "p cnf" header restarts the scan with its counts (a panic on a missing or unparsable field or 255 and more variables), a "c" line changes nothing, a "%" line stops, and any other line panics, adds its padded clause when it reached 0, or changes nothing |
| ClauseTables.ScanFile | src/structures/clause_table.rs:87-125 | the whole line loop is `ScanLines` from the empty scan: the lines read in turn, ending at the first "%" line, None at the first panic |
| ClauseTables.Build | src/structures/clause_table.rs:129-141 | after the loop, a table exactly when the clause count matches the header and the largest variable of the clauses plus the dummy equals the header count as a `u8`; it holds those clauses and the dummy, `var_count + 1` variables and no queries |
| ClauseTables.ClauseTable.AdmitQuery | src/structures/clause_table.rs:151-158 | the front query, if any, leaves the FIFO; one on a variable the table does not have is answered `VariableNotFound` and dropped, any other becomes its source's in-flight query, replacing an earlier one |
| ClauseTables.ClauseTable.SendMasks | src/structures/clause_table.rs:166-202 | once the `retain` has left only queries with a clause to go, each in-flight query, in the map's order, is sent the mask for its next clause and has one clause fewer left |
| ClauseTables.ClauseTable.AnswerAll | src/structures/clause_table.rs:167-202 | the loop over the in-flight queries sends one mask per query, in the map's order, and lowers each query's count by one |
| ClauseTables.ClauseTable.AnswerQuery | src/structures/clause_table.rs:168-200 | the query's source is sent the mask of clause `num_clauses - updates_left`, True/False on the queried variable, Reset on a later variable when resetting, Unchanged elsewhere |
| CnfText.LitWords | minisat_eval/unsat_gen.py:61-65 | one word per literal, in order, each the Python `str` of that literal |
| CnfText.ClauseLineShape | minisat_eval/unsat_gen.py:67 | a written clause line is counted as a clause by the validity check (not blank, not a comment) and ends in a newline |
| CnfText.ClauseLineTokens | minisat_eval/unsat_gen.py:67 | splitting a clause line on whitespace gives back the literal words followed by the terminating "0" |
| CnfText.HeaderCountsOf | minisat_eval/unsat_gen.py:45 | the header line written for `vars` variables and `n` clauses is read back by the validity check as exactly `(vars, n)` |
| CnfText.HeaderStrip | minisat_eval/unsat_gen.py:45 | the stripped header is its body and it starts with "p cnf" |
| CnfText.SplitJoined | unsat_test/unsat_gen.py:52 | `split()` inverts `" ".join` for non-empty words without whitespace |
| CnfText.FileTextLines | unsat_test/unsat_gen.py:49-52 | reading the written file back line by line yields the header followed by the clause lines, one per clause |
| CnfText.FileTextValid | unsat_generator/minisat_tester.py:86-116 | any file made of a generated header and well-formed clause lines passes `check_cnf_file` |
| CnfText.ClauseLineRoundTrip | unsat_test/unsat_gen.py:52 | a clause written as text and parsed back with `int` yields the original literals in order, then "0" |
| Generator.AgreeingValue | minisat_eval/unsat_gen.py:17-19 | the literal matching the solution is true under it, its negation false, and both name the same variable |
| Generator.Range | minisat_eval/unsat_gen.py:12 | `range(1, n + 1)` is the distinct sequence 1..n |
| Generator.Sample | minisat_eval/unsat_gen.py:12 | `random.sample` returns exactly `k` distinct members of the pool |
| Generator.Sample3 | minisat_eval/unsat_gen.py:12-32 | three distinct variables, each in 1..n |
| Generator.DrawSolution | minisat_eval/unsat_gen.py:6 | the solution assigns exactly the variables 1..numVars, each from one random draw |
| Generator.BaseClause | minisat_eval/unsat_gen.py:13-20 | one literal per chosen variable, agreeing with the solution exactly when its draw says so |
| Generator.ConflictClause | minisat_eval/unsat_gen.py:24-29 | one literal per chosen variable, each false under the solution |
| Generator.DrawBase | minisat_eval/unsat_gen.py:10-20 | a 3-literal clause over distinct variables in range whose literal polarities follow the draws |
| Generator.DrawConflict | minisat_eval/unsat_gen.py:24-29 | a 3-literal clause over distinct variables that the solution falsifies |
| Generator.Generate | minisat_eval/unsat_gen.py:4-39 | fails exactly when fewer than 3 variables exist (where `random.sample` raises); otherwise returns the base clauses then two 3-literal clauses that the hidden solution falsifies |
| UnsatGenEval.GenerateUnsat3Sat | minisat_eval/unsat_gen.py:4-39 | `num_clauses` clauses (2 when `num_clauses < 2`), all 3-literal, the last two falsified by the hidden solution |
| UnsatGenEval.WrittenInts | minisat_eval/unsat_gen.py:61-65 | booleans are written as 1 / -1, integers unchanged |
| UnsatGenEval.ClauseLines | minisat_eval/unsat_gen.py:59-68 | one text line per clause, built from its first three written literals |
| UnsatGenEval.Pad | minisat_eval/unsat_gen.py:50-55 | the padded clause extends the original to at least 3 literals, using two draws per added literal |
| UnsatGenEval.WriteCnfFile | minisat_eval/unsat_gen.py:41-68 | every clause in the caller's list is padded in place to at least 3 literals, and the file text is the "p cnf 20 n" header followed by one line per clause |
| UnsatGenEval.WrittenValid | minisat_eval/unsat_gen.py:41-68 | whatever clauses are written, the file passes `check_cnf_file` and reads back as header plus clause lines |
| UnsatGenEval.ClauseLineTokens | minisat_eval/unsat_gen.py:57-67 | a written line holds exactly three literal tokens plus "0", each parsing back to the written literal |
| UnsatGenTest.GenerateUnsat3Sat | unsat_test/unsat_gen.py:4-39 | `num_clauses + 1` clauses (2 when `num_clauses < 1`), all 3-literal, the last two falsified by the hidden solution |
| UnsatGenTest.ClauseLines | unsat_test/unsat_gen.py:51-52 | one line per clause, the literals joined by spaces then " 0" |
| UnsatGenTest.WriteFormula | unsat_test/unsat_gen.py:49-52 | the file text is the header followed by the clause lines |
| UnsatGenTest.FormulaTextValid | unsat_test/unsat_gen.py:49-52 | every written formula passes `check_cnf_file` and reads back as header plus one line per clause |
| MinisatTester.AllStatsComplete | unsat_generator/minisat_tester.py:40-74 | the statistics table covers every statistic the driver extracts |
| MinisatTester.RunMinisat | unsat_generator/minisat_tester.py:7-31 | a report is returned exactly for exit codes 0 and 20, and it is the captured stdout |
| MinisatTester.ShapesOk | unsat_generator/minisat_tester.py:41-61 | each of the four pattern shapes has one capture group of the right class and can be matched greedily |
| MinisatTester.PatternOk | unsat_generator/minisat_tester.py:41-61 | the pattern of each statistic captures digits for a count and digits and dots for a time or size |
| MinisatTester.PatternsOk | unsat_generator/minisat_tester.py:41-61 | the whole pattern table is well formed |
| MinisatTester.Captured | unsat_generator/minisat_tester.py:46-74 | a captured count is all digits, so `int()` cannot fail on it |
| MinisatTester.VerdictCases | unsat_generator/minisat_tester.py:76-82 | "UNSAT" exactly when "UNSATISFIABLE" occurs, "SAT" exactly when only "SATISFIABLE" occurs, "UNKNOWN" when neither does |
| MinisatTester.MatchedAdd | unsat_generator/minisat_tester.py:46-74 | adding a statistic to the set searched equals one more conditional store |
| MinisatTester.SearchGroup | unsat_generator/minisat_tester.py:41-61 | a found group is non-empty and made of the statistic's characters |
| MinisatTester.InfoNone | unsat_generator/minisat_tester.py:35-36 | no record exactly for a missing or empty report |
| MinisatTester.InfoKeys | unsat_generator/minisat_tester.py:38-84 | the record holds the verdict under "result" and a statistic's key exactly when its pattern matched; no file name yet |
| MinisatTester.MatchedKeys | unsat_generator/minisat_tester.py:46-74 | a key is present exactly when its statistic was searched and matched |
| MinisatTester.InfoCount | unsat_generator/minisat_tester.py:47-70 | a recorded count is the decimal value of the group at the leftmost match |
| MinisatTester.InfoDecimal | unsat_generator/minisat_tester.py:50-74 | a recorded time or memory figure is the group text at the leftmost match |
| MinisatTester.RecordStat | unsat_generator/minisat_tester.py:46-53 | one search and conditional store for one statistic |
| MinisatTester.ProblemStatistics | unsat_generator/minisat_tester.py:41-53 | the record after the four problem statistics |
| MinisatTester.SearchStatistics | unsat_generator/minisat_tester.py:56-74 | the record after the six search statistics, on top of the problem statistics |
| MinisatTester.ExtractMinisatInfo | unsat_generator/minisat_tester.py:33-84 | the imperative extraction produces exactly the record described by `InfoOf` |
| MinisatTester.ClauseLineCount | unsat_generator/minisat_tester.py:107-110 | the count never exceeds the number of lines |
| MinisatTester.HeaderCounts | unsat_generator/minisat_tester.py:93-104 | counts are read only from a line that starts with "p cnf" and strips and splits into exactly four tokens |
| MinisatTester.ClauseLineCountAppend | unsat_generator/minisat_tester.py:107-110 | the clause count of two blocks of lines is the sum of their counts |
| MinisatTester.ClauseLineCountAll | unsat_generator/minisat_tester.py:107-110 | lines that all count as clauses are all counted |
| MinisatTester.CnfRejects | unsat_generator/minisat_tester.py:93-119 | an unreadable file, an empty file and a file whose first line is not a "p cnf" header are rejected |
| MinisatTester.CnfAccepts | unsat_generator/minisat_tester.py:97-116 | with a well-formed header, a file is accepted exactly when the header's clause count equals the number of clause lines after it |
| MinisatTester.CountClauseLines | unsat_generator/minisat_tester.py:107-110 | the loop counts exactly the clause lines after the header |
| MinisatTester.CheckCnfFile | unsat_generator/minisat_tester.py:86-119 | the imperative check returns exactly the verdict `CnfValid` |
| MinisatTester.RowOf | unsat_generator/minisat_tester.py:149-161 | a row exists only for a valid file, carries its basename under "formula_file" and has a result |
| MinisatTester.Rows | unsat_generator/minisat_tester.py:145-161 | at most one row per file, each with file name and result |
| MinisatTester.RowsSkipInvalid | unsat_generator/minisat_tester.py:149-151 | a file failing `check_cnf_file` adds no row |
| MinisatTester.RowsAllKept | unsat_generator/minisat_tester.py:145-161 | when every file is valid and every run reports, there is one row per file, in order, named by the file's basename |
| MinisatTester.RowKept | unsat_generator/minisat_tester.py:153-158 | a valid file with a report gets a row |
| MinisatTester.ProcessFiles | unsat_generator/minisat_tester.py:145-161 | the loop writes exactly the rows `Rows` describes for the sorted files |
| MinisatTester.ProcessFormulas | unsat_generator/minisat_tester.py:121-163 | nothing is written when there are no formula files; otherwise the rows of the files in sorted order |
| MinisatEval.ColonSpaceShapesOk | minisat_eval/minisat_eval.py:15-28 | the "label: value" shapes have one capture group of the right class and can be matched greedily |
| MinisatEval.PatternOk | minisat_eval/minisat_eval.py:15-28 | every field's pattern is well formed |
| MinisatEval.FieldGroup | minisat_eval/minisat_eval.py:15-28 | a found group is non-empty and, for every count, all digits |
| MinisatEval.IsSatVerdict | minisat_eval/minisat_eval.py:12 | `is_sat` holds exactly when the other driver's verdict is "SAT", and fails on its "UNSAT" and "UNKNOWN" |
| MinisatEval.ParseMinisatOutput | minisat_eval/minisat_eval.py:9-42 | the SAT flag is `IsSat`; the CPU time is the matched text, or "0.0" when it does not match |
| MinisatEval.CountZero | minisat_eval/minisat_eval.py:22-32 | a count is zero exactly when it did not match or matched a zero, so a missing field looks like a zero |
| MinisatEval.CountMatched | minisat_eval/minisat_eval.py:19-32 | a matched count is the value of its group, and a group is found exactly when the pattern matches somewhere |
| MinisatEval.RunRecord | minisat_eval/minisat_eval.py:44-79 | the record carries the basename, and its result is "SAT" exactly when `IsSat`, "UNSAT" otherwise |
| MinisatEval.UnknownIsUnsat | minisat_eval/minisat_eval.py:72 | a report with neither marker is recorded as UNSAT |
| MinisatEval.CnfNames | minisat_eval/minisat_eval.py:85-86 | the chosen entries are exactly those ending in ".cnf" |
| MinisatEval.DirRecordsSnoc | minisat_eval/minisat_eval.py:85-89 | one more entry adds a record exactly when it ends in ".cnf" |
| MinisatEval.DirRecordsNames | minisat_eval/minisat_eval.py:81-90 | one record per ".cnf" entry, in listing order, each named by its entry |
| MinisatEval.ProcessDirectory | minisat_eval/minisat_eval.py:81-90 | the loop returns exactly the records `DirRecords` describes |
| Pattern.RunEnd | unsat_generator/minisat_tester.py:41-61 | a greedy `+` run stops at the first character outside its class |
| Pattern.MatchAt | unsat_generator/minisat_tester.py:41-61 | a match consumes a span and captures one non-empty group per capture, each in its class |
| Pattern.MatchAtSound | unsat_generator/minisat_tester.py:41-61 | greedy matching only reports real matches |
| Pattern.MatchAtComplete | unsat_generator/minisat_tester.py:41-61 | for an unambiguous pattern greedy matching finds every match Python's backtracking engine would find |
| Pattern.SearchFrom | unsat_generator/minisat_tester.py:41-61 | the result is the leftmost starting position with a match, none before it |
| Pattern.Group1 | unsat_generator/minisat_tester.py:47-53 | a group found is non-empty and in the class of the first capture |
| Pattern.SearchCorrect | unsat_generator/minisat_tester.py:41-61 | `re.search` finds a match exactly when one exists, and it is the leftmost |
| Testing.FloorSqrt | src/structures/testing.rs:15-19 | the largest s with s * s <= n |
| Testing.ParseTopology | src/structures/testing.rs:12-25 | "grid" and "torus" give square shapes of side floor(sqrt(n)), "dense" keeps n, and any other name fails |
| Testing.SquareFits | src/structures/testing.rs:12-25 | a grid or torus never has more nodes than asked for and one square more would be too many |
| Text.TakeToken | unsat_generator/minisat_tester.py:98 | the longest separator-free prefix |
| Text.TokensNonEmpty | unsat_generator/minisat_tester.py:98 | tokens are non-empty and separator-free |
| Text.LStrip | unsat_generator/minisat_tester.py:98-109 | leading whitespace removed, the rest unchanged |
| Text.RStrip | unsat_generator/minisat_tester.py:98-109 | trailing whitespace removed, the rest unchanged |
| Text.StripEmpty | unsat_generator/minisat_tester.py:109 | `strip()` leaves nothing exactly when the line is all whitespace |
| Text.NatToString | minisat_eval/unsat_gen.py:65 | a non-empty digit string without a leading zero |
| Text.DecimalOfNatToString | minisat_eval/unsat_gen.py:65 | reading back the rendering of n gives n |
| Text.PyIntOfIntToString | unsat_generator/minisat_tester.py:103-104 | `int(str(i)) == i` |
| Text.RustParseSigned | src/structures/microsat.rs:176 | a parsed value lies in the type's range |
| Text.RustParseUnsigned | src/structures/microsat.rs:167-169 | a parsed value is at most the type's maximum |
| Text.LowerAscii | src/structures/clause_table.rs:82 | lower-casing keeps the length |
| Text.TokensOfJoin | unsat_generator/minisat_tester.py:98 | splitting space-joined words recovers them, also with more text after one more separator |
| Text.ReadLines | unsat_generator/minisat_tester.py:90 | no lines exactly for empty text |
| Text.RustLines | src/structures/microsat.rs:156 | the same lines, each without its "\n" or "\r\n" |
| Text.ReadLinesOfLines | unsat_generator/minisat_tester.py:90 | `readlines()` of concatenated newline-terminated lines gives them back |
| Text.StrLeTotal | unsat_generator/minisat_tester.py:145 | Python's string order is total |
| Text.StrLeTrans | unsat_generator/minisat_tester.py:145 | Python's string order is transitive |
| Text.Sort | unsat_generator/minisat_tester.py:145 | `sorted` returns an ordered permutation of its input |
| Text.Basename | unsat_generator/minisat_tester.py:157 | a '/'-free suffix that follows the last '/' |
| Text.BasenameOfJoin | minisat_eval/minisat_eval.py:71-87 | the basename of `os.path.join(dir, name)` is `name` |
| Arenas.NumberedSnoc | src/structures/network.rs:90-91 | pushing the node for the next id keeps the nodes numbered by their index |
| Arenas.Arena.constructor | src/structures/network.rs:16-21 | no nodes and no neighbour lists |
| Arenas.Arena.AddNeighbor | src/structures/network.rs:36-39 | succeeds exactly when both ids index the table (the indexing panics otherwise), and a failure changes nothing; on success each endpoint's list gets the other appended (a self-link appends twice), the call is recorded and the nodes are unchanged |
| Arenas.Arena.RemoveNeighbor | src/structures/network.rs:41-44 | `Vec::remove` by index: succeeds exactly when both ids index the table and both positions are in range of the lists at the time of each removal (each of these panics otherwise), and then removes position `neighbor_id` from node_id's list and then position `node_id` from neighbor_id's list |
| Arenas.Arena.Grid | src/structures/network.rs:83-101 | rows·cols nodes numbered in row-major order, and the table is what linking each cell to the cell above and to the left builds |
| Arenas.Arena.GridCell | src/structures/network.rs:90-97 | one loop body of `grid`: the next node is pushed and linked above and left under the loop's conditions |
| Arenas.Arena.Torus | src/structures/network.rs:102-134 | rows·cols nodes in row-major order, with the grid links plus those from the bottom row and from the last column |
| Arenas.Arena.TorusCell | src/structures/network.rs:109-130 | one loop body of `torus`: the four conditional links of the cell |
| Arenas.Arena.Dense | src/structures/network.rs:135-149 | n nodes, and the table is what linking every pair i < j in order builds |
| Arenas.Generate | src/structures/network.rs:74-82 | the arena of the configured topology: its nodes numbered and its table the topology's table |
| Arenas.RemoveAt | src/structures/network.rs:42 | `Vec::remove(index)`: the element at `index` is dropped and the later ones shift down |
| Neighbors.Empty | src/structures/network.rs:86 | `vec![vec![]; n]`: n empty lists |
| Neighbors.AddNeighbor | src/structures/network.rs:36-39 | every list is extended by exactly what the edge contributes to it |
| Neighbors.LinkAllSnoc | src/structures/network.rs:36-39 | linking one more edge is one more `add_neighbor` |
| Neighbors.LinkAllIncident | src/structures/network.rs:36-39 | each list of the linked table is its old contents followed by what the edges contribute, in order |
| Neighbors.IncidentMember | src/structures/network.rs:36-39 | a node appears in a's list exactly when some edge joins it to a |
| Neighbors.LinkedIff | src/structures/network.rs:36-39 | starting from empty lists, x is a neighbour of a exactly when an edge joins them, in either direction |
| Neighbors.CellUnique | src/structures/network.rs:90-110 | row-major ids `i * cols + j` determine the row and column |
| Neighbors.BodyEdges | src/structures/network.rs:109-130 | the `add_neighbor` calls of one torus loop body are exactly the cell's edges, and every id passed lies in the layout |
| Neighbors.GridBodyEdges | src/structures/network.rs:90-97 | the same for one grid loop body |
| Neighbors.GridNeighbors | src/structures/network.rs:83-101 | in the finished grid a cell lists exactly the cells above, left, right and below it that exist, in that order |
| Neighbors.TorusEdgeLinked | src/structures/network.rs:102-134 | every link a torus cell makes is listed at both of its endpoints |
| Neighbors.TorusCellEdges | src/structures/network.rs:113-130 | a torus cell links above, left, from the bottom row to its column index and from the last column to its row's first id |
| Neighbors.DenseNeighbors | src/structures/network.rs:135-149 | in the finished dense layout every node lists all the other nodes once, ascending |
| Neighbors.TopologyTable | src/structures/network.rs:74-82 | the table has one list per node of the topology |
| Neighbors.TopologyTableInRange | src/structures/network.rs:74-82 | every id in the tables of all three topologies names a node |
| Graphs.RemovedClean | src/structures/graph.rs:32-39 | after `remove_node(id)` the id is gone, every other node keeps its messages, no node lists the id and every other neighbour stays listed |
| Graphs.Graph.constructor | src/structures/graph.rs:18-23 | no nodes, next id 0 |
| Graphs.Graph.CreateNode | src/structures/graph.rs:25-30 | returns the next id, which no node had, stores a new node under it and advances the counter |
| Graphs.Graph.RemoveNode | src/structures/graph.rs:32-39 | the map after pruning the id from every node and removing the node itself |
| Graphs.Graph.PruneAll | src/structures/graph.rs:34-36 | every node loses the id from its neighbour list, whatever order the loop visits them in |
| Graphs.Graph.AddEdge | src/structures/graph.rs:41-51 | succeeds exactly when both nodes exist (the source panics otherwise) and then only the source node lists the target |
| Graphs.Graph.RemoveEdge | src/structures/graph.rs:53-57 | the source node's list loses the target; nothing happens when the source is missing |
| Graphs.Graph.SendMessage | src/structures/graph.rs:59-65 | succeeds exactly when the target exists, and then the target holds the message under the sender, replacing an earlier one |
| Graphs.Graph.ClearMessage | src/structures/graph.rs:67-71 | the target forgets the sender's message; nothing happens when the target is missing |
| Graphs.Graph.GetMessage | src/structures/graph.rs:73-77 | a message exactly when the target exists and holds one from the sender, and it is that message |
| Graphs.Graph.GetNode | src/structures/graph.rs:79-81 | the node exactly when the id is in use |
| Graphs.Graph.GetNodeIds | src/structures/graph.rs:87-89 | exactly the ids in use |
| Graphs.Graph.GetNeighbors | src/structures/graph.rs:91-96 | the node's list, or empty for a missing node |
| Graphs.Graph.HasAvailableNeighbor | src/structures/graph.rs:98-103 | the node's own test, false for a missing node |
| Graphs.CreationScenario | src/structures/graph.rs:111-119 | two created nodes get the ids 0 and 1 and both exist |
| Graphs.EdgeScenario | src/structures/graph.rs:122-132 | after `add_edge(0, 1)` node 0 lists exactly 1 and node 1 lists nothing; after `remove_edge(0, 1)` node 0 lists nothing |
| Graphs.MessageScenario | src/structures/graph.rs:135-148 | a sent message is found, and is gone after it is cleared |
| Messages.DebugText | src/structures/message.rs:96-113 | "Fork" and "Success" exactly for those variants; the mask and query texts start with their headers |
| Messages.QueryTextInjective | src/structures/message.rs:108-110 | a query's debug text determines its id, assignment and reset flag |
| Messages.RingSteps | src/structures/message.rs:31-33 | stepping keeps the slots and a valid head |
| Messages.CircularBuffer.constructor | src/structures/message.rs:18-23 | N empty slots, head 0 |
| Messages.CircularBuffer.Push | src/structures/message.rs:25-29 | succeeds exactly when 0 < delay < N (the source asserts both), and then the item is appended to the head slot whatever the delay |
| Messages.CircularBuffer.Step | src/structures/message.rs:31-33 | the head advances one slot, wrapping at N |
| Messages.CircularBuffer.Pop | src/structures/message.rs:35-39 | returns the head slot's contents and leaves that slot empty |
| Messages.Sync | src/structures/message.rs:55-60 | the ring is stepped once per tick from the last update up to the clock, the slots are unchanged and the last update becomes the clock |
| Messages.Start | src/structures/message.rs:62-65 | the queue stays well formed after a message is started |
| Messages.PopAt | src/structures/message.rs:67-70 | the queue stays well formed after a pop |
| Messages.StartAllThenPop | src/structures/message.rs:62-70 | a pop at the clock messages were started at returns what was already due and then the messages, in the order they were started |
| Messages.StartAllShape | src/structures/message.rs:62-65 | messages started at one clock are appended, in order, to the head slot of that clock |
| Messages.MissedBetweenWraps | src/structures/message.rs:25-70 | a message started at one clock is not returned by a pop 1 to 63 ticks later, because the delay is ignored and the message waits in the slot that was the head when it was started |
| Messages.DeliveredAfterWrap | src/structures/message.rs:25-70 | the pop one whole turn (64 ticks) later returns it, after what that slot already held |
| Messages.MessageQueue.constructor | src/structures/message.rs:47-53 | empty slots, head 0, last update 0 |
| Messages.MessageQueue.CheckClock | src/structures/message.rs:55-60 | the queue state becomes `Sync` of the old state at the clock |
| Messages.MessageQueue.StartMessage | src/structures/message.rs:62-65 | the queue state becomes `Start` of the old state |
| Messages.MessageQueue.PopMessage | src/structures/message.rs:67-70 | the items and new state are `PopAt` of the old state |
| NodeMessage.New | src/structures/node_message.rs:6-13 | a message exactly when the value fits in three bits (the source asserts), and `value()` gives the value back |
| Network.PopMax | src/structures/network.rs:165-169 | `BinaryHeap::pop` removes one entry from the heap and returns it, and no other entry is above it in tuple order (time, then id) |
| Network.PopMin | src/structures/network.rs:151 | the earliest-first pop the doc comment describes removes an entry that no other entry is below |
| Network.LatestNotEarliest | src/structures/network.rs:151-169 | with entries at times 0 and 5 the heap as written can only pop the one at time 5; earliest-first would pop the one at time 0 |
| Network.Schedule | src/structures/network.rs:161-165 | the starting heap holds exactly one (local time, id) entry for each node that is not asleep |
| Network.ScheduleScheduled | src/structures/network.rs:161-165 | the starting heap names only nodes that are not asleep, with their current time, each node at most once |
| Network.RestScheduled | src/structures/network.rs:169 | after a pop the rest of the heap is still valid and no longer names the popped node |
| Network.KeepsScheduled | src/structures/network.rs:196-214 | after a round the heap is valid again: the node is pushed back exactly when busy and waking neighbours only turns sleeping nodes idle |
| Network.WokenNotScheduled | src/structures/network.rs:200-211 | a sleeping neighbour woken by a round becomes idle but gets no heap entry, so the loop never visits it |
| Network.KeepsSatFromStart | src/structures/network.rs:174-214 | every heap entry keeps naming a node that is not SAT or that was already SAT when the loop began |
| Network.Acted | src/structures/network.rs:174-194 | the first `match` keeps the node's id |
| Network.Woken | src/structures/network.rs:204-211 | the wake-up loop keeps the number of nodes |
| Network.Network.Build | src/structures/network.rs:64-70 | the given arena, fork delay 0 and default (false, zero) results |
| Network.Network.WakeNeighbors | src/structures/network.rs:204-211 | every listed neighbour that was asleep becomes idle, nothing else changes, and the table is unchanged |
| Network.Network.Visit | src/structures/network.rs:169-214 | a SAT node ends the loop with the result true and the cycles at its time, leaving the nodes alone; otherwise the node acts by state (busy retries, idle takes a fork or sleeps), and a busy result is pushed back with its neighbours woken |
| Network.Network.RunEventLoop | src/structures/network.rs:154-217 | the results are reset and the table and node count are unchanged; SAT is reported only with the cycles of a node that is SAT now and was SAT when the loop began; otherwise the cycle count stays 0; without the fuel bound stopping it, the loop ended as the source's does, on a popped SAT node or an empty heap, and when the bound stops it nothing was recorded and entries remain |
| Network.Generate | src/structures/network.rs:74-149 | the topology's nodes, each node numbered by its position, its table the topology's table, and default results |
| Traces.UnsatTrace | src/structures/trace.rs:45-47 | keeps both fields and has no right child; it classifies as UNSAT exactly when the clause id is not u16::MAX and as SAT exactly when it is, and never as a branch |
| Traces.SatTrace | src/structures/trace.rs:48-50 | keeps the unit-propagation count and classifies as SAT only |
| Traces.BranchTrace | src/structures/trace.rs:51 | the right child is stored `as u32` (mod 2^32, unchanged below u32::MAX); the entry is a branch exactly when the stored child is not u32::MAX, and otherwise reads as SAT |
| Traces.PlaceholderTrace | src/structures/trace.rs:52 | the placeholder classifies as SAT |
| Traces.ExactlyOne | src/structures/trace.rs:53-58 | every Trace value satisfies exactly one of `is_sat`, `is_unsat`, `is_branch` |
| Traces.DebugText | src/structures/trace.rs:60-70 | the text is "SAT" exactly for SAT entries, starts with "UNSAT(unit:" exactly for UNSAT entries and with "BRANCH(unit:" exactly for branches, and the latter two carry the decimal fields in the source's layout |
| Traces.DivUp | src/structures/trace.rs:314 | ceiling division: the least r with r·b >= a |
| Traces.RunEnd | src/structures/trace.rs:262-278 | where a replay from `id` stops: the first non-branch entry at or after `id`, with every entry before it a branch; None exactly when every remaining entry is a branch |
| Traces.Propagate | src/structures/trace.rs:262-278 | fails exactly when the replay runs off the log or the debug assertion on branch order fails at `id`; otherwise the node has one (index, time, right child) record and one `false` trail entry per branch passed, its time grows by every entry's decision delay plus div_up(num_clauses, clause_per_eval)·cycles_per_eval·unit_props and, for an UNSAT end, by the scan up to the unsat clause, and it is SAT exactly when the final entry is SAT |
| Traces.ReplayedStep | src/structures/trace.rs:266-270 | recording a branch and replaying from the next entry is the same as replaying from the branch itself |
| Traces.SpentMonotone | src/structures/trace.rs:265 | the cycles charged along a log prefix only grow as the prefix grows |
| Traces.Generate | src/structures/trace.rs:97-171 | `TraceArena::generate`: nodes `TraceNode::new(id)` numbered by index and the neighbour table of the configured grid, torus or dense topology |
| SatSwarms.Arena.constructor | src/structures/satswarm.rs:8-13 | no nodes and no recorded links |
| SatSwarms.Arena.FromNodes | src/structures/satswarm.rs:14-20 | the arena holds exactly the given nodes |
| SatSwarms.Arena.GetNode | src/structures/satswarm.rs:21-24 | a node is found exactly for an id in range, and it is the node at that position |
| SatSwarms.Arena.AddNeighbor | src/structures/satswarm.rs:26-33 | succeeds exactly when both ids exist; then each endpoint's list gets the other appended and only the lists change; a missing id fails and changes nothing |
| SatSwarms.Arena.RemoveNeighbor | src/structures/satswarm.rs:34-40 | succeeds exactly when both ids exist; then every occurrence of each endpoint leaves the other's list, every other list is unchanged, and the nodes are otherwise the same |
| SatSwarms.Arena.Grid | src/structures/satswarm.rs:60-81 | rows·cols nodes, node k with id k and a copy of the clause table, and the neighbour table is what linking each cell above and to the left builds from empty lists |
| SatSwarms.Arena.GridCell | src/structures/satswarm.rs:64-78 | one loop body of `grid`: one node pushed, linked above when i > 0 and left when j > 0 |
| SatSwarms.Arena.PushNode | src/structures/satswarm.rs:66-67 | `Node::new(id, clause_table.clone())`: the next id, no neighbours, the swarm's clause table |
| SatSwarms.RecordedKeys | src/structures/satswarm.rs:203-217 | recording terms keeps every earlier key, adds every term's variable, and adds no other key |
| SatSwarms.RecordedLast | src/structures/satswarm.rs:203-217 | the last term recorded on a variable decides its value |
| SatSwarms.RecordedAgrees | src/structures/satswarm.rs:203-217 | a value that every term on its variable records again survives the recording |
| SatSwarms.RecoveredKeys | src/structures/satswarm.rs:198-219 | the recovered model has exactly variable 0 and the variables of the node's terms as keys |
| SatSwarms.RecoveredLast | src/structures/satswarm.rs:203-217 | the value of each variable is the one its last term in table order records: !negated for True, negated for False, false otherwise |
| SatSwarms.RecoveredZero | src/structures/satswarm.rs:201 | variable 0 is false in the model whenever no term on variable 0 records true |
| SatSwarms.RecoveredZeroOverridden | src/structures/satswarm.rs:201-208 | the initial `insert(0, false)` is overwritten: a table whose one term on variable 0 is True and not negated recovers variable 0 as true |
| SatSwarms.RecordClause | src/structures/satswarm.rs:204-216 | the inner loop over one clause leaves the model that recording all terms so far gives |
| SatSwarms.CheckClause | src/structures/satswarm.rs:148-184 | passes exactly when every term's variable has a value, every True or False state agrees with the value the term takes, and some term is true |
| SatSwarms.CheckClauses | src/structures/satswarm.rs:147-186 | passes exactly when every clause of the table passes |
| SatSwarms.LastOn | src/structures/satswarm.rs:203-217 | the last position before n of a term on v, or -1 when there is none |
| SatSwarms.DecidedValue | src/structures/satswarm.rs:167-211 | a True or False term is true under the value recover_model records for it exactly when its state is True |
| SatSwarms.CertifiedOwnTable | src/structures/satswarm.rs:147-186 | a node whose terms are all decided, consistent per variable and with a True term in every clause recovers a model that passes the whole check against its own table |
| SatSwarms.SatSwarm.Blank | src/structures/satswarm.rs:50-59 | no nodes, the given clause table, not done |
| SatSwarms.SatSwarm.Grid | src/structures/satswarm.rs:60-81 | a fresh grid arena of rows·cols nodes with copies of the clause table and the grid neighbour table, not done |
| SatSwarms.SatSwarm.RecoverModel | src/structures/satswarm.rs:198-220 | Some exactly for an existing node, and then the model recorded from variable 0 false and every term of the node's table in order |
| SatSwarms.SatSwarm.SendBroadcast | src/structures/satswarm.rs:135-192 | accepted exactly when the swarm is not yet done, the message is Success from a node that exists, and that node's recovered model passes the assertion of every clause of the swarm's table; the swarm is done afterwards exactly when it was before or the broadcast was accepted |
| Nodes.Without | src/structures/node.rs:306-309 | `retain` keeping the ids other than x: no x is left and every other id keeps its number of occurrences |
| Nodes.PushAll | src/structures/node.rs:40-77 | pushing entries with delay 1 appends them, in order, to the head slot and leaves the head and every other slot alone |
| Nodes.Pushed | src/structures/node.rs:75-77 | a queue stays well formed and keeps its clock when messages are started |
| Nodes.PushAllAppend | src/structures/node.rs:75-77 | starting two batches one after the other is starting them together |
| Nodes.NodeQueue.constructor | src/structures/node.rs:61-67 | 64 empty slots, head 0, clock 0 |
| Nodes.NodeQueue.SetClock | src/structures/node.rs:68-73 | the buffer has stepped once per cycle from the recorded clock to the new one, and the new clock is recorded |
| Nodes.NodeQueue.StartMessage | src/structures/node.rs:75-77 | the entry is appended to the head slot and nothing else changes, the clock included |
| Nodes.NodeQueue.PopMessage | src/structures/node.rs:79-81 | returns the head slot's entries and leaves that slot empty, without syncing the clock |
| Nodes.AppliedNeverTrue | src/structures/node.rs:377-394 | applying a mask never produces the True state that node.rs's own clause state lacks |
| Nodes.Node.constructor | src/structures/node.rs:288-300 | no neighbours, clock fields 0, flag set, awaiting a fork, no branches and no message, so the node is not busy |
| Nodes.Node.AddNeighbor | src/structures/node.rs:302-305 | the id is appended to the list and nothing else changes |
| Nodes.Node.RemoveNeighbor | src/structures/node.rs:306-309 | every occurrence of the id leaves the list and nothing else changes |
| Nodes.Node.SendMessage | src/structures/node.rs:475-477 | the message goes into the queue signed with the node's id |
| Nodes.Node.InitProcessing | src/structures/node.rs:360-365 | succeeds exactly from RecievingFork or Branching, and then the node is processing from clause 0 with its flag set; otherwise nothing changes |
| Nodes.Node.PartnerBranch | src/structures/node.rs:341-352 | exactly a branching node succeeds: the neighbour is sent a fork of the table on the current variable, then the clause table a query setting that variable false, and processing restarts; otherwise nothing changes |
| Nodes.Node.SpeculativeBranch | src/structures/node.rs:354-358 | exactly a branching node succeeds, remembering the current variable as its latest speculative branch and sending nothing |
| Nodes.Node.Sat | src/structures/node.rs:442-444 | a Success broadcast is queued |
| Nodes.Node.EndProcessing | src/structures/node.rs:416-425 | only a processing node at its last clause goes on: with its flag set it broadcasts Success and stays put, otherwise it branches on the next variable (a u8 overflow fails) |
| Nodes.Node.Backtrack | src/structures/node.rs:434-440 | succeeds exactly when a speculative branch is left and the node is RecievingFork or Branching; then the latest branch variable is popped, the clause table is asked to reset it to true and the scan restarts |
| Nodes.Node.BacktrackIntended | src/structures/node.rs:434-440 | the same effect, succeeding for a processing node too |
| Nodes.Node.Unsat | src/structures/node.rs:426-432 | with no speculative branch the node is awaiting a fork again; otherwise it backtracks |
| Nodes.Node.Substitute | src/structures/node.rs:374-394 | the clause after the mask (True and False write False, Reset writes Symbolic, Unchanged keeps the term), and UNSAT exactly when all three entries are False |
| Nodes.Node.ProcessClause | src/structures/node.rs:367-410 | the clause at `clause_index` is updated unless `check_tautology` holds; then the index advances, or at the last clause processing ends; an index past the table fails |
| Nodes.Node.ReceiveMessage | src/structures/node.rs:446-474 | accepted exactly from a listed neighbour, or from the clause table while processing, and, for a node awaiting a fork with no message yet, only a Fork; the first message of a cycle is kept and a later one dropped, and a node awaiting a fork is then receiving it |
| Nodes.Node.TakeFork | src/structures/node.rs:325-332 | the fork's table and variable are taken over, the node is branching from clause 0 with its flag set, and the clause table is asked to set the variable true |
| Nodes.Node.ClockUpdate | src/structures/node.rs:312-339 | the pending message is consumed and the node acts on its state: branching forks to the first free neighbour or branches speculatively, a received fork is taken, a processing node applies its mask, a waiting node does nothing; any other pairing fails |
| Nodes.UnsatUnreachable | src/structures/node.rs:367-414 | a mask that gets past `check_tautology` has a Reset entry, so it is never all False and the UNSAT arm of `process_clause` is never taken |
| Nodes.BacktrackWhileProcessing | src/structures/node.rs:426-440 | `unsat` on a processing node with a speculative branch left always fails, because `init_processing` refuses that state |
| Nodes.BacktrackIntendedResumes | src/structures/node.rs:434-440 | the intended backtrack from a processing node goes through: the latest variable comes off the branch list, a reset-to-true query is sent and the scan restarts at clause 0 with the flag set |
| Nodes.ClockUpdateFlow | src/structures/node.rs:312-339 | a successful step uses up the pending message; a waiting node keeps waiting, a received fork leads to Branching, branching leads to processing (with a free neighbour) or stays, processing stays or branches, and no other node returns to AwaitingFork |
| Nodes.ForkToProcessing | src/structures/node.rs:312-358 | a node awaiting a fork that a neighbour forks is branching on the forked table one cycle later, having asked the clause table to set the variable true, and the cycle after that it forks to its first free neighbour and restarts processing, or records a speculative branch |
| Nodes.NeighborTable | src/structures/node.rs:83-118 | the arena's neighbour lists by position |
| Nodes.NodeArena.FromNodes | src/structures/node.rs:92-98 | the arena holds exactly the given nodes |
| Nodes.NodeArena.AddNeighbor | src/structures/node.rs:104-111 | succeeds exactly when both ids exist; then each endpoint's list gets the other appended and only neighbour lists change |
| Nodes.NodeArena.RemoveNeighbor | src/structures/node.rs:112-118 | succeeds exactly when both ids exist; then every occurrence of each endpoint leaves the other's list and nothing else changes |
| MicrosatClauses.ToVariable | src/structures/microsat.rs:132-135 | `literal.abs()`: defined exactly for literals other than -32768 (whose `abs` overflows), and then the magnitude of the literal, at most 32767 |
| MicrosatClauses.Negate | src/structures/microsat.rs:137-140 | `-literal`: defined exactly for literals other than -32768, and then the literal that adds to it to 0 |
| MicrosatClauses.NegateInvolution | src/structures/microsat.rs:132-140 | negating twice gives the literal back, and a literal and its negation name the same variable |
| MicrosatClauses.Var | src/structures/microsat.rs:132-135 | the variable of a solver literal lies in 1..32767 and is `to_variable` of it |
| MicrosatClauses.Neg | src/structures/microsat.rs:137-140 | the negation of a solver literal is `negate` of it, on the same variable |
| MicrosatClauses.LiteralOf | src/structures/microsat.rs:474-480 | `variable as Literal`, or its negation for value false: its variable is v and it is positive exactly for value true |
| MicrosatClauses.InsertChecked | src/structures/microsat.rs:88-92 | the literals afterwards are the old ones plus l, in the same order and with l added at most once, so a clause without repeats keeps none |
| MicrosatClauses.SwapRemoveBag | src/structures/microsat.rs:126 | `swap_remove(i)` takes exactly the element at i out of the bag of literals |
| MicrosatClauses.FirstIndex | src/structures/microsat.rs:124-125 | the scan of `remove` stops at the first occurrence of the literal |
| MicrosatClauses.DropLit | src/structures/microsat.rs:123-130 | the enabled flag is kept; exactly one literal goes when l is present and none otherwise |
| MicrosatClauses.DropLitBag | src/structures/microsat.rs:123-130 | removing l takes one copy of l out of the bag of literals and nothing else (no change when l is absent) |
| MicrosatClauses.Remove | src/structures/microsat.rs:123-130 | the loop of `Clause::remove` leaves what `DropLit` describes |
| MicrosatClauses.DropLitEmpty | src/structures/microsat.rs:123-130 | a clause that removing l empties was exactly [l] |
| MicrosatClauses.NoDupBag | src/structures/microsat.rs:88-92 | a clause built without repeats holds each literal once |
| MicrosatState.Entries | src/structures/microsat.rs:438 | one `RemoveLiteralFromClause` action per clause the literal left, in order |
| MicrosatState.FlatSnoc | src/structures/microsat.rs:432-452 | the log of one more group is the old log followed by that group's actions |
| MicrosatState.FlatLast | src/structures/microsat.rs:652-690 | the newest action of the log tells which group is newest: `RemoveClause` for a removal, `RemoveLiteralFromClausesEnd` for a literal group, and the variable action for an assignment |
| MicrosatState.Trues | src/structures/microsat.rs:193 | the count of enabled clauses, never more than the clauses |
| MicrosatState.TruesUpdate | src/structures/microsat.rs:362-380 | disabling or enabling one clause changes the count of enabled clauses by exactly one |
| MicrosatState.TruesNone | src/structures/microsat.rs:645-647 | the count is 0 exactly when no clause is enabled |
| MicrosatState.TruesAll | src/structures/microsat.rs:623-625 | the count is the number of clauses exactly when every clause is enabled |
| MicrosatState.SomesUpdate | src/structures/microsat.rs:497-503 | setting or clearing one variable changes the number of assigned variables by at most one |
| MicrosatState.RestoreStripped | src/structures/microsat.rs:364-385 | putting a clause back under each of its literals undoes taking it out |
| MicrosatState.PushBlock | src/structures/microsat.rs:650-692 | pushing a group whose undoing gives the previous state keeps the log replayable: undoing the groups from any point gives back the state saved there |
| MicrosatState.PopBlock | src/structures/microsat.rs:650-692 | undoing the newest group gives exactly the state saved before it, and the rest of the log stays replayable |
| MicrosatState.LastSpec | src/structures/microsat.rs:683-686 | where `backtrack` stops: the newest SpeculateVariable group, with no speculation after it, or 0 when there is none |
| MicrosatState.PopFacts | src/structures/microsat.rs:650-692 | undoing the newest group keeps the index sound and what the log says about removed clauses, assigned variables and literal groups |
| MicrosatState.AssignedLive | src/structures/microsat.rs:474-495 | after an assignment with no conflict, every enabled clause holds only unassigned literals |
| MicrosatState.AssignedChecks | src/structures/microsat.rs:474-495 | after an assignment with no conflict, an unassigned literal lists only enabled clauses that contain it (the first `debug_assert` of `checks`) |
| MicrosatState.GoodAfterAssign | src/structures/microsat.rs:474-495 | an assignment that leaves no clause empty keeps the solver invariant: no empty clause, no repeated literal, variables in range, enabled clauses without assigned literals, and the index condition of `checks` |
| MicrosatState.AssignedShape | src/structures/microsat.rs:474-495 | the numbers of clauses and variables and the non-emptiness of every clause survive the assignment |
| MicrosatState.AssignedSingles | src/structures/microsat.rs:474-495 | every literal still occurs once in its clause and names an existing variable |
| MicrosatExpr.MaxVar | src/structures/microsat.rs:589-593 | the largest variable of the clause's literals (0 for none): it bounds every literal and one literal has it |
| MicrosatExpr.Grown | src/structures/microsat.rs:590-593 | `extend(vec![None; excess])`: the assignment keeps its values and grows with None entries to the given length, never shrinking |
| MicrosatExpr.GrownTwice | src/structures/microsat.rs:589-593 | growing to m then to n is growing to the larger of the two |
| MicrosatExpr.RegisterOneMeaning | src/structures/microsat.rs:597-607 | one literal registers both itself and its negation as keys, and the clause id is added only under the literal itself |
| MicrosatExpr.RegisteredMeaning | src/structures/microsat.rs:589-611 | after the literal loop of `add_clause` the keys are the old ones, the clause's literals and their negations, and the clause id is listed exactly under the clause's literals |
| MicrosatExpr.AddedListed | src/structures/microsat.rs:586-626 | `add_clause` keeps every index entry pointing at a clause that contains its literal |
| MicrosatExpr.AddedFresh | src/structures/microsat.rs:586-626 | `add_clause` keeps a freshly built expression's shape: every clause enabled and indexed exactly under its literals, nothing assigned |
| MicrosatExpr.AddedBuilding | src/structures/microsat.rs:586-626 | `add_clause` of fewer than 65535 clauses keeps an expression under construction well formed, with the one-literal clauses on the heap and the active count equal to the clause count (the closing `debug_assert`) |
| MicrosatExpr.BuildingInvariant | src/structures/microsat.rs:392-423 | an expression under construction satisfies the solver invariant with an empty log: the active count is the number of enabled clauses and the heap holds enabled unit clauses |
| MicrosatExpr.Register | src/structures/microsat.rs:589-611 | the loop over the clause's literals grows the assignment to the largest variable and registers the literals as `RegisteredMeaning` states |
| MicrosatOps.Strip | src/structures/microsat.rs:364-368 | the loop of `remove_clause` over the clause's literals takes the clause id out of each literal's set and nothing else |
| MicrosatOps.Restore | src/structures/microsat.rs:381-385 | the loop of `enable_clause` puts the clause id back into each of its literals' sets and nothing else |
| MicrosatOps.ClauseKeys | src/structures/microsat.rs:366 | in a sound index every literal of a clause is a key, so the `unwrap` cannot fail |
| MicrosatOps.RemoveClause | src/structures/microsat.rs:357-372 | `remove_clause(c)` leaves the fields `Removed` describes: c disabled, out of its literals' sets and out of the heap, the active count one lower and `RemoveClause(c)` logged |
| MicrosatOps.RemovedFrame | src/structures/microsat.rs:357-372 | removing an enabled clause keeps the active count equal to the number of enabled clauses (so it never underflows) and is `Disable` on the snapshot |
| MicrosatOps.RemovedUnits | src/structures/microsat.rs:370 | after `retain` the heap still holds only enabled one-literal clauses |
| MicrosatOps.RemovedInvariant | src/structures/microsat.rs:357-372 | removing an enabled clause keeps the solver invariant with the removal logged on top of the state before it |
| MicrosatOps.EnableClause | src/structures/microsat.rs:375-390 | `enable_clause(c)` leaves the fields `Enabled` describes: c enabled, back in its literals' sets, the active count one higher and the heap untouched |
| MicrosatOps.EnabledFrame | src/structures/microsat.rs:375-390 | re-enabling a disabled clause keeps the active count right (it stays below the clause count, so no overflow) and undoes a removal on the snapshot |
| MicrosatOps.EnabledInvariant | src/structures/microsat.rs:650-655 | when the newest group is the removal of c, the newest action is `RemoveClause(c)`, and enabling c and popping it gives back the saved state with the invariant for the shorter log |
| MicrosatOps.Dropped | src/structures/microsat.rs:435-437 | `clause.remove(literal)` on each listed clause keeps the number of clauses |
| MicrosatOps.DroppedAt | src/structures/microsat.rs:435-437 | a clause the scan visited has lost one copy of the literal; the others are unchanged |
| MicrosatOps.ScanClauses | src/structures/microsat.rs:434-451 | the loop over the literal's clauses: without a conflict every listed clause has lost the literal, each visited once, each logged, and those left with one literal are on the heap; with a conflict it stops at a listed clause that removing the literal would empty, leaving it unvisited |
| MicrosatOps.ScanOne | src/structures/microsat.rs:435-450 | one turn of the loop over the literal's clauses: one id leaves the set still to visit; a clause the removal would empty keeps the literal, is not logged and is returned; otherwise the literal leaves it, the removal is logged, and a clause left with one literal goes on the heap |
| MicrosatOps.RemoveLiteral | src/structures/microsat.rs:425-456 | `remove_literal_from_clauses(l)`: an unknown literal changes nothing; otherwise the log gets the start, one entry per clause and the end; on a conflict the emptied clause gets the literal back, its entry is not logged and its id is returned |
| MicrosatOps.DroppedFlags | src/structures/microsat.rs:434-451 | removing a literal never enables or disables a clause |
| MicrosatOps.DroppedBags | src/structures/microsat.rs:434-451 | each visited clause loses exactly one copy of the literal |
| MicrosatOps.UndoDropped | src/structures/microsat.rs:661-676 | putting the literal back into the visited clauses, newest first, gives back the clauses and index from before the removal |
| MicrosatOps.ScannedInvariant | src/structures/microsat.rs:425-456 | a complete literal removal keeps the solver invariant with its group logged on top of the state before it |
| MicrosatOps.ScannedRemoved | src/structures/microsat.rs:425-456 | after a complete removal the literal is gone from every clause the index lists under it, and no clause is empty |
| MicrosatOps.RemovedAll | src/structures/microsat.rs:469-471 | `remove_clause` of each id in turn: the same number of clauses and the active count lower by the number of ids |
| MicrosatOps.RemoveClauses | src/structures/microsat.rs:458-472 | `remove_clauses_with_literal(l)` removes, once each, exactly the clauses listed under l (none for an unknown literal) |
| MicrosatOps.DisabledRemoved | src/structures/microsat.rs:458-472 | on the snapshot, removing the clauses listed under l disables exactly them and takes them out of the index |
| MicrosatOps.RemovedAllInvariant | src/structures/microsat.rs:458-472 | removing distinct enabled clauses one by one keeps the solver invariant and the heap condition, one removal group per clause |
| MicrosatOps.SetInvariant | src/structures/microsat.rs:476-479 | setting an unassigned variable and logging its action keeps the invariant, the assignment undoable |
| MicrosatOps.ListedFree | src/structures/microsat.rs:392-423 | by the index condition of `checks`, a clause listed under a literal of an unassigned variable is enabled and holds that literal |
| MicrosatOps.NoFalseClause | src/structures/microsat.rs:440-450 | when the scan finds no conflict, no enabled clause consists of the removed literal alone |
| MicrosatOps.ScannedUnits | src/structures/microsat.rs:446-448 | after the scan the heap holds only enabled one-literal clauses |
| MicrosatOps.NothingRemoved | src/structures/microsat.rs:426-429 | a literal that is not a key is removed from no clause |
| MicrosatOps.TrueClausesEnabled | src/structures/microsat.rs:474-492 | the clauses of the now true literal are still enabled when `remove_clauses_with_literal` runs |
| MicrosatOps.ConflictOutcome | src/structures/microsat.rs:485-487 | on a conflict `assign_variable` returns an enabled clause that is the negated literal alone, with the variable's group and the literal group logged |
| MicrosatOps.ScanOutcome | src/structures/microsat.rs:485-492 | without a conflict the negated literal has left every clause and none is empty |
| MicrosatOps.SetAndScan | src/structures/microsat.rs:474-487 | the first half of `assign_variable`: the variable set, its action logged and the negated literal removed, with the facts `ConflictOutcome` and `ScanOutcome` state |
| MicrosatOps.AssignVariable | src/structures/microsat.rs:474-495 | `assign_variable(v, value, spec)` keeps the solver invariant with its groups pushed on the log; it returns a clause exactly when some enabled clause is the now false literal alone (that clause), and otherwise performs the assignment step `GoodAfterAssign` is about |
| MicrosatOps.PoppedInvariant | src/structures/microsat.rs:650-692 | a state whose snapshot is the undone newest group is the saved state, with the invariant for the shorter log |
| MicrosatOps.UnsetInvariant | src/structures/microsat.rs:678-686 | when the newest group is a variable, that variable is assigned, and clearing it and popping its action gives back the saved state |
| MicrosatOps.PutBack | src/structures/microsat.rs:657-676 | the inner loop of `backtrack` pops the literal entries back to the start marker and re-inserts the literal into each clause and each clause into the literal's set, newest first |
| MicrosatOps.LiteralLog | src/structures/microsat.rs:657-676 | when the newest group is a literal group, the log ends with its end marker, preceded by its entries and its start marker, so the inner loop never panics |
| MicrosatOps.UndoLiteral | src/structures/microsat.rs:657-676 | undoing a literal group gives back the state saved before it |
| MicrosatOps.NewestGroup | src/structures/microsat.rs:652-690 | the newest action tells the newest group, so the `unreachable!` arm is never taken |
| MicrosatOps.UndoRemoval | src/structures/microsat.rs:656 | undoing a removal group gives back the state saved before it |
| MicrosatOps.UndoVariable | src/structures/microsat.rs:678-686 | undoing a variable group gives back the state saved before it |
| MicrosatOps.PopGroup | src/structures/microsat.rs:652-690 | one pass of the outer loop of `backtrack` undoes exactly the newest group and reports whether it was an AssignVariable or a SpeculateVariable |
| MicrosatOps.ProgressEnd | src/structures/microsat.rs:652-690 | the loop stops exactly after the newest speculation, or at the start of the log when there is none |
| MicrosatOps.Backtrack | src/structures/microsat.rs:650-692 | `backtrack` undoes exactly the groups from the newest speculation on (everything when there is none), restoring the state saved before it, clears the heap and returns the number of AssignVariable actions undone, mod 2^16 |
| MicrosatOps.UndoGroup | src/structures/microsat.rs:654-688 | one turn of `backtrack`'s loop undoes exactly the newest group left, reaching the state saved before it, counts it when it was an AssignVariable, and ends the loop when it was a SpeculateVariable |
| MicrosatOps.UndoGroups | src/structures/microsat.rs:653-689 | the `while let` loop stops after undoing the newest speculation or at an empty log, with no speculation among the groups it undid before that and the count of AssignVariable groups among them |
| MicrosatSolve.ClauseSatisfiedMeaning | src/structures/microsat.rs:540-551 | the inner loop of `is_satisfied_by` accepts a clause exactly when one of its literals has its variable assigned that literal's polarity |
| MicrosatSolve.ExplainedSat | src/structures/microsat.rs:645-647 | when the current state accounts for the original clauses and no clause is enabled, the current assignments satisfy every original clause, so a SAT report is right |
| MicrosatSolve.PopUnitClause | src/structures/microsat.rs:628-633 | `pop_unit_clause` returns nothing exactly when the heap is empty, and otherwise removes and returns the largest id on it (the `BinaryHeap` is a max-heap), leaving the rest unchanged |
| MicrosatSolve.RemoveUnitClause | src/structures/microsat.rs:634-638 | `remove_unit_clause(id)` assigns the clause's one literal true as an AssignVariable group, keeping the solver invariant, and without a conflict performs the assignment step that keeps the unit heap condition |
| MicrosatSolve.SatisfiedMeaning | src/structures/microsat.rs:645-647 | `is_satisfied` (no active clauses) holds exactly when no clause is enabled |
| MicrosatSolve.FirstUnassigned | src/structures/microsat.rs:696 | finds an index exactly when some variable is unassigned, and it is the lowest such index |
| MicrosatSolve.GetBranchVariable | src/structures/microsat.rs:694-703 | `get_branch_variable` under FirstVariable picks the lowest unassigned variable (1-based) with the value false, and gives nothing for the other heuristics (which panic in the source) or when all are assigned |
| MicrosatSolve.UnsatisfiedFree | src/structures/microsat.rs:214 | while a clause is still enabled after propagation some variable is unassigned, the `debug_assert` before branching |
| MicrosatSolve.PropagateUnit | src/structures/microsat.rs:197-203 | one pass of the unit loop keeps the invariant and the place to backtrack to, returns a conflict clause id below 2^16-1, and without a conflict assigns at least one more variable |
| MicrosatSolve.Propagate | src/structures/microsat.rs:196-204 | the unit loop of `solve_dpll` keeps the solver invariant and the place `backtrack` returns to; without a conflict it leaves an empty heap, no empty enabled clause and a state that still accounts for the original clauses |
| MicrosatSolve.NextUnit | src/structures/microsat.rs:196 | the `pop_unit_clause` of the `while let`: taking an id off the heap keeps the solver invariant and the assignment, and the id it yields is an enabled one-literal clause |
| MicrosatSolve.UnsatLeaf | src/structures/microsat.rs:199-203 | a conflict `backtrack`s to the state saved before the newest speculation and logs one UNSAT leaf |
| MicrosatSolve.SatisfiedModel | src/structures/microsat.rs:206-212 | when `is_satisfied` holds, the current assignments satisfy the original clauses |
| MicrosatSolve.SatLeaf | src/structures/microsat.rs:206-212 | a satisfied expression `backtrack`s and logs one SAT leaf that comes with a model of the original clauses |
| MicrosatSolve.CloseBranch | src/structures/microsat.rs:230-258 | `backtrack` and overwrite the placeholder with a branch entry whose right child is the given index (mod 2^32), keeping the log otherwise and its SAT model |
| MicrosatSolve.SolveDpll | src/structures/microsat.rs:190-262 | `solve_dpll` leaves the expression in the state saved before the caller's newest speculation (or the first saved state) with an empty heap; the log keeps its old entries and grows, ending with a leaf; a SAT leaf at its end comes with an assignment satisfying the original clauses |
| MicrosatSolve.BranchOn | src/structures/microsat.rs:216-258 | the branching half of `solve_dpll`: a placeholder, the left branch, the right branch when the left found no SAT, and the branch entry, with the same result as `SolveDpll` |
| MicrosatSolve.TryBranch | src/structures/microsat.rs:223-251 | one branch value: a conflict logs an UNSAT leaf, otherwise the recursive call; either way the expression is back where it was, and a SAT leaf at the end means the recursive call found it |
| Microsat.Lists | src/structures/microsat.rs:289-295 | the literal lists of the clauses, one per clause in order (what `clone` re-adds) |
| Microsat.NewClauses | src/structures/microsat.rs:80-85 | fresh enabled clauses over the given literal lists, one per list in order |
| Microsat.AddedAllClauses | src/structures/microsat.rs:586-626 | adding lists one by one with `add_clause` appends exactly one enabled clause per list, raises the active count by their number and logs nothing |
| Microsat.AddedAllBuilding | src/structures/microsat.rs:586-626 | adding lists keeps the condition of an expression being built (index, unit heap, counts and assignment length agree with the clauses) while the u16 clause id does not overflow |
| Microsat.AddedAllCovered | src/structures/microsat.rs:598-605 | adding lists keeps every variable of a clause inside the assignment and both polarities of each literal as keys |
| Microsat.ReadyToSolve | src/structures/microsat.rs:190-194 | a built expression whose clauses have no empty one and repeat no literal meets what `solve_dpll` needs: the solver invariant on an empty log, the unit heap condition and a state that accounts for its own clauses |
| Microsat.NonEmpty | src/structures/microsat.rs:506 | `retain(!is_empty)`: the lists that are not empty, the same ones as before when none was empty |
| Microsat.Kept | src/structures/microsat.rs:505-535 | what the corrected `optimize` keeps of the expression before rebuilding: the assignments and the longest clause length, with no clauses, no log and an empty index and heap |
| Microsat.OptimizedAsWritten | src/structures/microsat.rs:505-535 | `optimize` as written: the clauses become the non-empty ones and the log is emptied, but the index and the unit heap are kept as they were |
| Microsat.OptimizeKeepsStaleIds | src/structures/microsat.rs:505-507 | on "p cnf 1 2", "0", "1 0" the as-written `optimize` leaves one clause while the heap and the index still name the removed id 1, so the unit heap condition fails |
| Microsat.AddedAllWidened | src/structures/microsat.rs:586-626 | adding clauses from an expression whose assignment reaches further, or whose longest length is larger, gives the same result widened the same way |
| Microsat.AsWrittenKeeps | src/structures/microsat.rs:505-535 | on an expression being built with no empty clause, `optimize` as written changes nothing |
| Microsat.RebuiltKeeps | src/structures/microsat.rs:505-535 | re-adding the clauses of such an expression from the fields the intended `optimize` keeps gives the expression back |
| Microsat.OptimizeAgrees | src/structures/microsat.rs:505-535 | for every formula built by `add_clause` from fewer than 65536 non-empty clauses, the as-written and the intended `optimize` give the same fields, so `Prepare` and `Solve` hold of the source's own `solve` on every such formula |
| Microsat.Expression.Store | src/structures/microsat.rs:273-287 | replacing the fields leaves exactly the given fields, with the heuristic and the ghost log unchanged |
| Microsat.Expression.constructor | src/structures/microsat.rs:301-313 | `Expression::new()` is the empty expression with the heuristic FirstVariable |
| Microsat.Expression.AddClause | src/structures/microsat.rs:586-626 | `add_clause` grows the assignment to the clause's variables, indexes each literal and its negation, queues a one-literal clause and appends the clause, described by `Added`; at 65535 clauses the u16 count would overflow (a debug panic) and the call is refused |
| Microsat.Expression.SetHeuristic | src/structures/microsat.rs:333-335 | `set_heuristic(h)` sets the heuristic to h and changes nothing else |
| Microsat.Expression.Clone | src/structures/microsat.rs:289-298 | `clone()` is a fresh expression built by adding the clauses' literal lists to `new()`: the same clauses, a log-free state and the heuristic FirstVariable |
| Microsat.Expression.Optimize | src/structures/microsat.rs:505-535 | `optimize` as evidently intended: the expression is rebuilt by `add_clause` from the non-empty clause lists, in order, on the kept assignments, so index and heap name only kept clauses |
| Microsat.Expression.AddAll | src/structures/microsat.rs:316-320 | the loop of `from_clauses`: each list added in order, described by `AddedAll` |
| Microsat.Expression.FromClauses | src/structures/microsat.rs:315-322 | `from_clauses(ls)` succeeds exactly when the u16 clause count does not overflow, and then holds `AddedAll(new(), ls)` |
| Microsat.Expression.IsSatisfiedBy | src/structures/microsat.rs:537-556 | `is_satisfied_by(a)` (and `verify_assignment`) as evidently intended: true exactly when every clause holds a literal the argument makes true |
| Microsat.Expression.IsSatisfiedByAsWritten | src/structures/microsat.rs:537-564 | `is_satisfied_by(a)` as written: true exactly when every clause holds a literal the expression's own assignment makes true, whatever the argument |
| Microsat.IsSatisfiedByIgnoresArgument | src/structures/microsat.rs:541-543 | for the clause [1] with variable 1 unassigned in the expression, the argument [Some(true)] satisfies the clauses but the expression's own assignment does not, so the as-written answer differs from the intended one |
| Microsat.Satisfies | src/structures/microsat.rs:538-555 | the two loops of `is_satisfied_by`: true exactly when every clause has a literal whose variable is assigned its polarity |
| Microsat.Expression.SolveDpll | src/structures/microsat.rs:190-262 | `solve_dpll` on the expression from the top: the log keeps its entries and grows, a SAT leaf at its end comes with a model of the clauses, and the expression ends back in its starting state with an empty heap |
| Microsat.OptimizedReady | src/structures/microsat.rs:505-535 | the corrected `optimize` leaves an expression being built with no empty clause and no repeated literal, whose lists are the non-empty ones of before in order |
| Microsat.OptimizedSolvable | src/structures/microsat.rs:714-721 | the corrected optimized copy meets everything `solve_dpll` needs, on the non-empty clauses |
| Microsat.Prepare | src/structures/microsat.rs:715-719 | clone, corrected `optimize` and `set_heuristic(FirstVariable)` give a fresh expression ready for the search whose clauses are the non-empty ones of the original |
| Microsat.Solve | src/structures/microsat.rs:714-722 | `solve` (with the corrected `optimize`) extends the log ending with a leaf, and a SAT leaf at its end comes with an assignment satisfying every non-empty clause of the expression; by `Microsat.OptimizeAgrees` this covers the code as written on every formula without an empty clause |
| Microsat.SolvedAgainst | src/structures/microsat.rs:714-722 | satisfying the non-empty clauses is satisfying each clause that is not empty; a formula with an empty clause has no model at all |
| Microsat.EmptyClauseDropped | src/structures/microsat.rs:506 | on "p cnf 1 1", "0" the formula has no model, while the clauses `solve` searches are none and every assignment satisfies them, so SAT is reported |
| Microsat.ClauseOf | src/structures/microsat.rs:174-181 | the clause loop of `parse_dimacs`: a parsed clause keeps the literals it started with and gains no duplicate through `insert_checked` |
| Microsat.ParsedLine | src/structures/microsat.rs:156-184 | one line of `parse_dimacs` (comment, p line or clause) keeps the expression being built and its clauses free of repeated literals |
| Microsat.Dimacs | src/structures/microsat.rs:156-186 | reading all lines keeps the expression being built and its clauses free of repeated literals, or panics (None) |
| Microsat.ParseDimacs | src/structures/microsat.rs:149-187 | `parse_dimacs` on the file's text succeeds exactly when no line panics, and then gives a built expression whose clauses repeat no literal, so `Solve`'s requirement holds |
| Microsat.ParseLine | src/structures/microsat.rs:156-184 | one pass of the line loop changes the expression exactly as `ParsedLine` says, and fails exactly when it panics |
| Microsat.ParseClause | src/structures/microsat.rs:173-181 | the literal loop on a clause line, from `Clause::new()`, is `ClauseOf` |

## Left out

- RunEventLoop (`Network.Network.RunEventLoop`): runs at most `fuel` rounds and reports `exhausted` when that bound stops it. The source loop has no bound and need not stop, so a run longer than `fuel` rounds is not modelled.
- RunEventLoop (`Network.Network.RunEventLoop`): keeps the max-heap order of the source, popping the latest local time first. `Network.PopMin` states the earliest-first order the doc comment describes, and the loop does not use it (see Findings).
- DivUp (`Traces.DivUp`): `requires b > 0`. The source panics on a division by zero, and that input is excluded rather than modelled.
- Propagate (`Traces.Propagate`): `requires cfg.clausePerEval > 0` for the same reason: `div_up` by zero panics in the source.
- FloorSqrt (`Testing.FloorSqrt`): an integer floor square root stands in for `(n as f64).sqrt() as usize`. The two agree wherever the f64 root is exact; f64 rounding for very large n is not modelled.
- PyInt (`Text.PyInt`): Python's `int()` on a token is modelled for ASCII digits with an optional sign. Surrounding whitespace, `_` separators and non-ASCII digits are not accepted.
- Pattern.InClass: the `\d` class is the ASCII digits, where Python's `\d` on a `str` matches every Unicode decimal digit and `int()` accepts them too. MiniSat's report is ASCII, so no parsed result differs.
- Text.LowerAscii: lower-cases ASCII letters only and keeps the length, where Rust's `to_lowercase` (src/structures/clause_table.rs:82) is Unicode-aware and can change the length ('İ' becomes two characters). No non-ASCII character lower-cases into "unsat", so the "SAT expected" answer is the same.
- ReadLines (`Text.ReadLines`): `readlines()` splits on "\n" only. Python's universal newlines ("\r" and "\r\n") are not modelled. `Text.RustLines` strips "\n" and "\r\n", as Rust's `lines()` does.
- Integer widths: i16 literals, u16 clause ids and counts, u8 variables and u32 trace fields are bounds in the model. A debug-mode overflow panic becomes `None` or `false`.
- MicrosatOps.Backtrack: the count of undone propagations wraps at 2^16 (`% 0x10000`). A debug build would panic on that overflow instead, and that panic is not modelled.
- HashMap and HashSet iteration order: maps and sets stand in for them. Where the order matters (the masks of `clock_update`, the keys of `recover_model`), a ghost `order` names some enumeration of the keys, and every result is proved for any such order.
- Randomness: `random.choice`, `random.sample`, `random.random` and `rand::random` read an injected stream of draws.
- Graphs: graph.rs uses an older Node API than node.rs. It is modelled by a neighbour list and per-sender message slots.
- Graphs.Graph.CreateNode: the u32 `next_node_id` is a `nat`, so its overflow after 2^32 nodes is not modelled.
- `println!`, `DEBUG_PRINT` output and Python `print` diagnostics: they have no effect on state.
- Solve (`Microsat.Solve`) and Prepare (`Microsat.Prepare`): `requires` that no clause repeats a literal.
  - `parse_dimacs` guarantees this through `insert_checked` (`Microsat.ParseDimacs` ensures it).
  - A clause built with `Clause::insert` (src/structures/microsat.rs:95-97) and passed to `from_clauses` may repeat a literal. That input is not covered.
- Microsat internal operations (`MicrosatOps`, `MicrosatSolve`): they take and return the expression's fields as a `Fields` value rather than updating the object in place. `Microsat.Expression` stores the result back. Aliasing between the fields is therefore not modelled, and the source has none.
- MicrosatSolve.SolveDpll: only the FirstVariable heuristic is modelled. `get_branch_variable` calls `unimplemented!`/`unreachable!` for the other heuristics, and `GetBranchVariable` returns None for them.
- MicrosatSolve.SolveDpll: it proves that a reported SAT comes with a model. It does not prove that an UNSAT result is right, that is, that the search is complete.
- Microsat.Expression.Clone: `requires Built()`, that is, only an expression that is being built and has no log yet is cloned. `solve` clones exactly such an expression.
- Microsat.Satisfies: a literal whose variable lies beyond the assignment counts as false. The source's `get_unchecked` reads out of bounds there.
- Microsat.ParseDimacs: it takes the file's text. `read_to_string` and its `unwrap` are not modelled.
- Microsat.ClauseOf: the literal -32768 is treated as a panic, since `add_clause` would overflow on its absolute value.
- Microsat.Dimacs: a `p` line after some clauses resets `assignments` to the header size, as the source does, which can shrink it below the clauses' variables. Only `Prepare`'s clone, which rebuilds the assignments, is proved ready to solve.
- Microsat.Expression.Optimize: models `optimize` as evidently intended, rebuilding the index and unit heap. `Microsat.OptimizedAsWritten` is the code as written (see Findings). The two give the same fields on every formula without an empty clause (`Microsat.OptimizeAgrees`).
- Microsat.Expression.IsSatisfiedBy: models `is_satisfied_by` as evidently intended, reading the argument. `IsSatisfiedByAsWritten` is the code as written (see Findings).
- microsat.rs `main`, `build_trace_path` and the benchmark tests: they use hard-coded paths, timing and trace files.
- clause_table.rs `clone_table`: a plain copy of the table.
- satswarm.rs `clock_update` and `test_satisfiability`: the first has a syntax error (src/structures/satswarm.rs:86), the second is `todo!()`, and both need a global clock.
- satswarm.rs `send_message` Neighbor arm: it calls node methods that node.rs does not define.
- satswarm.rs `invariants` and the printing of the model: no effect on state.
- network.rs `create_fork`, `retry` and `receive_fork`: `create_fork` is incomplete, and the node operations are not in network.rs. They are parameters of `run_event_loop`.
- network.rs `test_satisfiability` and `recover_model`: they rely on node methods that are not shown.
- node.rs `SatSwarm` struct and its `Arena` fields beyond the neighbour tables. satswarm.rs is the version modelled.
- Nodes.Node.Unsat: it keeps the as-written `backtrack`, which panics. The path is dead (`Nodes.UnsatUnreachable`), so the corrected `BacktrackIntended` is stated but not wired in.
- minisat_eval.py `main`: its directory checks and CSV writing. minisat_tester.py: `glob`, `subprocess` and CSV writing. The solver's exit code and stdout and the file list are parameters.
- MinisatTester.InfoDecimal: a `float()` field is kept as its decimal text, since floating point is not modelled. `float()` raises ValueError on a matched group that is not a float literal, such as "." or "1.2.3" (unsat_generator/minisat_tester.py:50, 52, 72 and 74); the model records the text instead. MiniSat never prints such a figure.
- MinisatTester.InfoNone: a non-empty report always gives a record, including one whose time or memory group is not a float literal, where the source's `float()` raises ValueError and `main` stops.
- MinisatTester.ExtractMinisatInfo: returns a record where the source's `float()` would raise ValueError on a malformed time or memory group, as for InfoNone. RowOf, Rows, ProcessFiles and ProcessFormulas inherit this: the model writes a row where the source stops.
- MinisatEval.ParseMinisatOutput: the CPU time is kept as its text. `float()` raises ValueError on a group such as "." or "1.2.3" (minisat_eval/minisat_eval.py:16), and the model returns a record there. RunRecord and ProcessDirectory inherit this. MiniSat never prints such a figure.
- trace.rs `save_log`, `load_log`, `test_traces` and `run`. The first two are bincode file I/O. `run` calls `Expression` methods that microsat.rs does not define (`num_vars`, `follow_trail`, `dpll`). node retirement is part of `run`.
- main.rs, minisat.rs and mem_message.rs: CLI parsing, an external MiniSat binding and a bare `u8` wrapper.
- testing.rs `run_workload`, `log_test`, `config_name` and `get_test_files`: filesystem, wall clock and process exit.

## Findings

| source | as written | input that shows it | evidently intended | confidence | as-written member | corrected member |
|---|---|---|---|---|---|---|
| src/structures/microsat.rs:505-507 | `optimize` drops empty clauses with `retain`, which shifts the clause ids, but it keeps `literal_to_clause` and `unit_clauses` unchanged, so they name the old ids | "p cnf 1 2", "0", "1 0": clause 1 ([1]) moves to id 0, while the heap and `literal_to_clause[1]` still hold id 1. `pop_unit_clause` then yields 1, past the end of the clauses | rebuild the index and unit heap over the kept clauses, as `add_clause` would | not executed | Microsat.OptimizedAsWritten, Microsat.OptimizeKeepsStaleIds | Microsat.Expression.Optimize, Microsat.OptimizedReady, Microsat.OptimizedSolvable |
| src/structures/microsat.rs:537-543,559-564 | `is_satisfied_by(assignment)` looks each variable up with `self.get_variable`, in the expression's own assignments, and never reads its argument | clause [1], with variable 1 unassigned in the expression and `assignment = [Some(true)]`: it answers false | test the clauses under the argument | not executed | Microsat.Expression.IsSatisfiedByAsWritten, Microsat.IsSatisfiedByIgnoresArgument | Microsat.Expression.IsSatisfiedBy |
| src/structures/network.rs:151,161-169 | the doc comment says nodes are processed in order of earliest local time, but `BinaryHeap` of `(time, id)` is a max-heap, so `pop` takes the latest | heap entries (0, 0) and (5, 1): `pop` returns (5, 1) | pop the entry with the smallest time (a `Reverse` wrapper) | not executed | Network.PopMax, Network.LatestNotEarliest | Network.PopMin |
| src/structures/node.rs:434-440,360-361 | `unsat` calls `backtrack` on a node in ProcessingClauses, and `backtrack` calls `init_processing`, whose `assert!` accepts only RecievingFork or Branching, so it always panics. This is latent: the only caller is the dead UNSAT arm (`Nodes.UnsatUnreachable`) | a direct call of `unsat` on a ProcessingClauses node that still has a speculative branch. No path in node.rs makes that call: the only caller is the UNSAT arm of `process_clause`, which an all-False mask never reaches because `check_tautology` holds for it, so the defect is latent | restart processing from clause 0 after popping the branch | not executed | Nodes.Node.Backtrack, Nodes.BacktrackWhileProcessing | Nodes.Node.BacktrackIntended, Nodes.BacktrackIntendedResumes |
