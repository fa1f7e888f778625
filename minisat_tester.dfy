/** The MiniSat benchmark driver of unsat_generator/minisat_tester.py: the
    exit-code policy, the statistics extracted from MiniSat's report, the
    DIMACS sanity check and the per-file loop that builds the result rows.
    Running MiniSat and reading files are parameters. */
module MinisatTester {
  import opened Text
  import opened Pattern

  /** A value stored in a result record: an `int()`, the decimal text that
      `float()` would convert, or a string. */
  datatype Value = IntV(i: int) | FloatText(text: string) | StrV(s: string)

  /** The statistics MiniSat reports, in the order the source searches for
      them. */
  datatype Stat =
    | NumVars | NumClauses | ParseTime | SimplificationTime
    | Conflicts | Decisions | Propagations | ConflictLiterals | MemoryUsed | CpuTime

  /** The keys of a result record. */
  datatype Key = StatKey(stat: Stat) | ResultKey | FormulaFileKey

  /** The record, keyed as the Python dict is (see KeyName). */
  type Info = map<Key, Value>

  /** The dictionary key the source uses for each record key. */
  function KeyName(k: Key): string {
    match k
    case StatKey(NumVars) => "num_vars"
    case StatKey(NumClauses) => "num_clauses"
    case StatKey(ParseTime) => "parse_time"
    case StatKey(SimplificationTime) => "simplification_time"
    case StatKey(Conflicts) => "conflicts"
    case StatKey(Decisions) => "decisions"
    case StatKey(Propagations) => "propagations"
    case StatKey(ConflictLiterals) => "conflict_literals"
    case StatKey(MemoryUsed) => "memory_used_mb"
    case StatKey(CpuTime) => "cpu_time"
    case ResultKey => "result"
    case FormulaFileKey => "formula_file"
  }

  const AllStats: set<Stat> :=
    {NumVars, NumClauses, ParseTime, SimplificationTime,
     Conflicts, Decisions, Propagations, ConflictLiterals, MemoryUsed, CpuTime}

  lemma AllStatsComplete(s: Stat)
    ensures s in AllStats
  {
  }

  /** `run_minisat` after the process has exited: `check=True` turns every
      non-zero exit code into an exception, of which 20 (UNSAT) still yields
      the captured stdout and 10 (parse error) and all others yield None. */
  function RunMinisat(returncode: int, stdout: string): (r: Option<string>)
    ensures r.Some? <==> returncode == 0 || returncode == 20
    ensures r.Some? ==> r.value == stdout
  {
    if returncode == 0 then Some(stdout)
    else if returncode == 20 then Some(stdout)
    else if returncode == 10 then None
    else None
  }

  /** `name\s+(\d+)` */
  function NameSpaceCount(name: string): Regex {
    [Lit(name), Plus(Space, false), Plus(Digit, true)]
  }

  /** `name\s+([\d.]+)unit`, the unit with its leading space */
  function NameSpaceDecimal(name: string, unit: string): Regex {
    [Lit(name), Plus(Space, false), Plus(DigitOrDot, true), Lit(unit)]
  }

  /** `name\s+:\s+(\d+)` */
  function NameColonCount(name: string): Regex {
    [Lit(name), Plus(Space, false), Lit(":"), Plus(Space, false), Plus(Digit, true)]
  }

  /** `name\s+:\s+([\d.]+)unit`, the unit with its leading space */
  function NameColonDecimal(name: string, unit: string): Regex {
    [Lit(name), Plus(Space, false), Lit(":"), Plus(Space, false), Plus(DigitOrDot, true), Lit(unit)]
  }

  /** The pattern the source searches for each statistic. */
  function PatternOf(s: Stat): Regex {
    match s
    case NumVars => NameSpaceCount("Number of variables:")
    case NumClauses => NameSpaceCount("Number of clauses:")
    case ParseTime => NameSpaceDecimal("Parse time:", " s")
    case SimplificationTime => NameSpaceDecimal("Simplification time:", " s")
    case Conflicts => NameColonCount("conflicts")
    case Decisions => NameColonCount("decisions")
    case Propagations => NameColonCount("propagations")
    case ConflictLiterals => NameColonCount("conflict literals")
    case MemoryUsed => NameColonDecimal("Memory used", " MB")
    case CpuTime => NameColonDecimal("CPU time", " s")
  }

  /** Whether the statistic is converted with `int()` (otherwise `float()`). */
  predicate IsCount(s: Stat) {
    s in {NumVars, NumClauses, Conflicts, Decisions, Propagations, ConflictLiterals}
  }

  /** A table of patterns, one per statistic. */
  type Table = Stat -> Regex

  /** Every pattern has one group, of digits for a count and of digits and
      dots otherwise, and can be matched greedily. */
  predicate TableOk(pats: Table) {
    forall s :: CaptureClasses(pats(s)) == [if IsCount(s) then Digit else DigitOrDot] && Unambiguous(pats(s))
  }

  lemma ShapesOk(name: string, unit: string)
    requires unit != [] && unit[0] == ' '
    ensures CaptureClasses(NameSpaceCount(name)) == [Digit] && Unambiguous(NameSpaceCount(name))
    ensures CaptureClasses(NameColonCount(name)) == [Digit] && Unambiguous(NameColonCount(name))
    ensures CaptureClasses(NameSpaceDecimal(name, unit)) == [DigitOrDot] && Unambiguous(NameSpaceDecimal(name, unit))
    ensures CaptureClasses(NameColonDecimal(name, unit)) == [DigitOrDot] && Unambiguous(NameColonDecimal(name, unit))
  {
    var ws := Plus(Space, false);
    var count: Regex, decimal: Regex := [Plus(Digit, true)], [Plus(DigitOrDot, true), Lit(unit)];
    assert CaptureClasses(count) == [Digit] by { assert count[1..] == []; }
    assert CaptureClasses(decimal) == [DigitOrDot] by {
      assert decimal[1..] == [Lit(unit)] && decimal[1..][1..] == [];
    }
    assert Unambiguous(decimal);
    SpaceThen(count);
    SpaceThen(decimal);
    var colonCount, colonDecimal := [Lit(":")] + ([ws] + count), [Lit(":")] + ([ws] + decimal);
    LitPrefix(":", [ws] + count);
    LitPrefix(":", [ws] + decimal);
    SpaceThen(colonCount);
    SpaceThen(colonDecimal);
    LitPrefix(name, [ws] + count);
    LitPrefix(name, [ws] + decimal);
    LitPrefix(name, [ws] + colonCount);
    LitPrefix(name, [ws] + colonDecimal);
    assert NameSpaceCount(name) == [Lit(name)] + ([ws] + count);
    assert NameSpaceDecimal(name, unit) == [Lit(name)] + ([ws] + decimal);
    assert NameColonCount(name) == [Lit(name)] + ([ws] + colonCount);
    assert NameColonDecimal(name, unit) == [Lit(name)] + ([ws] + colonDecimal);
  }

  lemma PatternOk(s: Stat)
    ensures CaptureClasses(PatternOf(s)) == [if IsCount(s) then Digit else DigitOrDot]
    ensures Unambiguous(PatternOf(s))
  {
    match s
    case NumVars => ShapesOk("Number of variables:", " s");
    case NumClauses => ShapesOk("Number of clauses:", " s");
    case ParseTime => ShapesOk("Parse time:", " s");
    case SimplificationTime => ShapesOk("Simplification time:", " s");
    case Conflicts => ShapesOk("conflicts", " s");
    case Decisions => ShapesOk("decisions", " s");
    case Propagations => ShapesOk("propagations", " s");
    case ConflictLiterals => ShapesOk("conflict literals", " s");
    case MemoryUsed => ShapesOk("Memory used", " MB");
    case CpuTime => ShapesOk("CPU time", " s");
  }

  lemma PatternsOk()
    ensures TableOk(PatternOf)
  {
    forall s ensures CaptureClasses(PatternOf(s)) == [if IsCount(s) then Digit else DigitOrDot] && Unambiguous(PatternOf(s)) {
      PatternOk(s);
    }
  }

  /** The group of the first match of the statistic's pattern. */
  function Captured(out: string, pats: Table, s: Stat): (r: Option<string>)
    requires TableOk(pats)
    ensures r.Some? && IsCount(s) ==> AllDigits(r.value)
  {
    Group1(out, pats(s))
  }

  /** `int(group)` for a count, the decimal text for `float(group)`. */
  function Convert(s: Stat, t: string): Value
    requires IsCount(s) ==> AllDigits(t)
  {
    if IsCount(s) then IntV(DecimalValue(t)) else FloatText(t)
  }

  /** The verdict: "UNSATISFIABLE" wins over "SATISFIABLE". */
  function Verdict(out: string): string {
    if Contains(out, "UNSATISFIABLE") then "UNSAT"
    else if Contains(out, "SATISFIABLE") then "SAT"
    else "UNKNOWN"
  }

  lemma {:induction false} ContainsFromSuffix(s: string, k: nat, p: string)
    requires k <= |s| && Contains(s[k..], p)
    ensures Contains(s, p)
    decreases k
  {
    if k > 0 {
      assert s[k - 1..][1..] == s[k..];
      ContainsFromSuffix(s, k - 1, p);
    } else {
      assert s[0..] == s;
    }
  }

  lemma {:induction false} ContainsSuffixOfPattern(s: string, a: string, b: string)
    requires Contains(s, a + b)
    ensures Contains(s, b)
    decreases |s|
  {
    if StartsWith(s, a + b) {
      var ab := a + b;
      assert s[..|ab|] == ab;
      forall i | 0 <= i < |b| ensures s[|a|..][i] == b[i] {
        assert s[|a| + i] == s[..|ab|][|a| + i] == ab[|a| + i];
      }
      assert s[|a|..][..|b|] == b;
      assert Contains(s[|a|..], b);
      ContainsFromSuffix(s, |a|, b);
    } else {
      ContainsSuffixOfPattern(s[1..], a, b);
      ContainsFromSuffix(s, 1, b);
    }
  }

  /** Which verdict a report gets, by the markers it contains. */
  lemma VerdictCases(out: string)
    ensures Verdict(out) == "UNSAT" <==> Contains(out, "UNSATISFIABLE")
    ensures Verdict(out) == "SAT" <==> Contains(out, "SATISFIABLE") && !Contains(out, "UNSATISFIABLE")
    ensures Verdict(out) == "UNKNOWN" <==> !Contains(out, "SATISFIABLE")
  {
    if Contains(out, "UNSATISFIABLE") {
      assert "UNSATISFIABLE" == "UN" + "SATISFIABLE";
      ContainsSuffixOfPattern(out, "UN", "SATISFIABLE");
    }
  }

  /** The entries of the statistics in `stats` whose pattern matches. */
  function Matched(out: string, pats: Table, stats: set<Stat>): Info
    requires TableOk(pats)
  {
    map s | s in stats && Captured(out, pats, s).Some? :: StatKey(s) := Convert(s, Captured(out, pats, s).value)
  }

  /** The record after `if match: info[key] = convert(match.group(1))`. */
  function Recorded(m: Info, out: string, pats: Table, s: Stat): Info
    requires TableOk(pats)
  {
    var g := Captured(out, pats, s);
    if g.Some? then m[StatKey(s) := Convert(s, g.value)] else m
  }

  lemma MatchedAdd(out: string, pats: Table, stats: set<Stat>, s: Stat)
    requires TableOk(pats)
    ensures Matched(out, pats, stats + {s}) == Recorded(Matched(out, pats, stats), out, pats, s)
  {
  }

  /** The record built from a report with the given patterns. */
  function InfoWith(output: Option<string>, pats: Table): Option<Info>
    requires TableOk(pats)
  {
    if output.None? || output.value == [] then None
    else Some(Matched(output.value, pats, AllStats)[ResultKey := StrV(Verdict(output.value))])
  }

  /** The record `extract_minisat_info` returns: None for missing or empty
      output; otherwise each statistic whose pattern matches, converted, and
      the verdict under "result". */
  function InfoOf(output: Option<string>): Option<Info> {
    PatternsOk();
    InfoWith(output, PatternOf)
  }

  /** `re.search(pattern, out).group(1)` for the statistic's pattern. */
  function SearchGroup(out: string, s: Stat): (r: Option<string>)
    ensures r.Some? ==> r.value != [] && AllIn(if IsCount(s) then Digit else DigitOrDot, r.value)
  {
    PatternOk(s);
    Group1(out, PatternOf(s))
  }

  /** Only a missing or empty report yields no record. */
  lemma InfoNone(output: Option<string>)
    ensures InfoOf(output).None? <==> output.None? || output.value == []
  {
  }

  /** The record's keys are "result" and exactly the statistics whose
      pattern matched: a statistic is never filled in with a default. */
  lemma InfoKeys(output: Option<string>, s: Stat)
    requires InfoOf(output).Some?
    ensures InfoOf(output).value[ResultKey] == StrV(Verdict(output.value))
    ensures StatKey(s) in InfoOf(output).value <==> SearchGroup(output.value, s).Some?
    ensures FormulaFileKey !in InfoOf(output).value
  {
    PatternsOk();
    AllStatsComplete(s);
    MatchedKeys(output.value, PatternOf, AllStats, s);
  }

  lemma MatchedKeys(out: string, pats: Table, stats: set<Stat>, s: Stat)
    requires TableOk(pats)
    ensures StatKey(s) in Matched(out, pats, stats) <==> s in stats && Captured(out, pats, s).Some?
    ensures ResultKey !in Matched(out, pats, stats) && FormulaFileKey !in Matched(out, pats, stats)
  {
  }

  /** A recorded count is the value of the digits that follow its label at
      the leftmost place where its pattern matches. */
  lemma InfoCount(output: Option<string>, s: Stat)
    requires InfoOf(output).Some? && IsCount(s) && StatKey(s) in InfoOf(output).value
    ensures SearchGroup(output.value, s).Some?
    ensures InfoOf(output).value[StatKey(s)] == IntV(DecimalValue(SearchGroup(output.value, s).value))
  {
    PatternsOk();
  }

  /** A recorded time or memory figure is the text of digits and dots that
      follows its label at the leftmost match. */
  lemma InfoDecimal(output: Option<string>, s: Stat)
    requires InfoOf(output).Some? && !IsCount(s) && StatKey(s) in InfoOf(output).value
    ensures SearchGroup(output.value, s).Some?
    ensures InfoOf(output).value[StatKey(s)] == FloatText(SearchGroup(output.value, s).value)
  {
    PatternsOk();
  }

  /** One `re.search` and, when it matched, the conversion of its group
      stored under the statistic's key. */
  method RecordStat(m: Info, out: string, pats: Table, s: Stat) returns (r: Info)
    requires TableOk(pats)
    ensures r == Recorded(m, out, pats, s)
  {
    var g := Group1(out, pats(s));
    if g.Some? {
      r := m[StatKey(s) := Convert(s, g.value)];
    } else {
      r := m;
    }
  }

  const ProblemStats: set<Stat> := {NumVars, NumClauses, ParseTime, SimplificationTime}

  /** The problem statistics: variables, clauses, parse and simplification
      time. */
  method ProblemStatistics(out: string, pats: Table) returns (m: Info)
    requires TableOk(pats)
    ensures m == Matched(out, pats, ProblemStats)
  {
    m := map[];
    ghost var done: set<Stat> := {};
    assert m == Matched(out, pats, done);
    m := RecordStat(m, out, pats, NumVars);
    MatchedAdd(out, pats, done, NumVars);
    done := done + {NumVars};
    m := RecordStat(m, out, pats, NumClauses);
    MatchedAdd(out, pats, done, NumClauses);
    done := done + {NumClauses};
    m := RecordStat(m, out, pats, ParseTime);
    MatchedAdd(out, pats, done, ParseTime);
    done := done + {ParseTime};
    m := RecordStat(m, out, pats, SimplificationTime);
    MatchedAdd(out, pats, done, SimplificationTime);
    done := done + {SimplificationTime};
    assert done == ProblemStats;
  }

  /** The search statistics, added to the problem statistics. */
  method SearchStatistics(out: string, pats: Table, m0: Info) returns (m: Info)
    requires TableOk(pats)
    requires m0 == Matched(out, pats, ProblemStats)
    ensures m == Matched(out, pats, AllStats)
  {
    m := m0;
    ghost var done: set<Stat> := ProblemStats;
    m := RecordStat(m, out, pats, Conflicts);
    MatchedAdd(out, pats, done, Conflicts);
    done := done + {Conflicts};
    m := RecordStat(m, out, pats, Decisions);
    MatchedAdd(out, pats, done, Decisions);
    done := done + {Decisions};
    m := RecordStat(m, out, pats, Propagations);
    MatchedAdd(out, pats, done, Propagations);
    done := done + {Propagations};
    m := RecordStat(m, out, pats, ConflictLiterals);
    MatchedAdd(out, pats, done, ConflictLiterals);
    done := done + {ConflictLiterals};
    m := RecordStat(m, out, pats, MemoryUsed);
    MatchedAdd(out, pats, done, MemoryUsed);
    done := done + {MemoryUsed};
    m := RecordStat(m, out, pats, CpuTime);
    MatchedAdd(out, pats, done, CpuTime);
    done := done + {CpuTime};
    assert done == AllStats;
  }

  /** `extract_minisat_info`. */
  method ExtractMinisatInfo(output: Option<string>) returns (info: Option<Info>)
    ensures info == InfoOf(output)
  {
    if output.None? || output.value == [] {
      return None;
    }
    var out := output.value;
    PatternsOk();
    var m := ProblemStatistics(out, PatternOf);
    m := SearchStatistics(out, PatternOf, m);
    m := m[ResultKey := StrV(Verdict(out))];
    info := Some(m);
  }

  // ---------------------------------------------------------------------
  // check_cnf_file

  /** A line counted as a clause: not blank after strip() and not starting
      with 'c' (the 'c' test is on the raw line). */
  predicate IsClauseLine(l: string) {
    Strip(l) != [] && !StartsWith(l, "c")
  }

  /** The number of clause lines. */
  function ClauseLineCount(ls: seq<string>): (n: nat)
    ensures n <= |ls|
  {
    if ls == [] then 0
    else ClauseLineCount(ls[..|ls| - 1]) + (if IsClauseLine(ls[|ls| - 1]) then 1 else 0)
  }

  /** The two counts of a header line: it starts with "p cnf", splits into
      exactly four tokens, and the last two are integers. */
  function HeaderCounts(l: string): (r: Option<(int, int)>)
    ensures r.Some? ==> StartsWith(l, "p cnf") && |PySplit(Strip(l))| == 4
  {
    if !StartsWith(l, "p cnf") then None
    else
      var parts := PySplit(Strip(l));
      if |parts| != 4 then None
      else match (PyInt(parts[2]), PyInt(parts[3]))
        case (Some(v), Some(c)) => Some((v, c))
        case _ => None
  }

  /** The verdict of `check_cnf_file` on the file's content (None when the
      file cannot be read, which the source catches). */
  function CnfValid(content: Option<string>): bool {
    content.Some? &&
    var lines := ReadLines(content.value);
    lines != [] && HeaderCounts(lines[0]).Some? &&
    ClauseLineCount(lines[1..]) == HeaderCounts(lines[0]).value.1
  }

  lemma {:induction false} ClauseLineCountAppend(a: seq<string>, b: seq<string>)
    ensures ClauseLineCount(a + b) == ClauseLineCount(a) + ClauseLineCount(b)
    decreases |b|
  {
    if b == [] {
      assert a + b == a;
    } else {
      var b0 := b[..|b| - 1];
      assert (a + b)[..|a + b| - 1] == a + b0;
      ClauseLineCountAppend(a, b0);
    }
  }

  lemma ClauseLineCountSnoc(ls: seq<string>, l: string)
    ensures ClauseLineCount(ls + [l]) == ClauseLineCount(ls) + (if IsClauseLine(l) then 1 else 0)
  {
    assert (ls + [l])[..|ls|] == ls;
  }

  /** Lines that all count as clauses are all counted. */
  lemma {:induction false} ClauseLineCountAll(ls: seq<string>)
    requires forall k :: 0 <= k < |ls| ==> IsClauseLine(ls[k])
    ensures ClauseLineCount(ls) == |ls|
    decreases |ls|
  {
    if ls != [] {
      ClauseLineCountAll(ls[..|ls| - 1]);
    }
  }

  /** An empty or unreadable file, and a file whose first line is not a
      "p cnf" header (even a comment line), are rejected. */
  lemma CnfRejects(content: Option<string>)
    ensures content.None? ==> !CnfValid(content)
    ensures content == Some([]) ==> !CnfValid(content)
    ensures (content.Some? && ReadLines(content.value) != [] &&
             !StartsWith(ReadLines(content.value)[0], "p cnf")) ==> !CnfValid(content)
  {
  }

  /** A file is accepted exactly when its header is well formed and its
      clause count equals the number of clause lines after it. */
  lemma CnfAccepts(text: string, hdr: string, body: seq<string>, v: int, c: int)
    requires ReadLines(text) == [hdr] + body
    requires HeaderCounts(hdr) == Some((v, c))
    ensures CnfValid(Some(text)) <==> ClauseLineCount(body) == c
  {
    assert ([hdr] + body)[1..] == body;
  }

  /** The counting loop over the lines after the header. */
  method CountClauseLines(lines: seq<string>) returns (count: nat)
    requires lines != []
    ensures count == ClauseLineCount(lines[1..])
  {
    var body := lines[1..];
    count := 0;
    for j := 0 to |body|
      invariant count == ClauseLineCount(body[..j])
    {
      ClauseLineCountSnoc(body[..j], body[j]);
      assert body[..j + 1] == body[..j] + [body[j]];
      if IsClauseLine(body[j]) {
        count := count + 1;
      }
    }
    assert body[..|body|] == body;
  }

  /** `check_cnf_file`: the header checks, then a counting loop over the
      lines after the header. */
  method CheckCnfFile(content: Option<string>) returns (ok: bool)
    ensures ok == CnfValid(content)
  {
    if content.None? {
      return false;
    }
    var lines := ReadLines(content.value);
    if lines == [] || !StartsWith(lines[0], "p cnf") {
      return false;
    }
    var parts := PySplit(Strip(lines[0]));
    if |parts| != 4 {
      return false;
    }
    var numVars := PyInt(parts[2]);
    var numClauses := PyInt(parts[3]);
    if numVars.None? || numClauses.None? {
      return false;
    }
    var count := CountClauseLines(lines);
    ok := count == numClauses.value;
  }

  // ---------------------------------------------------------------------
  // The per-file loop of main

  /** How the solver ran on a file: its exit code and its stdout. */
  datatype Run = Run(returncode: int, stdout: string)

  /** The row written for one formula file, if any: files that fail the CNF
      check and files whose report yields no record are skipped. */
  function RowOf(file: string, valid: bool, run: Run): (r: Option<Info>)
    ensures r.Some? ==> valid && FormulaFileKey in r.value && r.value[FormulaFileKey] == StrV(Basename(file))
    ensures r.Some? ==> ResultKey in r.value
  {
    if !valid then None
    else
      var output := RunMinisat(run.returncode, run.stdout);
      match InfoOf(output)
      case None => None
      case Some(info) =>
        InfoKeys(output, NumVars);
        Some(info[FormulaFileKey := StrV(Basename(file))])
  }

  /** The rows for the files, in the given order, with `check` deciding
      which files are valid. */
  function Rows(files: seq<string>, check: Option<string> -> bool, read: string -> Option<string>, solve: string -> Run): (rows: seq<Info>)
    ensures |rows| <= |files|
    ensures forall k :: 0 <= k < |rows| ==> FormulaFileKey in rows[k] && ResultKey in rows[k]
  {
    if files == [] then []
    else
      var f := files[|files| - 1];
      var rows := Rows(files[..|files| - 1], check, read, solve);
      match RowOf(f, check(read(f)), solve(f))
      case None => rows
      case Some(row) => rows + [row]
  }

  /** What main writes: nothing at all when there are no formula files,
      otherwise the rows for the files in sorted order. */
  function Results(files: seq<string>, read: string -> Option<string>, solve: string -> Run): Option<seq<Info>> {
    if files == [] then None else Some(Rows(Sort(files), CnfValid, read, solve))
  }

  /** A file that fails `check_cnf_file` adds no row. */
  lemma RowsSkipInvalid(files: seq<string>, f: string, check: Option<string> -> bool, read: string -> Option<string>, solve: string -> Run)
    requires !check(read(f))
    ensures Rows(files + [f], check, read, solve) == Rows(files, check, read, solve)
  {
    assert (files + [f])[..|files|] == files;
  }

  /** When every file passes `check_cnf_file` and the solver produces a report,
      there is one row per file, in order, named by the file's basename. */
  lemma {:induction false} RowsAllKept(files: seq<string>, check: Option<string> -> bool, read: string -> Option<string>, solve: string -> Run)
    requires forall k :: 0 <= k < |files| ==> check(read(files[k]))
    requires forall k :: 0 <= k < |files| ==>
               solve(files[k]).returncode in {0, 20} && solve(files[k]).stdout != []
    ensures |Rows(files, check, read, solve)| == |files|
    ensures forall k :: 0 <= k < |files| ==>
              Rows(files, check, read, solve)[k][FormulaFileKey] == StrV(Basename(files[k]))
    decreases |files|
  {
    if files != [] {
      var n := |files| - 1;
      var f := files[n];
      RowsAllKept(files[..n], check, read, solve);
      RowKept(f, check(read(f)), solve(f));
      var rows := Rows(files[..n], check, read, solve);
      assert Rows(files, check, read, solve) == rows + [RowOf(f, check(read(f)), solve(f)).value];
      forall k | 0 <= k < |files| ensures Rows(files, check, read, solve)[k][FormulaFileKey] == StrV(Basename(files[k])) {
        if k < n {
          assert files[..n][k] == files[k];
        }
      }
    }
  }

  lemma RowKept(f: string, valid: bool, run: Run)
    requires valid && run.returncode in {0, 20} && run.stdout != []
    ensures RowOf(f, valid, run).Some?
  {
    InfoNone(Some(run.stdout));
  }

  /** The rows for the sorted files, one iteration per file. */
  method ProcessFiles(sorted: seq<string>, read: string -> Option<string>, solve: string -> Run)
    returns (rows: seq<Info>)
    ensures rows == Rows(sorted, CnfValid, read, solve)
  {
    rows := [];
    for i := 0 to |sorted|
      invariant rows == Rows(sorted[..i], CnfValid, read, solve)
    {
      var f := sorted[i];
      assert sorted[..i + 1][..i] == sorted[..i] && sorted[..i + 1][i] == f;
      var valid := CheckCnfFile(read(f));
      if !valid {
        continue;
      }
      var run := solve(f);
      var output := RunMinisat(run.returncode, run.stdout);
      var info := ExtractMinisatInfo(output);
      if info.Some? {
        var row := info.value[FormulaFileKey := StrV(Basename(f))];
        rows := rows + [row];
      }
    }
    assert sorted[..|sorted|] == sorted;
  }

  /** `main` with the directory listing, the file reads and the solver runs
      passed in: None when no formula file exists. */
  method ProcessFormulas(files: seq<string>, read: string -> Option<string>, solve: string -> Run)
    returns (r: Option<seq<Info>>)
    ensures r == Results(files, read, solve)
  {
    if files == [] {
      return None;
    }
    var rows := ProcessFiles(Sort(files), read, solve);
    r := Some(rows);
  }
}
