/** The second MiniSat driver, minisat_eval/minisat_eval.py: a report parser
    that fills unmatched fields with zero, the per-file record and the
    `.cnf` filter of the directory loop. The solver run is a parameter. */
module MinisatEval {
  import opened Text
  import opened Pattern
  import MinisatTester

  /** The fields parsed from a report. */
  datatype Field = CpuTime | NumVars | NumClauses | Conflicts | Decisions | Propagations

  /** `name\s+: (\d+)`: exactly one space after the colon. */
  function NameColonSpaceCount(name: string): Regex {
    [Lit(name), Plus(Space, false), Lit(": "), Plus(Digit, true)]
  }

  /** `name\s+: ([\d.]+)unit`, the unit with its leading space. */
  function NameColonSpaceDecimal(name: string, unit: string): Regex {
    [Lit(name), Plus(Space, false), Lit(": "), Plus(DigitOrDot, true), Lit(unit)]
  }

  /** The pattern searched for each field. */
  function PatternOf(f: Field): Regex {
    match f
    case CpuTime => NameColonSpaceDecimal("CPU time", " s")
    case NumVars => MinisatTester.NameSpaceCount("Number of variables:")
    case NumClauses => MinisatTester.NameSpaceCount("Number of clauses:")
    case Conflicts => NameColonSpaceCount("conflicts")
    case Decisions => NameColonSpaceCount("decisions")
    case Propagations => NameColonSpaceCount("propagations")
  }

  /** The class of the field's group: digits and dots for the time. */
  function GroupClass(f: Field): CharClass {
    if f == CpuTime then DigitOrDot else Digit
  }

  lemma ColonSpaceShapesOk(name: string, unit: string)
    requires unit != [] && unit[0] == ' '
    ensures CaptureClasses(NameColonSpaceCount(name)) == [Digit] && Unambiguous(NameColonSpaceCount(name))
    ensures CaptureClasses(NameColonSpaceDecimal(name, unit)) == [DigitOrDot] &&
            Unambiguous(NameColonSpaceDecimal(name, unit))
  {
    var ws := Plus(Space, false);
    var count: Regex, decimal: Regex := [Plus(Digit, true)], [Plus(DigitOrDot, true), Lit(unit)];
    assert CaptureClasses(count) == [Digit] by { assert count[1..] == []; }
    assert CaptureClasses(decimal) == [DigitOrDot] by {
      assert decimal[1..] == [Lit(unit)] && decimal[1..][1..] == [];
    }
    assert Unambiguous(decimal);
    LitPrefix(": ", count);
    LitPrefix(": ", decimal);
    SpaceThen([Lit(": ")] + count);
    SpaceThen([Lit(": ")] + decimal);
    LitPrefix(name, [ws] + ([Lit(": ")] + count));
    LitPrefix(name, [ws] + ([Lit(": ")] + decimal));
    assert NameColonSpaceCount(name) == [Lit(name)] + ([ws] + ([Lit(": ")] + count));
    assert NameColonSpaceDecimal(name, unit) == [Lit(name)] + ([ws] + ([Lit(": ")] + decimal));
  }

  lemma PatternOk(f: Field)
    ensures CaptureClasses(PatternOf(f)) == [GroupClass(f)]
    ensures Unambiguous(PatternOf(f))
  {
    match f
    case CpuTime => ColonSpaceShapesOk("CPU time", " s");
    case NumVars => MinisatTester.ShapesOk("Number of variables:", " s");
    case NumClauses => MinisatTester.ShapesOk("Number of clauses:", " s");
    case Conflicts => ColonSpaceShapesOk("conflicts", " s");
    case Decisions => ColonSpaceShapesOk("decisions", " s");
    case Propagations => ColonSpaceShapesOk("propagations", " s");
  }

  /** The group of the leftmost match of the field's pattern, if any. */
  function FieldGroup(out: string, f: Field): (r: Option<string>)
    ensures r.Some? ==> r.value != [] && AllIn(GroupClass(f), r.value)
    ensures r.Some? && f != CpuTime ==> AllDigits(r.value)
  {
    PatternOk(f);
    Group1(out, PatternOf(f))
  }

  /** `int(m.group(1)) if m else 0` */
  function CountOf(out: string, f: Field): nat
    requires f != CpuTime
  {
    match FieldGroup(out, f)
    case None => 0
    case Some(g) => DecimalValue(g)
  }

  /** The parsed report; `cpuTime` is the decimal text `float()` converts,
      "0.0" when the pattern does not match. */
  datatype Parsed = Parsed(
    isSat: bool, cpuTime: string,
    numVars: nat, numClauses: nat, conflicts: nat, decisions: nat, propagations: nat)

  /** "SATISFIABLE" occurs and "UNSATISFIABLE" does not. */
  predicate IsSat(out: string) {
    Contains(out, "SATISFIABLE") && !Contains(out, "UNSATISFIABLE")
  }

  /** `is_sat` agrees with the other driver's verdict exactly on SAT. */
  lemma IsSatVerdict(out: string)
    ensures IsSat(out) <==> MinisatTester.Verdict(out) == "SAT"
    ensures !IsSat(out) <==> MinisatTester.Verdict(out) in {"UNSAT", "UNKNOWN"}
  {
    MinisatTester.VerdictCases(out);
  }

  /** `parse_minisat_output` */
  function ParseMinisatOutput(out: string): (p: Parsed)
    ensures p.isSat == IsSat(out)
    ensures FieldGroup(out, CpuTime).None? ==> p.cpuTime == "0.0"
    ensures FieldGroup(out, CpuTime).Some? ==> p.cpuTime == FieldGroup(out, CpuTime).value
  {
    var time := FieldGroup(out, CpuTime);
    Parsed(
      IsSat(out), if time.Some? then time.value else "0.0",
      CountOf(out, NumVars), CountOf(out, NumClauses),
      CountOf(out, Conflicts), CountOf(out, Decisions), CountOf(out, Propagations))
  }

  /** The count of a field, as stored in the parsed report. */
  function Count(p: Parsed, f: Field): nat
    requires f != CpuTime
  {
    match f
    case NumVars => p.numVars
    case NumClauses => p.numClauses
    case Conflicts => p.conflicts
    case Decisions => p.decisions
    case Propagations => p.propagations
  }

  /** A count is zero exactly when its pattern does not match or matches
      digits of value zero: a missing field cannot be told from a zero. */
  lemma CountZero(out: string, f: Field)
    requires f != CpuTime
    ensures Count(ParseMinisatOutput(out), f) == 0 <==>
            FieldGroup(out, f).None? || DecimalValue(FieldGroup(out, f).value) == 0
  {
  }

  /** A matched count is the value of the digits captured at the leftmost
      place where its label, spacing and colon occur. */
  lemma CountMatched(out: string, f: Field)
    requires f != CpuTime
    ensures FieldGroup(out, f).Some? ==>
              Count(ParseMinisatOutput(out), f) == DecimalValue(FieldGroup(out, f).value)
    ensures FieldGroup(out, f).Some? <==> exists i: nat, j: nat :: i <= |out| && Matches(out, i, PatternOf(f), j)
  {
    PatternOk(f);
    SearchCorrect(out, PatternOf(f));
  }

  /** The record built for one file; the exit code is never consulted. */
  datatype Record = Record(
    filename: string, result: string, time: string,
    numVars: nat, numClauses: nat, conflicts: nat, decisions: nat, propagations: nat)

  /** The record of `run_minisat` for a file and the solver's stdout. */
  function RunRecord(path: string, stdout: string): (r: Record)
    ensures r.filename == Basename(path)
    ensures r.result == "SAT" <==> IsSat(stdout)
    ensures r.result == "UNSAT" <==> !IsSat(stdout)
  {
    var p := ParseMinisatOutput(stdout);
    Record(Basename(path), if p.isSat then "SAT" else "UNSAT", p.cpuTime,
           p.numVars, p.numClauses, p.conflicts, p.decisions, p.propagations)
  }

  /** A report with neither marker is recorded as UNSAT. */
  lemma UnknownIsUnsat(path: string, stdout: string)
    requires MinisatTester.Verdict(stdout) == "UNKNOWN"
    ensures RunRecord(path, stdout).result == "UNSAT"
  {
    IsSatVerdict(stdout);
  }

  /** The directory entries that end with ".cnf", in listing order. */
  function CnfNames(names: seq<string>): (r: seq<string>)
    ensures |r| <= |names|
    ensures forall k :: 0 <= k < |r| ==> EndsWith(r[k], ".cnf") && r[k] in names
    ensures forall k :: 0 <= k < |names| && EndsWith(names[k], ".cnf") ==> names[k] in r
  {
    if names == [] then []
    else
      var rest := CnfNames(names[..|names| - 1]);
      var last := names[|names| - 1];
      assert forall k :: 0 <= k < |names| - 1 ==> names[..|names| - 1][k] == names[k];
      if EndsWith(last, ".cnf") then rest + [last] else rest
  }

  /** The records of `process_directory`: one per ".cnf" entry. */
  function DirRecords(dir: string, names: seq<string>, solve: string -> string): seq<Record> {
    if names == [] then []
    else
      var rest := DirRecords(dir, names[..|names| - 1], solve);
      var name := names[|names| - 1];
      if EndsWith(name, ".cnf") then
        var path := PathJoin(dir, name);
        rest + [RunRecord(path, solve(path))]
      else rest
  }

  lemma DirRecordsSnoc(dir: string, names: seq<string>, name: string, solve: string -> string)
    ensures DirRecords(dir, names + [name], solve) ==
            DirRecords(dir, names, solve) +
            (if EndsWith(name, ".cnf") then [RunRecord(PathJoin(dir, name), solve(PathJoin(dir, name)))] else [])
  {
    assert (names + [name])[..|names|] == names;
  }

  /** One record per ".cnf" entry, in listing order, each named by its
      entry (directory entries never contain '/'). */
  lemma {:induction false} DirRecordsNames(dir: string, names: seq<string>, solve: string -> string)
    requires forall k :: 0 <= k < |names| ==> '/' !in names[k]
    ensures |DirRecords(dir, names, solve)| == |CnfNames(names)|
    ensures forall k :: 0 <= k < |CnfNames(names)| ==>
              DirRecords(dir, names, solve)[k].filename == CnfNames(names)[k]
    decreases |names|
  {
    if names != [] {
      var init := names[..|names| - 1];
      var name := names[|names| - 1];
      assert forall k :: 0 <= k < |init| ==> init[k] == names[k];
      assert names == init + [name];
      DirRecordsNames(dir, init, solve);
      DirRecordsSnoc(dir, init, name, solve);
      var rs, cs := DirRecords(dir, init, solve), CnfNames(init);
      if EndsWith(name, ".cnf") {
        var path := PathJoin(dir, name);
        var rec := RunRecord(path, solve(path));
        BasenameOfJoin(dir, name);
        assert rec.filename == name;
        assert CnfNames(names) == cs + [name];
        assert DirRecords(dir, names, solve) == rs + [rec];
        forall k | 0 <= k < |cs| + 1 ensures (rs + [rec])[k].filename == (cs + [name])[k] {
          if k < |cs| {
            assert (rs + [rec])[k] == rs[k];
            assert (cs + [name])[k] == cs[k];
          }
        }
      } else {
        assert CnfNames(names) == cs;
        assert DirRecords(dir, names, solve) == rs;
      }
    }
  }

  /** `process_directory` over the listing `names` of `dir`. */
  method ProcessDirectory(dir: string, names: seq<string>, solve: string -> string)
    returns (results: seq<Record>)
    ensures results == DirRecords(dir, names, solve)
  {
    results := [];
    for i := 0 to |names|
      invariant results == DirRecords(dir, names[..i], solve)
    {
      var file := names[i];
      DirRecordsSnoc(dir, names[..i], file, solve);
      assert names[..i + 1] == names[..i] + [file];
      if EndsWith(file, ".cnf") {
        var fullPath := PathJoin(dir, file);
        var result := RunRecord(fullPath, solve(fullPath));
        results := results + [result];
      }
    }
    assert names[..|names|] == names;
  }
}
