/** minisat_eval/unsat_gen.py: the generator variant with `num_clauses - 2`
    base clauses, and `write_cnf_file`, which normalises every clause to
    three literals before writing it. */
module UnsatGenEval {
  import opened Text
  import Generator
  import CnfText
  import MinisatTester

  /** `generate_unsat_3sat(num_vars, num_clauses)` */
  method GenerateUnsat3Sat(numVars: int, numClauses: int, rnd: Generator.Draws, pos: nat)
    returns (r: Option<seq<seq<int>>>, next: nat, ghost solution: Generator.Assignment)
    ensures r.None? <==> numVars < 3
    ensures r.Some? && numClauses >= 2 ==> |r.value| == numClauses
    ensures r.Some? && numClauses < 2 ==> |r.value| == 2
    ensures r.Some? ==> forall c :: c in r.value ==> Generator.Clause3(c, numVars)
    ensures r.Some? ==> Generator.Falsified(solution, r.value[|r.value| - 2]) &&
                        Generator.Falsified(solution, r.value[|r.value| - 1])
  {
    r, next, solution := Generator.Generate(numVars, numClauses - 2, rnd, pos);
  }

  /** A literal of a clause handed to the writer: an int, or a bool, which
      Python's `isinstance(lit, bool)` tells apart. */
  datatype PyLit = IntLit(i: int) | BoolLit(b: bool)

  /** The integer a literal is written as: a bool becomes 1 or -1. */
  function Written(l: PyLit): int {
    match l
    case IntLit(i) => i
    case BoolLit(b) => if b then 1 else -1
  }

  function WrittenInts(c: seq<PyLit>): (r: seq<int>)
    ensures |r| == |c| && forall k :: 0 <= k < |c| ==> r[k] == Written(c[k])
  {
    if c == [] then [] else [Written(c[0])] + WrittenInts(c[1..])
  }

  /** How `write_cnf_file` leaves a clause list: a clause shorter than three
      literals has been extended in place by literals ±v with v in 1..20;
      any other clause is untouched (truncation is not in place). */
  predicate PaddedFrom(orig: seq<PyLit>, now: seq<PyLit>) {
    if |orig| >= 3 then now == orig
    else
      |now| == 3 && now[..|orig|] == orig &&
      forall k :: |orig| <= k < 3 ==> now[k].IntLit? && 1 <= Generator.Var(now[k].i) <= 20
  }

  /** The line for a clause of at least three literals: its first three. */
  function ClauseLine(c: seq<PyLit>): string
    requires |c| >= 3
  {
    CnfText.ClauseLine(CnfText.LitWords(WrittenInts(c[..3])))
  }

  function ClauseLines(cs: seq<seq<PyLit>>): (ls: seq<string>)
    requires forall k :: 0 <= k < |cs| ==> |cs[k]| >= 3
    ensures |ls| == |cs| && forall k :: 0 <= k < |cs| ==> ls[k] == ClauseLine(cs[k])
  {
    seq(|cs|, k requires 0 <= k < |cs| => ClauseLine(cs[k]))
  }

  /** The padding loop: `var = random.randint(1, 20)` and a sign drawn by
      `random.random() < 0.5`, two draws per literal. */
  method Pad(clause: seq<PyLit>, rnd: Generator.Draws, pos: nat) returns (padded: seq<PyLit>, next: nat)
    ensures PaddedFrom(clause, padded)
    ensures next == pos + 2 * (|padded| - |clause|)
  {
    padded, next := clause, pos;
    while |padded| < 3
      invariant |clause| < 3 ==> |padded| <= 3
      invariant |padded| >= |clause| && padded[..|clause|] == clause
      invariant forall k :: |clause| <= k < |padded| ==> padded[k].IntLit? && 1 <= Generator.Var(padded[k].i) <= 20
      invariant |clause| >= 3 ==> padded == clause
      invariant next == pos + 2 * (|padded| - |clause|)
      decreases 3 - |padded|
    {
      var v: int := 1 + rnd(next) % 20;
      var lit := if rnd(next + 1) % 2 == 0 then v else -v;
      padded := padded + [IntLit(lit)];
      next := next + 2;
    }
  }

  /** `write_cnf_file`: writes the header with `len(clauses)`, then each
      clause as exactly three literals; short clauses are padded in the
      caller's list. */
  method WriteCnfFile(clauses: array<seq<PyLit>>, rnd: Generator.Draws, pos: nat)
    returns (text: string, next: nat)
    modifies clauses
    ensures forall i :: 0 <= i < clauses.Length ==> PaddedFrom(old(clauses[i]), clauses[i])
    ensures forall i :: 0 <= i < clauses.Length ==> |clauses[i]| >= 3
    ensures text == CnfText.FileText(20, ClauseLines(clauses[..]))
  {
    var header := CnfText.HeaderLine(20, clauses.Length);
    text := header;
    next := pos;
    ghost var written: seq<string> := [];
    for i := 0 to clauses.Length
      invariant forall j :: 0 <= j < i ==> PaddedFrom(old(clauses[j]), clauses[j]) && |clauses[j]| >= 3
      invariant forall j :: i <= j < clauses.Length ==> clauses[j] == old(clauses[j])
      invariant written == ClauseLines(clauses[..i])
      invariant text == Concat([header] + written)
    {
      var clause := clauses[i];
      if |clause| != 3 {
        clause, next := Pad(clause, rnd, next);
        clauses[i] := clause;
        clause := clause[..3];
      }
      assert clause == clauses[i][..3];
      var line := JoinSpace(CnfText.LitWords(WrittenInts(clause))) + " 0\n";
      CnfText.WriteLine(header, written, line);
      text := text + line;
      written := written + [line];
      assert clauses[..i + 1] == clauses[..i] + [clauses[i]];
    }
    assert clauses[..clauses.Length] == clauses[..];
  }

  /** The written text passes the CNF check: the header count is the
      number of lines written. */
  lemma WrittenValid(cs: seq<seq<PyLit>>)
    requires forall k :: 0 <= k < |cs| ==> |cs[k]| >= 3
    ensures MinisatTester.CnfValid(Some(CnfText.FileText(20, ClauseLines(cs))))
    ensures ReadLines(CnfText.FileText(20, ClauseLines(cs))) ==
            [CnfText.HeaderLine(20, |cs|)] + ClauseLines(cs)
  {
    var ls := ClauseLines(cs);
    forall k | 0 <= k < |ls|
      ensures MinisatTester.IsClauseLine(ls[k]) && CnfText.NewlineTerminated(ls[k])
    {
      CnfText.LitWordsInt(WrittenInts(cs[k][..3]));
      CnfText.ClauseLineShape(CnfText.LitWords(WrittenInts(cs[k][..3])));
    }
    CnfText.FileTextValid(20, ls);
  }

  /** Each written line splits into exactly three literal tokens and "0";
      the tokens read back as the first three literals, a bool as 1 or -1. */
  lemma ClauseLineTokens(c: seq<PyLit>)
    requires |c| >= 3
    ensures |PySplit(ClauseLine(c))| == 4 && PySplit(ClauseLine(c))[3] == "0"
    ensures forall k :: 0 <= k < 3 ==> PyInt(PySplit(ClauseLine(c))[k]) == Some(Written(c[k]))
  {
    CnfText.ClauseLineRoundTrip(WrittenInts(c[..3]));
  }
}
