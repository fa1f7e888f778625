/** unsat_test/unsat_gen.py: the generator variant with `num_clauses - 1`
    base clauses and the inline writer, which joins each clause's literals
    with single spaces and appends " 0" without any normalisation. */
module UnsatGenTest {
  import opened Text
  import Generator
  import CnfText
  import MinisatTester

  /** `generate_unsat_3sat(num_vars, num_clauses)` */
  method GenerateUnsat3Sat(numVars: int, numClauses: int, rnd: Generator.Draws, pos: nat)
    returns (r: Option<seq<seq<int>>>, next: nat, ghost solution: Generator.Assignment)
    ensures r.None? <==> numVars < 3
    ensures r.Some? && numClauses >= 1 ==> |r.value| == numClauses + 1
    ensures r.Some? && numClauses < 1 ==> |r.value| == 2
    ensures r.Some? ==> forall c :: c in r.value ==> Generator.Clause3(c, numVars)
    ensures r.Some? ==> Generator.Falsified(solution, r.value[|r.value| - 2]) &&
                        Generator.Falsified(solution, r.value[|r.value| - 1])
  {
    r, next, solution := Generator.Generate(numVars, numClauses - 1, rnd, pos);
  }

  /** The lines the writer produces, one per clause. */
  function ClauseLines(clauses: seq<seq<int>>): (ls: seq<string>)
    ensures |ls| == |clauses|
    ensures forall k :: 0 <= k < |clauses| ==> ls[k] == CnfText.ClauseLine(CnfText.LitWords(clauses[k]))
  {
    seq(|clauses|, k requires 0 <= k < |clauses| => CnfText.ClauseLine(CnfText.LitWords(clauses[k])))
  }

  /** The file text: "p cnf 20 <len(clauses)>", then the clause lines. */
  function FormulaText(clauses: seq<seq<int>>): string {
    CnfText.FileText(20, ClauseLines(clauses))
  }

  /** The writing loop of the script. */
  method WriteFormula(clauses: seq<seq<int>>) returns (text: string)
    ensures text == FormulaText(clauses)
  {
    text := CnfText.HeaderLine(20, |clauses|);
    ghost var written: seq<string> := [];
    for i := 0 to |clauses|
      invariant written == ClauseLines(clauses[..i])
      invariant text == Concat([CnfText.HeaderLine(20, |clauses|)] + written)
    {
      var line := JoinSpace(CnfText.LitWords(clauses[i])) + " 0\n";
      CnfText.WriteLine(CnfText.HeaderLine(20, |clauses|), written, line);
      text := text + line;
      written := written + [line];
      assert clauses[..i + 1] == clauses[..i] + [clauses[i]];
    }
    assert clauses[..|clauses|] == clauses;
  }

  /** Whatever the clauses, the written file passes the CNF check (its
      header count is the number of clause lines, even for an empty
      clause, written as " 0"), and each line reads back as the clause's
      literals followed by 0. */
  lemma FormulaTextValid(clauses: seq<seq<int>>)
    ensures MinisatTester.CnfValid(Some(FormulaText(clauses)))
    ensures ReadLines(FormulaText(clauses)) ==
            [CnfText.HeaderLine(20, |clauses|)] + ClauseLines(clauses)
  {
    var ls := ClauseLines(clauses);
    forall k | 0 <= k < |ls|
      ensures MinisatTester.IsClauseLine(ls[k]) && CnfText.NewlineTerminated(ls[k])
    {
      CnfText.LitWordsInt(clauses[k]);
      CnfText.ClauseLineShape(CnfText.LitWords(clauses[k]));
    }
    CnfText.FileTextValid(20, ls);
  }
}
