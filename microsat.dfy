/** src/structures/microsat.rs, the `Expression` object and the entry
    points around it: building an expression clause by clause (`new`,
    `add_clause`, `from_clauses`, `clone`, `parse_dimacs`), `optimize`,
    `set_heuristic`, `is_satisfied_by`, and `solve`, which runs
    `solve_dpll` on an optimized clone. The hash map and hash sets of the
    source are a `map` and `set`s, the binary heap of unit clauses is a
    multiset, and the log of actions is read as one group per operation
    (ghost `blocks`) with the state just before each group (ghost
    `saved`). */
module Microsat {
  import opened Text
  import opened MicrosatClauses
  import opened MicrosatState
  import opened MicrosatExpr
  import opened MicrosatSolve
  import Traces

  // ---------------------------------------------------------------------
  // Expressions built by `add_clause`

  /** The literal lists of the clauses. */
  function Lists(cs: seq<Clause>): (r: seq<seq<Lit>>)
    ensures |r| == |cs| && forall k :: 0 <= k < |cs| ==> r[k] == cs[k].variables
  {
    seq(|cs|, k requires 0 <= k < |cs| => cs[k].variables)
  }

  /** Enabled clauses holding the lists. */
  function NewClauses(ls: seq<seq<Lit>>): (r: seq<Clause>)
    ensures |r| == |ls| && forall k :: 0 <= k < |ls| ==> r[k] == Clause(ls[k], true)
  {
    seq(|ls|, k requires 0 <= k < |ls| => Clause(ls[k], true))
  }

  /** `add_clause` of each list in turn, oldest first. */
  function AddedAll(f: Fields, ls: seq<seq<Lit>>): Fields
    decreases |ls|
  {
    if ls == [] then f else Added(AddedAll(f, ls[..|ls| - 1]), ls[|ls| - 1])
  }

  /** Adding the lists appends them as enabled clauses, counts each one as
      active and logs nothing. */
  lemma {:induction false} AddedAllClauses(f: Fields, ls: seq<seq<Lit>>)
    ensures AddedAll(f, ls).clauses == f.clauses + NewClauses(ls)
    ensures AddedAll(f, ls).numActiveClauses == f.numActiveClauses + |ls|
    ensures AddedAll(f, ls).actions == f.actions
    decreases |ls|
  {
    if ls != [] {
      var pre := ls[..|ls| - 1];
      AddedAllClauses(f, pre);
      assert NewClauses(ls) == NewClauses(pre) + [Clause(ls[|ls| - 1], true)];
    }
  }

  lemma AddedAllNext(f: Fields, ls: seq<seq<Lit>>, i: nat)
    requires i < |ls|
    ensures AddedAll(f, ls[..i + 1]) == Added(AddedAll(f, ls[..i]), ls[i])
  {
    assert ls[..i + 1][..i] == ls[..i];
  }

  /** An expression being built stays so while fewer than 65536 clauses
      are added. */
  lemma {:induction false} AddedAllBuilding(f: Fields, ls: seq<seq<Lit>>)
    requires Building(f) && |f.clauses| + |ls| <= 0xFFFF
    ensures Building(AddedAll(f, ls))
    decreases |ls|
  {
    if ls != [] {
      var pre := ls[..|ls| - 1];
      AddedAllBuilding(f, pre);
      AddedAllClauses(f, pre);
      AddedBuilding(AddedAll(f, pre), ls[|ls| - 1]);
    }
  }

  /** Every variable the clauses or the index mention is a position of the
      assignment, which has at most 32767 positions. */
  predicate Covered(f: Fields) {
    |f.assignments| <= 0x7FFF &&
    (forall k, x :: 0 <= k < |f.clauses| && x in f.clauses[k].variables ==> Var(x) <= |f.assignments|) &&
    (forall x :: x in f.literalToClause ==> Var(x) <= |f.assignments|)
  }

  /** `add_clause` grows the assignment to every variable it registers. */
  lemma AddedCovered(f: Fields, ls: seq<Lit>)
    requires Covered(f)
    ensures Covered(Added(f, ls))
  {
    var g := Added(f, ls);
    RegisteredMeaning(f.literalToClause, ls, |f.clauses|);
    forall x | x in ls ensures Var(x) <= |g.assignments| {
      var i :| 0 <= i < |ls| && ls[i] == x;
    }
    forall x | x in g.literalToClause ensures Var(x) <= |g.assignments| {
      if Neg(x) in ls {
        assert Var(Neg(x)) == Var(x);
      }
    }
    forall k, x | 0 <= k < |g.clauses| && x in g.clauses[k].variables ensures Var(x) <= |g.assignments| {
      if k < |f.clauses| {
        assert x in f.clauses[k].variables;
      }
    }
  }

  lemma {:induction false} AddedAllCovered(f: Fields, ls: seq<seq<Lit>>)
    requires Covered(f)
    ensures Covered(AddedAll(f, ls))
    decreases |ls|
  {
    if ls != [] {
      AddedAllCovered(f, ls[..|ls| - 1]);
      AddedCovered(AddedAll(f, ls[..|ls| - 1]), ls[|ls| - 1]);
    }
  }

  /** No clause is empty or repeats a literal. */
  predicate Ready(cs: seq<Clause>) {
    forall k :: 0 <= k < |cs| ==> cs[k].variables != [] && NoDup(cs[k].variables)
  }

  /** An expression being built whose variables are covered and whose
      clauses are ready is where `solve_dpll` can start: it meets the
      invariant with an empty log, its heap holds unit clauses, it is good,
      and it explains its own clauses. */
  lemma ReadyToSolve(f: Fields)
    requires Building(f) && Covered(f) && Ready(f.clauses)
    ensures Invariant(f, [], []) && Units(f) && Good(Abs(f)) && Explained(Abs(f), Lists(f.clauses))
  {
    BuildingInvariant(f);
    ReadyOnce(f);
    ReadyLive(f);
    ReadyExplained(f);
  }

  /** Each clause holds each of its literals once, on a covered variable,
      and none is empty. */
  lemma ReadyOnce(f: Fields)
    requires Covered(f) && Ready(f.clauses)
    ensures OnceEach(Abs(f)) && forall k :: 0 <= k < |Abs(f).lits| ==> |Abs(f).lits[k]| > 0
  {
    var s := Abs(f);
    forall k, x | 0 <= k < |s.lits| && x in s.lits[k] ensures s.lits[k][x] == 1 {
      NoDupBag(f.clauses[k].variables);
    }
    forall k, x | 0 <= k < |s.lits| && x in s.lits[k] ensures Var(x) <= |s.assignments| {
      assert x in f.clauses[k].variables;
    }
    forall k | 0 <= k < |s.lits| ensures |s.lits[k]| > 0 {
      assert f.clauses[k].variables[0] in s.lits[k];
    }
  }

  /** With nothing assigned, every clause is live ... */
  lemma ReadyLive(f: Fields)
    requires Building(f) && Covered(f)
    ensures |Abs(f).lits| == |Abs(f).enabled| && LiveClauses(Abs(f)) && IndexChecked(Abs(f))
  {
    var s := Abs(f);
    forall k, x | 0 <= k < |s.lits| && s.enabled[k] && x in s.lits[k] ensures Free(s.assignments, x) {
      assert x in f.clauses[k].variables;
      assert Var(x) <= |s.assignments|;
    }
    ReadyChecked(f);
  }

  /** ... and every clause the index lists is enabled and holds the
      literal. */
  lemma ReadyChecked(f: Fields)
    requires Building(f)
    ensures IndexChecked(Abs(f))
  {
    CheckedListed(Abs(f), f.clauses);
  }

  lemma CheckedListed(s: Snapshot, cs: seq<Clause>)
    requires s.lits == Bags(cs) && s.enabled == Flags(cs) && Listed(cs, s.index)
    requires forall k :: 0 <= k < |cs| ==> cs[k].enabled
    ensures IndexChecked(s)
  {
    forall x: Lit, id: nat | x in s.index && id in s.index[x] ensures id < |s.lits| == |s.enabled| {
      CheckedOne(s, cs, x, id);
    }
    forall x: Lit, id: nat | x in s.index && id in s.index[x] ensures s.enabled[id] {
      CheckedOne(s, cs, x, id);
    }
    forall x: Lit, id: nat | x in s.index && id in s.index[x] ensures x in s.lits[id] {
      CheckedOne(s, cs, x, id);
    }
  }

  lemma CheckedOne(s: Snapshot, cs: seq<Clause>, x: Lit, id: nat)
    requires s.lits == Bags(cs) && s.enabled == Flags(cs) && Listed(cs, s.index)
    requires forall k :: 0 <= k < |cs| ==> cs[k].enabled
    requires x in s.index && id in s.index[x]
    ensures id < |s.lits| && id < |s.enabled| && s.enabled[id] && x in s.lits[id]
  {
    ListedAt(cs, s.index, x, id);
    assert x in cs[id].variables;
  }

  /** A fresh expression explains its own clauses. */
  lemma ReadyExplained(f: Fields)
    requires Building(f)
    ensures Explained(Abs(f), Lists(f.clauses))
  {
    var s := Abs(f);
    var orig := Lists(f.clauses);
    forall k | 0 <= k < |s.lits| ensures s.lits[k] <= multiset(orig[k]) {
      assert s.lits[k] == multiset(f.clauses[k].variables);
    }
    forall k | 0 <= k < |s.enabled| ensures s.enabled[k] {
    }
  }

  /** The clause lists that are not empty, in their order (`retain`). */
  function NonEmpty(ls: seq<seq<Lit>>): (r: seq<seq<Lit>>)
    ensures |r| <= |ls| && forall l :: l in r <==> l in ls && l != []
    ensures (forall k :: 0 <= k < |ls| ==> ls[k] != []) ==> r == ls
    decreases |ls|
  {
    if ls == [] then [] else (if ls[0] == [] then [] else [ls[0]]) + NonEmpty(ls[1..])
  }

  /** The fields `optimize` starts its rebuilt expression from: nothing but
      the assignment and the longest clause length. */
  function Kept(f: Fields): (g: Fields)
    ensures g.clauses == [] && g.actions == [] && g.literalToClause == map[] && g.unitClauses == multiset{}
    ensures g.assignments == f.assignments && g.maxClauseLength == f.maxClauseLength
  {
    Empty.(assignments := f.assignments, maxClauseLength := f.maxClauseLength)
  }

  lemma KeptBuilding(f: Fields)
    requires Building(f)
    ensures Building(Kept(f)) && |f.clauses| <= 0xFFFF
  {
  }

  /** `optimize` as written: the empty clauses go, the active count becomes
      the number left (a `u16`) and the log is emptied, but the index and
      the heap keep the ids the clauses had before. */
  function OptimizedAsWritten(f: Fields): (g: Fields)
    ensures Lists(g.clauses) == NonEmpty(Lists(f.clauses)) && g.actions == []
    ensures g.literalToClause == f.literalToClause && g.unitClauses == f.unitClauses
  {
    var kept := NonEmpty(Lists(f.clauses));
    f.(clauses := NewClauses(kept), numActiveClauses := |kept| % 0x10000, actions := [])
  }

  /** The expression of "p cnf 1 2", "0", "1 0": an empty clause 0 and the
      unit clause 1 on variable 1. After `optimize` as written the heap and
      the index still name clause 1, which no longer exists, so the first
      `pop_unit_clause` of `solve_dpll` reads past the clauses. */
  lemma OptimizeKeepsStaleIds()
    ensures var f := OptimizedAsWritten(AddedAll(Empty, [[], [1]]));
      |f.clauses| == 1 && 1 in f.unitClauses && 1 in f.literalToClause && 1 in f.literalToClause[1] && !Units(f)
  {
    var f0 := AddedAll(Empty, [[], [1]]);
    assert [[], [1]][..1] == [[]];
    var e: seq<seq<Lit>> := [[]];
    assert e[..0] == [];
    var f1 := Added(Empty, []);
    assert f0 == Added(f1, [1]);
    assert |f1.clauses| == 1;
    RegisteredMeaning(f1.literalToClause, [1], 1);
    assert 1 in f0.unitClauses;
    assert Lists(f0.clauses) == [[], [1]];
  }

  /** f with the assignment grown to n variables and the longest length
      raised to k. */
  function Widened(f: Fields, n: nat, k: nat): (g: Fields)
    ensures g.clauses == f.clauses && g.literalToClause == f.literalToClause && g.unitClauses == f.unitClauses
  {
    f.(assignments := Grown(f.assignments, n), maxClauseLength := Max(f.maxClauseLength, k))
  }

  /** `add_clause` does not depend on how far the assignment already
      reaches or how long the longest clause was. */
  lemma AddedWidened(f: Fields, ls: seq<Lit>, n: nat, k: nat)
    ensures Added(Widened(f, n, k), ls) == Widened(Added(f, ls), n, k)
  {
    GrownTwice(f.assignments, n, MaxVar(ls));
    GrownTwice(f.assignments, MaxVar(ls), n);
  }

  lemma {:induction false} AddedAllWidened(f: Fields, ls: seq<seq<Lit>>, n: nat, k: nat)
    ensures AddedAll(Widened(f, n, k), ls) == Widened(AddedAll(f, ls), n, k)
    decreases |ls|
  {
    if ls != [] {
      var pre := ls[..|ls| - 1];
      AddedAllWidened(f, pre, n, k);
      AddedWidened(AddedAll(f, pre), ls[|ls| - 1], n, k);
    }
  }

  /** On an expression built by `add_clause` from lists none of which is
      empty, `optimize` as written and as intended give the same fields:
      the expression itself, since nothing is dropped, no id moves and the
      index and heap are already right. So on every such formula the
      guarantees proved for the intended `optimize` (`Prepare`, `Solve`)
      hold for the code as written. */
  lemma OptimizeAgrees(ls: seq<seq<Lit>>)
    requires |ls| <= 0xFFFF && forall k :: 0 <= k < |ls| ==> ls[k] != []
    ensures var f := AddedAll(Empty, ls);
      OptimizedAsWritten(f) == AddedAll(Kept(f), NonEmpty(Lists(f.clauses))) == f
  {
    var f := AddedAll(Empty, ls);
    AddedAllClauses(Empty, ls);
    AddedAllBuilding(Empty, ls);
    ListsOfNew(ls);
    AsWrittenKeeps(f, ls);
    RebuiltKeeps(f, ls);
    assert NonEmpty(Lists(f.clauses)) == ls;
  }

  /** With no empty clause, `optimize` as written changes nothing in an
      expression that is being built. */
  lemma AsWrittenKeeps(f: Fields, ls: seq<seq<Lit>>)
    requires Building(f) && f.clauses == NewClauses(ls) && forall k :: 0 <= k < |ls| ==> ls[k] != []
    ensures OptimizedAsWritten(f) == f
  {
    ListsOfNew(ls);
    assert NonEmpty(Lists(f.clauses)) == ls;
    assert |ls| % 0x10000 == f.numActiveClauses;
  }

  /** Adding the lists again, from what `optimize` keeps, gives the same
      expression back when nothing was assigned. */
  lemma RebuiltKeeps(f: Fields, ls: seq<seq<Lit>>)
    requires f == AddedAll(Empty, ls)
    requires forall k :: 0 <= k < |f.assignments| ==> f.assignments[k].None?
    ensures AddedAll(Kept(f), ls) == f
  {
    var n, m := |f.assignments|, f.maxClauseLength;
    KeptWidened(f);
    AddedAllWidened(Empty, ls, n, m);
    WidenedSelf(f);
  }

  /** What `optimize` keeps of an expression with nothing assigned is the
      empty expression widened to its assignment and longest length. */
  lemma KeptWidened(f: Fields)
    requires forall k :: 0 <= k < |f.assignments| ==> f.assignments[k].None?
    ensures Kept(f) == Widened(Empty, |f.assignments|, f.maxClauseLength)
  {
    assert Grown(Empty.assignments, |f.assignments|) == f.assignments;
  }

  lemma WidenedSelf(f: Fields)
    ensures Widened(f, |f.assignments|, f.maxClauseLength) == f
  {
    assert Grown(f.assignments, |f.assignments|) == f.assignments;
  }

  /** Enabled clauses are the clauses holding their own lists. */
  lemma RebuiltClauses(cs: seq<Clause>)
    requires forall k :: 0 <= k < |cs| ==> cs[k].enabled
    ensures NewClauses(Lists(cs)) == cs
  {
  }

  /** `Expression` */
  class Expression {
    var clauses: seq<Clause>
    var actions: seq<Action>
    var assignments: seq<Option<bool>>
    /** `literal_to_clause` */
    var literalToClause: map<Lit, set<nat>>
    /** `unit_clauses`, a max-heap of clause ids */
    var unitClauses: multiset<nat>
    /** `num_active_clauses`, a `u16` */
    var numActiveClauses: nat
    var maxClauseLength: nat
    var heuristic: Heuristic
    /** The log read as one group per operation, oldest first. */
    ghost var blocks: seq<Block>
    /** The state just before each group was pushed. */
    ghost var saved: seq<Snapshot>

    /** The fields apart from the heuristic, as one value. */
    function Value(): Fields
      reads this
    {
      Fields(clauses, actions, assignments, literalToClause, unitClauses, numActiveClauses, maxClauseLength)
    }

    /** The solver invariant on the fields and the log. */
    ghost predicate Valid()
      reads this
    {
      Invariant(Value(), blocks, saved)
    }

    /** Still being built by `add_clause`: nothing logged. */
    ghost predicate Built()
      reads this
    {
      Building(Value()) && blocks == [] && saved == []
    }

    method Store(f: Fields)
      modifies this
      ensures Value() == f
      ensures heuristic == old(heuristic) && blocks == old(blocks) && saved == old(saved)
    {
      clauses, actions, assignments, literalToClause := f.clauses, f.actions, f.assignments, f.literalToClause;
      unitClauses, numActiveClauses, maxClauseLength := f.unitClauses, f.numActiveClauses, f.maxClauseLength;
    }

    /** `Expression::new` */
    constructor ()
      ensures Value() == Empty && heuristic == FirstVariable && Built()
    {
      clauses, actions, assignments, literalToClause := [], [], [], map[];
      unitClauses, numActiveClauses, maxClauseLength := multiset{}, 0, 0;
      heuristic := FirstVariable;
      blocks, saved := [], [];
    }

    /** `add_clause` of a clause holding ls: the assignment grows to the
        clause's largest variable, each literal and its negation become
        keys and the literal lists the new id, a one-literal clause goes
        onto the heap. The 65536th clause overflows the `u16` active count
        and panics, which is `ok == false` with nothing changed. */
    method AddClause(ls: seq<Lit>) returns (ok: bool)
      requires Built()
      modifies this
      ensures ok <==> |old(clauses)| < 0xFFFF
      ensures Value() == if ok then Added(old(Value()), ls) else old(Value())
      ensures heuristic == old(heuristic) && Built()
    {
      ok := |clauses| < 0xFFFF;
      if ok {
        var id := |clauses|;
        AddedBuilding(Value(), ls);
        var a, m := Register(assignments, literalToClause, ls, id);
        var units := if |ls| == 1 then unitClauses + multiset{id} else unitClauses;
        var longest := if |ls| > maxClauseLength then |ls| else maxClauseLength;
        Store(Fields(clauses + [Clause(ls, true)], actions, a, m, units, numActiveClauses + 1, longest));
      }
    }

    /** `set_heuristic` */
    method SetHeuristic(h: Heuristic)
      modifies this
      ensures heuristic == h && Value() == old(Value()) && blocks == old(blocks) && saved == old(saved)
    {
      heuristic := h;
    }

    /** `clone`, of an expression still being built: a new expression to
        which each clause is added, which has the same clauses. */
    method Clone() returns (e: Expression)
      requires Built()
      ensures fresh(e) && e.Built() && e.heuristic == FirstVariable
      ensures e.Value() == AddedAll(Empty, Lists(clauses)) && e.clauses == clauses
    {
      var cs := clauses;
      ghost var ls := Lists(cs);
      KeptBuilding(Value());
      e := new Expression();
      for i := 0 to |cs|
        invariant fresh(e) && e.Built() && e.heuristic == FirstVariable
        invariant e.Value() == AddedAll(Empty, ls[..i]) && |e.clauses| == i
      {
        var added := e.AddClause(cs[i].variables);
        AddedAllNext(Empty, ls, i);
      }
      assert ls[..|cs|] == ls;
      AddedAllClauses(Empty, ls);
      RebuiltClauses(clauses);
    }

    /** `optimize` as evidently intended: the empty clauses are dropped and
        the others added again, so that the index and the heap follow the
        new ids; the assignment and the longest length stay, the log is
        emptied. */
    method Optimize()
      requires Built()
      modifies this
      ensures Value() == AddedAll(Kept(old(Value())), NonEmpty(Lists(old(clauses))))
      ensures Built() && heuristic == old(heuristic)
    {
      var kept := NonEmpty(Lists(clauses));
      var start := Kept(Value());
      KeptBuilding(Value());
      Store(start);
      AddAll(kept);
    }

    /** The lists added in turn, none of the additions overflowing. */
    method AddAll(ls: seq<seq<Lit>>)
      requires Built() && |clauses| + |ls| <= 0xFFFF
      modifies this
      ensures Value() == AddedAll(old(Value()), ls)
      ensures Built() && heuristic == old(heuristic)
    {
      ghost var start := Value();
      for i := 0 to |ls|
        invariant Built() && heuristic == old(heuristic)
        invariant Value() == AddedAll(start, ls[..i]) && |clauses| == |start.clauses| + i
      {
        var added := AddClause(ls[i]);
        AddedAllNext(start, ls, i);
      }
      assert ls[..|ls|] == ls;
    }

    /** `from_clauses`: a new expression to which each list is added in
        turn; false when there are more than 65535, the count overflowing. */
    static method FromClauses(ls: seq<seq<Lit>>) returns (ok: bool, e: Expression)
      ensures fresh(e) && e.Built() && e.heuristic == FirstVariable
      ensures ok <==> |ls| <= 0xFFFF
      ensures ok ==> e.Value() == AddedAll(Empty, ls)
    {
      e := new Expression();
      for i := 0 to |ls|
        invariant fresh(e) && e.Built() && e.heuristic == FirstVariable
        invariant e.Value() == AddedAll(Empty, ls[..i]) && |e.clauses| == i
      {
        var added := e.AddClause(ls[i]);
        if !added {
          return false, e;
        }
        AddedAllNext(Empty, ls, i);
      }
      assert ls[..|ls|] == ls;
      ok := true;
    }

    /** `is_satisfied_by(assignment)` as evidently intended: every clause
        holds a literal that the argument makes true. */
    method IsSatisfiedBy(assignment: seq<Option<bool>>) returns (sat: bool)
      ensures sat <==> SatisfiedBy(Lists(clauses), assignment)
    {
      sat := Satisfies(clauses, assignment);
    }

    /** `is_satisfied_by(assignment)` as written: each literal is looked up
        with `get_variable`, in the expression's own assignment, and the
        argument is never read. */
    method IsSatisfiedByAsWritten(assignment: seq<Option<bool>>) returns (sat: bool)
      ensures sat <==> SatisfiedBy(Lists(clauses), assignments)
    {
      sat := Satisfies(clauses, assignments);
    }

    /** `solve_dpll(self, log)` from the top: the log grows by the run's
        entries, a SAT leaf as its newest entry comes with a model of the
        clauses, and `backtrack` has taken the expression back to where it
        started. */
    method SolveDpll(log: seq<Traces.Trace>) returns (log': seq<Traces.Trace>, ghost model: seq<Option<bool>>)
      requires Valid() && blocks == [] && Good(Abs(Value())) && Units(Value()) && heuristic == FirstVariable
      requires Explained(Abs(Value()), Lists(clauses))
      modifies this
      ensures Extended(log, log') && SatModel(log', Lists(old(clauses)), model)
      ensures Valid() && blocks == [] && Abs(Value()) == old(Abs(Value())) && unitClauses == multiset{}
      ensures heuristic == old(heuristic)
    {
      var f;
      f, log', model := MicrosatSolve.SolveDpll(Value(), blocks, saved, Lists(clauses), heuristic, log);
      Store(f);
      blocks, saved := [], [];
    }
  }

  /** The loops of `is_satisfied_by`: each clause in turn must hold a
      literal true in a; the first clause without one answers false. */
  method Satisfies(cs: seq<Clause>, a: seq<Option<bool>>) returns (sat: bool)
    ensures sat <==> SatisfiedBy(Lists(cs), a)
  {
    for i := 0 to |cs|
      invariant forall j :: 0 <= j < i ==> ClauseSatisfied(cs[j].variables, a)
    {
      var satisfied := false;
      var ls := cs[i].variables;
      for j := 0 to |ls|
        invariant forall t :: 0 <= t < j ==> !TrueIn(a, ls[t])
      {
        var variable := Var(ls[j]);
        if variable <= |a| && a[variable - 1] == Some(ls[j] > 0) {
          satisfied := true;
          break;
        }
      }
      ClauseSatisfiedMeaning(ls, a);
      if !satisfied {
        return false;
      }
    }
    return true;
  }

  /** The clause [1] with variable 1 unassigned in the expression and true
      in the argument: the argument satisfies it, the expression's own
      assignment does not, so `is_satisfied_by` as written answers false. */
  lemma IsSatisfiedByIgnoresArgument()
    ensures var cs := [Clause([1], true)];
      SatisfiedBy(Lists(cs), [Some(true)]) && !SatisfiedBy(Lists(cs), [None])
  {
    var cs := [Clause([1], true)];
    assert Lists(cs)[0] == [1];
    ClauseSatisfiedMeaning([1], [Some(true)]);
    ClauseSatisfiedMeaning([1], [None]);
    assert TrueIn([Some(true)], 1);
  }

  /** The corrected `optimize` leaves an expression being built whose
      clauses are the non-empty ones of before, in their order, without
      an empty one. */
  lemma OptimizedReady(f: Fields)
    requires Building(f) && forall k :: 0 <= k < |f.clauses| ==> NoDup(f.clauses[k].variables)
    ensures var g := AddedAll(Kept(f), NonEmpty(Lists(f.clauses)));
      Building(g) && Ready(g.clauses) && Lists(g.clauses) == NonEmpty(Lists(f.clauses))
  {
    var kept := NonEmpty(Lists(f.clauses));
    var g := AddedAll(Kept(f), kept);
    KeptBuilding(f);
    AddedAllBuilding(Kept(f), kept);
    AddedAllClauses(Kept(f), kept);
    var cs := NewClauses(kept);
    assert g.clauses == [] + cs == cs;
    NonEmptyReady(f.clauses);
    ListsOfNew(kept);
  }

  /** The lists of new clauses are the lists they were made from. */
  lemma ListsOfNew(ls: seq<seq<Lit>>)
    ensures Lists(NewClauses(ls)) == ls
  {
    var r := Lists(NewClauses(ls));
    forall k | 0 <= k < |ls| ensures r[k] == ls[k] {
      assert NewClauses(ls)[k] == Clause(ls[k], true);
    }
  }

  /** The non-empty lists of clauses without repeats make ready clauses. */
  lemma NonEmptyReady(cs: seq<Clause>)
    requires forall k :: 0 <= k < |cs| ==> NoDup(cs[k].variables)
    ensures Ready(NewClauses(NonEmpty(Lists(cs))))
  {
    var kept := NonEmpty(Lists(cs));
    forall k | 0 <= k < |kept| ensures kept[k] != [] && NoDup(kept[k]) {
      assert kept[k] in Lists(cs);
      var j :| 0 <= j < |cs| && Lists(cs)[j] == kept[k];
    }
  }

  /** `solve`: `solve_dpll` on an optimized clone with the heuristic
      `FirstVariable`. The log grows by the run's entries, and a SAT leaf as
      the newest entry comes with an assignment that satisfies every
      non-empty clause of the expression. */
  method Solve(e: Expression, log: seq<Traces.Trace>) returns (log': seq<Traces.Trace>, ghost model: seq<Option<bool>>)
    requires e.Built() && forall k :: 0 <= k < |e.clauses| ==> NoDup(e.clauses[k].variables)
    ensures Extended(log, log') && SatModel(log', NonEmpty(Lists(e.clauses)), model)
  {
    var m := Prepare(e);
    log', model := m.SolveDpll(log);
  }

  /** What the model `solve` finds is checked against: the clauses that
      are not empty. It satisfies every such clause of the formula, and
      so the formula itself when the formula has no empty clause; with an
      empty clause the formula has no model at all, since an empty clause
      has no literal to make true. */
  lemma SolvedAgainst(ls: seq<seq<Lit>>, model: seq<Option<bool>>)
    ensures SatisfiedBy(NonEmpty(ls), model) <==>
              forall k :: 0 <= k < |ls| && ls[k] != [] ==> ClauseSatisfied(ls[k], model)
    ensures [] in ls ==> !SatisfiedBy(ls, model)
  {
    var r := NonEmpty(ls);
    if SatisfiedBy(r, model) {
      forall k | 0 <= k < |ls| && ls[k] != []
        ensures ClauseSatisfied(ls[k], model)
      {
        assert ls[k] in r;
      }
    }
    if forall k :: 0 <= k < |ls| && ls[k] != [] ==> ClauseSatisfied(ls[k], model) {
      forall j | 0 <= j < |r|
        ensures ClauseSatisfied(r[j], model)
      {
        assert r[j] in ls;
      }
    }
    if [] in ls {
      var k :| 0 <= k < |ls| && ls[k] == [];
      assert !ClauseSatisfied(ls[k], model);
    }
  }

  /** "p cnf 1 1" followed by "0": one empty clause, so no model exists,
      while the clauses `solve` searches are none at all and every
      assignment satisfies them. */
  lemma EmptyClauseDropped(model: seq<Option<bool>>)
    ensures NonEmpty([[]]) == [] && SatisfiedBy(NonEmpty([[]]), model)
    ensures !SatisfiedBy([[]], model)
  {
    var ls: seq<seq<Lit>> := [[]];
    assert ls[1..] == [];
    SolvedAgainst(ls, model);
  }

  /** The first three steps of `solve`: the clone, `optimize` and
      `set_heuristic(FirstVariable)`, which leave a new expression ready
      for the search on the clauses that are not empty. */
  method Prepare(e: Expression) returns (m: Expression)
    requires e.Built() && forall k :: 0 <= k < |e.clauses| ==> NoDup(e.clauses[k].variables)
    ensures fresh(m) && m.Valid() && m.blocks == [] && m.heuristic == FirstVariable
    ensures Good(Abs(m.Value())) && Units(m.Value())
    ensures Explained(Abs(m.Value()), Lists(m.clauses)) && Lists(m.clauses) == NonEmpty(Lists(e.clauses))
  {
    m := e.Clone();
    AddedAllCovered(Empty, Lists(e.clauses));
    ghost var f := m.Value();
    m.Optimize();
    OptimizedSolvable(f);
    m.SetHeuristic(FirstVariable);
  }

  /** The optimized copy of a covered expression whose clauses repeat no
      literal is ready for the search, on the clauses that are not empty. */
  lemma OptimizedSolvable(f: Fields)
    requires Building(f) && Covered(f) && forall k :: 0 <= k < |f.clauses| ==> NoDup(f.clauses[k].variables)
    ensures var g := AddedAll(Kept(f), NonEmpty(Lists(f.clauses)));
      Invariant(g, [], []) && Units(g) && Good(Abs(g)) &&
      Explained(Abs(g), Lists(g.clauses)) && Lists(g.clauses) == NonEmpty(Lists(f.clauses))
  {
    var g := AddedAll(Kept(f), NonEmpty(Lists(f.clauses)));
    OptimizedReady(f);
    AddedAllCovered(Kept(f), NonEmpty(Lists(f.clauses)));
    ReadyToSolve(g);
  }

  // ---------------------------------------------------------------------
  // `parse_dimacs`

  /** The literal loop of `parse_dimacs` on the tokens of a clause line,
      from the clause c: each token must parse as an `i16` (else a panic,
      None); 0 ends the clause; -32768 makes `add_clause` panic when it
      takes the variable; any other literal is added by `insert_checked`. */
  function ClauseOf(tokens: seq<string>, c: Clause): (r: Option<Clause>)
    ensures r.Some? ==> r.value.enabled == c.enabled && c.variables <= r.value.variables
    ensures r.Some? && NoDup(c.variables) ==> NoDup(r.value.variables)
    decreases |tokens|
  {
    if tokens == [] then Some(c)
    else
      var v := RustParseSigned(tokens[0], -0x8000, 0x7FFF);
      if v.None? || v.value == -0x8000 then None
      else if v.value == 0 then Some(c)
      else ClauseOf(tokens[1..], InsertChecked(c, v.value))
  }

  /** What one line of the file does to the expression being parsed, None
      for a panic: comment lines, empty lines and lines starting with '%'
      are skipped; a problem line needs a variable count (a `usize`), which
      resets the assignment to that many unassigned variables, and a clause
      count (a `u16`); any other line is a clause, added by `add_clause`. */
  function ParsedLine(f: Fields, line: string): (r: Option<Fields>)
    requires Building(f)
    ensures r.Some? ==> Building(r.value)
    ensures r.Some? && (forall k :: 0 <= k < |f.clauses| ==> NoDup(f.clauses[k].variables)) ==>
      forall k :: 0 <= k < |r.value.clauses| ==> NoDup(r.value.clauses[k].variables)
  {
    if StartsWith(line, "c") || line == [] || StartsWith(line, "%") then Some(f)
    else if StartsWith(line, "p") then
      var parts := RustSplit(line);
      if |parts| < 3 || RustParseUnsigned(parts[2], UsizeMax).None? then None
      else if |parts| < 4 || RustParseUnsigned(parts[3], 0xFFFF).None? then None
      else Some(f.(assignments := seq(RustParseUnsigned(parts[2], UsizeMax).value, _ => None)))
    else
      var c := ClauseOf(RustSplit(line), NewClause);
      if c.None? || |f.clauses| >= 0xFFFF then None
      else
        AddedBuilding(f, c.value.variables);
        Some(Added(f, c.value.variables))
  }

  /** The lines of the file one after the other, from f. */
  function Dimacs(f: Fields, lines: seq<string>): (r: Option<Fields>)
    requires Building(f)
    ensures r.Some? ==> Building(r.value)
    ensures r.Some? && (forall k :: 0 <= k < |f.clauses| ==> NoDup(f.clauses[k].variables)) ==>
      forall k :: 0 <= k < |r.value.clauses| ==> NoDup(r.value.clauses[k].variables)
    decreases |lines|
  {
    if lines == [] then Some(f)
    else match ParsedLine(f, lines[0])
      case None => None
      case Some(g) => Dimacs(g, lines[1..])
  }

  /** `parse_dimacs` of the file's text: an expression that is still being
      built, as the lines make it, whose clauses never repeat a literal,
      so that `solve` can take it; false for a line that panics. */
  method ParseDimacs(text: string) returns (ok: bool, e: Expression)
    ensures fresh(e)
    ensures ok <==> Dimacs(Empty, RustLines(text)).Some?
    ensures ok ==> e.Value() == Dimacs(Empty, RustLines(text)).value && e.Built() && e.heuristic == FirstVariable
    ensures ok ==> forall k :: 0 <= k < |e.clauses| ==> NoDup(e.clauses[k].variables)
  {
    e := new Expression();
    var lines := RustLines(text);
    for i := 0 to |lines|
      invariant fresh(e) && e.Built() && e.heuristic == FirstVariable
      invariant forall k :: 0 <= k < |e.clauses| ==> NoDup(e.clauses[k].variables)
      invariant Dimacs(Empty, lines) == Dimacs(e.Value(), lines[i..])
    {
      assert lines[i..][1..] == lines[i + 1..];
      var lineOk := ParseLine(e, lines[i]);
      if !lineOk {
        return false, e;
      }
    }
    ok := true;
  }

  /** One line of `parse_dimacs`. */
  method ParseLine(e: Expression, line: string) returns (ok: bool)
    requires e.Built()
    modifies e
    ensures ok <==> ParsedLine(old(e.Value()), line).Some?
    ensures ok ==> e.Value() == ParsedLine(old(e.Value()), line).value && e.Built()
    ensures e.heuristic == old(e.heuristic)
  {
    if StartsWith(line, "c") || line == [] || StartsWith(line, "%") {
      return true;
    }
    if StartsWith(line, "p") {
      var parts := RustSplit(line);
      if |parts| < 3 {
        return false;
      }
      var numVars := RustParseUnsigned(parts[2], UsizeMax);
      if numVars.None? {
        return false;
      }
      e.assignments := seq(numVars.value, _ => None);
      return |parts| >= 4 && RustParseUnsigned(parts[3], 0xFFFF).Some?;
    }
    var clause := ParseClause(RustSplit(line));
    if clause.None? {
      return false;
    }
    ok := e.AddClause(clause.value.variables);
  }

  /** The literal loop of one clause line. */
  method ParseClause(tokens: seq<string>) returns (c: Option<Clause>)
    ensures c == ClauseOf(tokens, NewClause)
  {
    var clause := NewClause;
    var j := 0;
    while j < |tokens|
      invariant 0 <= j <= |tokens|
      invariant ClauseOf(tokens, NewClause) == ClauseOf(tokens[j..], clause)
    {
      assert tokens[j..][1..] == tokens[j + 1..];
      var value := RustParseSigned(tokens[j], -0x8000, 0x7FFF);
      if value.None? || value.value == -0x8000 {
        return None;
      }
      if value.value == 0 {
        return Some(clause);
      }
      clause := InsertChecked(clause, value.value);
      j := j + 1;
    }
    return Some(clause);
  }
}
