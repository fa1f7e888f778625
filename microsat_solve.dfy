/** The search of src/structures/microsat.rs: `pop_unit_clause`,
    `remove_unit_clause`, `is_satisfied`, `get_branch_variable` and
    `solve_dpll`, which propagates unit clauses, branches on a variable and
    records what it did as `Trace` entries. What is proved: each call of
    `solve_dpll` leaves the expression exactly as it was before the
    speculation of its caller (before everything, at the top), and a
    recorded SAT verdict comes with an assignment under which every
    clause the search started from holds. */
module MicrosatSolve {
  import opened Text
  import opened MicrosatClauses
  import opened MicrosatState
  import opened MicrosatExpr
  import opened MicrosatOps
  import Traces

  // ---------------------------------------------------------------------
  // What a SAT verdict means

  /** The literal is true under the assignment. */
  predicate TrueIn(a: seq<Option<bool>>, x: Lit) {
    Var(x) <= |a| && a[Var(x) - 1] == Some(x > 0)
  }

  /** Some literal of the clause is true. */
  predicate Holds(c: multiset<Lit>, a: seq<Option<bool>>) {
    exists x :: x in c && TrueIn(a, x)
  }

  /** The inner loop of `is_satisfied_by`: some literal of the clause has
      its variable assigned the literal's polarity. */
  predicate ClauseSatisfied(ls: seq<Lit>, a: seq<Option<bool>>)
    decreases |ls|
  {
    ls != [] && (TrueIn(a, ls[0]) || ClauseSatisfied(ls[1..], a))
  }

  lemma {:induction false} ClauseSatisfiedMeaning(ls: seq<Lit>, a: seq<Option<bool>>)
    ensures ClauseSatisfied(ls, a) <==> exists i :: 0 <= i < |ls| && TrueIn(a, ls[i])
    decreases |ls|
  {
    if ls != [] {
      ClauseSatisfiedMeaning(ls[1..], a);
      if exists i :: 0 <= i < |ls| && TrueIn(a, ls[i]) {
        var i :| 0 <= i < |ls| && TrueIn(a, ls[i]);
        if i > 0 {
          assert TrueIn(a, ls[1..][i - 1]);
        }
      }
      if exists i :: 0 <= i < |ls[1..]| && TrueIn(a, ls[1..][i]) {
        var i :| 0 <= i < |ls[1..]| && TrueIn(a, ls[1..][i]);
        assert TrueIn(a, ls[i + 1]);
      }
    }
  }

  /** What `is_satisfied_by` decides: every clause is satisfied. */
  predicate SatisfiedBy(cs: seq<seq<Lit>>, a: seq<Option<bool>>) {
    forall k :: 0 <= k < |cs| ==> ClauseSatisfied(cs[k], a)
  }

  /** The state against the clauses orig the search started from: each
      clause holds a part of its original literals, and each disabled
      clause holds a literal that is true. */
  predicate Explained(s: Snapshot, orig: seq<seq<Lit>>) {
    |orig| == |s.lits| && |s.lits| == |s.enabled| &&
    (forall k :: 0 <= k < |s.lits| ==> s.lits[k] <= multiset(orig[k])) &&
    (forall k :: 0 <= k < |s.enabled| && !s.enabled[k] ==> Holds(s.lits[k], s.assignments))
  }

  /** Once every clause is disabled the assignment satisfies orig. */
  lemma ExplainedSat(s: Snapshot, orig: seq<seq<Lit>>)
    requires Explained(s, orig) && forall k :: 0 <= k < |s.enabled| ==> !s.enabled[k]
    ensures SatisfiedBy(orig, s.assignments)
  {
    forall k | 0 <= k < |orig| ensures ClauseSatisfied(orig[k], s.assignments) {
      var x :| x in s.lits[k] && TrueIn(s.assignments, x);
      assert x in multiset(orig[k]);
      var i :| 0 <= i < |orig[k]| && orig[k][i] == x;
      ClauseSatisfiedMeaning(orig[k], s.assignments);
    }
  }

  /** A clause the index lists under an unassigned literal is enabled. */
  lemma ListedEnabled(s: Snapshot, l: Lit, k: nat)
    requires IndexChecked(s) && Free(s.assignments, l) && k < |s.enabled| && !s.enabled[k]
    ensures !(l in s.index && k in s.index[l])
  {
  }

  /** The assignment after `assign_variable` when no clause became empty. */
  lemma AssignedAssignments(s0: Snapshot, s2: Snapshot, s3: Snapshot, v: nat, value: bool)
    requires AssignedStep(s0, s2, s3, v, value)
    ensures s3.assignments == s0.assignments[v - 1 := Some(value)]
    ensures s3.lits == s2.lits && s2.index == s0.index && s2.enabled == s0.enabled
  {
  }

  /** A clause that was already disabled keeps its literals and the true
      literal it holds: the index does not list it under the literal made
      false, and that literal's variable is the only one that changes. */
  lemma ExplainedOld(s0: Snapshot, s2: Snapshot, s3: Snapshot, v: nat, value: bool, k: nat)
    requires IndexChecked(s0) && |s0.lits| == |s0.enabled| && AssignedStep(s0, s2, s3, v, value)
    requires k < |s0.enabled| && !s0.enabled[k] && Holds(s0.lits[k], s0.assignments)
    ensures Holds(s3.lits[k], s3.assignments)
  {
    var neg := Neg(LiteralOf(v, value));
    var x :| x in s0.lits[k] && TrueIn(s0.assignments, x);
    AssignedAssignments(s0, s2, s3, v, value);
    ListedEnabled(s0, neg, k);
    assert s3.lits[k] == s0.lits[k];
    assert TrueIn(s3.assignments, x);
  }

  /** A clause disabled by the assignment holds the literal made true. */
  lemma ExplainedNew(s0: Snapshot, s2: Snapshot, s3: Snapshot, v: nat, value: bool, k: nat)
    requires IndexChecked(s0) && |s0.lits| == |s0.enabled| && AssignedStep(s0, s2, s3, v, value)
    requires k < |s0.enabled| && s0.enabled[k] && !s3.enabled[k]
    ensures Holds(s3.lits[k], s3.assignments)
  {
    var lit := LiteralOf(v, value);
    AssignedAssignments(s0, s2, s3, v, value);
    assert lit in s0.index && k in s0.index[lit];
    assert Free(s0.assignments, lit);
    assert lit in s0.lits[k];
    assert lit in s3.lits[k];
    assert TrueIn(s3.assignments, lit);
  }

  /** `assign_variable` keeps the state explained: a clause it disables
      holds the literal made true, and the literal it takes out of clauses
      is the false one. */
  lemma ExplainedAssign(s0: Snapshot, s2: Snapshot, s3: Snapshot, v: nat, value: bool, orig: seq<seq<Lit>>)
    requires Good(s0) && AssignedStep(s0, s2, s3, v, value) && Explained(s0, orig)
    ensures Explained(s3, orig)
  {
    AssignedAssignments(s0, s2, s3, v, value);
    forall k | 0 <= k < |s3.lits| ensures s3.lits[k] <= multiset(orig[k]) {
      assert s2.lits[k] <= s0.lits[k] <= multiset(orig[k]);
    }
    forall k | 0 <= k < |s3.enabled| && !s3.enabled[k] ensures Holds(s3.lits[k], s3.assignments) {
      if s0.enabled[k] {
        ExplainedNew(s0, s2, s3, v, value, k);
      } else {
        ExplainedOld(s0, s2, s3, v, value, k);
      }
    }
  }

  /** The number of unassigned variables, which each assignment lowers. */
  function Unassigned(a: seq<Option<bool>>): nat {
    |a| - Somes(a)
  }

  lemma UnassignedSet(a: seq<Option<bool>>, v: nat, value: bool)
    requires 1 <= v <= |a| && a[v - 1].None?
    ensures Unassigned(a[v - 1 := Some(value)]) + 1 == Unassigned(a)
  {
    SomesUpdate(a, v - 1, Some(value));
  }

  // ---------------------------------------------------------------------
  // Where a call of `solve_dpll` returns to

  /** The state `backtrack` returns to from groups bs pushed on the states
      sv of a state s: the one saved before the newest speculation, or the
      first saved state when there is none (s itself for an empty log). */
  function Target(bs: seq<Block>, sv: seq<Snapshot>, s: Snapshot): Snapshot
    requires |sv| == |bs|
  {
    if bs == [] then s else sv[LastSpec(bs)]
  }

  /** bs', sv' (on the state s') reach back to the same place as bs, sv
      (on s): the same newest speculation, the same groups and saved states
      before it, and the same state to return to. */
  ghost predicate Based(bs: seq<Block>, sv: seq<Snapshot>, s: Snapshot, bs': seq<Block>, sv': seq<Snapshot>, s': Snapshot) {
    |sv| == |bs| && |sv'| == |bs'| && LastSpec(bs') == LastSpec(bs) &&
    bs'[..LastSpec(bs)] == bs[..LastSpec(bs)] && sv'[..LastSpec(bs)] == sv[..LastSpec(bs)] &&
    Target(bs', sv', s') == Target(bs, sv, s)
  }

  lemma BasedTrans(bs: seq<Block>, sv: seq<Snapshot>, s: Snapshot, bs1: seq<Block>, sv1: seq<Snapshot>, s1: Snapshot,
                   bs2: seq<Block>, sv2: seq<Snapshot>, s2: Snapshot)
    requires Based(bs, sv, s, bs1, sv1, s1) && Based(bs1, sv1, s1, bs2, sv2, s2)
    ensures Based(bs, sv, s, bs2, sv2, s2)
  {
  }

  /** A push that is no speculation keeps the place to return to. */
  lemma PushedBased(bs: seq<Block>, sv: seq<Snapshot>, s: Snapshot, bs': seq<Block>, sv': seq<Snapshot>, s': Snapshot, b: Block)
    requires |sv| == |bs| && |sv'| == |bs'| && Pushed(bs, bs', b) && !b.Speculation? && sv'[..|bs| + 1] == sv + [s]
    ensures Based(bs, sv, s, bs', sv', s')
  {
    var j := LastSpec(bs);
    assert forall i :: |bs| <= i < |bs'| ==> !bs'[i].Speculation? by {
      forall i | |bs| <= i < |bs'| ensures !bs'[i].Speculation? {
        if i > |bs| {
          assert bs'[i] == bs'[|bs| + 1..][i - |bs| - 1];
        }
      }
    }
    assert forall i :: 0 <= i < |bs| ==> bs'[i] == bs[i];
    if j < |bs| && bs[j].Speculation? {
      assert bs'[j].Speculation?;
    } else {
      assert NoSpec(bs');
    }
    assert sv'[..j] == sv[..j] && bs'[..j] == bs[..j];
    assert sv'[j] == (sv + [s])[j];
  }

  /** After a speculation is pushed `backtrack` returns to the state it
      was pushed on. */
  lemma SpecBased(bs: seq<Block>, sv: seq<Snapshot>, s: Snapshot, bs': seq<Block>, sv': seq<Snapshot>, v: nat)
    requires |sv| == |bs| && |sv'| == |bs'| && Pushed(bs, bs', Speculation(v)) && sv'[..|bs| + 1] == sv + [s]
    ensures LastSpec(bs') == |bs| && bs'[..|bs|] == bs && sv'[..|bs|] == sv && bs' != [] && sv'[|bs|] == s
  {
    forall i | |bs| < i < |bs'| ensures !bs'[i].Speculation? {
      assert bs'[i] == bs'[|bs| + 1..][i - |bs| - 1];
    }
    assert bs'[|bs|].Speculation?;
    assert sv'[|bs|] == (sv + [s])[|bs|];
    assert sv'[..|bs|] == (sv + [s])[..|bs|];
  }

  // ---------------------------------------------------------------------
  // The operations

  /** A non-empty set of ids has a largest one. */
  lemma {:induction false} Largest(ids: set<nat>) returns (t: nat)
    requires ids != {}
    ensures t in ids && forall id :: id in ids ==> id <= t
    decreases |ids|
  {
    var x :| x in ids;
    var rest := ids - {x};
    if rest == {} {
      t := x;
      forall id | id in ids ensures id <= t {
        assert id !in rest;
      }
    } else {
      var u := Largest(rest);
      t := if x < u then u else x;
      forall id | id in ids ensures id <= t {
        if id != x {
          assert id in rest;
        }
      }
    }
  }

  /** Clause id is an enabled clause of one literal. */
  predicate UnitAt(f: Fields, id: nat) {
    id < |f.clauses| && f.clauses[id].enabled && |f.clauses[id].variables| == 1
  }

  /** `pop_unit_clause`: nothing from an empty heap, or else the largest id
      of the max-heap, which leaves it. */
  method PopUnitClause(f: Fields) returns (r: Option<nat>, f': Fields)
    ensures r.None? <==> f.unitClauses == multiset{}
    ensures r.None? ==> f' == f
    ensures r.Some? ==> r.value in f.unitClauses && (forall id :: id in f.unitClauses ==> id <= r.value)
    ensures r.Some? ==> f' == f.(unitClauses := f.unitClauses - multiset{r.value})
    ensures Units(f) ==> Units(f') && (r.Some? ==> UnitAt(f', r.value))
  {
    if f.unitClauses == multiset{} {
      return None, f;
    }
    var ids := set id | id in f.unitClauses;
    assert ids != {} by {
      var id :| id in f.unitClauses;
      assert id in ids;
    }
    ghost var t := Largest(ids);
    forall id | id in f.unitClauses ensures id <= t {
      assert id in ids;
    }
    var top :| top in f.unitClauses && forall id :: id in f.unitClauses ==> id <= top;
    r, f' := Some(top), f.(unitClauses := f.unitClauses - multiset{top});
  }

  /** An expression in the solver invariant has no empty clause. */
  lemma GoodNoEmpty(f: Fields)
    requires Good(Abs(f))
    ensures NoEmpty(f)
  {
    forall k | 0 <= k < |f.clauses| ensures f.clauses[k].variables != [] {
      assert |Abs(f).lits[k]| > 0;
    }
  }

  /** The literal of an enabled clause is unassigned. */
  lemma FirstFree(f: Fields, id: nat)
    requires Good(Abs(f)) && id < |f.clauses| && f.clauses[id].enabled && f.clauses[id].variables != []
    ensures Free(f.assignments, f.clauses[id].variables[0])
    ensures LiteralOf(Var(f.clauses[id].variables[0]), f.clauses[id].variables[0] > 0) == f.clauses[id].variables[0]
  {
    var s := Abs(f);
    var x := f.clauses[id].variables[0];
    assert s.lits[id] == multiset(f.clauses[id].variables);
    assert x in s.lits[id];
    assert s.enabled[id];
    assert LiveClauses(s);
  }

  /** `remove_unit_clause`: the first literal of the clause is made true by
      a `assign_variable` that is no speculation. */
  method RemoveUnitClause(f: Fields, ghost bs: seq<Block>, ghost sv: seq<Snapshot>, id: nat)
      returns (r: Option<nat>, f': Fields, ghost bs': seq<Block>, ghost sv': seq<Snapshot>, ghost mid: Snapshot)
    requires Invariant(f, bs, sv) && Good(Abs(f))
    requires id < |f.clauses| && f.clauses[id].enabled && f.clauses[id].variables != []
    ensures var l := f.clauses[id].variables[0];
      Invariant(f', bs', sv') && Pushed(bs, bs', Assignment(Var(l))) && sv'[..|bs| + 1] == sv + [Abs(f)] &&
      (r.Some? ==> r.value < |f.clauses|) &&
      (r.None? ==> AssignedStep(Abs(f), mid, Abs(f'), Var(l), l > 0)) &&
      (r.None? && Units(f) ==> Units(f'))
  {
    GoodNoEmpty(f);
    FirstFree(f, id);
    var literal := f.clauses[id].variables[0];
    r, f', bs', sv', mid := MicrosatOps.AssignVariable(f, bs, sv, Var(literal), literal > 0, false);
  }

  /** `is_satisfied` */
  function IsSatisfied(f: Fields): bool {
    f.numActiveClauses == 0
  }

  /** An expression is satisfied exactly when all of its clauses are
      disabled. */
  lemma SatisfiedMeaning(f: Fields, bs: seq<Block>, sv: seq<Snapshot>)
    requires Invariant(f, bs, sv)
    ensures IsSatisfied(f) <==> forall k :: 0 <= k < |f.clauses| ==> !f.clauses[k].enabled
  {
    var flags := Flags(f.clauses);
    TruesNone(flags);
    assert (forall k :: 0 <= k < |flags| ==> !flags[k]) <==> forall k :: 0 <= k < |f.clauses| ==> !f.clauses[k].enabled by {
      assert forall k :: 0 <= k < |f.clauses| ==> flags[k] == f.clauses[k].enabled;
    }
  }

  /** `assignments.iter().position(|x| x.is_none())` */
  function FirstUnassigned(a: seq<Option<bool>>): (i: Option<nat>)
    ensures i.Some? <==> exists k :: 0 <= k < |a| && a[k].None?
    ensures i.Some? ==> i.value < |a| && a[i.value].None? && forall k :: 0 <= k < i.value ==> a[k].Some?
    decreases |a|
  {
    if a == [] then None
    else if a[0].None? then Some(0)
    else match FirstUnassigned(a[1..])
      case None => assert forall k :: 1 <= k < |a| ==> a[k] == a[1..][k - 1]; None
      case Some(i) => assert forall k :: 1 <= k < |a| ==> a[k] == a[1..][k - 1]; Some(i + 1)
  }

  /** `get_branch_variable`: under FirstVariable the lowest unassigned
      variable (numbered from 1) with the value false. Nothing where the
      source panics: when every variable is assigned (the `unwrap`) and for
      the other heuristics (`unimplemented!`, `unreachable!`). */
  function GetBranchVariable(h: Heuristic, a: seq<Option<bool>>): (r: Option<(nat, bool)>)
    ensures r.Some? <==> h == FirstVariable && exists k :: 0 <= k < |a| && a[k].None?
    ensures r.Some? ==> 1 <= r.value.0 <= |a| && a[r.value.0 - 1].None? && !r.value.1
    ensures r.Some? ==> forall k :: 0 <= k < r.value.0 - 1 ==> a[k].Some?
  {
    if h != FirstVariable then None
    else match FirstUnassigned(a)
      case None => None
      case Some(i) => Some((i + 1, false))
  }

  /** An expression that is not satisfied has an unassigned variable: an
      enabled clause is not empty and its literals are unassigned. */
  lemma UnsatisfiedFree(f: Fields, bs: seq<Block>, sv: seq<Snapshot>)
    requires Invariant(f, bs, sv) && Good(Abs(f)) && !IsSatisfied(f)
    ensures exists k :: 0 <= k < |f.assignments| && f.assignments[k].None?
  {
    SatisfiedMeaning(f, bs, sv);
    var id :| 0 <= id < |f.clauses| && f.clauses[id].enabled;
    GoodNoEmpty(f);
    FirstFree(f, id);
    var x := f.clauses[id].variables[0];
    assert f.assignments[Var(x) - 1].None?;
  }

  // ---------------------------------------------------------------------
  // Unit propagation: the `while let` loop of `solve_dpll`

  /** What the propagation loop keeps of the state g it reached from f:
      the solver invariant, the explanation of the disabled clauses, the
      place `backtrack` returns to, and no more unassigned variables. */
  ghost predicate Propagating(f: Fields, bs: seq<Block>, sv: seq<Snapshot>, orig: seq<seq<Lit>>,
                              g: Fields, gbs: seq<Block>, gsv: seq<Snapshot>) {
    Invariant(g, gbs, gsv) && Good(Abs(g)) && Explained(Abs(g), orig) &&
    Based(bs, sv, Abs(f), gbs, gsv, Abs(g)) && Unassigned(g.assignments) <= Unassigned(f.assignments)
  }

  lemma PropagatingStart(f: Fields, bs: seq<Block>, sv: seq<Snapshot>, orig: seq<seq<Lit>>)
    requires Invariant(f, bs, sv) && Good(Abs(f)) && Explained(Abs(f), orig)
    ensures Propagating(f, bs, sv, orig, f, bs, sv)
  {
  }

  lemma PropagatingEnd(f: Fields, bs: seq<Block>, sv: seq<Snapshot>, orig: seq<seq<Lit>>,
                       g: Fields, gbs: seq<Block>, gsv: seq<Snapshot>)
    requires Propagating(f, bs, sv, orig, g, gbs, gsv)
    ensures Invariant(g, gbs, gsv) && Based(bs, sv, Abs(f), gbs, gsv, Abs(g))
    ensures Good(Abs(g)) && Explained(Abs(g), orig) && Unassigned(g.assignments) <= Unassigned(f.assignments)
  {
  }

  /** An assignment without conflict keeps what the loop keeps and lowers
      the number of unassigned variables. */
  lemma PropagatingStep(f: Fields, bs: seq<Block>, sv: seq<Snapshot>, orig: seq<seq<Lit>>,
                        g: Fields, gbs: seq<Block>, gsv: seq<Snapshot>,
                        h: Fields, hbs: seq<Block>, hsv: seq<Snapshot>, mid: Snapshot, v: nat, value: bool)
    requires Propagating(f, bs, sv, orig, g, gbs, gsv)
    requires Invariant(h, hbs, hsv) && Pushed(gbs, hbs, Assignment(v)) && hsv[..|gbs| + 1] == gsv + [Abs(g)]
    requires AssignedStep(Abs(g), mid, Abs(h), v, value)
    ensures Propagating(f, bs, sv, orig, h, hbs, hsv)
    ensures Unassigned(h.assignments) < Unassigned(g.assignments)
  {
    GoodAfterAssign(Abs(g), mid, Abs(h), v, value);
    ExplainedAssign(Abs(g), mid, Abs(h), v, value, orig);
    AssignedAssignments(Abs(g), mid, Abs(h), v, value);
    UnassignedSet(g.assignments, v, value);
    PushedBased(gbs, gsv, Abs(g), hbs, hsv, Abs(h), Assignment(v));
    BasedTrans(bs, sv, Abs(f), gbs, gsv, Abs(g), hbs, hsv, Abs(h));
  }

  /** A conflict still returns to the same place. */
  lemma PropagatingConflict(f: Fields, bs: seq<Block>, sv: seq<Snapshot>, orig: seq<seq<Lit>>,
                            g: Fields, gbs: seq<Block>, gsv: seq<Snapshot>,
                            h: Fields, hbs: seq<Block>, hsv: seq<Snapshot>, v: nat)
    requires Propagating(f, bs, sv, orig, g, gbs, gsv)
    requires Invariant(h, hbs, hsv) && Pushed(gbs, hbs, Assignment(v)) && hsv[..|gbs| + 1] == gsv + [Abs(g)]
    ensures Based(bs, sv, Abs(f), hbs, hsv, Abs(h))
  {
    PushedBased(gbs, gsv, Abs(g), hbs, hsv, Abs(h), Assignment(v));
    BasedTrans(bs, sv, Abs(f), gbs, gsv, Abs(g), hbs, hsv, Abs(h));
  }

  /** One turn of the loop: the literal of the unit clause id is made
      true. */
  method PropagateUnit(ghost f: Fields, ghost bs: seq<Block>, ghost sv: seq<Snapshot>, ghost orig: seq<seq<Lit>>,
                       g: Fields, ghost gbs: seq<Block>, ghost gsv: seq<Snapshot>, id: nat)
      returns (r: Option<nat>, h: Fields, ghost hbs: seq<Block>, ghost hsv: seq<Snapshot>)
    requires Propagating(f, bs, sv, orig, g, gbs, gsv) && Units(g) && UnitAt(g, id)
    ensures Invariant(h, hbs, hsv) && Based(bs, sv, Abs(f), hbs, hsv, Abs(h))
    ensures r.Some? ==> r.value < 0xFFFF
    ensures r.None? ==> Propagating(f, bs, sv, orig, h, hbs, hsv) && Units(h)
    ensures r.None? ==> Unassigned(h.assignments) < Unassigned(g.assignments)
  {
    ghost var l := g.clauses[id].variables[0];
    ghost var mid;
    r, h, hbs, hsv, mid := RemoveUnitClause(g, gbs, gsv, id);
    if r.Some? {
      PropagatingConflict(f, bs, sv, orig, g, gbs, gsv, h, hbs, hsv, Var(l));
    } else {
      PropagatingStep(f, bs, sv, orig, g, gbs, gsv, h, hbs, hsv, mid, Var(l), l > 0);
    }
  }

  /** `pop_unit_clause` inside the propagation loop: taking an id off the
      heap keeps what the loop keeps. */
  method NextUnit(ghost f: Fields, ghost bs: seq<Block>, ghost sv: seq<Snapshot>, ghost orig: seq<seq<Lit>>,
                  g: Fields, ghost gbs: seq<Block>, ghost gsv: seq<Snapshot>)
      returns (unit: Option<nat>, h: Fields)
    requires Propagating(f, bs, sv, orig, g, gbs, gsv) && Units(g)
    ensures Propagating(f, bs, sv, orig, h, gbs, gsv) && Units(h) && h.assignments == g.assignments
    ensures unit.Some? ==> UnitAt(h, unit.value)
    ensures unit.None? ==> h.unitClauses == multiset{}
  {
    unit, h := PopUnitClause(g);
    assert Abs(h) == Abs(g);
  }

  /** `while let Some(unit_prop) = cnf.pop_unit_clause() { … }`: each unit
      clause popped from the heap has its literal made true, until the heap
      is empty or a clause becomes empty, whose id is returned. */
  method Propagate(f: Fields, ghost bs: seq<Block>, ghost sv: seq<Snapshot>, ghost orig: seq<seq<Lit>>)
      returns (conflict: Option<nat>, f': Fields, ghost bs': seq<Block>, ghost sv': seq<Snapshot>)
    requires Invariant(f, bs, sv) && Good(Abs(f)) && Units(f) && Explained(Abs(f), orig)
    ensures Invariant(f', bs', sv') && Based(bs, sv, Abs(f), bs', sv', Abs(f'))
    ensures conflict.Some? ==> conflict.value < 0xFFFF
    ensures conflict.None? ==> f'.unitClauses == multiset{} && Good(Abs(f')) && Explained(Abs(f'), orig)
    ensures conflict.None? ==> Unassigned(f'.assignments) <= Unassigned(f.assignments)
  {
    PropagatingStart(f, bs, sv, orig);
    conflict, bs', sv' := None, bs, sv;
    var unit;
    unit, f' := NextUnit(f, bs, sv, orig, f, bs', sv');
    while unit.Some?
      invariant Propagating(f, bs, sv, orig, f', bs', sv') && Units(f')
      invariant unit.Some? ==> UnitAt(f', unit.value)
      invariant unit.None? ==> f'.unitClauses == multiset{}
      decreases Unassigned(f'.assignments)
    {
      var r;
      r, f', bs', sv' := PropagateUnit(f, bs, sv, orig, f', bs', sv', unit.value);
      if r.Some? {
        return r, f', bs', sv';
      }
      unit, f' := NextUnit(f, bs, sv, orig, f', bs', sv');
    }
    PropagatingEnd(f, bs, sv, orig, f', bs', sv');
  }

  // ---------------------------------------------------------------------
  // `solve_dpll`

  /** A log that grows: the old entries stay and the newest is a leaf. */
  predicate Extended(log: seq<Traces.Trace>, log': seq<Traces.Trace>) {
    |log'| > |log| && log'[..|log|] == log && !Traces.IsBranch(log'[|log'| - 1])
  }

  /** A SAT leaf as the newest entry of the log comes with a model of orig. */
  predicate SatModel(log: seq<Traces.Trace>, orig: seq<seq<Lit>>, model: seq<Option<bool>>) {
    log != [] && (Traces.IsSat(log[|log| - 1]) ==> SatisfiedBy(orig, model))
  }

  /** Backtracking from a state based like the one a call started on
      tidies up as that call's caller expects. */
  lemma BasedBack(bs: seq<Block>, sv: seq<Snapshot>, s: Snapshot, bs': seq<Block>, sv': seq<Snapshot>, s': Snapshot)
    requires Based(bs, sv, s, bs', sv', s')
    ensures bs'[..LastSpec(bs')] == bs[..LastSpec(bs)] && sv'[..LastSpec(bs')] == sv[..LastSpec(bs)]
    ensures (if bs' == [] then s' else sv'[LastSpec(bs')]) == Target(bs, sv, s)
  {
  }

  lemma ExtendedTrans(log: seq<Traces.Trace>, log': seq<Traces.Trace>, log'': seq<Traces.Trace>)
    requires Extended(log, log') && Extended(log', log'')
    ensures Extended(log, log'')
  {
    assert log''[..|log|] == log''[..|log'|][..|log|];
  }

  /** Filling in the placeholder entry that follows log keeps the log
      extended and its newest entry as it was. */
  lemma Patched(log: seq<Traces.Trace>, log': seq<Traces.Trace>, t: Traces.Trace,
                orig: seq<seq<Lit>>, model: seq<Option<bool>>)
    requires |log'| > |log| + 1 && log'[..|log|] == log && !Traces.IsBranch(log'[|log'| - 1])
    requires SatModel(log', orig, model)
    ensures Extended(log, log'[|log| := t]) && SatModel(log'[|log| := t], orig, model)
  {
    assert log'[|log| := t][..|log|] == log'[..|log|];
  }

  /** A conflict in clause `conflict`: `backtrack` and an UNSAT entry
      holding the propagations it undid. */
  method UnsatLeaf(f: Fields, ghost bs: seq<Block>, ghost sv: seq<Snapshot>, log: seq<Traces.Trace>, conflict: nat)
      returns (f': Fields, log': seq<Traces.Trace>)
    requires Invariant(f, bs, sv) && conflict < 0xFFFF
    ensures Invariant(f', bs[..LastSpec(bs)], sv[..LastSpec(bs)])
    ensures Abs(f') == Target(bs, sv, Abs(f)) && f'.unitClauses == multiset{}
    ensures Extended(log, log') && |log'| == |log| + 1
    ensures Traces.IsUnsat(log'[|log|]) && !Traces.IsSat(log'[|log|])
  {
    var count; ghost var bsDone, svDone;
    count, f', bsDone, svDone := Backtrack(f, bs, sv);
    log' := log + [Traces.UnsatTrace(count, conflict)];
  }

  /** When no clause is active the assignments satisfy every clause of orig. */
  lemma SatisfiedModel(f: Fields, bs: seq<Block>, sv: seq<Snapshot>, orig: seq<seq<Lit>>)
    requires Invariant(f, bs, sv) && Explained(Abs(f), orig) && IsSatisfied(f)
    ensures SatisfiedBy(orig, f.assignments)
  {
    SatisfiedMeaning(f, bs, sv);
    ExplainedSat(Abs(f), orig);
  }

  /** Every clause satisfied: the assignments are a model of orig;
      `backtrack` and a SAT entry holding the propagations it undid. */
  method SatLeaf(f: Fields, ghost bs: seq<Block>, ghost sv: seq<Snapshot>, ghost orig: seq<seq<Lit>>,
                 log: seq<Traces.Trace>)
      returns (f': Fields, log': seq<Traces.Trace>, ghost model: seq<Option<bool>>)
    requires Invariant(f, bs, sv) && Explained(Abs(f), orig) && IsSatisfied(f)
    ensures Invariant(f', bs[..LastSpec(bs)], sv[..LastSpec(bs)])
    ensures Abs(f') == Target(bs, sv, Abs(f)) && f'.unitClauses == multiset{}
    ensures Extended(log, log') && |log'| == |log| + 1
    ensures Traces.IsSat(log'[|log|]) && SatisfiedBy(orig, model)
  {
    SatisfiedModel(f, bs, sv, orig);
    model := f.assignments;
    var count; ghost var bsDone, svDone;
    count, f', bsDone, svDone := Backtrack(f, bs, sv);
    log' := log + [Traces.SatTrace(count)];
  }

  /** The end of a branch: `backtrack`, and the placeholder entry that
      follows log becomes a branch entry holding the propagations it undid
      and the index `right` of the second try's entries. */
  method CloseBranch(f: Fields, ghost bs: seq<Block>, ghost sv: seq<Snapshot>, ghost orig: seq<seq<Lit>>,
                     log: seq<Traces.Trace>, logN: seq<Traces.Trace>, right: nat, ghost model: seq<Option<bool>>)
      returns (f': Fields, log': seq<Traces.Trace>)
    requires Invariant(f, bs, sv)
    requires Extended(log + [Traces.PlaceholderTrace()], logN) && SatModel(logN, orig, model)
    ensures Invariant(f', bs[..LastSpec(bs)], sv[..LastSpec(bs)])
    ensures Abs(f') == Target(bs, sv, Abs(f)) && f'.unitClauses == multiset{}
    ensures Extended(log, log') && SatModel(log', orig, model)
    ensures |log'| == |logN| && log' == logN[|log| := log'[|log|]]
    ensures log'[|log|].rightChild == right % 0x1_0000_0000
  {
    var count; ghost var bsDone, svDone;
    count, f', bsDone, svDone := Backtrack(f, bs, sv);
    log' := logN[|log| := Traces.BranchTrace(count, right)];
    assert logN[..|log|] == logN[..|log| + 1][..|log|];
    Patched(log, logN, Traces.BranchTrace(count, right), orig, model);
  }

  /** `solve_dpll`: propagate the unit clauses; on a conflict log an UNSAT
      leaf, when every clause is satisfied log a SAT leaf, else branch. In
      each case `backtrack` takes the expression back to where the caller's
      speculation was made (to the start at the top), and a SAT leaf as the
      newest entry comes with an assignment that satisfies the clauses orig
      of the expression. */
  method SolveDpll(f: Fields, ghost bs: seq<Block>, ghost sv: seq<Snapshot>, ghost orig: seq<seq<Lit>>,
                   h: Heuristic, log: seq<Traces.Trace>)
      returns (f': Fields, log': seq<Traces.Trace>, ghost model: seq<Option<bool>>)
    requires Invariant(f, bs, sv) && Good(Abs(f)) && Units(f) && Explained(Abs(f), orig) && h == FirstVariable
    ensures Invariant(f', bs[..LastSpec(bs)], sv[..LastSpec(bs)])
    ensures Abs(f') == Target(bs, sv, Abs(f)) && f'.unitClauses == multiset{}
    ensures Extended(log, log') && SatModel(log', orig, model)
    decreases Unassigned(f.assignments), 2
  {
    var conflict, f2, bs2, sv2 := Propagate(f, bs, sv, orig);
    BasedBack(bs, sv, Abs(f), bs2, sv2, Abs(f2));
    if conflict.Some? {
      f2 := f2.(unitClauses := multiset{});
      f', log' := UnsatLeaf(f2, bs2, sv2, log, conflict.value);
      model := [];
      return;
    }
    PropagatingEnd(f, bs, sv, orig, f2, bs2, sv2);
    if IsSatisfied(f2) {
      f', log', model := SatLeaf(f2, bs2, sv2, orig, log);
      return;
    }
    f', log', model := BranchOn(f2, bs2, sv2, orig, h, log);
  }

  /** The branching part of `solve_dpll`: a placeholder entry at my_idx,
      the first unassigned variable tried false and, unless that finds a
      SAT leaf, true; the placeholder becomes a branch entry holding the
      propagations `backtrack` undid and the index of the second try's
      entries (0 when the first try was satisfiable). */
  method BranchOn(f: Fields, ghost bs: seq<Block>, ghost sv: seq<Snapshot>, ghost orig: seq<seq<Lit>>,
                  h: Heuristic, log: seq<Traces.Trace>)
      returns (f': Fields, log': seq<Traces.Trace>, ghost model: seq<Option<bool>>)
    requires Invariant(f, bs, sv) && Good(Abs(f)) && Explained(Abs(f), orig) && h == FirstVariable
    requires f.unitClauses == multiset{} && !IsSatisfied(f)
    ensures Invariant(f', bs[..LastSpec(bs)], sv[..LastSpec(bs)])
    ensures Abs(f') == Target(bs, sv, Abs(f)) && f'.unitClauses == multiset{}
    ensures Extended(log, log') && SatModel(log', orig, model)
    decreases Unassigned(f.assignments), 1
  {
    var myIdx := |log|;
    var log1 := log + [Traces.PlaceholderTrace()];
    UnsatisfiedFree(f, bs, sv);
    var choice := GetBranchVariable(h, f.assignments);
    var v, value := choice.value.0, choice.value.1;
    var recursed, f3, log3, model3 := TryBranch(f, bs, sv, orig, h, log1, v, value);
    if recursed && Traces.IsSat(log3[|log3| - 1]) {
      f', log' := CloseBranch(f3, bs, sv, orig, log, log3, 0, model3);
      model := model3;
      return;
    }
    var rightIdx := |log3|;
    var recursed2, f4, log4, model4 := TryBranch(f3, bs, sv, orig, h, log3, v, !value);
    ExtendedTrans(log1, log3, log4);
    f', log' := CloseBranch(f4, bs, sv, orig, log, log4, rightIdx, model4);
    model := model4;
  }

  /** `branch_variable(variable, value)` and what follows it: a conflict
      is undone by `backtrack` and logged as an UNSAT leaf; otherwise
      `solve_dpll` goes on below the speculation and undoes it. Either way
      the expression is as before. */
  method TryBranch(f: Fields, ghost bs: seq<Block>, ghost sv: seq<Snapshot>, ghost orig: seq<seq<Lit>>,
                   h: Heuristic, log: seq<Traces.Trace>, v: nat, value: bool)
      returns (recursed: bool, f': Fields, log': seq<Traces.Trace>, ghost model: seq<Option<bool>>)
    requires Invariant(f, bs, sv) && Good(Abs(f)) && Explained(Abs(f), orig) && h == FirstVariable
    requires f.unitClauses == multiset{} && 1 <= v <= |f.assignments| && f.assignments[v - 1].None?
    ensures Invariant(f', bs, sv) && Abs(f') == Abs(f) && f'.unitClauses == multiset{}
    ensures Extended(log, log') && SatModel(log', orig, model)
    ensures Traces.IsSat(log'[|log'| - 1]) ==> recursed
    decreases Unassigned(f.assignments), 0
  {
    GoodNoEmpty(f);
    var r, f1, bs1, sv1, mid := MicrosatOps.AssignVariable(f, bs, sv, v, value, true);
    SpecBased(bs, sv, Abs(f), bs1, sv1, v);
    if r.Some? {
      f', log' := UnsatLeaf(f1, bs1, sv1, log, r.value);
      recursed, model := false, [];
      return;
    }
    GoodAfterAssign(Abs(f), mid, Abs(f1), v, value);
    ExplainedAssign(Abs(f), mid, Abs(f1), v, value, orig);
    AssignedAssignments(Abs(f), mid, Abs(f1), v, value);
    UnassignedSet(f.assignments, v, value);
    assert Units(f1);
    f', log', model := SolveDpll(f1, bs1, sv1, orig, h, log);
    assert bs1[..LastSpec(bs1)] == bs && sv1[..LastSpec(bs1)] == sv && Target(bs1, sv1, Abs(f1)) == Abs(f);
    recursed := true;
  }
}
