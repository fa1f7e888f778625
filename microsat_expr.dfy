/** The value level of the solver in src/structures/microsat.rs: what
    `add_clause` does to the fields of an expression, and the invariant an
    `Expression` keeps, stated on its fields. */
module MicrosatExpr {
  import opened Text
  import opened MicrosatClauses
  import opened MicrosatState

  /** `SolverHeuristic` */
  datatype Heuristic = FirstVariable | MostLiteralOccurrences | MostVariableOccurrences | MinimizeClauseLength

  function Max(a: nat, b: nat): nat {
    if a < b then b else a
  }

  /** The largest variable of the literals, 0 for none. */
  function MaxVar(ls: seq<Lit>): (m: nat)
    ensures forall i :: 0 <= i < |ls| ==> Var(ls[i]) <= m
    ensures m <= 0x7FFF
    ensures ls != [] ==> exists i :: 0 <= i < |ls| && Var(ls[i]) == m
    decreases |ls|
  {
    if ls == [] then 0 else Max(MaxVar(ls[..|ls| - 1]), Var(ls[|ls| - 1]))
  }

  /** The assignment extended with unassigned variables up to n. */
  function Grown(a: seq<Option<bool>>, n: nat): (r: seq<Option<bool>>)
    ensures |r| == Max(|a|, n)
    ensures forall i :: 0 <= i < |r| ==> r[i] == if i < |a| then a[i] else None
  {
    if n > |a| then a + seq(n - |a|, _ => None) else a
  }

  lemma GrownTwice(a: seq<Option<bool>>, m: nat, n: nat)
    ensures Grown(Grown(a, m), n) == Grown(a, Max(m, n))
  {
    var r := Grown(Grown(a, m), n);
    var t := Grown(a, Max(m, n));
    assert |r| == |t|;
    forall i | 0 <= i < |r| ensures r[i] == t[i] {
      if i < |a| {
        assert r[i] == Grown(a, m)[i] == a[i];
      }
    }
  }

  /** What `add_clause` does to the index for one literal of clause id:
      the literal and its negation become keys, and the literal lists id. */
  function RegisterOne(idx: map<Lit, set<nat>>, l: Lit, id: nat): map<Lit, set<nat>> {
    var m := if l in idx then idx else idx[l := {}];
    var m2 := if Neg(l) in m then m else m[Neg(l) := {}];
    m2[l := m2[l] + {id}]
  }

  /** The index after `add_clause` registered the literals ls of clause id. */
  function Registered(idx: map<Lit, set<nat>>, ls: seq<Lit>, id: nat): map<Lit, set<nat>>
    decreases |ls|
  {
    if ls == [] then idx else RegisterOne(Registered(idx, ls[..|ls| - 1], id), ls[|ls| - 1], id)
  }

  lemma RegisterOneMeaning(idx: map<Lit, set<nat>>, l: Lit, id: nat)
    ensures forall x :: x in RegisterOne(idx, l, id) <==> x in idx || x == l || x == Neg(l)
    ensures forall x, k :: x in RegisterOne(idx, l, id) ==>
      (k in RegisterOne(idx, l, id)[x] <==> (x in idx && k in idx[x]) || (k == id && x == l))
  {
  }

  /** The keys of the registered index are the old keys, the literals and
      their negations; a literal lists the clauses it listed before, plus
      id when it is one of ls. */
  lemma {:induction false} RegisteredMeaning(idx: map<Lit, set<nat>>, ls: seq<Lit>, id: nat)
    ensures forall x :: x in Registered(idx, ls, id) <==> x in idx || x in ls || Neg(x) in ls
    ensures forall x, k :: x in Registered(idx, ls, id) ==>
      (k in Registered(idx, ls, id)[x] <==> (x in idx && k in idx[x]) || (k == id && x in ls))
    decreases |ls|
  {
    if ls != [] {
      var pre := ls[..|ls| - 1];
      var l := ls[|ls| - 1];
      var r' := Registered(idx, pre, id);
      var r := Registered(idx, ls, id);
      assert ls == pre + [l];
      assert r == RegisterOne(r', l, id);
      RegisteredMeaning(idx, pre, id);
      RegisterOneMeaning(r', l, id);
      forall x ensures x in r <==> x in idx || x in ls || Neg(x) in ls {
        assert x in ls <==> x in pre || x == l;
        assert Neg(x) in ls <==> Neg(x) in pre || x == Neg(l);
      }
      forall x, k | x in r ensures k in r[x] <==> (x in idx && k in idx[x]) || (k == id && x in ls) {
        assert x in ls <==> x in pre || x == l;
      }
    }
  }

  /** The fields of an `Expression`, apart from its heuristic: the clauses,
      the action log, the assignment (variable v at position v - 1), the
      index from each literal to the clauses that hold it, the heap of unit
      clause ids, `num_active_clauses` and `max_clause_length`. */
  datatype Fields = Fields(clauses: seq<Clause>, actions: seq<Action>, assignments: seq<Option<bool>>,
                           literalToClause: map<Lit, set<nat>>, unitClauses: multiset<nat>,
                           numActiveClauses: nat, maxClauseLength: nat)

  /** `Expression::new()` */
  const Empty := Fields([], [], [], map[], multiset{}, 0, 0)

  /** The part of the fields that `backtrack` restores. */
  function Abs(f: Fields): Snapshot {
    Snap(f.clauses, f.assignments, f.literalToClause)
  }

  /** The invariant of an expression whose log reads as the groups bs,
      pushed on the states sv: at most 65535 clauses (ids are `u16`); the
      active count is the number of enabled clauses; the index is sound;
      the log is the groups, which agree with the state, and undoing them
      gives back the saved states. */
  ghost predicate Invariant(f: Fields, bs: seq<Block>, sv: seq<Snapshot>) {
    |f.clauses| <= 0xFFFF && f.numActiveClauses == Trues(Flags(f.clauses)) && f.actions == Flat(bs) &&
    Sound(Abs(f)) && LogFacts(bs, Abs(f)) && Replays(Abs(f), bs, sv)
  }

  /** The heap holds enabled one-literal clauses only. */
  predicate Units(f: Fields) {
    forall id :: id in f.unitClauses ==> id < |f.clauses| && f.clauses[id].enabled && |f.clauses[id].variables| == 1
  }

  /** Clauses as `add_clause` leaves them: every clause enabled, no variable
      assigned, every clause id in the index names a clause that holds the
      literal, each literal of clause k is a key that lists k. */
  predicate Fresh(cs: seq<Clause>, a: seq<Option<bool>>, idx: map<Lit, set<nat>>) {
    |cs| <= 0xFFFF &&
    (forall k :: 0 <= k < |cs| ==> cs[k].enabled) &&
    (forall k :: 0 <= k < |a| ==> a[k].None?) &&
    Listed(cs, idx) &&
    (forall k, x :: 0 <= k < |cs| && x in cs[k].variables ==> x in idx && k in idx[x])
  }

  /** Every clause id in the index names a clause that holds the literal. */
  predicate Listed(cs: seq<Clause>, idx: map<Lit, set<nat>>) {
    forall x: Lit, id: nat :: x in idx && id in idx[x] ==> id < |cs| && x in cs[id].variables
  }

  lemma AddedListed(cs: seq<Clause>, idx: map<Lit, set<nat>>, ls: seq<Lit>)
    requires Listed(cs, idx)
    ensures Listed(cs + [Clause(ls, true)], Registered(idx, ls, |cs|))
  {
    var cs' := cs + [Clause(ls, true)];
    var r := Registered(idx, ls, |cs|);
    RegisteredMeaning(idx, ls, |cs|);
    forall x: Lit, id: nat | x in r && id in r[x] ensures id < |cs'| && x in cs'[id].variables {
      ListedAt(cs, idx, x, id);
    }
  }

  lemma ListedAt(cs: seq<Clause>, idx: map<Lit, set<nat>>, x: Lit, id: nat)
    requires Listed(cs, idx)
    ensures x in idx && id in idx[x] ==> id < |cs| && x in cs[id].variables
  {
  }

  /** An expression that is still being built: fresh clauses, all of them
      active, nothing logged, and one-literal clauses in the heap. */
  predicate Building(f: Fields) {
    Fresh(f.clauses, f.assignments, f.literalToClause) && f.numActiveClauses == |f.clauses| && f.actions == [] &&
    forall id :: id in f.unitClauses ==> id < |f.clauses| && |f.clauses[id].variables| == 1
  }

  /** `add_clause(Clause(ls))` on a clause of fewer than 65535 as the
      source computes it: the clause is appended, the assignment grows to
      its largest variable, the index registers its literals, a one-literal
      clause goes onto the heap, the active count and the longest length
      are updated. */
  function Added(f: Fields, ls: seq<Lit>): Fields {
    f.(clauses := f.clauses + [Clause(ls, true)],
       assignments := Grown(f.assignments, MaxVar(ls)),
       literalToClause := Registered(f.literalToClause, ls, |f.clauses|),
       unitClauses := f.unitClauses + (if |ls| == 1 then multiset{|f.clauses|} else multiset{}),
       numActiveClauses := f.numActiveClauses + 1,
       maxClauseLength := Max(f.maxClauseLength, |ls|))
  }

  /** `add_clause` keeps fresh clauses fresh. */
  lemma AddedFresh(cs: seq<Clause>, a: seq<Option<bool>>, idx: map<Lit, set<nat>>, ls: seq<Lit>)
    requires Fresh(cs, a, idx) && |cs| < 0xFFFF
    ensures Fresh(cs + [Clause(ls, true)], Grown(a, MaxVar(ls)), Registered(idx, ls, |cs|))
  {
    var cs' := cs + [Clause(ls, true)];
    var r := Registered(idx, ls, |cs|);
    RegisteredMeaning(idx, ls, |cs|);
    AddedListed(cs, idx, ls);
    forall k, x | 0 <= k < |cs'| && x in cs'[k].variables ensures x in r && k in r[x] {
      if k < |cs| {
        assert x in cs[k].variables;
      } else {
        assert x in ls;
      }
    }
  }

  /** `add_clause` keeps an expression that is being built so. */
  lemma AddedBuilding(f: Fields, ls: seq<Lit>)
    requires Building(f) && |f.clauses| < 0xFFFF
    ensures Building(Added(f, ls))
  {
    AddedFresh(f.clauses, f.assignments, f.literalToClause, ls);
  }

  /** An expression that is being built meets the invariant with an empty
      log, and its heap holds enabled one-literal clauses. */
  lemma BuildingInvariant(f: Fields)
    requires Building(f)
    ensures Invariant(f, [], []) && Units(f)
  {
    var s := Abs(f);
    TruesAll(Flags(f.clauses));
    forall x, id | x in s.index && id in s.index[x] ensures id < |s.lits| {
      ListedAt(f.clauses, f.literalToClause, x, id);
    }
    forall k, x | 0 <= k < |s.lits| && x in s.lits[k] ensures x in s.index && (s.enabled[k] ==> k in s.index[x]) {
      assert x in f.clauses[k].variables;
    }
    forall k | 0 <= k < |s.assignments| ensures !s.assignments[k].Some? {
    }
  }

  /** The loop of `add_clause` over the clause's literals, on the
      assignment a0 and the index m0: each literal grows the assignment to
      its variable, and becomes a key with its negation. */
  method Register(a0: seq<Option<bool>>, m0: map<Lit, set<nat>>, ls: seq<Lit>, id: nat) returns (a: seq<Option<bool>>, m: map<Lit, set<nat>>)
    ensures a == Grown(a0, MaxVar(ls))
    ensures m == Registered(m0, ls, id)
  {
    a, m := a0, m0;
    for i := 0 to |ls|
      invariant a == Grown(a0, MaxVar(ls[..i]))
      invariant m == Registered(m0, ls[..i], id)
    {
      assert ls[..i + 1][..i] == ls[..i];
      GrownTwice(a0, MaxVar(ls[..i]), Var(ls[i]));
      // the assignment is extended to the literal's variable
      a := Grown(a, Var(ls[i]));
      // the literal and its negation get (empty) entries, the literal lists id
      m := RegisterOne(m, ls[i], id);
    }
    assert ls[..|ls|] == ls;
  }
}
