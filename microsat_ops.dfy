/** The operations of an `Expression` in src/structures/microsat.rs on its
    fields as a value: the soft removal of a clause and its re-enabling,
    the removal of a literal from the clauses that hold it, the removal of
    the clauses that hold a literal, and what each does to the invariant. */
module MicrosatOps {
  import opened Text
  import opened MicrosatClauses
  import opened MicrosatState
  import opened MicrosatExpr

  // ---------------------------------------------------------------------
  // remove_clause and enable_clause

  lemma StripNone(idx: map<Lit, set<nat>>, c: nat)
    ensures Stripped(idx, multiset{}, c) == idx && Restored(idx, multiset{}, c) == idx
  {
  }

  lemma StripOne(idx: map<Lit, set<nat>>, m: multiset<Lit>, x: Lit, c: nat)
    requires x in idx
    ensures Stripped(idx, m + multiset{x}, c) == Stripped(idx, m, c)[x := Stripped(idx, m, c)[x] - {c}]
  {
    var r := Stripped(idx, m + multiset{x}, c);
    var r' := Stripped(idx, m, c)[x := Stripped(idx, m, c)[x] - {c}];
    forall y | y in idx ensures r[y] == r'[y] {
      if y == x {
        assert r[y] == idx[x] - {c};
      }
    }
    assert r.Keys == r'.Keys;
  }

  lemma RestoreOne(idx: map<Lit, set<nat>>, m: multiset<Lit>, x: Lit, c: nat)
    requires x in idx
    ensures Restored(idx, m + multiset{x}, c) == Restored(idx, m, c)[x := Restored(idx, m, c)[x] + {c}]
  {
    var r := Restored(idx, m + multiset{x}, c);
    var r' := Restored(idx, m, c)[x := Restored(idx, m, c)[x] + {c}];
    forall y | y in idx ensures r[y] == r'[y] {
      if y == x {
        assert r[y] == idx[x] + {c};
      }
    }
    assert r.Keys == r'.Keys;
  }

  /** Every literal of a clause is a key of a sound index. */
  lemma ClauseKeys(f: Fields, c: nat)
    requires Sound(Abs(f)) && c < |f.clauses|
    ensures forall x :: x in f.clauses[c].variables ==> x in f.literalToClause
  {
    forall x | x in f.clauses[c].variables ensures x in f.literalToClause {
      assert x in Abs(f).lits[c];
    }
  }

  /** The loop of `remove_clause`: clause c leaves the set of each of its
      literals, which must all be keys (`get_mut(..).unwrap()`). */
  method Strip(idx: map<Lit, set<nat>>, ls: seq<Lit>, c: nat) returns (r: map<Lit, set<nat>>)
    requires forall x :: x in ls ==> x in idx
    ensures r == Stripped(idx, multiset(ls), c)
  {
    StripNone(idx, c);
    r := idx;
    for i := 0 to |ls|
      invariant r == Stripped(idx, multiset(ls[..i]), c)
    {
      assert ls[..i + 1] == ls[..i] + [ls[i]];
      StripOne(idx, multiset(ls[..i]), ls[i], c);
      r := r[ls[i] := r[ls[i]] - {c}];
    }
    assert ls[..|ls|] == ls;
  }

  /** The loop of `enable_clause`: clause c goes back into the set of each
      of its literals. */
  method Restore(idx: map<Lit, set<nat>>, ls: seq<Lit>, c: nat) returns (r: map<Lit, set<nat>>)
    requires forall x :: x in ls ==> x in idx
    ensures r == Restored(idx, multiset(ls), c)
  {
    StripNone(idx, c);
    r := idx;
    for i := 0 to |ls|
      invariant r == Restored(idx, multiset(ls[..i]), c)
    {
      assert ls[..i + 1] == ls[..i] + [ls[i]];
      RestoreOne(idx, multiset(ls[..i]), ls[i], c);
      r := r[ls[i] := r[ls[i]] + {c}];
    }
    assert ls[..|ls|] == ls;
  }

  /** `remove_clause(c)`: the active count drops by one, the clause is
      disabled and leaves the index sets of its literals and the heap, and
      the log records the removal. */
  function Removed(f: Fields, c: nat): Fields
    requires c < |f.clauses| && f.numActiveClauses > 0
  {
    f.(clauses := f.clauses[c := f.clauses[c].(enabled := false)],
       literalToClause := Stripped(f.literalToClause, multiset(f.clauses[c].variables), c),
       unitClauses := f.unitClauses[c := 0],
       numActiveClauses := f.numActiveClauses - 1,
       actions := f.actions + [Action.RemoveClause(c)])
  }

  /** `remove_clause`, which asserts that the clause is enabled; the `u16`
      count cannot drop below 0. */
  method RemoveClause(f: Fields, c: nat) returns (f': Fields)
    requires c < |f.clauses| && f.clauses[c].enabled && f.numActiveClauses > 0
    requires forall x :: x in f.clauses[c].variables ==> x in f.literalToClause
    ensures f' == Removed(f, c)
  {
    var clause := f.clauses[c];
    f' := f.(numActiveClauses := f.numActiveClauses - 1, clauses := f.clauses[c := clause.(enabled := false)]);
    var idx := Strip(f.literalToClause, clause.variables, c);
    f' := f'.(literalToClause := idx, unitClauses := f.unitClauses[c := 0], actions := f.actions + [Action.RemoveClause(c)]);
  }

  /** The count and the snapshot after `remove_clause`. */
  lemma RemovedFrame(f: Fields, c: nat)
    requires c < |f.clauses| && f.clauses[c].enabled && f.numActiveClauses == Trues(Flags(f.clauses))
    ensures f.numActiveClauses > 0
    ensures Removed(f, c).numActiveClauses == Trues(Flags(Removed(f, c).clauses))
    ensures Abs(Removed(f, c)) == Disable(Abs(f), c)
  {
    var cs := f.clauses;
    SnapUpdate(cs, c, cs[c].(enabled := false));
    TruesUpdate(Flags(cs), c, false);
  }

  /** A removed clause also leaves the heap of unit clauses. */
  lemma RemovedUnits(f: Fields, c: nat)
    requires c < |f.clauses| && f.numActiveClauses > 0 && Units(f)
    ensures Units(Removed(f, c))
  {
    var g := Removed(f, c);
    forall id | id in g.unitClauses
      ensures id < |g.clauses| && g.clauses[id].enabled && |g.clauses[id].variables| == 1
    {
      assert id != c && id in f.unitClauses;
    }
  }

  /** Removing an enabled clause keeps the invariant: the snapshot is the
      clause disabled, the log gains the group, and undoing that group
      gives the state back; the heap keeps holding enabled unit clauses. */
  lemma RemovedInvariant(f: Fields, bs: seq<Block>, sv: seq<Snapshot>, c: nat)
    requires Invariant(f, bs, sv) && c < |f.clauses| && f.clauses[c].enabled
    ensures f.numActiveClauses > 0
    ensures forall x :: x in f.clauses[c].variables ==> x in f.literalToClause
    ensures Abs(Removed(f, c)) == Disable(Abs(f), c)
    ensures Invariant(Removed(f, c), bs + [Removal(c)], sv + [Abs(f)])
    ensures Units(f) ==> Units(Removed(f, c))
  {
    RemovedFrame(f, c);
    ClauseKeys(f, c);
    FlatSnoc(bs, Removal(c));
    PushRemoval(bs, Abs(f), c);
    PushBlock(Abs(f), Disable(Abs(f), c), bs, sv, Removal(c));
    if Units(f) {
      RemovedUnits(f, c);
    }
  }

  /** `enable_clause(c)`: the clause is enabled, goes back into the index
      sets of its literals, and the active count grows by one; the heap is
      left alone. */
  function Enabled(f: Fields, c: nat): Fields
    requires c < |f.clauses|
  {
    f.(clauses := f.clauses[c := f.clauses[c].(enabled := true)],
       literalToClause := Restored(f.literalToClause, multiset(f.clauses[c].variables), c),
       numActiveClauses := f.numActiveClauses + 1)
  }

  /** `enable_clause`, which asserts that the clause is disabled; the `u16`
      count must not overflow. */
  method EnableClause(f: Fields, c: nat) returns (f': Fields)
    requires c < |f.clauses| && !f.clauses[c].enabled && f.numActiveClauses < 0xFFFF
    requires forall x :: x in f.clauses[c].variables ==> x in f.literalToClause
    ensures f' == Enabled(f, c)
  {
    var clause := f.clauses[c];
    f' := f.(clauses := f.clauses[c := clause.(enabled := true)], numActiveClauses := f.numActiveClauses + 1);
    var idx := Restore(f.literalToClause, clause.variables, c);
    f' := f'.(literalToClause := idx);
  }

  /** The count and the snapshot after `enable_clause`. */
  lemma EnabledFrame(f: Fields, c: nat)
    requires c < |f.clauses| && !f.clauses[c].enabled && f.numActiveClauses == Trues(Flags(f.clauses))
    ensures f.numActiveClauses < |f.clauses|
    ensures Enabled(f, c).numActiveClauses == Trues(Flags(Enabled(f, c).clauses))
    ensures Abs(Enabled(f, c)) == UndoBlock(Abs(f), Removal(c))
  {
    var cs := f.clauses;
    SnapUpdate(cs, c, cs[c].(enabled := true));
    TruesUpdate(Flags(cs), c, true);
  }

  /** Popping a removal off the log and enabling the clause again gives
      back the state saved before the removal, with the invariant on the
      shorter log. */
  lemma EnabledInvariant(f: Fields, bs: seq<Block>, sv: seq<Snapshot>, c: nat)
    requires Invariant(f, bs, sv) && bs != [] && bs[|bs| - 1] == Removal(c)
    ensures f.actions != [] && f.actions[|f.actions| - 1] == Action.RemoveClause(c)
    ensures c < |f.clauses| && !f.clauses[c].enabled && f.numActiveClauses < 0xFFFF
    ensures forall x :: x in f.clauses[c].variables ==> x in f.literalToClause
    ensures var g := Enabled(f, c).(actions := f.actions[..|f.actions| - 1]);
      Abs(g) == sv[|bs| - 1] && Invariant(g, bs[..|bs| - 1], sv[..|bs| - 1])
  {
    FlatLast(bs);
    assert Abs(f).enabled[c] == f.clauses[c].enabled;
    EnabledFrame(f, c);
    ClauseKeys(f, c);
    PopFacts(bs, Abs(f));
    PopBlock(Abs(f), bs, sv);
  }

  // ---------------------------------------------------------------------
  // remove_literal_from_clauses

  predicate Distinct(ids: seq<nat>) {
    forall i, j :: 0 <= i < j < |ids| ==> ids[i] != ids[j]
  }

  /** The clauses with l removed from clauses ids, one after the other. */
  function Dropped(cs: seq<Clause>, l: Lit, ids: seq<nat>): (r: seq<Clause>)
    requires forall i :: 0 <= i < |ids| ==> ids[i] < |cs|
    ensures |r| == |cs|
    decreases |ids|
  {
    if ids == [] then cs
    else
      var n := |ids| - 1;
      assert forall i :: 0 <= i < n ==> ids[..n][i] == ids[i];
      var p := Dropped(cs, l, ids[..n]);
      p[ids[n] := DropLit(p[ids[n]], l)]
  }

  /** A clause that is not among ids is left alone. */
  lemma {:induction false} DroppedOther(cs: seq<Clause>, l: Lit, ids: seq<nat>, k: nat)
    requires forall i :: 0 <= i < |ids| ==> ids[i] < |cs| && ids[i] != k
    requires k < |cs|
    ensures Dropped(cs, l, ids)[k] == cs[k]
    decreases |ids|
  {
    if ids != [] {
      var n := |ids| - 1;
      assert forall i :: 0 <= i < n ==> ids[..n][i] == ids[i];
      DroppedOther(cs, l, ids[..n], k);
    }
  }

  /** With distinct ids, each of them loses l once. */
  lemma {:induction false} DroppedAt(cs: seq<Clause>, l: Lit, ids: seq<nat>, k: nat)
    requires forall i :: 0 <= i < |ids| ==> ids[i] < |cs|
    requires Distinct(ids) && k < |cs|
    ensures Dropped(cs, l, ids)[k] == if k in ids then DropLit(cs[k], l) else cs[k]
    decreases |ids|
  {
    if ids != [] {
      var n := |ids| - 1;
      var pre := ids[..n];
      assert forall i :: 0 <= i < n ==> pre[i] == ids[i];
      assert Distinct(pre);
      assert k in ids <==> k in pre || k == ids[n];
      if k == ids[n] {
        DroppedOther(cs, l, pre, k);
      } else {
        DroppedAt(cs, l, pre, k);
      }
    }
  }

  /** The clauses among ids that removing l leaves with one literal. */
  function NewUnits(cs: seq<Clause>, l: Lit, ids: seq<nat>): multiset<nat>
    requires forall i :: 0 <= i < |ids| ==> ids[i] < |cs|
    decreases |ids|
  {
    if ids == [] then multiset{}
    else
      var n := |ids| - 1;
      assert forall i :: 0 <= i < n ==> ids[..n][i] == ids[i];
      NewUnits(cs, l, ids[..n]) + (if |DropLit(cs[ids[n]], l).variables| == 1 then multiset{ids[n]} else multiset{})
  }

  /** The fields once `remove_literal_from_clauses(l)` has taken l out of
      the clauses ids: the log holds the group for them, and the clauses
      left with one literal are on the heap. */
  function Scanned(f: Fields, l: Lit, ids: seq<nat>): Fields
    requires forall i :: 0 <= i < |ids| ==> ids[i] < |f.clauses|
  {
    f.(clauses := Dropped(f.clauses, l, ids),
       actions := f.actions + Actions(Literal(l, ids)),
       unitClauses := f.unitClauses + NewUnits(f.clauses, l, ids))
  }

  /** ids are clauses listed under l, each once, none of which removing l
      leaves empty. */
  predicate Scan(f: Fields, l: Lit, ids: seq<nat>)
    requires l in f.literalToClause
  {
    Distinct(ids) &&
    forall i :: 0 <= i < |ids| ==> ids[i] in f.literalToClause[l] && ids[i] < |f.clauses| && DropLit(f.clauses[ids[i]], l).variables != []
  }

  lemma ScanStep(f: Fields, l: Lit, ids: seq<nat>, id: nat)
    requires l in f.literalToClause && Scan(f, l, ids)
    requires forall i :: 0 <= i < |ids| ==> ids[i] != id
    requires id in f.literalToClause[l] && id < |f.clauses| && DropLit(f.clauses[id], l).variables != []
    ensures Scan(f, l, ids + [id])
    ensures Dropped(f.clauses, l, ids + [id]) == Dropped(f.clauses, l, ids)[id := DropLit(Dropped(f.clauses, l, ids)[id], l)]
    ensures Entries(ids + [id]) == Entries(ids) + [RemoveLiteralFromClause(id)]
    ensures NewUnits(f.clauses, l, ids + [id]) ==
      NewUnits(f.clauses, l, ids) + (if |DropLit(f.clauses[id], l).variables| == 1 then multiset{id} else multiset{})
  {
    assert (ids + [id])[..|ids|] == ids;
  }

  /** Where the loop of `remove_literal_from_clauses(l)` stands: the ids
      handled so far, in the order taken, are out of `todo`, and the
      clauses, log entries and heap are those the scan of them gives; `r`
      is the clause that would have become empty, once one is met. */
  predicate Scanning(f: Fields, l: Lit, todo: set<nat>, r: Option<nat>, clauses: seq<Clause>, entries: seq<Action>, units: multiset<nat>, ids: seq<nat>)
    requires l in f.literalToClause
  {
    todo <= f.literalToClause[l] && Scan(f, l, ids) &&
    (forall i :: 0 <= i < |ids| ==> ids[i] !in todo) &&
    (r == None ==> forall x :: x in f.literalToClause[l] ==> x in todo || x in ids) &&
    entries == Entries(ids) && units == f.unitClauses + NewUnits(f.clauses, l, ids) &&
    clauses == Dropped(f.clauses, l, ids) &&
    (r.Some? ==> r.value < |f.clauses| && r.value in f.literalToClause[l] && DropLit(f.clauses[r.value], l).variables == []) &&
    (r.Some? ==> forall i :: 0 <= i < |ids| ==> ids[i] != r.value)
  }

  /** A clause that removing l would empty stops the scan. */
  lemma ScanHit(f: Fields, l: Lit, todo: set<nat>, clauses: seq<Clause>, entries: seq<Action>, units: multiset<nat>, ids: seq<nat>, id: nat)
    requires l in f.literalToClause && id in todo && id < |f.clauses|
    requires Scanning(f, l, todo, None, clauses, entries, units, ids)
    requires DropLit(f.clauses[id], l).variables == []
    ensures Scanning(f, l, todo - {id}, Some(id), clauses, entries, units, ids)
  {
  }

  /** Any other clause loses l and joins the scanned ids. */
  lemma ScanMiss(f: Fields, l: Lit, todo: set<nat>, clauses: seq<Clause>, entries: seq<Action>, units: multiset<nat>, ids: seq<nat>, id: nat)
    requires l in f.literalToClause && id in todo && id < |f.clauses|
    requires Scanning(f, l, todo, None, clauses, entries, units, ids)
    requires DropLit(f.clauses[id], l).variables != []
    ensures clauses[id] == f.clauses[id]
    ensures Scanning(f, l, todo - {id}, None, clauses[id := DropLit(f.clauses[id], l)],
                     entries + [RemoveLiteralFromClause(id)],
                     units + (if |DropLit(f.clauses[id], l).variables| == 1 then multiset{id} else multiset{}),
                     ids + [id])
  {
    DroppedOther(f.clauses, l, ids, id);
    ScanStep(f, l, ids, id);
  }

  /** One turn of that loop: a clause id is taken out of `todo` and l is
      removed from that clause, unless it would become empty. */
  method ScanOne(f: Fields, l: Lit, todo: set<nat>, clauses: seq<Clause>, entries: seq<Action>, units: multiset<nat>, ghost ids: seq<nat>)
      returns (todo': set<nat>, r: Option<nat>, clauses': seq<Clause>, entries': seq<Action>, units': multiset<nat>, ghost ids': seq<nat>)
    requires l in f.literalToClause && forall id :: id in f.literalToClause[l] ==> id < |f.clauses|
    requires todo != {} && Scanning(f, l, todo, None, clauses, entries, units, ids)
    ensures todo' < todo && Scanning(f, l, todo', r, clauses', entries', units', ids')
  {
    var id :| id in todo;
    todo' := todo - {id};
    DroppedOther(f.clauses, l, ids, id);
    var clause := Remove(clauses[id], l);
    if clause.variables == [] {
      ScanHit(f, l, todo, clauses, entries, units, ids, id);
      r, clauses', entries', units', ids' := Some(id), clauses, entries, units, ids;
    } else {
      ScanMiss(f, l, todo, clauses, entries, units, ids, id);
      r, clauses', entries', ids' := None, clauses[id := clause], entries + [RemoveLiteralFromClause(id)], ids + [id];
      units' := units + (if |clause.variables| == 1 then multiset{id} else multiset{});
    }
  }

  /** The loop of `remove_literal_from_clauses(l)` over the clauses the
      index lists under l, in no fixed order (ghost `ids` is the order it
      took): l leaves each clause in turn, a clause left with one literal
      goes onto the heap, and the loop stops at a clause that would become
      empty, whose id it returns. */
  method ScanClauses(f: Fields, l: Lit) returns (r: Option<nat>, clauses: seq<Clause>, entries: seq<Action>, units: multiset<nat>, ghost ids: seq<nat>)
    requires l in f.literalToClause && forall id :: id in f.literalToClause[l] ==> id < |f.clauses|
    ensures Scan(f, l, ids) && clauses == Dropped(f.clauses, l, ids)
    ensures entries == Entries(ids) && units == f.unitClauses + NewUnits(f.clauses, l, ids)
    ensures r == None ==> forall id :: id in f.literalToClause[l] ==> id in ids
    ensures r.Some? ==> r.value < |f.clauses| && r.value in f.literalToClause[l] && DropLit(f.clauses[r.value], l).variables == []
    ensures r.Some? ==> forall i :: 0 <= i < |ids| ==> ids[i] != r.value
  {
    r, clauses, entries, units, ids := None, f.clauses, [], f.unitClauses, [];
    var todo := f.literalToClause[l];
    ScanStart(f, l);
    while todo != {} && r == None
      invariant Scanning(f, l, todo, r, clauses, entries, units, ids)
      decreases todo
    {
      todo, r, clauses, entries, units, ids := ScanOne(f, l, todo, clauses, entries, units, ids);
    }
    ScanDone(f, l, todo, r, clauses, entries, units, ids);
  }

  /** Before the loop nothing has been scanned. */
  lemma ScanStart(f: Fields, l: Lit)
    requires l in f.literalToClause
    ensures Scanning(f, l, f.literalToClause[l], None, f.clauses, [], f.unitClauses, [])
  {
    assert multiset{} + f.unitClauses == f.unitClauses;
  }

  /** After the loop every listed clause was scanned, unless one would
      have become empty. */
  lemma ScanDone(f: Fields, l: Lit, todo: set<nat>, r: Option<nat>, clauses: seq<Clause>, entries: seq<Action>, units: multiset<nat>, ids: seq<nat>)
    requires l in f.literalToClause && Scanning(f, l, todo, r, clauses, entries, units, ids) && (todo == {} || r.Some?)
    ensures Scan(f, l, ids) && clauses == Dropped(f.clauses, l, ids)
    ensures entries == Entries(ids) && units == f.unitClauses + NewUnits(f.clauses, l, ids)
    ensures r == None ==> forall id :: id in f.literalToClause[l] ==> id in ids
    ensures r.Some? ==> r.value < |f.clauses| && r.value in f.literalToClause[l] && DropLit(f.clauses[r.value], l).variables == []
    ensures r.Some? ==> forall i :: 0 <= i < |ids| ==> ids[i] != r.value
  {
  }

  /** `remove_literal_from_clauses(l)`. A literal that is not a key
      changes nothing. Otherwise the log gets a group for the clauses l
      left; when a clause would have become empty, l is put back into it
      (its entry is popped), the group is closed without it and its id is
      returned. */
  method RemoveLiteral(f: Fields, l: Lit) returns (r: Option<nat>, f': Fields, ghost ids: seq<nat>)
    requires l in f.literalToClause ==> forall id :: id in f.literalToClause[l] ==> id < |f.clauses|
    ensures l !in f.literalToClause ==> r == None && f' == f && ids == []
    ensures l in f.literalToClause ==> Scan(f, l, ids)
    ensures l in f.literalToClause && r == None ==>
      (forall id :: id in f.literalToClause[l] <==> id in ids) && f' == Scanned(f, l, ids)
    ensures r.Some? ==> l in f.literalToClause && r.value in f.literalToClause[l] && r.value !in ids
    ensures r.Some? ==> DropLit(f.clauses[r.value], l).variables == []
    ensures r.Some? ==> f' == Scanned(f, l, ids).(clauses := Scanned(f, l, ids).clauses[r.value := f.clauses[r.value].(variables := [l])])
  {
    r, f', ids := None, f, [];
    if l in f.literalToClause {
      var clauses, entries, units;
      r, clauses, entries, units, ids := ScanClauses(f, l);
      if r.Some? {
        DroppedOther(f.clauses, l, ids, r.value);
        clauses := clauses[r.value := clauses[r.value].(variables := [l])];
      }
      var actions := f.actions + ([RemoveLiteralFromClausesStart] + entries + [RemoveLiteralFromClausesEnd(l)]);
      f' := f.(clauses := clauses, actions := actions, unitClauses := units);
    }
  }

  /** Taking literals out of clauses leaves their flags alone. */
  lemma {:induction false} DroppedFlags(cs: seq<Clause>, l: Lit, ids: seq<nat>)
    requires forall i :: 0 <= i < |ids| ==> ids[i] < |cs|
    ensures Flags(Dropped(cs, l, ids)) == Flags(cs)
    decreases |ids|
  {
    if ids != [] {
      var n := |ids| - 1;
      var p := Dropped(cs, l, ids[..n]);
      assert forall i :: 0 <= i < n ==> ids[..n][i] == ids[i];
      DroppedFlags(cs, l, ids[..n]);
      SnapUpdate(p, ids[n], DropLit(p[ids[n]], l));
    }
  }

  /** The bag of each clause after the scan: one copy of l fewer for the
      clauses ids. */
  lemma DroppedBags(cs: seq<Clause>, l: Lit, ids: seq<nat>)
    requires forall i :: 0 <= i < |ids| ==> ids[i] < |cs|
    requires Distinct(ids)
    ensures forall k :: 0 <= k < |cs| ==>
      Bags(Dropped(cs, l, ids))[k] == if k in ids then multiset(cs[k].variables) - multiset{l} else multiset(cs[k].variables)
  {
    forall k | 0 <= k < |cs|
      ensures Bags(Dropped(cs, l, ids))[k] == if k in ids then multiset(cs[k].variables) - multiset{l} else multiset(cs[k].variables)
    {
      DroppedAt(cs, l, ids, k);
      DropLitBag(cs[k], l);
    }
  }

  /** Putting l back into the clause that lost it last undoes that step
      of the scan. */
  lemma ReAddLast(p: seq<Clause>, a: seq<Option<bool>>, idx: map<Lit, set<nat>>, l: Lit, last: nat)
    requires last < |p| && l in idx && last in idx[l] && l in p[last].variables
    ensures ReAddOne(Snap(p[last := DropLit(p[last], l)], a, idx), l, last) == Snap(p, a, idx)
  {
    var d := DropLit(p[last], l);
    var t := Snap(p[last := d], a, idx);
    SnapUpdate(p, last, d);
    assert t.lits[last := t.lits[last] + multiset{l}] == Bags(p) by {
      DropLitBag(p[last], l);
      assert multiset(d.variables) + multiset{l} == multiset(p[last].variables);
    }
    assert t.enabled == Flags(p);
    assert idx[l := idx[l] + {last}] == idx by {
      assert idx[l] + {last} == idx[l];
    }
  }

  /** Undoing the group of a scan puts l back into each of its clauses,
      newest first, which gives back the clauses before the scan. */
  lemma {:induction false} UndoDropped(cs: seq<Clause>, a: seq<Option<bool>>, idx: map<Lit, set<nat>>, l: Lit, ids: seq<nat>)
    requires l in idx && Distinct(ids)
    requires forall i :: 0 <= i < |ids| ==> ids[i] < |cs| && ids[i] in idx[l] && l in cs[ids[i]].variables
    ensures UndoLits(Snap(Dropped(cs, l, ids), a, idx), l, ids) == Snap(cs, a, idx)
    decreases |ids|
  {
    if ids != [] {
      var n := |ids| - 1;
      var pre := ids[..n];
      var last := ids[n];
      assert forall i :: 0 <= i < n ==> pre[i] == ids[i];
      assert Distinct(pre);
      var p := Dropped(cs, l, pre);
      DroppedOther(cs, l, pre, last);
      ReAddLast(p, a, idx, l, last);
      UndoDropped(cs, a, idx, l, pre);
    }
  }

  /** A scan only takes literals away. */
  lemma {:induction false} DroppedSub(cs: seq<Clause>, l: Lit, ids: seq<nat>, k: nat)
    requires forall i :: 0 <= i < |ids| ==> ids[i] < |cs|
    requires k < |cs|
    ensures multiset(Dropped(cs, l, ids)[k].variables) <= multiset(cs[k].variables)
    decreases |ids|
  {
    if ids != [] {
      var n := |ids| - 1;
      assert forall i :: 0 <= i < n ==> ids[..n][i] == ids[i];
      DroppedSub(cs, l, ids[..n], k);
      DropLitBag(Dropped(cs, l, ids[..n])[k], l);
    }
  }

  /** The snapshot after a scan has the same frame and the same number
      of enabled clauses. */
  lemma ScannedFrame(f: Fields, l: Lit, ids: seq<nat>)
    requires forall i :: 0 <= i < |ids| ==> ids[i] < |f.clauses|
    ensures SameFrame(Abs(f), Abs(Scanned(f, l, ids)))
    ensures Trues(Flags(Scanned(f, l, ids).clauses)) == Trues(Flags(f.clauses))
  {
    DroppedFlags(f.clauses, l, ids);
  }

  /** A scan keeps the index sound. */
  lemma ScannedSound(f: Fields, l: Lit, ids: seq<nat>)
    requires forall i :: 0 <= i < |ids| ==> ids[i] < |f.clauses|
    requires Sound(Abs(f))
    ensures Sound(Abs(Scanned(f, l, ids)))
  {
    var s := Abs(f);
    var t := Abs(Scanned(f, l, ids));
    DroppedFlags(f.clauses, l, ids);
    assert t.enabled == s.enabled && t.index == s.index && |t.lits| == |s.lits|;
    forall k | 0 <= k < |t.lits| ensures t.lits[k] <= s.lits[k] {
      DroppedSub(f.clauses, l, ids, k);
    }
    SubSound(s, t);
  }

  /** Taking literals out of clauses, with the same flags and index,
      keeps the index sound. */
  lemma SubSound(s: Snapshot, t: Snapshot)
    requires Sound(s) && t.enabled == s.enabled && t.index == s.index && |t.lits| == |s.lits|
    requires forall k :: 0 <= k < |t.lits| ==> t.lits[k] <= s.lits[k]
    ensures Sound(t)
  {
    forall k, x | 0 <= k < |t.lits| && x in t.lits[k] ensures x in s.lits[k] {
      assert t.lits[k] <= s.lits[k];
    }
  }

  /** A scan of clauses that contain l keeps the invariant with its group
      pushed: undoing the group gives the state back. */
  lemma ScannedInvariant(f: Fields, bs: seq<Block>, sv: seq<Snapshot>, l: Lit, ids: seq<nat>)
    requires Invariant(f, bs, sv) && l in f.literalToClause && Scan(f, l, ids)
    requires forall i :: 0 <= i < |ids| ==> l in f.clauses[ids[i]].variables
    ensures Invariant(Scanned(f, l, ids), bs + [Literal(l, ids)], sv + [Abs(f)])
  {
    var b := Literal(l, ids);
    ScannedFrame(f, l, ids);
    ScannedSound(f, l, ids);
    UndoDropped(f.clauses, f.assignments, f.literalToClause, l, ids);
    FlatSnoc(bs, b);
    PushLiteral(bs, Abs(f), Abs(Scanned(f, l, ids)), l, ids);
    PushBlock(Abs(f), Abs(Scanned(f, l, ids)), bs, sv, b);
  }

  /** When the clause that would become empty held l, putting l back
      leaves it as it was: the fields are those of the scan. */
  lemma PutBackSame(f: Fields, l: Lit, ids: seq<nat>, id: nat)
    requires forall i :: 0 <= i < |ids| ==> ids[i] < |f.clauses| && ids[i] != id
    requires id < |f.clauses| && l in f.clauses[id].variables && DropLit(f.clauses[id], l).variables == []
    ensures Scanned(f, l, ids).(clauses := Scanned(f, l, ids).clauses[id := f.clauses[id].(variables := [l])]) == Scanned(f, l, ids)
  {
    DropLitEmpty(f.clauses[id], l);
    DroppedOther(f.clauses, l, ids, id);
  }

  /** After a complete scan, l is out of every clause the index lists
      under it, and no clause is empty. */
  lemma ScannedRemoved(f: Fields, l: Lit, ids: seq<nat>)
    requires l in f.literalToClause && Scan(f, l, ids)
    requires forall id :: id in f.literalToClause[l] <==> id in ids
    requires forall k :: 0 <= k < |f.clauses| ==> f.clauses[k].variables != []
    ensures LitsRemoved(Abs(f), Abs(Scanned(f, l, ids)), l)
    ensures forall k :: 0 <= k < |Abs(Scanned(f, l, ids)).lits| ==> |Abs(Scanned(f, l, ids)).lits[k]| > 0
  {
    var cs := f.clauses;
    var t := Abs(Scanned(f, l, ids));
    DroppedFlags(cs, l, ids);
    forall k | 0 <= k < |cs| ensures |t.lits[k]| > 0 {
      DroppedAt(cs, l, ids, k);
      if k in ids {
        var i :| 0 <= i < |ids| && ids[i] == k;
        assert DropLit(cs[k], l).variables != [];
      }
      assert t.lits[k] == multiset(Dropped(cs, l, ids)[k].variables);
    }
    DroppedBags(cs, l, ids);
  }

  // ---------------------------------------------------------------------
  // remove_clauses_with_literal

  /** The fields after `remove_clause` of the clauses ids, one after the
      other. */
  function RemovedAll(f: Fields, ids: seq<nat>): (r: Fields)
    requires forall i :: 0 <= i < |ids| ==> ids[i] < |f.clauses|
    requires |ids| <= f.numActiveClauses
    ensures |r.clauses| == |f.clauses| && r.numActiveClauses == f.numActiveClauses - |ids|
    decreases |ids|
  {
    if ids == [] then f
    else
      var n := |ids| - 1;
      assert forall i :: 0 <= i < n ==> ids[..n][i] == ids[i];
      Removed(RemovedAll(f, ids[..n]), ids[n])
  }

  lemma RemovedAllSnoc(f: Fields, ids: seq<nat>, c: nat)
    requires forall i :: 0 <= i < |ids| ==> ids[i] < |f.clauses|
    requires c < |f.clauses| && |ids| < f.numActiveClauses
    ensures RemovedAll(f, ids + [c]) == Removed(RemovedAll(f, ids), c)
  {
    assert (ids + [c])[..|ids|] == ids;
  }

  lemma DistinctSnoc(ids: seq<nat>, id: nat)
    requires Distinct(ids) && forall i :: 0 <= i < |ids| ==> ids[i] != id
    ensures Distinct(ids + [id]) && (ids + [id])[|ids|] == id
  {
  }

  /** The state of the loop of `remove_clauses_with_literal` over the set
      e: todo is what is left of it, ids the clauses removed so far, in
      order, and g the fields after removing them. */
  ghost predicate Removing(f: Fields, e: set<nat>, todo: set<nat>, ids: seq<nat>, g: Fields) {
    todo <= e && Distinct(ids) &&
    (forall i :: 0 <= i < |ids| ==> ids[i] !in todo && ids[i] in e && ids[i] < |f.clauses|) &&
    (forall x :: x in e ==> x in todo || x in ids) &&
    |ids| <= f.numActiveClauses && g == RemovedAll(f, ids) &&
    Sound(Abs(g)) && g.numActiveClauses == Trues(Flags(g.clauses)) &&
    forall id :: id in todo ==> id < |g.clauses| && g.clauses[id].enabled
  }

  /** One more removal in the loop of `remove_clauses_with_literal`. */
  lemma RemovingStep(f: Fields, e: set<nat>, todo: set<nat>, ids: seq<nat>, g: Fields, c: nat)
    requires Removing(f, e, todo, ids, g) && c in todo
    ensures c < |g.clauses| && g.clauses[c].enabled && g.numActiveClauses > 0
    ensures forall x :: x in g.clauses[c].variables ==> x in g.literalToClause
    ensures Removing(f, e, todo - {c}, ids + [c], Removed(g, c)) && |todo - {c}| < |todo|
  {
    RemovedFrame(g, c);
    ClauseKeys(g, c);
    SoundDisable(Abs(g), c);
    RemovedAllSnoc(f, ids, c);
    DistinctSnoc(ids, c);
  }

  /** `remove_clauses_with_literal(l)`: every clause the index lists under
      l (a copy of the set, in no fixed order; ghost `ids` is the order
      taken) is removed by `remove_clause`; a literal that is not a key
      changes nothing. */
  method RemoveClauses(f: Fields, l: Lit) returns (f': Fields, ghost ids: seq<nat>)
    requires Sound(Abs(f)) && f.numActiveClauses == Trues(Flags(f.clauses))
    requires l in f.literalToClause ==> forall id :: id in f.literalToClause[l] ==> id < |f.clauses| && f.clauses[id].enabled
    ensures l !in f.literalToClause ==> ids == []
    ensures l in f.literalToClause ==> forall id :: id in f.literalToClause[l] <==> id in ids
    ensures Distinct(ids) && forall i :: 0 <= i < |ids| ==> ids[i] < |f.clauses|
    ensures |ids| <= f.numActiveClauses && f' == RemovedAll(f, ids)
  {
    f', ids := f, [];
    if l in f.literalToClause {
      var todo := f.literalToClause[l];
      ghost var e := f.literalToClause[l];
      while todo != {}
        invariant Removing(f, e, todo, ids, f')
        decreases |todo|
      {
        var id :| id in todo;
        RemovingStep(f, e, todo, ids, f', id);
        todo := todo - {id};
        f' := RemoveClause(f', id);
        ids := ids + [id];
      }
    }
  }

  /** t is s with the clauses ids disabled and taken out of the sets of
      their literals. */
  ghost predicate DisabledAll(s: Snapshot, t: Snapshot, ids: seq<nat>) {
    t.lits == s.lits && t.assignments == s.assignments && |t.enabled| == |s.enabled| && t.index.Keys == s.index.Keys &&
    (forall k :: 0 <= k < |t.enabled| ==> t.enabled[k] == (s.enabled[k] && k !in ids)) &&
    (forall x, k :: x in s.index ==> (k in t.index[x] <==> k in s.index[x] && !(k in ids && k < |s.lits| && x in s.lits[k])))
  }

  lemma DisabledStep(s: Snapshot, t: Snapshot, ids: seq<nat>, c: nat)
    requires DisabledAll(s, t, ids) && c < |t.lits| && c < |t.enabled|
    ensures DisabledAll(s, Disable(t, c), ids + [c])
  {
    assert forall k :: k in ids + [c] <==> k in ids || k == c;
  }

  lemma RemovedAbs(f: Fields, c: nat)
    requires c < |f.clauses| && f.numActiveClauses > 0
    ensures Abs(Removed(f, c)) == Disable(Abs(f), c)
  {
    SnapUpdate(f.clauses, c, f.clauses[c].(enabled := false));
  }

  /** What removing the clauses ids does to the snapshot. */
  lemma {:induction false} RemovedAllAbs(f: Fields, ids: seq<nat>)
    requires forall i :: 0 <= i < |ids| ==> ids[i] < |f.clauses|
    requires |ids| <= f.numActiveClauses
    ensures DisabledAll(Abs(f), Abs(RemovedAll(f, ids)), ids)
    decreases |ids|
  {
    if ids != [] {
      var n := |ids| - 1;
      var pre := ids[..n];
      assert forall i :: 0 <= i < n ==> pre[i] == ids[i];
      assert ids == pre + [ids[n]];
      RemovedAllAbs(f, pre);
      RemovedAbs(RemovedAll(f, pre), ids[n]);
      DisabledStep(Abs(f), Abs(RemovedAll(f, pre)), pre, ids[n]);
    }
  }

  /** Removing exactly the clauses a literal lists is `ClausesRemoved`. */
  lemma DisabledRemoved(s: Snapshot, t: Snapshot, l: Lit, ids: seq<nat>)
    requires DisabledAll(s, t, ids)
    requires l !in s.index ==> ids == []
    requires l in s.index ==> forall k :: k in s.index[l] <==> k in ids
    ensures ClausesRemoved(s, t, l)
  {
  }

  /** The groups of the removals of ids. */
  function Removals(ids: seq<nat>): (r: seq<Block>)
    decreases |ids|
  {
    if ids == [] then [] else Removals(ids[..|ids| - 1]) + [Removal(ids[|ids| - 1])]
  }

  lemma RemovalsSnoc(bs: seq<Block>, ids: seq<nat>)
    requires ids != []
    ensures bs + Removals(ids) == bs + Removals(ids[..|ids| - 1]) + [Removal(ids[|ids| - 1])]
  {
    var n := |ids| - 1;
    assert Removals(ids) == Removals(ids[..n]) + [Removal(ids[n])];
    Assoc(bs, Removals(ids[..n]), Removal(ids[n]));
  }

  lemma Assoc<T>(a: seq<T>, b: seq<T>, x: T)
    ensures a + (b + [x]) == a + b + [x]
  {
  }

  lemma RemovedAllEnabled(f: Fields, ids: seq<nat>, c: nat)
    requires forall i :: 0 <= i < |ids| ==> ids[i] < |f.clauses|
    requires |ids| <= f.numActiveClauses
    requires c < |f.clauses| && f.clauses[c].enabled && c !in ids
    ensures RemovedAll(f, ids).clauses[c].enabled
  {
    RemovedAllAbs(f, ids);
    assert Abs(RemovedAll(f, ids)).enabled[c] == Abs(f).enabled[c];
  }

  lemma RemovedAllStep(f: Fields, bs: seq<Block>, ids: seq<nat>, sv: seq<Snapshot>)
    requires ids != [] && forall i :: 0 <= i < |ids| ==> ids[i] < |f.clauses|
    requires |ids| - 1 <= f.numActiveClauses
    requires Invariant(RemovedAll(f, ids[..|ids| - 1]), bs + Removals(ids[..|ids| - 1]), sv)
    requires RemovedAll(f, ids[..|ids| - 1]).clauses[ids[|ids| - 1]].enabled
    ensures |ids| <= f.numActiveClauses
    ensures Invariant(RemovedAll(f, ids), bs + Removals(ids), sv + [Abs(RemovedAll(f, ids[..|ids| - 1]))])
    ensures Units(RemovedAll(f, ids[..|ids| - 1])) ==> Units(RemovedAll(f, ids))
  {
    var n := |ids| - 1;
    var pre := ids[..n];
    assert forall i :: 0 <= i < n ==> pre[i] == ids[i];
    RemovedInvariant(RemovedAll(f, pre), bs + Removals(pre), sv, ids[n]);
    RemovalsSnoc(bs, ids);
  }

  /** Removing distinct enabled clauses one after the other keeps the
      invariant, with one removal group per clause on top of bs and the
      states before them on top of sv, and keeps the heap right. */
  lemma {:induction false} RemovedAllInvariant(f: Fields, bs: seq<Block>, sv: seq<Snapshot>, ids: seq<nat>)
      returns (sv': seq<Snapshot>)
    requires Invariant(f, bs, sv) && Distinct(ids)
    requires forall i :: 0 <= i < |ids| ==> ids[i] < |f.clauses| && f.clauses[ids[i]].enabled
    ensures |ids| <= f.numActiveClauses
    ensures Invariant(RemovedAll(f, ids), bs + Removals(ids), sv')
    ensures sv <= sv' && |sv'| == |sv| + |ids|
    ensures Units(f) ==> Units(RemovedAll(f, ids))
    decreases |ids|
  {
    if ids == [] {
      assert bs + [] == bs;
      sv' := sv;
    } else {
      var n := |ids| - 1;
      var pre := ids[..n];
      assert forall i :: 0 <= i < n ==> pre[i] == ids[i];
      assert Distinct(pre);
      var sv1 := RemovedAllInvariant(f, bs, sv, pre);
      sv' := RemovedAllLast(f, bs, sv, ids, sv1);
    }
  }

  /** The last removal of that sequence, given the invariant after the
      ones before it. */
  lemma RemovedAllLast(f: Fields, bs: seq<Block>, sv: seq<Snapshot>, ids: seq<nat>, sv1: seq<Snapshot>)
      returns (sv': seq<Snapshot>)
    requires Distinct(ids) && ids != []
    requires forall i :: 0 <= i < |ids| ==> ids[i] < |f.clauses| && f.clauses[ids[i]].enabled
    requires |ids| - 1 <= f.numActiveClauses
    requires Invariant(RemovedAll(f, ids[..|ids| - 1]), bs + Removals(ids[..|ids| - 1]), sv1)
    requires sv <= sv1 && |sv1| == |sv| + |ids| - 1
    requires Units(f) ==> Units(RemovedAll(f, ids[..|ids| - 1]))
    ensures |ids| <= f.numActiveClauses
    ensures Invariant(RemovedAll(f, ids), bs + Removals(ids), sv')
    ensures sv <= sv' && |sv'| == |sv| + |ids|
    ensures Units(f) ==> Units(RemovedAll(f, ids))
  {
    var n := |ids| - 1;
    var pre := ids[..n];
    assert forall i :: 0 <= i < n ==> pre[i] == ids[i];
    assert ids[n] !in pre;
    RemovedAllEnabled(f, pre, ids[n]);
    RemovedAllStep(f, bs, ids, sv1);
    sv' := sv1 + [Abs(RemovedAll(f, pre))];
  }

  lemma RemovalsNoSpec(ids: seq<nat>)
    ensures |Removals(ids)| == |ids| && NoSpec(Removals(ids))
    decreases |ids|
  {
    if ids != [] {
      RemovalsNoSpec(ids[..|ids| - 1]);
    }
  }

  // ---------------------------------------------------------------------
  // assign_variable

  /** No clause is empty (the last of the `checks`). */
  predicate NoEmpty(f: Fields) {
    forall k :: 0 <= k < |f.clauses| ==> f.clauses[k].variables != []
  }

  /** The group `assign_variable` pushes for the variable. */
  function VarBlock(v: nat, spec: bool): Block {
    if spec then Speculation(v) else Assignment(v)
  }

  /** bs' is bs with b pushed and then groups that are no speculation. */
  predicate Pushed(bs: seq<Block>, bs': seq<Block>, b: Block) {
    |bs'| > |bs| && bs'[..|bs|] == bs && bs'[|bs|] == b && NoSpec(bs'[|bs| + 1..])
  }

  /** `set_variable` and the push of the variable's action. */
  function Set(f: Fields, v: nat, value: bool, spec: bool): Fields
    requires 1 <= v <= |f.assignments|
  {
    f.(assignments := f.assignments[v - 1 := Some(value)], actions := f.actions + Actions(VarBlock(v, spec)))
  }

  /** Setting an unassigned variable keeps the invariant with its group
      pushed, and undoing that group unassigns it. */
  lemma SetInvariant(f: Fields, bs: seq<Block>, sv: seq<Snapshot>, v: nat, value: bool, spec: bool)
    requires Invariant(f, bs, sv) && 1 <= v <= |f.assignments| && f.assignments[v - 1].None?
    ensures Abs(Set(f, v, value, spec)) == Assign(Abs(f), v, value)
    ensures Invariant(Set(f, v, value, spec), bs + [VarBlock(v, spec)], sv + [Abs(f)])
  {
    var b := VarBlock(v, spec);
    PushVar(bs, Abs(f), v, value, b);
    FlatSnoc(bs, b);
    PushBlock(Abs(f), Assign(Abs(f), v, value), bs, sv, b);
  }

  /** While v is unassigned, a clause the index lists under one of its
      literals is enabled and holds that literal. */
  lemma ListedFree(f: Fields, v: nat, l: Lit, id: nat)
    requires IndexChecked(Abs(f)) && 1 <= v <= |f.assignments| && f.assignments[v - 1].None?
    requires Var(l) == v && l in f.literalToClause && id in f.literalToClause[l]
    ensures id < |f.clauses| && f.clauses[id].enabled && l in f.clauses[id].variables
  {
    var s := Abs(f);
    assert s.index == f.literalToClause && s.assignments == f.assignments;
    assert Free(s.assignments, l) && l in s.index && id in s.index[l];
    assert id < |s.lits| && id < |s.enabled| && s.enabled[id] && l in s.lits[id];
    assert s.lits[id] == multiset(f.clauses[id].variables) && s.enabled[id] == f.clauses[id].enabled;
  }

  /** After a complete scan of l that emptied no clause, no enabled clause
      is l alone. */
  lemma NoFalseClause(f: Fields, l: Lit, ids: seq<nat>)
    requires Sound(Abs(f))
    requires l in f.literalToClause ==> Scan(f, l, ids) && forall id :: id in f.literalToClause[l] ==> id in ids
    ensures forall id :: 0 <= id < |f.clauses| && f.clauses[id].enabled ==> f.clauses[id].variables != [l]
  {
    forall id | 0 <= id < |f.clauses| && f.clauses[id].enabled && l in f.clauses[id].variables
      ensures DropLit(f.clauses[id], l).variables != []
    {
      assert l in Abs(f).lits[id] && Abs(f).enabled[id];
      assert l in f.literalToClause && id in f.literalToClause[l];
      assert id in ids;
      var i :| 0 <= i < |ids| && ids[i] == id;
    }
  }

  /** The clauses a scan went through stay enabled, and so do the others. */
  lemma ScannedEnabled(f: Fields, l: Lit, ids: seq<nat>, x: Lit)
    requires forall i :: 0 <= i < |ids| ==> ids[i] < |f.clauses|
    requires x in f.literalToClause ==> forall id :: id in f.literalToClause[x] ==> id < |f.clauses| && f.clauses[id].enabled
    ensures x in f.literalToClause ==> forall id :: id in f.literalToClause[x] ==> id < |Scanned(f, l, ids).clauses| && Scanned(f, l, ids).clauses[id].enabled
  {
    DroppedFlags(f.clauses, l, ids);
    forall id | x in f.literalToClause && id in f.literalToClause[x]
      ensures Scanned(f, l, ids).clauses[id].enabled
    {
      assert Flags(f.clauses)[id] == Flags(Scanned(f, l, ids).clauses)[id];
    }
  }

  lemma {:induction false} NewUnitsIn(cs: seq<Clause>, l: Lit, ids: seq<nat>, id: nat)
    requires forall i :: 0 <= i < |ids| ==> ids[i] < |cs|
    requires id in NewUnits(cs, l, ids)
    ensures id in ids && |DropLit(cs[id], l).variables| == 1
    decreases |ids|
  {
    var n := |ids| - 1;
    assert forall i :: 0 <= i < n ==> ids[..n][i] == ids[i];
    if id != ids[n] || |DropLit(cs[ids[n]], l).variables| != 1 {
      NewUnitsIn(cs, l, ids[..n], id);
    }
  }

  /** A unit clause holding l would have become empty, so a scan that
      emptied no clause leaves the old units alone. */
  lemma ScannedOldUnit(f: Fields, l: Lit, ids: seq<nat>, id: nat)
    requires l in f.literalToClause && Scan(f, l, ids) && Units(f) && id in f.unitClauses
    requires forall i :: 0 <= i < |ids| ==> l in f.clauses[ids[i]].variables
    ensures Dropped(f.clauses, l, ids)[id] == f.clauses[id]
  {
    DroppedAt(f.clauses, l, ids, id);
    forall i | 0 <= i < |ids| ensures ids[i] != id {
      assert |DropLit(f.clauses[ids[i]], l).variables| > 0;
      assert |f.clauses[ids[i]].variables| > 1;
    }
  }

  /** A new unit is a scanned clause left with one literal. */
  lemma ScannedNewUnit(f: Fields, l: Lit, ids: seq<nat>, id: nat)
    requires l in f.literalToClause && Scan(f, l, ids) && id in NewUnits(f.clauses, l, ids)
    ensures id in ids && Dropped(f.clauses, l, ids)[id] == DropLit(f.clauses[id], l)
    ensures |DropLit(f.clauses[id], l).variables| == 1
  {
    NewUnitsIn(f.clauses, l, ids, id);
    DroppedAt(f.clauses, l, ids, id);
  }

  /** A complete scan that emptied no clause keeps the heap right: the old
      units are untouched and the new ones are enabled clauses left with
      one literal. */
  lemma ScannedUnits(f: Fields, l: Lit, ids: seq<nat>)
    requires l in f.literalToClause && Scan(f, l, ids) && Units(f)
    requires forall i :: 0 <= i < |ids| ==> f.clauses[ids[i]].enabled && l in f.clauses[ids[i]].variables
    ensures Units(Scanned(f, l, ids))
  {
    var g := Scanned(f, l, ids);
    forall id | id in g.unitClauses
      ensures id < |g.clauses| && g.clauses[id].enabled && |g.clauses[id].variables| == 1
    {
      if id in f.unitClauses {
        ScannedOldUnit(f, l, ids, id);
      } else {
        ScannedNewUnit(f, l, ids, id);
      }
    }
  }

  /** The scan of `assign_variable`: the negated literal leaves the clauses
      that list it, which are enabled and hold it, and the invariant holds
      with the literal group pushed. */
  lemma ScanPhase(f: Fields, bs: seq<Block>, sv: seq<Snapshot>, v: nat, value: bool, spec: bool, ids: seq<nat>)
    requires Invariant(f, bs, sv) && IndexChecked(Abs(f))
    requires 1 <= v <= |f.assignments| && v <= 0x7FFF && f.assignments[v - 1].None?
    requires Neg(LiteralOf(v, value)) in f.literalToClause && Scan(Set(f, v, value, spec), Neg(LiteralOf(v, value)), ids)
    ensures forall i :: 0 <= i < |ids| ==> f.clauses[ids[i]].enabled && Neg(LiteralOf(v, value)) in f.clauses[ids[i]].variables
    ensures Invariant(Scanned(Set(f, v, value, spec), Neg(LiteralOf(v, value)), ids),
                      bs + [VarBlock(v, spec)] + [Literal(Neg(LiteralOf(v, value)), ids)],
                      sv + [Abs(f)] + [Abs(Set(f, v, value, spec))])
    ensures Units(f) ==> Units(Scanned(Set(f, v, value, spec), Neg(LiteralOf(v, value)), ids))
  {
    var neg := Neg(LiteralOf(v, value));
    var g := Set(f, v, value, spec);
    SetInvariant(f, bs, sv, v, value, spec);
    forall i | 0 <= i < |ids| ensures f.clauses[ids[i]].enabled && neg in f.clauses[ids[i]].variables {
      ListedFree(f, v, neg, ids[i]);
    }
    ScannedInvariant(g, bs + [VarBlock(v, spec)], sv + [Abs(f)], neg, ids);
    if Units(f) {
      ScannedUnits(g, neg, ids);
    }
  }

  lemma PushedMore(bs: seq<Block>, bs2: seq<Block>, b: Block, rest: seq<Block>)
    requires Pushed(bs, bs2, b) && NoSpec(rest)
    ensures Pushed(bs, bs2 + rest, b)
  {
    assert (bs2 + rest)[|bs| + 1..] == bs2[|bs| + 1..] + rest;
  }

  lemma PushedSnoc(bs: seq<Block>, sv: seq<Snapshot>, b: Block, x: Snapshot, rest: seq<Block>, more: seq<Snapshot>)
    requires NoSpec(rest) && |sv| == |bs|
    ensures Pushed(bs, bs + [b] + rest, b) && (sv + [x] + more)[..|bs| + 1] == sv + [x]
  {
    assert (bs + [b] + rest)[|bs| + 1..] == rest;
  }

  lemma PushedOne(bs: seq<Block>, sv: seq<Snapshot>, b: Block, x: Snapshot)
    requires |sv| == |bs|
    ensures Pushed(bs, bs + [b], b) && (sv + [x])[..|bs| + 1] == sv + [x]
  {
    assert (bs + [b])[|bs| + 1..] == [];
  }

  lemma PrefixKept<T>(a: seq<T>, b: seq<T>, n: nat)
    requires a <= b && n <= |a|
    ensures b[..n] == a[..n]
  {
  }

  /** No literal to remove leaves the clauses as they are. */
  lemma NothingRemoved(s: Snapshot, l: Lit)
    requires l !in s.index
    ensures LitsRemoved(s, s, l)
  {
  }

  /** What the first half of `assign_variable` leaves: the invariant with
      v's group pushed on bs and the state before it on sv; the index keys
      untouched; on a conflict, an enabled clause that is the negated literal
      alone; otherwise no such clause, the negated literal out of every
      clause and none of them empty, the clauses of the now true literal
      still enabled and the heap still right. */
  ghost predicate AfterScan(f: Fields, bs: seq<Block>, sv: seq<Snapshot>, v: nat, value: bool, spec: bool,
                            r: Option<nat>, g: Fields, bs': seq<Block>, sv': seq<Snapshot>)
  {
    ScanLog(f, bs, sv, v, spec, g, bs', sv') && ScanFacts(f, v, value, r, g)
  }

  ghost predicate ScanLog(f: Fields, bs: seq<Block>, sv: seq<Snapshot>, v: nat, spec: bool, g: Fields, bs': seq<Block>, sv': seq<Snapshot>) {
    Invariant(g, bs', sv') && Pushed(bs, bs', VarBlock(v, spec)) && |sv'| > |bs| && sv'[..|bs| + 1] == sv + [Abs(f)] &&
    g.literalToClause == f.literalToClause
  }

  ghost predicate ScanFacts(f: Fields, v: nat, value: bool, r: Option<nat>, g: Fields) {
    1 <= v <= 0x7FFF &&
    var neg := Neg(LiteralOf(v, value));
    var lit := LiteralOf(v, value);
    (r.Some? ==> r.value < |f.clauses| && f.clauses[r.value].enabled && f.clauses[r.value].variables == [neg]) &&
    (r.None? ==>
      (forall id :: 0 <= id < |f.clauses| && f.clauses[id].enabled ==> f.clauses[id].variables != [neg]) &&
      LitsRemoved(Assign(Abs(f), v, value), Abs(g), neg) &&
      (forall k :: 0 <= k < |Abs(g).lits| ==> |Abs(g).lits[k]| > 0) &&
      (forall id :: lit in f.literalToClause && id in f.literalToClause[lit] ==> id < |g.clauses| && g.clauses[id].enabled) &&
      (Units(f) ==> Units(g)))
  }

  /** The clauses of the now true literal are enabled and stay so. */
  lemma TrueClausesEnabled(f: Fields, v: nat, value: bool, spec: bool, ids: seq<nat>)
    requires IndexChecked(Abs(f)) && 1 <= v <= |f.assignments| && v <= 0x7FFF && f.assignments[v - 1].None?
    requires forall i :: 0 <= i < |ids| ==> ids[i] < |f.clauses|
    ensures forall id :: LiteralOf(v, value) in f.literalToClause && id in f.literalToClause[LiteralOf(v, value)] ==>
      id < |Scanned(Set(f, v, value, spec), Neg(LiteralOf(v, value)), ids).clauses| &&
      Scanned(Set(f, v, value, spec), Neg(LiteralOf(v, value)), ids).clauses[id].enabled
  {
    var lit := LiteralOf(v, value);
    forall id | lit in f.literalToClause && id in f.literalToClause[lit]
      ensures id < |f.clauses| && f.clauses[id].enabled
    {
      ListedFree(f, v, lit, id);
    }
    ScannedEnabled(Set(f, v, value, spec), Neg(lit), ids, lit);
  }

  lemma NonEmptyBags(f: Fields)
    requires NoEmpty(f)
    ensures forall k :: 0 <= k < |Abs(f).lits| ==> |Abs(f).lits[k]| > 0
  {
    forall k | 0 <= k < |Abs(f).lits| ensures |Abs(f).lits[k]| > 0 {
      assert |Abs(f).lits[k]| == |f.clauses[k].variables|;
    }
  }

  /** The negated literal is no key: nothing to scan. */
  lemma NoKeyOutcome(f: Fields, bs: seq<Block>, sv: seq<Snapshot>, v: nat, value: bool, spec: bool)
    requires Invariant(f, bs, sv) && IndexChecked(Abs(f)) && NoEmpty(f)
    requires 1 <= v <= |f.assignments| && v <= 0x7FFF && f.assignments[v - 1].None?
    requires Neg(LiteralOf(v, value)) !in f.literalToClause
    ensures AfterScan(f, bs, sv, v, value, spec, None, Set(f, v, value, spec), bs + [VarBlock(v, spec)], sv + [Abs(f)])
  {
    NoKeyLog(f, bs, sv, v, value, spec);
    NoKeyFacts(f, bs, sv, v, value, spec);
  }

  lemma NoKeyLog(f: Fields, bs: seq<Block>, sv: seq<Snapshot>, v: nat, value: bool, spec: bool)
    requires Invariant(f, bs, sv) && 1 <= v <= |f.assignments| && f.assignments[v - 1].None?
    ensures ScanLog(f, bs, sv, v, spec, Set(f, v, value, spec), bs + [VarBlock(v, spec)], sv + [Abs(f)])
  {
    SetInvariant(f, bs, sv, v, value, spec);
    PushedOne(bs, sv, VarBlock(v, spec), Abs(f));
  }

  lemma NoKeyFacts(f: Fields, bs: seq<Block>, sv: seq<Snapshot>, v: nat, value: bool, spec: bool)
    requires Invariant(f, bs, sv) && IndexChecked(Abs(f)) && NoEmpty(f)
    requires 1 <= v <= |f.assignments| && v <= 0x7FFF && f.assignments[v - 1].None?
    requires Neg(LiteralOf(v, value)) !in f.literalToClause
    ensures ScanFacts(f, v, value, None, Set(f, v, value, spec))
  {
    var g := Set(f, v, value, spec);
    assert Abs(g) == Assign(Abs(f), v, value);
    NoFalseClause(g, Neg(LiteralOf(v, value)), []);
    NothingRemoved(Abs(g), Neg(LiteralOf(v, value)));
    NonEmptyBags(g);
    TrueListed(f, v, value);
    var neg := Neg(LiteralOf(v, value));
    assert forall id :: 0 <= id < |f.clauses| && f.clauses[id].enabled ==> f.clauses[id].variables != [neg];
    assert LitsRemoved(Assign(Abs(f), v, value), Abs(g), neg);
    assert Units(f) ==> Units(g);
  }

  /** The clauses the index lists under the literal v makes true are
      enabled. */
  lemma TrueListed(f: Fields, v: nat, value: bool)
    requires IndexChecked(Abs(f)) && 1 <= v <= |f.assignments| && v <= 0x7FFF && f.assignments[v - 1].None?
    ensures forall id :: LiteralOf(v, value) in f.literalToClause && id in f.literalToClause[LiteralOf(v, value)] ==>
              id < |f.clauses| && f.clauses[id].enabled
  {
    forall id | LiteralOf(v, value) in f.literalToClause && id in f.literalToClause[LiteralOf(v, value)]
      ensures id < |f.clauses| && f.clauses[id].enabled
    {
      ListedFree(f, v, LiteralOf(v, value), id);
    }
  }

  /** The scan stopped at a clause that would have become empty. */
  lemma ConflictOutcome(f: Fields, bs: seq<Block>, sv: seq<Snapshot>, v: nat, value: bool, spec: bool, ids: seq<nat>, c: nat)
    requires Invariant(f, bs, sv) && IndexChecked(Abs(f))
    requires 1 <= v <= |f.assignments| && v <= 0x7FFF && f.assignments[v - 1].None?
    requires Neg(LiteralOf(v, value)) in f.literalToClause && Scan(Set(f, v, value, spec), Neg(LiteralOf(v, value)), ids)
    requires c in f.literalToClause[Neg(LiteralOf(v, value))] && c !in ids && DropLit(f.clauses[c], Neg(LiteralOf(v, value))).variables == []
    ensures AfterScan(f, bs, sv, v, value, spec, Some(c), Scanned(Set(f, v, value, spec), Neg(LiteralOf(v, value)), ids),
                      bs + [VarBlock(v, spec)] + [Literal(Neg(LiteralOf(v, value)), ids)], sv + [Abs(f)] + [Abs(Set(f, v, value, spec))])
  {
    var neg := Neg(LiteralOf(v, value));
    ScanPhase(f, bs, sv, v, value, spec, ids);
    PushedSnoc(bs, sv, VarBlock(v, spec), Abs(f), [Literal(neg, ids)], [Abs(Set(f, v, value, spec))]);
    ListedFree(f, v, neg, c);
    DropLitEmpty(f.clauses[c], neg);
  }

  /** The scan went through every clause of the negated literal. */
  lemma ScanOutcome(f: Fields, bs: seq<Block>, sv: seq<Snapshot>, v: nat, value: bool, spec: bool, ids: seq<nat>)
    requires Invariant(f, bs, sv) && IndexChecked(Abs(f)) && NoEmpty(f)
    requires 1 <= v <= |f.assignments| && v <= 0x7FFF && f.assignments[v - 1].None?
    requires Neg(LiteralOf(v, value)) in f.literalToClause && Scan(Set(f, v, value, spec), Neg(LiteralOf(v, value)), ids)
    requires forall id :: id in f.literalToClause[Neg(LiteralOf(v, value))] <==> id in ids
    ensures AfterScan(f, bs, sv, v, value, spec, None, Scanned(Set(f, v, value, spec), Neg(LiteralOf(v, value)), ids),
                      bs + [VarBlock(v, spec)] + [Literal(Neg(LiteralOf(v, value)), ids)], sv + [Abs(f)] + [Abs(Set(f, v, value, spec))])
  {
    var neg := Neg(LiteralOf(v, value));
    var g := Set(f, v, value, spec);
    ScanPhase(f, bs, sv, v, value, spec, ids);
    PushedSnoc(bs, sv, VarBlock(v, spec), Abs(f), [Literal(neg, ids)], [Abs(g)]);
    SetInvariant(f, bs, sv, v, value, spec);
    NoFalseClause(g, neg, ids);
    ScannedRemoved(g, neg, ids);
    TrueClausesEnabled(f, v, value, spec, ids);
  }

  /** The first half of `assign_variable`: v is set and its group pushed,
      then the negated literal leaves its clauses, stopping at a clause
      that would become empty. */
  method SetAndScan(f: Fields, ghost bs: seq<Block>, ghost sv: seq<Snapshot>, v: nat, value: bool, spec: bool)
      returns (r: Option<nat>, g2: Fields, ghost bs': seq<Block>, ghost sv': seq<Snapshot>)
    requires Invariant(f, bs, sv) && IndexChecked(Abs(f)) && NoEmpty(f)
    requires 1 <= v <= |f.assignments| && v <= 0x7FFF && f.assignments[v - 1].None?
    ensures AfterScan(f, bs, sv, v, value, spec, r, g2, bs', sv')
  {
    var lit := LiteralOf(v, value);
    var neg := Neg(lit);
    var g := f.(assignments := f.assignments[v - 1 := Some(value)],
                actions := f.actions + [if spec then Action.SpeculateVariable(v) else Action.AssignVariable(v)]);
    assert g == Set(f, v, value, spec);
    ghost var ids;
    r, g2, ids := RemoveLiteral(g, neg);
    if neg !in g.literalToClause {
      bs', sv' := bs + [VarBlock(v, spec)], sv + [Abs(f)];
      NoKeyOutcome(f, bs, sv, v, value, spec);
    } else {
      bs', sv' := bs + [VarBlock(v, spec)] + [Literal(neg, ids)], sv + [Abs(f)] + [Abs(g)];
      if r.Some? {
        ListedFree(f, v, neg, r.value);
        PutBackSame(g, neg, ids, r.value);
        ConflictOutcome(f, bs, sv, v, value, spec, ids, r.value);
      } else {
        ScanOutcome(f, bs, sv, v, value, spec, ids);
      }
    }
  }

  /** `assign_variable(v, value, spec)`, which `checks` the state first:
      v is set and its group (a speculation when `spec`) pushed; the
      negated literal leaves its clauses, which stops at a clause that would
      become empty, returned as the conflict; otherwise the clauses of the
      now true literal are removed. A conflict happens exactly when some
      enabled clause is the negated literal alone. */
  method AssignVariable(f: Fields, ghost bs: seq<Block>, ghost sv: seq<Snapshot>, v: nat, value: bool, spec: bool)
      returns (r: Option<nat>, f': Fields, ghost bs': seq<Block>, ghost sv': seq<Snapshot>, ghost mid: Snapshot)
    requires Invariant(f, bs, sv) && IndexChecked(Abs(f)) && NoEmpty(f)
    requires 1 <= v <= |f.assignments| && v <= 0x7FFF && f.assignments[v - 1].None?
    ensures Invariant(f', bs', sv') && Pushed(bs, bs', VarBlock(v, spec)) && sv'[..|bs| + 1] == sv + [Abs(f)]
    ensures r.Some? ==> r.value < |f.clauses| && f.clauses[r.value].enabled && f.clauses[r.value].variables == [Neg(LiteralOf(v, value))]
    ensures r.None? ==> forall id :: 0 <= id < |f.clauses| && f.clauses[id].enabled ==> f.clauses[id].variables != [Neg(LiteralOf(v, value))]
    ensures r.None? ==> AssignedStep(Abs(f), mid, Abs(f'), v, value)
    ensures r.None? && Units(f) ==> Units(f')
  {
    var lit := LiteralOf(v, value);
    r, f', bs', sv' := SetAndScan(f, bs, sv, v, value, spec);
    mid := Abs(f');
    if r.None? {
      var g2 := f';
      ghost var ids;
      f', ids := RemoveClauses(g2, lit);
      ghost var bs2, sv2 := bs', sv';
      sv' := RemovedAllInvariant(g2, bs2, sv2, ids);
      bs' := bs2 + Removals(ids);
      RemovalsNoSpec(ids);
      PushedMore(bs, bs2, VarBlock(v, spec), Removals(ids));
      PrefixKept(sv2, sv', |bs| + 1);
      RemovedAllAbs(g2, ids);
      DisabledRemoved(Abs(g2), Abs(f'), lit, ids);
    }
  }

  // ---------------------------------------------------------------------
  // backtrack

  /** Popping the newest group from the log: a state whose snapshot is the
      newest group undone, with the right count and the log of the older
      groups, is the state saved before that group, with the invariant. */
  lemma PoppedInvariant(f: Fields, bs: seq<Block>, sv: seq<Snapshot>, g: Fields)
    requires Invariant(f, bs, sv) && bs != []
    requires Abs(g) == UndoBlock(Abs(f), bs[|bs| - 1]) && |g.clauses| == |f.clauses|
    requires g.numActiveClauses == Trues(Flags(g.clauses)) && g.actions == Flat(bs[..|bs| - 1])
    ensures Abs(g) == sv[|bs| - 1] && Invariant(g, bs[..|bs| - 1], sv[..|bs| - 1])
  {
    PopFacts(bs, Abs(f));
    PopBlock(Abs(f), bs, sv);
  }

  /** `unassign_variable` for the newest group, a variable's: the variable
      was assigned, and unsetting it and popping its action gives back the
      state saved before it. */
  lemma UnsetInvariant(f: Fields, bs: seq<Block>, sv: seq<Snapshot>, v: nat)
    requires Invariant(f, bs, sv) && bs != [] && bs[|bs| - 1] in {Assignment(v), Speculation(v)}
    ensures 1 <= v <= |f.assignments| && f.assignments[v - 1].Some? && f.actions != []
    ensures var g := f.(assignments := f.assignments[v - 1 := None], actions := f.actions[..|f.actions| - 1]);
      Abs(g) == sv[|bs| - 1] && Invariant(g, bs[..|bs| - 1], sv[..|bs| - 1])
  {
    var n := |bs| - 1;
    var g := f.(assignments := f.assignments[v - 1 := None], actions := f.actions[..|f.actions| - 1]);
    assert VarsAssigned(bs, Abs(f).assignments) && IsVar(bs[n]);
    FlatLast(bs);
    PoppedInvariant(f, bs, sv, g);
  }

  lemma UndoLitsStep(s: Snapshot, l: Lit, ids: seq<nat>, j: nat)
    requires 0 < j <= |ids|
    ensures UndoLits(s, l, ids[..j]) == UndoLits(ReAddOne(s, l, ids[j - 1]), l, ids[..j - 1])
  {
    assert ids[..j][..j - 1] == ids[..j - 1];
  }

  /** `Clause::insert` of l into clause id and id put back into l's set is
      `ReAddOne`. */
  lemma SnapReAdd(cs: seq<Clause>, a: seq<Option<bool>>, m: map<Lit, set<nat>>, l: Lit, id: nat)
    requires id < |cs| && l in m
    ensures Snap(cs[id := cs[id].(variables := cs[id].variables + [l])], a, m[l := m[l] + {id}]) == ReAddOne(Snap(cs, a, m), l, id)
    ensures Flags(cs[id := cs[id].(variables := cs[id].variables + [l])]) == Flags(cs)
  {
    var c := cs[id].(variables := cs[id].variables + [l]);
    SnapUpdate(cs, id, c);
    assert multiset(c.variables) == multiset(cs[id].variables) + multiset{l};
    assert Flags(cs)[id := c.enabled] == Flags(cs);
  }

  lemma EntriesPrefix(ids: seq<nat>, j: nat)
    requires 0 < j <= |ids|
    ensures Entries(ids[..j]) == Entries(ids[..j - 1]) + [RemoveLiteralFromClause(ids[j - 1])]
  {
  }

  /** The inner loop of `backtrack` once it has popped
      `RemoveLiteralFromClausesEnd(l)`: entries are popped newest first
      down to the start marker, l is appended back to each clause they name
      (`Clause::insert`) and the clause goes back into l's set. The start
      marker is always there, so the source's panics cannot happen. */
  method PutBack(cs: seq<Clause>, m0: map<Lit, set<nat>>, log: seq<Action>, l: Lit,
                 ghost a: seq<Option<bool>>, ghost pre: seq<Action>, ghost ids: seq<nat>)
      returns (clauses: seq<Clause>, m: map<Lit, set<nat>>, actions: seq<Action>)
    requires log == pre + [RemoveLiteralFromClausesStart] + Entries(ids)
    requires l in m0 && forall i :: 0 <= i < |ids| ==> ids[i] < |cs|
    ensures actions == pre && |clauses| == |cs| && Flags(clauses) == Flags(cs)
    ensures Snap(clauses, a, m) == UndoLits(Snap(cs, a, m0), l, ids)
  {
    clauses, m, actions := cs, m0, log;
    ghost var j := |ids|;
    assert ids[..j] == ids;
    var exit := false;
    while !exit
      invariant 0 <= j <= |ids| && l in m && |clauses| == |cs| && Flags(clauses) == Flags(cs)
      invariant !exit ==> actions == pre + [RemoveLiteralFromClausesStart] + Entries(ids[..j])
      invariant exit ==> actions == pre && j == 0
      invariant UndoLits(Snap(clauses, a, m), l, ids[..j]) == UndoLits(Snap(cs, a, m0), l, ids)
      decreases |actions|
    {
      var action := actions[|actions| - 1];
      actions := actions[..|actions| - 1];
      match action
      case RemoveLiteralFromClause(id) =>
        EntriesPrefix(ids, j);
        assert id == ids[j - 1] && id < |clauses|;
        UndoLitsStep(Snap(clauses, a, m), l, ids, j);
        SnapReAdd(clauses, a, m, l, id);
        clauses := clauses[id := clauses[id].(variables := clauses[id].variables + [l])];
        m := m[l := m[l] + {id}];
        j := j - 1;
      case RemoveLiteralFromClausesStart =>
        assert j == 0;
        exit := true;
      case _ =>
        assert false;
    }
  }

  /** The log of a state whose newest group is a literal group ends with
      its start marker, its entries and its end marker; its literal is a
      key and its clauses exist. */
  lemma LiteralLog(f: Fields, bs: seq<Block>, sv: seq<Snapshot>) returns (b: Block)
    requires Invariant(f, bs, sv) && bs != [] && bs[|bs| - 1].Literal?
    ensures b == bs[|bs| - 1]
    ensures f.actions != [] && f.actions[|f.actions| - 1] == RemoveLiteralFromClausesEnd(b.literal)
    ensures f.actions[..|f.actions| - 1] == Flat(bs[..|bs| - 1]) + [RemoveLiteralFromClausesStart] + Entries(b.clauseIds)
    ensures b.literal in f.literalToClause
    ensures forall i :: 0 <= i < |b.clauseIds| ==> b.clauseIds[i] < |f.clauses|
  {
    b := bs[|bs| - 1];
    FlatLiteral(bs);
    KnownLast(bs, b, Abs(f).index.Keys, |Abs(f).lits|);
  }

  lemma FlatLiteral(bs: seq<Block>)
    requires bs != [] && bs[|bs| - 1].Literal?
    ensures Flat(bs) != [] && Flat(bs)[|Flat(bs)| - 1] == RemoveLiteralFromClausesEnd(bs[|bs| - 1].literal)
    ensures Flat(bs)[..|Flat(bs)| - 1] == Flat(bs[..|bs| - 1]) + [RemoveLiteralFromClausesStart] + Entries(bs[|bs| - 1].clauseIds)
  {
    FlatLast(bs);
  }

  lemma KnownLast(bs: seq<Block>, b: Block, keys: set<Lit>, n: nat)
    requires LiteralsKnown(bs, keys, n) && bs != [] && b == bs[|bs| - 1] && b.Literal?
    ensures b.literal in keys
    ensures forall i :: 0 <= i < |b.clauseIds| ==> b.clauseIds[i] < n
  {
    forall i | 0 <= i < |b.clauseIds| ensures b.clauseIds[i] < n {
      assert b.clauseIds[i] in b.clauseIds;
    }
  }

  /** `backtrack`'s handling of a literal group: the literal goes back into
      each clause it was removed from, newest first, and each of those
      clauses is listed under it again. */
  method UndoLiteral(f: Fields, ghost bs: seq<Block>, ghost sv: seq<Snapshot>, l: Lit) returns (f': Fields)
    requires Invariant(f, bs, sv) && bs != [] && bs[|bs| - 1].Literal? && bs[|bs| - 1].literal == l
    ensures Undone(f, bs, sv, f')
  {
    ghost var n := |bs| - 1;
    ghost var b := LiteralLog(f, bs, sv);
    ghost var ids := b.clauseIds;
    var clauses, m, actions := PutBack(f.clauses, f.literalToClause, f.actions[..|f.actions| - 1], l, f.assignments, Flat(bs[..n]), ids);
    f' := f.(clauses := clauses, literalToClause := m, actions := actions);
    PoppedInvariant(f, bs, sv, f');
  }

  /** f' is f with its newest group undone: the state saved before the
      group, with the groups and saved states before it. */
  ghost predicate Undone(f: Fields, bs: seq<Block>, sv: seq<Snapshot>, f': Fields) {
    bs != [] && |sv| == |bs| && Abs(f') == sv[|bs| - 1] && Invariant(f', bs[..|bs| - 1], sv[..|bs| - 1]) &&
    f'.unitClauses == f.unitClauses && f'.maxClauseLength == f.maxClauseLength
  }

  /** The newest action is the last one of the newest group, and tells
      which kind of group that is. */
  lemma NewestGroup(bs: seq<Block>) returns (b: Block)
    requires bs != []
    ensures b == bs[|bs| - 1] && Flat(bs) != []
    ensures var a := Flat(bs)[|Flat(bs)| - 1];
      (a.RemoveClause? ==> b == Removal(a.clause)) &&
      (a.RemoveLiteralFromClausesEnd? ==> b.Literal? && b.literal == a.literal) &&
      (a.AssignVariable? ==> b == Assignment(a.variable)) &&
      (a.SpeculateVariable? ==> b == Speculation(a.variable)) &&
      !a.RemoveLiteralFromClausesStart? && !a.RemoveLiteralFromClause?
  {
    b := bs[|bs| - 1];
    FlatLast(bs);
  }

  /** `backtrack` on a `RemoveClause` action: `enable_clause`. */
  method UndoRemoval(f: Fields, ghost bs: seq<Block>, ghost sv: seq<Snapshot>, c: nat) returns (f': Fields)
    requires Invariant(f, bs, sv) && bs != [] && bs[|bs| - 1] == Removal(c)
    ensures Undone(f, bs, sv, f')
  {
    EnabledInvariant(f, bs, sv, c);
    f' := EnableClause(f.(actions := f.actions[..|f.actions| - 1]), c);
  }

  /** `backtrack` on an `AssignVariable` or `SpeculateVariable` action:
      `unassign_variable`. */
  method UndoVariable(f: Fields, ghost bs: seq<Block>, ghost sv: seq<Snapshot>, v: nat) returns (f': Fields)
    requires Invariant(f, bs, sv) && bs != [] && bs[|bs| - 1] in {Assignment(v), Speculation(v)}
    ensures Undone(f, bs, sv, f')
  {
    UnsetInvariant(f, bs, sv, v);
    f' := f.(assignments := f.assignments[v - 1 := None], actions := f.actions[..|f.actions| - 1]);
  }

  /** One turn of `backtrack`'s loop: the newest action is popped and its
      group undone (a removed clause enabled again, a literal put back, a
      variable unassigned), which gives back the state saved before the
      group. */
  method PopGroup(f: Fields, ghost bs: seq<Block>, ghost sv: seq<Snapshot>) returns (f': Fields, propagated: bool, branched: bool)
    requires Invariant(f, bs, sv) && bs != []
    ensures Undone(f, bs, sv, f')
    ensures propagated <==> bs[|bs| - 1].Assignment?
    ensures branched <==> bs[|bs| - 1].Speculation?
  {
    ghost var b := NewestGroup(bs);
    var action := f.actions[|f.actions| - 1];
    propagated, branched := false, false;
    match action
    case RemoveClause(c) =>
      f' := UndoRemoval(f, bs, sv, c);
    case RemoveLiteralFromClausesEnd(l) =>
      f' := UndoLiteral(f, bs, sv, l);
    case AssignVariable(v) =>
      f' := UndoVariable(f, bs, sv, v);
      propagated := true;
    case SpeculateVariable(v) =>
      f' := UndoVariable(f, bs, sv, v);
      branched := true;
  }

  /** Where `backtrack`'s loop stands after undoing all groups from k on:
      none of them was a speculation, or (done) the group at k was the
      newest one; count is the number of propagations among them, as a
      `u16` that wraps around. */
  predicate Progress(bs: seq<Block>, k: nat, done: bool, count: nat) {
    k <= |bs| && count == Assigns(bs[k..]) % 0x10000 &&
    (!done ==> forall i :: k <= i < |bs| ==> !bs[i].Speculation?) &&
    (done ==> k < |bs| && bs[k].Speculation? && forall i :: k < i < |bs| ==> !bs[i].Speculation?)
  }

  lemma ProgressStep(bs: seq<Block>, k: nat, count: nat, propagated: bool, branched: bool)
    requires Progress(bs, k, false, count) && 0 < k
    requires (propagated <==> bs[k - 1].Assignment?) && (branched <==> bs[k - 1].Speculation?)
    ensures Progress(bs, k - 1, branched, if propagated then (count + 1) % 0x10000 else count)
  {
    assert bs[k - 1..][1..] == bs[k..];
  }

  /** The loop stops at the newest speculation, or at the start of the log
      when there is none. */
  lemma ProgressEnd(bs: seq<Block>, k: nat, done: bool, count: nat)
    requires Progress(bs, k, done, count) && (done || k == 0)
    ensures k == LastSpec(bs)
  {
  }

  /** The state part of `backtrack`'s loop: g is f with the groups from k
      on undone. */
  ghost predicate Rewound(f: Fields, bs: seq<Block>, sv: seq<Snapshot>, g: Fields, k: nat) {
    k <= |bs| == |sv| && Invariant(g, bs[..k], sv[..k]) &&
    Abs(g) == (if k == |bs| then Abs(f) else sv[k]) &&
    g.unitClauses == multiset{} && g.maxClauseLength == f.maxClauseLength
  }

  lemma RewoundStart(f: Fields, bs: seq<Block>, sv: seq<Snapshot>)
    requires Invariant(f, bs, sv)
    ensures Rewound(f, bs, sv, f.(unitClauses := multiset{}), |bs|)
  {
    assert bs[..|bs|] == bs && sv[..|sv|] == sv;
  }

  /** A non-empty log has a group left to undo. */
  lemma RewoundMore(f: Fields, bs: seq<Block>, sv: seq<Snapshot>, g: Fields, k: nat)
    requires Rewound(f, bs, sv, g, k) && g.actions != []
    ensures 0 < k && Invariant(g, bs[..k], sv[..k]) && bs[..k] != []
  {
  }

  lemma RewoundStep(f: Fields, bs: seq<Block>, sv: seq<Snapshot>, g: Fields, k: nat, g': Fields)
    requires Rewound(f, bs, sv, g, k) && 0 < k && Undone(g, bs[..k], sv[..k], g')
    ensures Rewound(f, bs, sv, g', k - 1)
  {
    assert bs[..k][..k - 1] == bs[..k - 1] && sv[..k][..k - 1] == sv[..k - 1];
  }

  /** An empty log has no group left. */
  lemma RewoundEmpty(f: Fields, bs: seq<Block>, sv: seq<Snapshot>, g: Fields, k: nat)
    requires Rewound(f, bs, sv, g, k) && g.actions == []
    ensures k == 0
  {
    if k != 0 {
      FlatLast(bs[..k]);
    }
  }

  /** One turn of `backtrack`'s loop: the newest group left is undone and
      counted when it was a propagation; a speculation ends the loop. */
  method UndoGroup(ghost f: Fields, ghost bs: seq<Block>, ghost sv: seq<Snapshot>, g: Fields, ghost k: nat, count: nat)
      returns (g': Fields, count': nat, done: bool, ghost k': nat)
    requires Rewound(f, bs, sv, g, k) && Progress(bs, k, false, count) && g.actions != []
    ensures k' < k && Rewound(f, bs, sv, g', k') && Progress(bs, k', done, count')
  {
    RewoundMore(f, bs, sv, g, k);
    var propagated;
    g', propagated, done := PopGroup(g, bs[..k], sv[..k]);
    RewoundStep(f, bs, sv, g, k, g');
    ProgressStep(bs, k, count, propagated, done);
    k' := k - 1;
    count' := if propagated then (count + 1) % 0x10000 else count;
  }

  /** When `backtrack`'s loop stops, it has undone exactly the groups from
      the newest speculation on. */
  lemma BacktrackEnd(f: Fields, bs: seq<Block>, sv: seq<Snapshot>, g: Fields, k: nat, done: bool, count: nat)
    requires Rewound(f, bs, sv, g, k) && Progress(bs, k, done, count) && (done || g.actions == [])
    ensures k == LastSpec(bs) && Invariant(g, bs[..k], sv[..k])
    ensures Abs(g) == if bs == [] then Abs(f) else sv[LastSpec(bs)]
    ensures count == Assigns(bs[LastSpec(bs)..]) % 0x10000
    ensures g.unitClauses == multiset{} && g.maxClauseLength == f.maxClauseLength
  {
    if !done {
      RewoundEmpty(f, bs, sv, g, k);
    }
    ProgressEnd(bs, k, done, count);
  }

  /** `backtrack`: the unit heap is cleared and groups are undone newest
      first up to and including the newest speculation, or all of them when
      there is none. The state is then the one saved before that
      speculation (the state as it was when nothing was logged), the log is
      the groups before it, and the count is the number of unit
      propagations undone, modulo 65536 as the `u16` counter of a release
      build keeps it. */
  method Backtrack(f: Fields, ghost bs: seq<Block>, ghost sv: seq<Snapshot>)
      returns (count: nat, f': Fields, ghost bs': seq<Block>, ghost sv': seq<Snapshot>)
    requires Invariant(f, bs, sv)
    ensures bs' == bs[..LastSpec(bs)] && sv' == sv[..LastSpec(bs)] && Invariant(f', bs', sv')
    ensures Abs(f') == if bs == [] then Abs(f) else sv[LastSpec(bs)]
    ensures count == Assigns(bs[LastSpec(bs)..]) % 0x10000
    ensures f'.unitClauses == multiset{} && f'.maxClauseLength == f.maxClauseLength
  {
    RewoundStart(f, bs, sv);
    var done;
    ghost var k;
    f', count, done, k := UndoGroups(f, bs, sv);
    BacktrackEnd(f, bs, sv, f', k, done, count);
    bs', sv' := bs[..k], sv[..k];
  }

  /** The loop of `backtrack`, after the heap is cleared: groups are
      undone until a speculation has been or the log is empty. */
  method UndoGroups(f: Fields, ghost bs: seq<Block>, ghost sv: seq<Snapshot>)
      returns (g: Fields, count: nat, done: bool, ghost k: nat)
    requires Rewound(f, bs, sv, f.(unitClauses := multiset{}), |bs|)
    ensures Rewound(f, bs, sv, g, k) && Progress(bs, k, done, count) && (done || g.actions == [])
  {
    g := f.(unitClauses := multiset{});
    count, done, k := 0, false, |bs|;
    assert bs[|bs|..] == [];
    while !done && g.actions != []
      invariant Rewound(f, bs, sv, g, k) && Progress(bs, k, done, count)
      decreases k
    {
      g, count, done, k := UndoGroup(f, bs, sv, g, k, count);
    }
  }
}
