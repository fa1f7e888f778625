/** The state of an `Expression` of src/structures/microsat.rs seen as
    values: the action log read as the groups of actions each operation
    pushes, a snapshot of the parts of the state that `backtrack` restores,
    and what undoing each group does to a snapshot. */
module MicrosatState {
  import opened Text
  import opened MicrosatClauses

  /** `Action` */
  datatype Action =
    | RemoveClause(clause: nat)
    | RemoveLiteralFromClausesStart
    | RemoveLiteralFromClause(clause: nat)
    | RemoveLiteralFromClausesEnd(literal: Lit)
    | AssignVariable(variable: nat)
    | SpeculateVariable(variable: nat)

  /** The actions one operation pushes: `remove_clause`, one complete
      `remove_literal_from_clauses` (the clauses it removed the literal
      from, oldest first), or `assign_variable`. */
  datatype Block =
    | Removal(clause: nat)
    | Literal(literal: Lit, clauseIds: seq<nat>)
    | Assignment(variable: nat)
    | Speculation(variable: nat)

  predicate IsVar(b: Block) {
    b.Assignment? || b.Speculation?
  }

  function Entries(ids: seq<nat>): (r: seq<Action>)
    ensures |r| == |ids| && forall k :: 0 <= k < |ids| ==> r[k] == RemoveLiteralFromClause(ids[k])
  {
    seq(|ids|, k requires 0 <= k < |ids| => RemoveLiteralFromClause(ids[k]))
  }

  function Actions(b: Block): seq<Action> {
    match b
    case Removal(c) => [RemoveClause(c)]
    case Literal(l, ids) => [RemoveLiteralFromClausesStart] + Entries(ids) + [RemoveLiteralFromClausesEnd(l)]
    case Assignment(v) => [AssignVariable(v)]
    case Speculation(v) => [SpeculateVariable(v)]
  }

  /** The log made of these groups, oldest first. */
  function Flat(bs: seq<Block>): seq<Action>
    decreases |bs|
  {
    if bs == [] then [] else Flat(bs[..|bs| - 1]) + Actions(bs[|bs| - 1])
  }

  lemma FlatSnoc(bs: seq<Block>, b: Block)
    ensures Flat(bs + [b]) == Flat(bs) + Actions(b)
  {
    assert (bs + [b])[..|bs|] == bs;
  }

  /** The last action of a log of groups tells the last group. */
  lemma FlatLast(bs: seq<Block>)
    requires bs != []
    ensures Flat(bs) == Flat(bs[..|bs| - 1]) + Actions(bs[|bs| - 1])
    ensures Flat(bs) != []
    ensures var a := Flat(bs)[|Flat(bs)| - 1];
      match bs[|bs| - 1]
      case Removal(c) => a == RemoveClause(c)
      case Literal(l, _) => a == RemoveLiteralFromClausesEnd(l)
      case Assignment(v) => a == AssignVariable(v)
      case Speculation(v) => a == SpeculateVariable(v)
  {
  }

  /** The parts of the state that `backtrack` restores, with each clause's
      literals as a bag: undoing a removal appends the literal back, so
      the order of a clause's literals is not restored. */
  datatype Snapshot = Snapshot(lits: seq<multiset<Lit>>, enabled: seq<bool>, assignments: seq<Option<bool>>, index: map<Lit, set<nat>>)

  function Bags(cs: seq<Clause>): (r: seq<multiset<Lit>>)
    ensures |r| == |cs| && forall k {:trigger r[k]} :: 0 <= k < |cs| ==> r[k] == multiset(cs[k].variables)
  {
    seq(|cs|, k requires 0 <= k < |cs| => multiset(cs[k].variables))
  }

  function Flags(cs: seq<Clause>): (r: seq<bool>)
    ensures |r| == |cs| && forall k {:trigger r[k]} :: 0 <= k < |cs| ==> r[k] == cs[k].enabled
  {
    seq(|cs|, k requires 0 <= k < |cs| => cs[k].enabled)
  }

  function Snap(cs: seq<Clause>, a: seq<Option<bool>>, idx: map<Lit, set<nat>>): Snapshot {
    Snapshot(Bags(cs), Flags(cs), a, idx)
  }

  lemma SnapUpdate(cs: seq<Clause>, k: nat, c: Clause)
    requires k < |cs|
    ensures Bags(cs[k := c]) == Bags(cs)[k := multiset(c.variables)]
    ensures Flags(cs[k := c]) == Flags(cs)[k := c.enabled]
  {
  }

  lemma SnapSnoc(cs: seq<Clause>, c: Clause)
    ensures Bags(cs + [c]) == Bags(cs) + [multiset(c.variables)]
    ensures Flags(cs + [c]) == Flags(cs) + [c.enabled]
  {
  }

  /** The number of true flags (enabled clauses). */
  function Trues(bs: seq<bool>): (n: nat)
    ensures n <= |bs|
    decreases |bs|
  {
    if bs == [] then 0 else Trues(bs[..|bs| - 1]) + (if bs[|bs| - 1] then 1 else 0)
  }

  lemma {:induction false} TruesUpdate(bs: seq<bool>, k: nat, b: bool)
    requires k < |bs|
    ensures Trues(bs[k := b]) == Trues(bs) - (if bs[k] then 1 else 0) + (if b then 1 else 0)
    decreases |bs|
  {
    var n := |bs| - 1;
    if k < n {
      assert bs[k := b][..n] == bs[..n][k := b];
      TruesUpdate(bs[..n], k, b);
    } else {
      assert bs[k := b][..n] == bs[..n];
    }
  }

  lemma {:induction false} TruesNone(bs: seq<bool>)
    ensures Trues(bs) == 0 <==> forall k :: 0 <= k < |bs| ==> !bs[k]
    decreases |bs|
  {
    if bs != [] {
      var n := |bs| - 1;
      TruesNone(bs[..n]);
      assert forall k :: 0 <= k < n ==> bs[..n][k] == bs[k];
    }
  }

  lemma {:induction false} TruesAll(bs: seq<bool>)
    ensures Trues(bs) == |bs| <==> forall k :: 0 <= k < |bs| ==> bs[k]
    decreases |bs|
  {
    if bs != [] {
      var n := |bs| - 1;
      TruesAll(bs[..n]);
      assert forall k :: 0 <= k < n ==> bs[..n][k] == bs[k];
    }
  }

  /** The number of assigned variables. */
  function Somes(a: seq<Option<bool>>): (n: nat)
    ensures n <= |a|
    decreases |a|
  {
    if a == [] then 0 else Somes(a[..|a| - 1]) + (if a[|a| - 1].Some? then 1 else 0)
  }

  lemma {:induction false} SomesUpdate(a: seq<Option<bool>>, k: nat, x: Option<bool>)
    requires k < |a|
    ensures Somes(a[k := x]) == Somes(a) - (if a[k].Some? then 1 else 0) + (if x.Some? then 1 else 0)
    decreases |a|
  {
    var n := |a| - 1;
    if k < n {
      assert a[k := x][..n] == a[..n][k := x];
      SomesUpdate(a[..n], k, x);
    } else {
      assert a[k := x][..n] == a[..n];
    }
  }

  // ---------------------------------------------------------------------
  // What the operations and their undoing do to a snapshot

  /** The index with clause c taken out of the sets of the literals in m. */
  function Stripped(idx: map<Lit, set<nat>>, m: multiset<Lit>, c: nat): (r: map<Lit, set<nat>>)
    ensures r.Keys == idx.Keys
  {
    map x | x in idx :: if x in m then idx[x] - {c} else idx[x]
  }

  /** The index with clause c put back into the sets of the literals in m. */
  function Restored(idx: map<Lit, set<nat>>, m: multiset<Lit>, c: nat): (r: map<Lit, set<nat>>)
    ensures r.Keys == idx.Keys
  {
    map x | x in idx :: if x in m then idx[x] + {c} else idx[x]
  }

  lemma RestoreStripped(idx: map<Lit, set<nat>>, m: multiset<Lit>, c: nat)
    requires forall x :: x in m ==> x in idx && c in idx[x]
    ensures Restored(Stripped(idx, m, c), m, c) == idx
  {
    var r := Restored(Stripped(idx, m, c), m, c);
    forall x | x in idx ensures r[x] == idx[x] {
      if x in m {
        assert c in idx[x];
        assert idx[x] - {c} + {c} == idx[x];
      }
    }
  }

  /** `remove_clause(c)` on a snapshot. */
  function Disable(s: Snapshot, c: nat): Snapshot
    requires c < |s.lits| && c < |s.enabled|
  {
    s.(enabled := s.enabled[c := false], index := Stripped(s.index, s.lits[c], c))
  }

  /** The literal put back into clause id, and id into the literal's set. */
  function ReAddOne(s: Snapshot, l: Lit, id: nat): Snapshot {
    if id < |s.lits| && l in s.index then
      s.(lits := s.lits[id := s.lits[id] + multiset{l}], index := s.index[l := s.index[l] + {id}])
    else s
  }

  /** Undoing the removal of l from the clauses ids, newest first. */
  function UndoLits(s: Snapshot, l: Lit, ids: seq<nat>): Snapshot
    decreases |ids|
  {
    if ids == [] then s else UndoLits(ReAddOne(s, l, ids[|ids| - 1]), l, ids[..|ids| - 1])
  }

  function Assign(s: Snapshot, v: nat, value: bool): Snapshot {
    if 1 <= v <= |s.assignments| then s.(assignments := s.assignments[v - 1 := Some(value)]) else s
  }

  function Unassign(s: Snapshot, v: nat): Snapshot {
    if 1 <= v <= |s.assignments| then s.(assignments := s.assignments[v - 1 := None]) else s
  }

  /** What popping one group in `backtrack` does: `enable_clause` for a
      removal, the literal put back for each of its clauses, and
      `unassign_variable`. */
  function UndoBlock(s: Snapshot, b: Block): Snapshot {
    match b
    case Removal(c) =>
      if c < |s.lits| && c < |s.enabled| then s.(enabled := s.enabled[c := true], index := Restored(s.index, s.lits[c], c)) else s
    case Literal(l, ids) => UndoLits(s, l, ids)
    case Assignment(v) => Unassign(s, v)
    case Speculation(v) => Unassign(s, v)
  }

  /** Undoing the groups bs, newest first. */
  function UndoAll(s: Snapshot, bs: seq<Block>): Snapshot
    decreases |bs|
  {
    if bs == [] then s else UndoAll(UndoBlock(s, bs[|bs| - 1]), bs[..|bs| - 1])
  }

  /** saved[i] is the state just before group i was pushed, and undoing the
      groups from i on in the current state s gives it back. */
  predicate Replays(s: Snapshot, bs: seq<Block>, saved: seq<Snapshot>) {
    |saved| == |bs| && forall i :: 0 <= i < |bs| ==> UndoAll(s, bs[i..]) == saved[i]
  }

  lemma PushBlock(s: Snapshot, t: Snapshot, bs: seq<Block>, saved: seq<Snapshot>, b: Block)
    requires Replays(s, bs, saved) && UndoBlock(t, b) == s
    ensures Replays(t, bs + [b], saved + [s])
  {
    forall i | 0 <= i < |bs| + 1
      ensures UndoAll(t, (bs + [b])[i..]) == (saved + [s])[i]
    {
      var tail := (bs + [b])[i..];
      assert tail[|tail| - 1] == b && tail[..|tail| - 1] == bs[i..];
    }
  }

  lemma PopBlock(s: Snapshot, bs: seq<Block>, saved: seq<Snapshot>)
    requires Replays(s, bs, saved) && bs != []
    ensures Replays(UndoBlock(s, bs[|bs| - 1]), bs[..|bs| - 1], saved[..|bs| - 1])
    ensures UndoBlock(s, bs[|bs| - 1]) == saved[|bs| - 1]
  {
    var n := |bs| - 1;
    var t := UndoBlock(s, bs[n]);
    assert bs[n..] == [bs[n]];
    assert UndoAll(s, bs[n..]) == UndoAll(t, []);
    forall i | 0 <= i < n
      ensures UndoAll(t, bs[..n][i..]) == saved[..n][i]
    {
      var tail := bs[i..];
      assert tail[|tail| - 1] == bs[n] && tail[..|tail| - 1] == bs[..n][i..];
    }
  }

  /** No speculation among the groups. */
  predicate NoSpec(bs: seq<Block>) {
    forall i :: 0 <= i < |bs| ==> !bs[i].Speculation?
  }

  /** The position of the newest speculation, where `backtrack` stops; 0
      when there is none and the whole log is undone. */
  function LastSpec(bs: seq<Block>): (j: nat)
    ensures j <= |bs| && (j == |bs| ==> bs == [])
    ensures forall i :: j < i < |bs| ==> !bs[i].Speculation?
    ensures j < |bs| && !bs[j].Speculation? ==> j == 0
    decreases |bs|
  {
    if bs == [] then 0
    else if bs[|bs| - 1].Speculation? then |bs| - 1
    else
      var j := LastSpec(bs[..|bs| - 1]);
      assert forall i :: 0 <= i < |bs| - 1 ==> bs[..|bs| - 1][i] == bs[i];
      j
  }

  /** The number of `AssignVariable` groups. */
  function Assigns(bs: seq<Block>): (n: nat)
    decreases |bs|
  {
    if bs == [] then 0 else (if bs[0].Assignment? then 1 else 0) + Assigns(bs[1..])
  }

  // ---------------------------------------------------------------------
  // Invariants of a snapshot

  /** Every id in the index names a clause; every literal of a clause is a
      key; an enabled clause is listed under each of its literals. */
  predicate Sound(s: Snapshot) {
    |s.lits| == |s.enabled| &&
    (forall x, id :: x in s.index && id in s.index[x] ==> id < |s.lits|) &&
    (forall k, x :: 0 <= k < |s.lits| && x in s.lits[k] ==> x in s.index && (s.enabled[k] ==> k in s.index[x]))
  }

  /** A removed clause is disabled and removed once, and every disabled
      clause was removed. */
  predicate RemovedDisabled(bs: seq<Block>, en: seq<bool>) {
    (forall i :: 0 <= i < |bs| && bs[i].Removal? ==> bs[i].clause < |en| && !en[bs[i].clause]) &&
    (forall i, j :: 0 <= i < j < |bs| && bs[i].Removal? && bs[j].Removal? ==> bs[i].clause != bs[j].clause) &&
    (forall k :: 0 <= k < |en| && !en[k] ==> Removal(k) in bs)
  }

  /** An assigned variable is assigned and assigned once, and every
      assigned variable is logged. */
  predicate VarsAssigned(bs: seq<Block>, a: seq<Option<bool>>) {
    (forall i :: 0 <= i < |bs| && IsVar(bs[i]) ==> 1 <= bs[i].variable <= |a| && a[bs[i].variable - 1].Some?) &&
    (forall i, j :: 0 <= i < j < |bs| && IsVar(bs[i]) && IsVar(bs[j]) ==> bs[i].variable != bs[j].variable) &&
    (forall k :: 0 <= k < |a| && a[k].Some? ==> Assignment(k + 1) in bs || Speculation(k + 1) in bs)
  }

  /** A literal group names a key and clauses that exist. */
  predicate LiteralsKnown(bs: seq<Block>, keys: set<Lit>, n: nat) {
    (forall i :: 0 <= i < |bs| && bs[i].Literal? ==> bs[i].literal in keys) &&
    (forall i, id :: 0 <= i < |bs| && bs[i].Literal? && id in bs[i].clauseIds ==> id < n)
  }

  /** What the log says about the state. */
  predicate LogFacts(bs: seq<Block>, s: Snapshot) {
    RemovedDisabled(bs, s.enabled) && VarsAssigned(bs, s.assignments) && LiteralsKnown(bs, s.index.Keys, |s.lits|)
  }

  /** Same flags, assignments, keys and number of clauses. */
  predicate SameFrame(s: Snapshot, t: Snapshot) {
    t.enabled == s.enabled && t.assignments == s.assignments && t.index.Keys == s.index.Keys && |t.lits| == |s.lits|
  }

  /** The solver invariant (the `checks` of the source, and what the search
      relies on): no clause is empty or repeats a literal; every variable in
      use is a position of the assignment, which has at most 32767
      positions; an enabled clause holds only unassigned literals; and an
      unassigned literal lists only enabled clauses that contain it. */
  predicate Good(s: Snapshot) {
    |s.lits| == |s.enabled| && |s.assignments| <= 0x7FFF &&
    (forall k :: 0 <= k < |s.lits| ==> |s.lits[k]| > 0) &&
    OnceEach(s) &&
    (forall x :: x in s.index ==> Var(x) <= |s.assignments|) &&
    LiveClauses(s) && IndexChecked(s)
  }

  /** Each literal occurs once in its clause and names a variable of the
      assignment. */
  predicate OnceEach(s: Snapshot) {
    forall k, x :: 0 <= k < |s.lits| && x in s.lits[k] ==> s.lits[k][x] == 1 && Var(x) <= |s.assignments|
  }

  /** An enabled clause holds only unassigned literals. */
  predicate LiveClauses(s: Snapshot)
    requires |s.lits| == |s.enabled|
  {
    forall k, x :: 0 <= k < |s.lits| && s.enabled[k] && x in s.lits[k] ==> Free(s.assignments, x)
  }

  /** An unassigned literal lists only enabled clauses that contain it. */
  predicate IndexChecked(s: Snapshot) {
    forall x: Lit, id: nat {:trigger id in s.index[x]} :: x in s.index && Free(s.assignments, x) && id in s.index[x] ==>
      id < |s.lits| && id < |s.enabled| && s.enabled[id] && x in s.lits[id]
  }

  /** The variable of x is unassigned. */
  predicate Free(a: seq<Option<bool>>, x: Lit) {
    Var(x) <= |a| && a[Var(x) - 1].None?
  }

  lemma FreeAssign(a: seq<Option<bool>>, v: nat, value: bool, x: Lit)
    requires 1 <= v <= |a|
    ensures Free(a[v - 1 := Some(value)], x) <==> Free(a, x) && Var(x) != v
  {
  }

  // ---------------------------------------------------------------------
  // The log facts, one group at a time

  lemma RemovedOther(bs: seq<Block>, en: seq<bool>, b: Block)
    requires RemovedDisabled(bs, en) && !b.Removal?
    ensures RemovedDisabled(bs + [b], en)
  {
    forall k | 0 <= k < |en| && !en[k] ensures Removal(k) in bs + [b] {
      assert Removal(k) in bs;
    }
  }

  lemma RemovedPush(bs: seq<Block>, en: seq<bool>, c: nat)
    requires RemovedDisabled(bs, en) && c < |en| && en[c]
    ensures RemovedDisabled(bs + [Removal(c)], en[c := false])
  {
    var bs' := bs + [Removal(c)];
    forall k | 0 <= k < |en| && !en[c := false][k] ensures Removal(k) in bs' {
      if k != c {
        assert Removal(k) in bs;
      } else {
        assert bs'[|bs|] == Removal(c);
      }
    }
  }

  lemma RemovedDrop(bs: seq<Block>, en: seq<bool>)
    requires RemovedDisabled(bs, en) && bs != [] && !bs[|bs| - 1].Removal?
    ensures RemovedDisabled(bs[..|bs| - 1], en)
  {
    var pre := bs[..|bs| - 1];
    forall k | 0 <= k < |en| && !en[k] ensures Removal(k) in pre {
      var i :| 0 <= i < |bs| && bs[i] == Removal(k);
      assert pre[i] == bs[i];
    }
  }

  lemma RemovedPop(bs: seq<Block>, en: seq<bool>, c: nat)
    requires RemovedDisabled(bs, en) && bs != [] && bs[|bs| - 1] == Removal(c)
    ensures c < |en| && RemovedDisabled(bs[..|bs| - 1], en[c := true])
  {
    var n := |bs| - 1;
    var pre := bs[..n];
    assert bs[n].Removal?;
    forall i | 0 <= i < n && pre[i].Removal? ensures pre[i].clause < |en| && !en[c := true][pre[i].clause] {
      assert pre[i] == bs[i];
    }
    forall k | 0 <= k < |en| && !en[c := true][k] ensures Removal(k) in pre {
      var i :| 0 <= i < |bs| && bs[i] == Removal(k);
      assert i != n;
      assert pre[i] == bs[i];
    }
  }

  lemma VarsOther(bs: seq<Block>, a: seq<Option<bool>>, b: Block)
    requires VarsAssigned(bs, a) && !IsVar(b)
    ensures VarsAssigned(bs + [b], a)
  {
    forall k | 0 <= k < |a| && a[k].Some? ensures Assignment(k + 1) in bs + [b] || Speculation(k + 1) in bs + [b] {
      assert Assignment(k + 1) in bs || Speculation(k + 1) in bs;
    }
  }

  lemma VarsPush(bs: seq<Block>, a: seq<Option<bool>>, v: nat, value: bool, b: Block)
    requires VarsAssigned(bs, a) && 1 <= v <= |a| && a[v - 1].None?
    requires b == Assignment(v) || b == Speculation(v)
    ensures VarsAssigned(bs + [b], a[v - 1 := Some(value)])
  {
    var bs' := bs + [b];
    var a' := a[v - 1 := Some(value)];
    forall k | 0 <= k < |a'| && a'[k].Some? ensures Assignment(k + 1) in bs' || Speculation(k + 1) in bs' {
      if k != v - 1 {
        assert Assignment(k + 1) in bs || Speculation(k + 1) in bs;
      } else {
        assert bs'[|bs|] == b;
      }
    }
    forall i, j | 0 <= i < j < |bs'| && IsVar(bs'[i]) && IsVar(bs'[j]) ensures bs'[i].variable != bs'[j].variable {
      if j == |bs| {
        assert a[bs[i].variable - 1].Some?;
      }
    }
  }

  lemma VarsDrop(bs: seq<Block>, a: seq<Option<bool>>)
    requires VarsAssigned(bs, a) && bs != [] && !IsVar(bs[|bs| - 1])
    ensures VarsAssigned(bs[..|bs| - 1], a)
  {
    var pre := bs[..|bs| - 1];
    forall k | 0 <= k < |a| && a[k].Some? ensures Assignment(k + 1) in pre || Speculation(k + 1) in pre {
      var i :| 0 <= i < |bs| && (bs[i] == Assignment(k + 1) || bs[i] == Speculation(k + 1));
      assert pre[i] == bs[i];
    }
  }

  lemma VarsPop(bs: seq<Block>, a: seq<Option<bool>>, v: nat)
    requires VarsAssigned(bs, a) && bs != []
    requires bs[|bs| - 1] == Assignment(v) || bs[|bs| - 1] == Speculation(v)
    ensures 1 <= v <= |a| && VarsAssigned(bs[..|bs| - 1], a[v - 1 := None])
  {
    var n := |bs| - 1;
    var pre := bs[..n];
    var a' := a[v - 1 := None];
    assert IsVar(bs[n]);
    forall i | 0 <= i < n && IsVar(pre[i]) ensures 1 <= pre[i].variable <= |a'| && a'[pre[i].variable - 1].Some? {
      assert pre[i] == bs[i];
    }
    forall k | 0 <= k < |a'| && a'[k].Some? ensures Assignment(k + 1) in pre || Speculation(k + 1) in pre {
      var i :| 0 <= i < |bs| && (bs[i] == Assignment(k + 1) || bs[i] == Speculation(k + 1));
      assert i != n;
      assert pre[i] == bs[i];
    }
  }

  lemma LiteralsPush(bs: seq<Block>, keys: set<Lit>, n: nat, b: Block)
    requires LiteralsKnown(bs, keys, n)
    requires b.Literal? ==> b.literal in keys && forall id :: id in b.clauseIds ==> id < n
    ensures LiteralsKnown(bs + [b], keys, n)
  {
  }

  lemma LiteralsDrop(bs: seq<Block>, keys: set<Lit>, n: nat)
    requires LiteralsKnown(bs, keys, n) && bs != []
    ensures LiteralsKnown(bs[..|bs| - 1], keys, n)
  {
    var pre := bs[..|bs| - 1];
    assert forall i :: 0 <= i < |pre| ==> pre[i] == bs[i];
  }

  // ---------------------------------------------------------------------
  // Pushing and popping groups keeps the invariants

  lemma SoundDisable(s: Snapshot, c: nat)
    requires Sound(s) && c < |s.lits|
    ensures Sound(Disable(s, c))
  {
  }

  lemma PushRemoval(bs: seq<Block>, s: Snapshot, c: nat)
    requires Sound(s) && LogFacts(bs, s) && c < |s.lits| && s.enabled[c]
    ensures Sound(Disable(s, c)) && LogFacts(bs + [Removal(c)], Disable(s, c))
    ensures UndoBlock(Disable(s, c), Removal(c)) == s
  {
    SoundDisable(s, c);
    RestoreStripped(s.index, s.lits[c], c);
    assert s.enabled[c := false][c := true] == s.enabled;
    RemovedPush(bs, s.enabled, c);
    VarsOther(bs, s.assignments, Removal(c));
    LiteralsPush(bs, s.index.Keys, |s.lits|, Removal(c));
  }

  lemma PushVar(bs: seq<Block>, s: Snapshot, v: nat, value: bool, b: Block)
    requires Sound(s) && LogFacts(bs, s) && 1 <= v <= |s.assignments| && s.assignments[v - 1].None?
    requires b == Assignment(v) || b == Speculation(v)
    ensures Sound(Assign(s, v, value)) && LogFacts(bs + [b], Assign(s, v, value))
    ensures UndoBlock(Assign(s, v, value), b) == s
  {
    assert s.assignments[v - 1 := Some(value)][v - 1 := None] == s.assignments;
    RemovedOther(bs, s.enabled, b);
    VarsPush(bs, s.assignments, v, value, b);
    LiteralsPush(bs, s.index.Keys, |s.lits|, b);
  }

  lemma PushLiteral(bs: seq<Block>, s: Snapshot, t: Snapshot, l: Lit, ids: seq<nat>)
    requires LogFacts(bs, s) && SameFrame(s, t) && l in s.index
    requires forall id :: id in ids ==> id < |s.lits|
    ensures LogFacts(bs + [Literal(l, ids)], t)
  {
    RemovedOther(bs, s.enabled, Literal(l, ids));
    VarsOther(bs, s.assignments, Literal(l, ids));
    LiteralsPush(bs, s.index.Keys, |s.lits|, Literal(l, ids));
  }

  lemma {:induction false} UndoLitsFrame(s: Snapshot, l: Lit, ids: seq<nat>)
    requires Sound(s)
    ensures SameFrame(s, UndoLits(s, l, ids)) && Sound(UndoLits(s, l, ids))
    decreases |ids|
  {
    if ids != [] {
      var id := ids[|ids| - 1];
      var t := ReAddOne(s, l, id);
      if id < |s.lits| && l in s.index {
        forall k, x | 0 <= k < |t.lits| && x in t.lits[k]
          ensures x in t.index && (t.enabled[k] ==> k in t.index[x])
        {
          if k != id || x != l {
            assert x in s.lits[k];
          }
        }
      }
      UndoLitsFrame(t, l, ids[..|ids| - 1]);
    }
  }

  lemma SoundEnable(s: Snapshot, c: nat)
    requires Sound(s) && c < |s.lits|
    ensures Sound(UndoBlock(s, Removal(c)))
  {
  }

  /** Popping the newest group keeps the snapshot sound and the log facts. */
  lemma PopFacts(bs: seq<Block>, s: Snapshot)
    requires Sound(s) && LogFacts(bs, s) && bs != []
    ensures Sound(UndoBlock(s, bs[|bs| - 1])) && LogFacts(bs[..|bs| - 1], UndoBlock(s, bs[|bs| - 1]))
    ensures |UndoBlock(s, bs[|bs| - 1]).lits| == |s.lits| && |UndoBlock(s, bs[|bs| - 1]).assignments| == |s.assignments|
  {
    var n := |bs| - 1;
    LiteralsDrop(bs, s.index.Keys, |s.lits|);
    match bs[n]
    case Removal(c) =>
      RemovedPop(bs, s.enabled, c);
      VarsDrop(bs, s.assignments);
      SoundEnable(s, c);
    case Literal(l, ids) =>
      UndoLitsFrame(s, l, ids);
      RemovedDrop(bs, s.enabled);
      VarsDrop(bs, s.assignments);
    case Assignment(v) =>
      RemovedDrop(bs, s.enabled);
      VarsPop(bs, s.assignments, v);
    case Speculation(v) =>
      RemovedDrop(bs, s.enabled);
      VarsPop(bs, s.assignments, v);
  }

  // ---------------------------------------------------------------------
  // Assigning a variable keeps the solver invariant

  /** s2 is s1 with l taken out of every clause the index lists under l. */
  predicate LitsRemoved(s1: Snapshot, s2: Snapshot, l: Lit) {
    SameFrame(s1, s2) && s2.index == s1.index &&
    forall k :: 0 <= k < |s2.lits| ==>
      s2.lits[k] == if l in s1.index && k in s1.index[l] then s1.lits[k] - multiset{l} else s1.lits[k]
  }

  /** s3 is s2 with every clause the index lists under l disabled and taken
      out of the index. */
  ghost predicate ClausesRemoved(s2: Snapshot, s3: Snapshot, l: Lit) {
    s3.lits == s2.lits && s3.assignments == s2.assignments && |s3.enabled| == |s2.enabled| && s3.index.Keys == s2.index.Keys &&
    (forall k :: 0 <= k < |s3.enabled| ==> s3.enabled[k] == (s2.enabled[k] && !(l in s2.index && k in s2.index[l]))) &&
    (forall x, k :: x in s2.index ==> (k in s3.index[x] <==> k in s2.index[x] && !(l in s2.index && k in s2.index[l] && k < |s2.lits| && x in s2.lits[k])))
  }

  /** What `assign_variable` does when no clause becomes empty: v is set,
      the now false literal leaves its clauses and the clauses of the now
      true literal are removed. */
  ghost predicate AssignedStep(s0: Snapshot, s2: Snapshot, s3: Snapshot, v: nat, value: bool) {
    1 <= v <= |s0.assignments| && v <= 0x7FFF && s0.assignments[v - 1].None? &&
    LitsRemoved(Assign(s0, v, value), s2, Neg(LiteralOf(v, value))) &&
    (forall k :: 0 <= k < |s2.lits| ==> |s2.lits[k]| > 0) &&
    ClausesRemoved(s2, s3, LiteralOf(v, value))
  }

  lemma AssignedLive(s0: Snapshot, s2: Snapshot, s3: Snapshot, v: nat, value: bool)
    requires Good(s0) && Sound(s0) && AssignedStep(s0, s2, s3, v, value)
    ensures |s3.lits| == |s3.enabled| && LiveClauses(s3)
  {
    var lit := LiteralOf(v, value);
    var neg := Neg(lit);
    assert LiveClauses(s0);
    forall k, x | 0 <= k < |s3.lits| && s3.enabled[k] && x in s3.lits[k]
      ensures Free(s3.assignments, x)
    {
      var s1 := Assign(s0, v, value);
      assert s1.lits == s0.lits && s1.index == s0.index && s1.enabled == s0.enabled;
      assert s0.enabled[k] && x in s0.lits[k];
      assert Free(s0.assignments, x);
      assert x != neg && x != lit;
      FreeAssign(s0.assignments, v, value, x);
    }
  }

  lemma AssignedCheckOne(s0: Snapshot, s2: Snapshot, s3: Snapshot, v: nat, value: bool, x: Lit, id: nat)
    requires IndexChecked(s0) && |s0.lits| == |s0.enabled| && AssignedStep(s0, s2, s3, v, value)
    requires x in s3.index && Free(s3.assignments, x) && id in s3.index[x]
    ensures id < |s3.lits| && id < |s3.enabled| && s3.enabled[id] && x in s3.lits[id]
  {
    var lit := LiteralOf(v, value);
    var s1 := Assign(s0, v, value);
    assert s1.index == s0.index && s2.index == s0.index && s2.enabled == s0.enabled;
    FreeAssign(s0.assignments, v, value, x);
    assert Var(x) != v;
    assert id in s0.index[x];
    assert id < |s0.lits| && s0.enabled[id] && x in s0.lits[id];
    assert x in s2.lits[id];
  }

  lemma AssignedChecks(s0: Snapshot, s2: Snapshot, s3: Snapshot, v: nat, value: bool)
    requires IndexChecked(s0) && |s0.lits| == |s0.enabled| && AssignedStep(s0, s2, s3, v, value)
    ensures IndexChecked(s3)
  {
    forall x: Lit, id: nat {:trigger id in s3.index[x]} | x in s3.index && Free(s3.assignments, x) && id in s3.index[x]
      ensures id < |s3.lits| && id < |s3.enabled| && s3.enabled[id] && x in s3.lits[id]
    {
      AssignedCheckOne(s0, s2, s3, v, value, x, id);
    }
  }

  /** `assign_variable` when no clause became empty keeps the solver
      invariant. */
  lemma GoodAfterAssign(s0: Snapshot, s2: Snapshot, s3: Snapshot, v: nat, value: bool)
    requires Good(s0) && Sound(s0) && AssignedStep(s0, s2, s3, v, value)
    ensures Good(s3)
  {
    AssignedShape(s0, s2, s3, v, value);
    AssignedSingles(s0, s2, s3, v, value);
    AssignedLive(s0, s2, s3, v, value);
    AssignedChecks(s0, s2, s3, v, value);
  }

  /** The sizes, the non-empty clauses and the index's variables survive
      the assignment. */
  lemma AssignedShape(s0: Snapshot, s2: Snapshot, s3: Snapshot, v: nat, value: bool)
    requires Good(s0) && AssignedStep(s0, s2, s3, v, value)
    ensures |s3.lits| == |s3.enabled| && |s3.assignments| <= 0x7FFF
    ensures forall k :: 0 <= k < |s3.lits| ==> |s3.lits[k]| > 0
    ensures forall x :: x in s3.index ==> Var(x) <= |s3.assignments|
  {
    var s1 := Assign(s0, v, value);
    assert s3.lits == s2.lits && s3.assignments == s2.assignments;
    assert |s2.assignments| == |s1.assignments| == |s0.assignments|;
    forall x | x in s3.index ensures Var(x) <= |s3.assignments| {
      assert x in s2.index.Keys;
      assert x in s0.index;
    }
  }

  /** Every literal still occurs once in its clause and names an existing
      variable. */
  lemma AssignedSingles(s0: Snapshot, s2: Snapshot, s3: Snapshot, v: nat, value: bool)
    requires Good(s0) && AssignedStep(s0, s2, s3, v, value)
    ensures OnceEach(s3)
  {
    var s1 := Assign(s0, v, value);
    assert s1.lits == s0.lits && s1.index == s0.index;
    assert |s3.assignments| == |s2.assignments| == |s1.assignments| == |s0.assignments|;
    assert |s3.lits| == |s2.lits| == |s1.lits| == |s0.lits|;
    forall k, x | 0 <= k < |s3.lits| && x in s3.lits[k] ensures s3.lits[k][x] == 1 {
      SingleAt(s0, s1, s2, s3, Neg(LiteralOf(v, value)), k, x);
    }
    forall k, x | 0 <= k < |s3.lits| && x in s3.lits[k] ensures Var(x) <= |s3.assignments| {
      SingleAt(s0, s1, s2, s3, Neg(LiteralOf(v, value)), k, x);
    }
  }

  lemma SingleAt(s0: Snapshot, s1: Snapshot, s2: Snapshot, s3: Snapshot, neg: Lit, k: nat, x: Lit)
    requires Good(s0) && s1.lits == s0.lits && |s1.assignments| == |s0.assignments| && LitsRemoved(s1, s2, neg)
    requires s3.lits == s2.lits && s3.assignments == s2.assignments
    requires k < |s3.lits| && x in s3.lits[k]
    ensures s3.lits[k][x] == 1 && Var(x) <= |s3.assignments|
  {
    assert s2.lits[k] == s0.lits[k] - multiset{neg} || s2.lits[k] == s0.lits[k];
    assert x in s0.lits[k];
    GoodAt(s0, k, x);
  }

  lemma GoodAt(s: Snapshot, k: nat, x: Lit)
    requires Good(s) && k < |s.lits| && x in s.lits[k]
    ensures s.lits[k][x] == 1 && Var(x) <= |s.assignments|
  {
  }
}
