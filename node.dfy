/** src/structures/node.rs: the per-node clause-processing state machine,
    the node's own copy of the delayed message queue, and the arena that
    links nodes. A node waits for a fork (AwaitingFork), takes one
    (RecievingFork), chooses how to branch (Branching) and then checks its
    clauses one substitution mask at a time (ProcessingClauses).

    Every `assert!`, `expect` and arithmetic overflow the source would
    panic on (debug build) becomes `ok == false`. Each operation's effect is
    stated as a predicate over snapshots (`NodeData`) of the node before
    and after, and over the queue before and after; the methods of `Node`
    are proved to meet those predicates, and the lemmas at the end are
    about the predicates. */
module Nodes {
  import opened Text
  import opened Messages
  import Neighbors

  datatype NodeState = ProcessingClauses | Branching | AwaitingFork | RecievingFork

  /** The states `init_processing` accepts. */
  predicate ReadyToProcess(s: NodeState) {
    s == RecievingFork || s == Branching
  }

  /** The fields of a `Node`, as a value. */
  datatype NodeData = NodeData(
    id: nat,
    neighbors: seq<nat>,
    table: CnfState,
    lastUpdate: U8,
    clauseIndex: nat,
    satFlag: bool,
    state: NodeState,
    speculativeBranches: seq<U8>,
    incomingMessage: Option<Message>)

  /** `Vec::retain(|&n| n != x)`: every occurrence of x removed, the other
      ids kept in order. */
  function Without(s: seq<nat>, x: nat): (r: seq<nat>)
    ensures multiset(r)[x] == 0
    ensures forall y :: y != x ==> multiset(r)[y] == multiset(s)[y]
    ensures |r| == |s| - multiset(s)[x]
  {
    if s == [] then []
    else
      assert s == [s[0]] + s[1..];
      (if s[0] == x then [] else [s[0]]) + Without(s[1..], x)
  }

  /** What `init_processing` does once its assertion holds. */
  function Restarted(d: NodeData): NodeData {
    d.(state := ProcessingClauses, clauseIndex := 0, satFlag := true)
  }

  /** A message the node sends: `send_message` signs it with the node's id. */
  function From(d: NodeData, dest: MessageDestination, msg: Message): Entry {
    Entry(Neighbor(d.id), dest, msg)
  }

  /** `start_message` for each entry in turn: node.rs pushes with delay 1,
      which appends to the head slot, and does not consult the clock. */
  function PushAll(r: Ring<Entry>, es: seq<Entry>): (r': Ring<Entry>)
    requires RingOk(r)
    ensures RingOk(r') && |r'.slots| == |r.slots| && r'.head == r.head
    ensures r'.slots[r.head] == r.slots[r.head] + es
    ensures forall k :: 0 <= k < |r.slots| && k != r.head ==> r'.slots[k] == r.slots[k]
    decreases |es|
  {
    if es == [] then r else RingPush(PushAll(r, es[..|es| - 1]), es[|es| - 1])
  }

  function Pushed(q: QueueState, es: seq<Entry>): (q': QueueState)
    requires QueueOk(q)
    ensures QueueOk(q') && q'.last == q.last
  {
    q.(ring := PushAll(q.ring, es))
  }

  /** Pushing two batches one after the other is pushing them together. */
  lemma {:induction false} PushAllAppend(r: Ring<Entry>, xs: seq<Entry>, ys: seq<Entry>)
    requires RingOk(r)
    ensures PushAll(PushAll(r, xs), ys) == PushAll(r, xs + ys)
    decreases |ys|
  {
    if ys != [] {
      PushAllAppend(r, xs, ys[..|ys| - 1]);
      assert (xs + ys)[..|xs + ys| - 1] == xs + ys[..|ys| - 1];
      assert (xs + ys)[|xs + ys| - 1] == ys[|ys| - 1];
    } else {
      assert xs + ys == xs;
    }
  }

  /** `MessageQueue` of node.rs: a 64-slot buffer and the clock it was last
      set to. */
  class NodeQueue {
    var clock: nat
    const queue: CircularBuffer<Entry>

    ghost predicate Valid()
      reads this, queue
    {
      queue.Valid() && queue.buffer.Length == Slots
    }

    ghost function Abs(): (q: QueueState)
      reads this, queue, queue.buffer
      requires Valid()
      ensures QueueOk(q)
    {
      QueueState(queue.Abs(), clock)
    }

    /** `MessageQueue::new` */
    constructor ()
      ensures Valid() && fresh(queue) && fresh(queue.buffer)
      ensures Abs() == QueueState(Ring(seq(Slots, _ => []), 0), 0)
    {
      queue := new CircularBuffer(Slots);
      clock := 0;
    }

    /** `set_clock`: one step per cycle from the recorded clock up to the
      new one, then the new clock is recorded. */
    method SetClock(c: nat)
      requires Valid()
      modifies this, queue
      ensures Valid() && Abs() == Sync(old(Abs()), c)
    {
      var i := clock;
      while i < c
        invariant Valid() && queue.buffer[..] == old(queue.buffer[..])
        invariant i == old(clock) || old(clock) < i <= c
        invariant queue.head == (old(queue.head) + (i - old(clock))) % Slots
        decreases c - i
      {
        StepMod(old(queue.head), i - old(clock));
        queue.Step();
        i := i + 1;
      }
      assert old(clock) < c ==> i == c;
      ghost var k := if c > old(clock) then c - old(clock) else 0;
      assert queue.head == (old(queue.head) + k) % Slots;
      clock := c;
      assert Abs().ring == RingSteps(old(Abs()).ring, k);
    }

    /** `start_message`: a push with delay 1; the clock is not synced. */
    method StartMessage(from: MessageDestination, to: MessageDestination, msg: Message)
      requires Valid()
      modifies queue.buffer
      ensures Valid() && Abs() == Pushed(old(Abs()), [Entry(from, to, msg)])
    {
      var _ := queue.Push(1, Entry(from, to, msg));
      assert [Entry(from, to, msg)][..0] == [];
    }

    /** `pop_message`: the head slot, emptied; the clock is not synced. */
    method PopMessage() returns (items: seq<Entry>)
      requires Valid()
      modifies queue.buffer
      ensures Valid()
      ensures (items, Abs().ring) == RingPop(old(Abs()).ring) && Abs().last == old(Abs()).last
    {
      items := queue.Pop();
    }
  }

  /** `check_tautology`: no term that is still open is reset by the mask. */
  predicate CheckTautology(c: ClauseState, mask: Mask) {
    forall i :: 0 <= i < 3 ==> c[i] == TermState.False || mask[i] != TermUpdate.Reset
  }

  /** The mask leaves the clause without a true or open term. */
  predicate AllFalse(mask: Mask) {
    forall i :: 0 <= i < 3 ==> mask[i] == TermUpdate.False
  }

  /** One term of the substitution loop of `process_clause`. */
  function AppliedTerm(t: TermState, u: TermUpdate): TermState {
    match u
    case True => TermState.False
    case False => TermState.False
    case Reset => TermState.Symbolic
    case Unchanged => t
  }

  function Applied(c: ClauseState, mask: Mask): ClauseState {
    [AppliedTerm(c[0], mask[0]), AppliedTerm(c[1], mask[1]), AppliedTerm(c[2], mask[2])]
  }

  /** node.rs's own clause states are False and Symbolic only: applying a
      mask never produces the True that satswarm.rs's tables add, so the
      state type shared with that file loses nothing here. */
  lemma AppliedNeverTrue(c: ClauseState, mask: Mask)
    ensures forall i :: 0 <= i < 3 && c[i] != TermState.True ==> Applied(c, mask)[i] != TermState.True
  {
  }

  /** `end_processing`: at the last clause, a node whose flag is still set
      broadcasts Success; otherwise it branches on the next variable. */
  predicate Ended(b: NodeData, a: NodeData, qb: QueueState, qa: QueueState, ok: bool)
    requires QueueOk(qb)
  {
    (ok <==> b.state == ProcessingClauses && |b.table| > 0 && b.clauseIndex == |b.table| - 1
             && (b.satFlag || b.lastUpdate < 255)) &&
    (!ok ==> a == b && qa == qb) &&
    (ok && b.satFlag ==> a == b && qa == Pushed(qb, [From(b, Broadcast, Success)])) &&
    (ok && !b.satFlag ==> a == b.(state := Branching, lastUpdate := b.lastUpdate + 1) && qa == qb)
  }

  /** `process_clause(mask)` on the clause at `clause_index`: the mask is
      applied unless `check_tautology` holds; then the index advances, or
      processing ends at the last clause. The branch that reports UNSAT
      cannot be taken (see `UnsatUnreachable`). */
  predicate ProcessedClause(b: NodeData, a: NodeData, qb: QueueState, qa: QueueState, mask: Mask, ok: bool)
    requires QueueOk(qb)
  {
    if b.clauseIndex >= |b.table| then !ok
    else
      var c := b.table[b.clauseIndex];
      var b' := if CheckTautology(c, mask) then b else b.(table := b.table[b.clauseIndex := Applied(c, mask)]);
      if b.clauseIndex == |b.table| - 1 then Ended(b', a, qb, qa, ok)
      else ok && a == b'.(clauseIndex := b.clauseIndex + 1) && qa == qb
  }

  /** `partner_branch(neighbor)`: the neighbour gets a fork of the table
      (to take the variable as true), the clause table a query setting it
      false here, and processing restarts. */
  predicate PartnerBranched(b: NodeData, a: NodeData, qb: QueueState, qa: QueueState, neighborId: nat, ok: bool)
    requires QueueOk(qb)
  {
    (ok <==> b.state == Branching) &&
    (!ok ==> a == b && qa == qb) &&
    (ok ==> a == Restarted(b) &&
            qa == Pushed(qb, [From(b, Neighbor(neighborId), Fork(b.table, b.lastUpdate)),
                              From(b, ClauseTable, SubsitutionQuery(b.lastUpdate, false, false))]))
  }

  /** `speculative_branch`: the variable is remembered; nothing is sent and
      the state stays Branching. */
  predicate SpeculativelyBranched(b: NodeData, a: NodeData, ok: bool) {
    (ok <==> b.state == Branching) &&
    a == (if ok then b.(speculativeBranches := b.speculativeBranches + [b.lastUpdate]) else b)
  }

  /** `backtrack`: the latest speculative variable is popped, a reset query
      setting it true goes to the clause table, and processing restarts,
      which `init_processing` allows only from RecievingFork or Branching. */
  predicate Backtracked(b: NodeData, a: NodeData, qb: QueueState, qa: QueueState, ok: bool)
    requires QueueOk(qb)
  {
    (ok <==> |b.speculativeBranches| > 0 && ReadyToProcess(b.state)) &&
    (ok ==> BacktrackEffect(b, a, qb, qa))
  }

  /** What a backtrack that goes through does. */
  predicate BacktrackEffect(b: NodeData, a: NodeData, qb: QueueState, qa: QueueState)
    requires QueueOk(qb) && |b.speculativeBranches| > 0
  {
    var last := b.speculativeBranches[|b.speculativeBranches| - 1];
    a == Restarted(b.(lastUpdate := last, speculativeBranches := b.speculativeBranches[..|b.speculativeBranches| - 1])) &&
    qa == Pushed(qb, [From(b, ClauseTable, SubsitutionQuery(last, true, true))])
  }

  /** `backtrack` as evidently intended: `init_processing` also accepts
      the processing node that `unsat` backtracks, so any node with a
      speculative branch left restarts its scan. */
  predicate BacktrackedIntended(b: NodeData, a: NodeData, qb: QueueState, qa: QueueState, ok: bool)
    requires QueueOk(qb)
  {
    (ok <==> |b.speculativeBranches| > 0 && (ReadyToProcess(b.state) || b.state == ProcessingClauses)) &&
    (ok ==> BacktrackEffect(b, a, qb, qa))
  }

  /** `unsat`: without speculative branches the node waits for a fork
      again; otherwise it backtracks. */
  predicate Unsatisfied(b: NodeData, a: NodeData, qb: QueueState, qa: QueueState, ok: bool)
    requires QueueOk(qb)
  {
    if b.speculativeBranches == [] then ok && a == b.(state := AwaitingFork) && qa == qb
    else Backtracked(b, a, qb, qa, ok)
  }

  /** `recieve_message(from, msg)`: a neighbour must be in the list and the
      clause table may only write to a processing node; the first message
      of a cycle is kept and any later one dropped; a node awaiting a fork
      accepts only a Fork, and then is receiving it. */
  predicate Received(b: NodeData, a: NodeData, from: MessageDestination, msg: Message, ok: bool) {
    (ok <==> (match from
              case Neighbor(i) => i in b.neighbors
              case ClauseTable => b.state == ProcessingClauses
              case Broadcast => false)
             && (b.incomingMessage.None? && b.state == AwaitingFork ==> msg.Fork?)) &&
    (ok ==> a == if b.incomingMessage.Some? then b
                 else b.(incomingMessage := Some(msg),
                         state := if b.state == AwaitingFork then RecievingFork else b.state))
  }

  /** `clock_update(free_neighbors)`: the pending message is taken out and
      the node acts on its state and that message. */
  predicate ClockUpdated(b: NodeData, a: NodeData, qb: QueueState, qa: QueueState, free: seq<nat>, ok: bool)
    requires QueueOk(qb)
  {
    var b0 := b.(incomingMessage := None);
    match b.state
    case Branching =>
      if b.incomingMessage.Some? then !ok
      else if |free| > 0 then PartnerBranched(b0, a, qb, qa, free[0], ok)
      else SpeculativelyBranched(b0, a, ok) && qa == qb
    case RecievingFork =>
      (match b.incomingMessage
       case Some(Fork(cnf, av)) =>
         ok && a == b0.(table := cnf, lastUpdate := av, state := Branching, clauseIndex := 0, satFlag := true) &&
         qa == Pushed(qb, [From(b0, ClauseTable, SubsitutionQuery(av, true, false))])
       case _ => !ok)
    case ProcessingClauses =>
      (match b.incomingMessage
       case Some(SubstitutionMask(mask)) => ProcessedClause(b0, a, qb, qa, mask, ok)
       case _ => !ok)
    case AwaitingFork => ok && a == b0 && qa == qb
  }

  /** `Node` */
  class Node {
    var id: nat
    var neighbors: seq<nat>
    var table: CnfState
    var lastUpdate: U8
    var clauseIndex: nat
    var satFlag: bool
    var state: NodeState
    var speculativeBranches: seq<U8>
    var incomingMessage: Option<Message>

    ghost function Snap(): NodeData
      reads this
    {
      NodeData(id, neighbors, table, lastUpdate, clauseIndex, satFlag, state, speculativeBranches, incomingMessage)
    }

    /** `busy` */
    predicate Busy()
      reads this
    {
      state != AwaitingFork
    }

    /** `Node::new(id, table)`: no neighbours, awaiting a fork, flag set. */
    constructor (id: nat, table: CnfState)
      ensures Snap() == NodeData(id, [], table, 0, 0, true, AwaitingFork, [], None)
      ensures !Busy()
    {
      this.id := id;
      neighbors := [];
      this.table := table;
      lastUpdate := 0;
      clauseIndex := 0;
      satFlag := true;
      speculativeBranches := [];
      state := AwaitingFork;
      incomingMessage := None;
    }

    /** `add_neighbor` */
    method AddNeighbor(n: nat)
      modifies this
      ensures Snap() == old(Snap()).(neighbors := old(neighbors) + [n])
    {
      neighbors := neighbors + [n];
    }

    /** `remove_neighbor`: every occurrence goes. */
    method RemoveNeighbor(n: nat)
      modifies this
      ensures Snap() == old(Snap()).(neighbors := Without(old(neighbors), n))
    {
      neighbors := Without(neighbors, n);
    }

    /** `send_message` */
    method SendMessage(q: NodeQueue, dest: MessageDestination, msg: Message)
      requires q.Valid()
      modifies q.queue.buffer
      ensures q.Valid() && q.Abs() == Pushed(old(q.Abs()), [From(Snap(), dest, msg)])
    {
      q.StartMessage(Neighbor(id), dest, msg);
    }

    /** `init_processing` */
    method InitProcessing() returns (ok: bool)
      modifies this
      ensures ok <==> ReadyToProcess(old(state))
      ensures Snap() == if ok then Restarted(old(Snap())) else old(Snap())
    {
      ok := state == RecievingFork || state == Branching;
      if ok {
        state := ProcessingClauses;
        clauseIndex := 0;
        satFlag := true;
      }
    }

    /** `partner_branch` */
    method PartnerBranch(q: NodeQueue, neighborId: nat) returns (ok: bool)
      requires q.Valid()
      modifies this, q.queue.buffer
      ensures q.Valid() && PartnerBranched(old(Snap()), Snap(), old(q.Abs()), q.Abs(), neighborId, ok)
    {
      if state != Branching {
        return false;
      }
      var newState := table;
      ghost var e1 := From(Snap(), Neighbor(neighborId), Fork(newState, lastUpdate));
      ghost var e2 := From(Snap(), ClauseTable, SubsitutionQuery(lastUpdate, false, false));
      SendMessage(q, Neighbor(neighborId), Fork(newState, lastUpdate));
      ghost var mid := q.Abs();
      SendMessage(q, ClauseTable, SubsitutionQuery(lastUpdate, false, false));
      assert q.Abs() == Pushed(mid, [e2]) && mid == Pushed(old(q.Abs()), [e1]);
      PushAllAppend(old(q.Abs()).ring, [e1], [e2]);
      assert [e1] + [e2] == [e1, e2];
      ok := InitProcessing();
    }

    /** `speculative_branch` */
    method SpeculativeBranch() returns (ok: bool)
      modifies this
      ensures SpeculativelyBranched(old(Snap()), Snap(), ok)
    {
      ok := state == Branching;
      if ok {
        speculativeBranches := speculativeBranches + [lastUpdate];
      }
    }

    /** `sat`: broadcast Success. */
    method Sat(q: NodeQueue)
      requires q.Valid()
      modifies q.queue.buffer
      ensures q.Valid() && q.Abs() == Pushed(old(q.Abs()), [From(Snap(), Broadcast, Success)])
    {
      SendMessage(q, Broadcast, Success);
    }

    /** `end_processing` */
    method EndProcessing(q: NodeQueue) returns (ok: bool)
      requires q.Valid()
      modifies this, q.queue.buffer
      ensures q.Valid() && Ended(old(Snap()), Snap(), old(q.Abs()), q.Abs(), ok)
    {
      if state != ProcessingClauses || |table| == 0 || clauseIndex != |table| - 1 {
        return false;
      }
      if satFlag {
        Sat(q);
        ok := true;
      } else if lastUpdate == 255 {
        ok := false;
      } else {
        state := Branching;
        lastUpdate := lastUpdate + 1;
        ok := true;
      }
    }

    /** `backtrack` */
    method Backtrack(q: NodeQueue) returns (ok: bool)
      requires q.Valid()
      modifies this, q.queue.buffer
      ensures q.Valid() && Backtracked(old(Snap()), Snap(), old(q.Abs()), q.Abs(), ok)
    {
      if speculativeBranches == [] {
        return false;
      }
      lastUpdate := speculativeBranches[|speculativeBranches| - 1];
      speculativeBranches := speculativeBranches[..|speculativeBranches| - 1];
      SendMessage(q, ClauseTable, SubsitutionQuery(lastUpdate, true, true));
      ok := InitProcessing();
    }

    /** `backtrack` as evidently intended: the restart also accepts a node
        that is processing clauses, the state `unsat` is called from. */
    method BacktrackIntended(q: NodeQueue) returns (ok: bool)
      requires q.Valid()
      modifies this, q.queue.buffer
      ensures q.Valid() && BacktrackedIntended(old(Snap()), Snap(), old(q.Abs()), q.Abs(), ok)
    {
      if speculativeBranches == [] || !(ReadyToProcess(state) || state == ProcessingClauses) {
        return false;
      }
      lastUpdate := speculativeBranches[|speculativeBranches| - 1];
      speculativeBranches := speculativeBranches[..|speculativeBranches| - 1];
      SendMessage(q, ClauseTable, SubsitutionQuery(lastUpdate, true, true));
      state := ProcessingClauses;
      clauseIndex := 0;
      satFlag := true;
      ok := true;
    }

    /** `unsat` */
    method Unsat(q: NodeQueue) returns (ok: bool)
      requires q.Valid()
      modifies this, q.queue.buffer
      ensures q.Valid() && Unsatisfied(old(Snap()), Snap(), old(q.Abs()), q.Abs(), ok)
    {
      if speculativeBranches == [] {
        state := AwaitingFork;
        ok := true;
      } else {
        ok := Backtrack(q);
      }
    }

    /** The loop of `process_clause` over the terms zipped with the mask:
        the updated clause, and whether every entry was False. */
    method Substitute(c: ClauseState, mask: Mask) returns (r: ClauseState, unsat: bool)
      ensures r == Applied(c, mask)
      ensures unsat <==> AllFalse(mask)
    {
      r, unsat := c, true;
      for i := 0 to 3
        invariant forall j :: 0 <= j < i ==> r[j] == AppliedTerm(c[j], mask[j])
        invariant forall j :: i <= j < 3 ==> r[j] == c[j]
        invariant unsat <==> forall j :: 0 <= j < i ==> mask[j] == TermUpdate.False
      {
        match mask[i]
        case True =>
          r := r[i := TermState.False];
          unsat := false;
        case False =>
          r := r[i := TermState.False];
        case Reset =>
          r := r[i := TermState.Symbolic];
          unsat := false;
        case Unchanged =>
          unsat := false;
      }
    }

    /** `process_clause` */
    method ProcessClause(q: NodeQueue, mask: Mask) returns (ok: bool)
      requires q.Valid()
      modifies this, q.queue.buffer
      ensures q.Valid() && ProcessedClause(old(Snap()), Snap(), old(q.Abs()), q.Abs(), mask, ok)
    {
      if clauseIndex >= |table| {
        return false;
      }
      var current := table[clauseIndex];
      if !CheckTautology(current, mask) {
        var updated, unsat := Substitute(current, mask);
        table := table[clauseIndex := updated];
        // The source calls `unsat` and returns here; the mask cannot be
        // all False once some open term is reset (UnsatUnreachable).
        if unsat {
          UnsatUnreachable(current, mask);
          assert false;
        }
      }
      if clauseIndex == |table| - 1 {
        ok := EndProcessing(q);
      } else {
        clauseIndex := clauseIndex + 1;
        ok := true;
      }
      assert clauseIndex < |table|;
    }

    /** `recieve_message` */
    method ReceiveMessage(from: MessageDestination, message: Message) returns (ok: bool)
      modifies this
      ensures Received(old(Snap()), Snap(), from, message, ok)
    {
      match from {
        case Neighbor(i) =>
          if i !in neighbors {
            return false;
          }
        case ClauseTable =>
          if state != ProcessingClauses {
            return false;
          }
        case Broadcast =>
          return false;
      }
      if incomingMessage.Some? {
        return true;
      }
      incomingMessage := Some(message);
      if state == AwaitingFork {
        if !message.Fork? {
          return false;
        }
        state := RecievingFork;
      }
      ok := true;
    }

    /** The RecievingFork arm of `clock_update`: processing is initialised,
        the fork's table and variable are taken over, the node branches,
        and the clause table is asked to set the variable true. */
    method TakeFork(q: NodeQueue, cnf: CnfState, av: U8) returns (ok: bool)
      requires q.Valid() && state == RecievingFork
      modifies this, q.queue.buffer
      ensures q.Valid() && ok
      ensures Snap() == old(Snap()).(table := cnf, lastUpdate := av, state := Branching, clauseIndex := 0, satFlag := true)
      ensures q.Abs() == Pushed(old(q.Abs()), [From(Snap(), ClauseTable, SubsitutionQuery(av, true, false))])
    {
      ok := InitProcessing();
      table := cnf;
      lastUpdate := av;
      state := Branching;
      SendMessage(q, ClauseTable, SubsitutionQuery(lastUpdate, true, false));
    }

    /** `clock_update(free_neighbors, network)` */
    method ClockUpdate(free: seq<nat>, q: NodeQueue) returns (ok: bool)
      requires q.Valid()
      modifies this, q.queue.buffer
      ensures q.Valid() && ClockUpdated(old(Snap()), Snap(), old(q.Abs()), q.Abs(), free, ok)
    {
      var msg := incomingMessage;
      incomingMessage := None;
      match (state, msg)
      case (Branching, _) =>
        if msg.Some? {
          return false;
        }
        if |free| > 0 {
          ok := PartnerBranch(q, free[0]);
        } else {
          ok := SpeculativeBranch();
        }
      case (RecievingFork, Some(Fork(cnf, av))) =>
        ok := TakeFork(q, cnf, av);
      case (ProcessingClauses, Some(SubstitutionMask(mask))) =>
        ok := ProcessClause(q, mask);
      case (AwaitingFork, _) =>
        ok := true;
      case _ =>
        ok := false;
    }
  }

  /** The UNSAT branch of `process_clause` is dead: the mask is applied only
      when some open term is reset, and a Reset entry is not False. */
  lemma UnsatUnreachable(c: ClauseState, mask: Mask)
    ensures !CheckTautology(c, mask) ==> !AllFalse(mask)
  {
  }

  /** `backtrack` always panics when reached from `process_clause`, whose
      node is processing: `init_processing` refuses that state. */
  lemma BacktrackWhileProcessing(b: NodeData, a: NodeData, qb: QueueState, qa: QueueState, ok: bool)
    requires QueueOk(qb) && Unsatisfied(b, a, qb, qa, ok)
    requires b.state == ProcessingClauses && b.speculativeBranches != []
    ensures !ok
  {
  }

  /** The intended backtrack from a processing node goes through: the
      latest speculative variable is taken back off the list, the clause
      table is asked to reset it to true, and the scan starts again at the
      first clause. */
  lemma BacktrackIntendedResumes(b: NodeData, a: NodeData, qb: QueueState, qa: QueueState, ok: bool)
    requires QueueOk(qb) && BacktrackedIntended(b, a, qb, qa, ok)
    requires b.state == ProcessingClauses && b.speculativeBranches != []
    ensures ok && a.state == ProcessingClauses && a.clauseIndex == 0 && a.satFlag
    ensures a.speculativeBranches + [a.lastUpdate] == b.speculativeBranches
    ensures a.table == b.table && a.id == b.id
    ensures qa == Pushed(qb, [From(b, ClauseTable, SubsitutionQuery(a.lastUpdate, true, true))])
  {
    var n := |b.speculativeBranches|;
    assert b.speculativeBranches[..n - 1] + [b.speculativeBranches[n - 1]] == b.speculativeBranches;
  }

  /** How `clock_update` moves between states: a waiting node keeps
      waiting, a received fork leads to Branching, branching leads to
      processing or (speculatively) stays, processing stays or branches;
      no node returns to AwaitingFork, and the pending message is used up. */
  lemma ClockUpdateFlow(b: NodeData, a: NodeData, qb: QueueState, qa: QueueState, free: seq<nat>, ok: bool)
    requires QueueOk(qb) && ClockUpdated(b, a, qb, qa, free, ok) && ok
    ensures a.incomingMessage.None? && a.id == b.id && a.neighbors == b.neighbors
    ensures b.state == AwaitingFork ==> a.state == AwaitingFork
    ensures b.state == RecievingFork ==> a.state == Branching
    ensures b.state == Branching ==> a.state == (if |free| > 0 then ProcessingClauses else Branching)
    ensures b.state == ProcessingClauses ==> a.state == ProcessingClauses || a.state == Branching
    ensures a.state == AwaitingFork ==> b.state == AwaitingFork
  {
  }

  /** A node awaiting a fork, given one by a neighbour, is branching one
      cycle later with the forked table and variable, having asked the
      clause table to set that variable true; the following cycle it either
      forks to its first free neighbour and starts processing, or records
      a speculative branch on that variable. */
  lemma ForkToProcessing(b: NodeData, from: nat, cnf: CnfState, av: U8,
                         a1: NodeData, a2: NodeData, a3: NodeData,
                         q0: QueueState, q1: QueueState, q2: QueueState,
                         free1: seq<nat>, free2: seq<nat>, ok1: bool, ok2: bool)
    requires QueueOk(q0) && QueueOk(q1)
    requires b.state == AwaitingFork && b.incomingMessage.None?
    requires Received(b, a1, Neighbor(from), Fork(cnf, av), true)
    requires ClockUpdated(a1, a2, q0, q1, free1, ok1)
    requires ClockUpdated(a2, a3, q1, q2, free2, ok2)
    ensures ok1 && ok2
    ensures a2.state == Branching && a2.table == cnf && a2.lastUpdate == av
    ensures q1 == Pushed(q0, [From(b, ClauseTable, SubsitutionQuery(av, true, false))])
    ensures |free2| > 0 ==> a3 == Restarted(a2)
    ensures |free2| == 0 ==> a3.state == Branching && a3.speculativeBranches == b.speculativeBranches + [av]
  {
  }

  /** The arena's node table projected to its neighbour lists. */
  function NeighborTable(nodes: seq<NodeData>): (t: Neighbors.Table)
    ensures |t| == |nodes| && forall k :: 0 <= k < |nodes| ==> t[k] == nodes[k].neighbors
  {
    seq(|nodes|, k requires 0 <= k < |nodes| => nodes[k].neighbors)
  }

  /** The node table of node.rs's `Arena`; Rust's `Vec<Node>` owns its
      nodes, so they are held as values. */
  class NodeArena {
    var nodes: seq<NodeData>

    /** `Arena::from_nodes` */
    constructor FromNodes(nodes: seq<NodeData>)
      ensures this.nodes == nodes
    {
      this.nodes := nodes;
    }

    /** `add_neighbor(a, b)`: a's list gets b, then b's list gets a; a
      missing id panics. */
    method AddNeighbor(nodeId: nat, neighborId: nat) returns (ok: bool)
      modifies this
      ensures ok <==> nodeId < |old(nodes)| && neighborId < |old(nodes)|
      ensures ok ==> NeighborTable(nodes) == Neighbors.AddNeighbor(NeighborTable(old(nodes)), nodeId, neighborId)
      ensures ok ==> |nodes| == |old(nodes)| &&
                     forall k :: 0 <= k < |nodes| ==> nodes[k] == old(nodes)[k].(neighbors := nodes[k].neighbors)
    {
      if nodeId >= |nodes| || neighborId >= |nodes| {
        return false;
      }
      nodes := nodes[nodeId := nodes[nodeId].(neighbors := nodes[nodeId].neighbors + [neighborId])];
      nodes := nodes[neighborId := nodes[neighborId].(neighbors := nodes[neighborId].neighbors + [nodeId])];
      ok := true;
    }

    /** `remove_neighbor(a, b)`: every b leaves a's list, then every a
      leaves b's; a missing id panics. */
    method RemoveNeighbor(nodeId: nat, neighborId: nat) returns (ok: bool)
      modifies this
      ensures ok <==> nodeId < |old(nodes)| && neighborId < |old(nodes)|
      ensures ok ==> |nodes| == |old(nodes)|
      ensures ok ==> forall k :: 0 <= k < |nodes| ==>
        nodes[k] == old(nodes)[k].(neighbors := nodes[k].neighbors) &&
        nodes[k].neighbors ==
          (if k == nodeId && k == neighborId then Without(Without(old(nodes)[k].neighbors, neighborId), nodeId)
           else if k == nodeId then Without(old(nodes)[k].neighbors, neighborId)
           else if k == neighborId then Without(old(nodes)[k].neighbors, nodeId)
           else old(nodes)[k].neighbors)
    {
      if nodeId >= |nodes| || neighborId >= |nodes| {
        return false;
      }
      nodes := nodes[nodeId := nodes[nodeId].(neighbors := Without(nodes[nodeId].neighbors, neighborId))];
      nodes := nodes[neighborId := nodes[neighborId].(neighbors := Without(nodes[neighborId].neighbors, nodeId))];
      ok := true;
    }
  }
}
