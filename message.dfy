/** src/structures/message.rs: the messages exchanged by nodes and the
    clause table, the fixed-size circular buffer that delays them, and the
    message queue that keeps that buffer in step with the clock. The global
    clock the queue reads is passed to it as a parameter. */
module Messages {
  import opened Text

  /** Rust's `u8`, the type of variable ids. */
  type U8 = x: int | 0 <= x < 256

  datatype MessageDestination = Neighbor(id: nat) | Broadcast | ClauseTable

  /** What a substitution does to one term of a clause. */
  datatype TermUpdate = Unchanged | True | False | Reset

  /** The state of one term of a node's clause copy. node.rs declares only
      False and Symbolic; satswarm.rs, written against a newer node, also
      matches on True. One type with all three serves both files, and
      Nodes.AppliedNeverTrue shows node.rs's updates never reach True. */
  datatype TermState = False | Symbolic | True

  /** Three term states per clause. */
  type ClauseState = s: seq<TermState> | |s| == 3 witness [TermState.Symbolic, TermState.Symbolic, TermState.Symbolic]
  type CnfState = seq<ClauseState>

  /** `[TermUpdate; CLAUSE_LENGTH]`: one update per term of a clause. */
  type Mask = s: seq<TermUpdate> | |s| == 3 witness [TermUpdate.Unchanged, TermUpdate.Unchanged, TermUpdate.Unchanged]

  /** The messages of message.rs, with the two further variants that
      src/structures/clause_table.rs sends and receives. */
  datatype Message =
    | Fork(cnfState: CnfState, assignedVars: U8)
    | Success
    | SubstitutionMask(mask: Mask)
    | SubsitutionQuery(id: U8, assignment: bool, reset: bool)
    | VariableNotFound
    | SubstitutionAbort

  function UpdateText(u: TermUpdate): string {
    match u
    case Unchanged => "Unchanged"
    case True => "True"
    case False => "False"
    case Reset => "Reset"
  }

  function UpdatesText(us: seq<TermUpdate>): string {
    if us == [] then ""
    else if |us| == 1 then UpdateText(us[0])
    else UpdateText(us[0]) + ", " + UpdatesText(us[1..])
  }

  function BoolText(b: bool): string {
    if b then "true" else "false"
  }

  /** The text of a substitution query. */
  function QueryText(id: U8, assignment: bool, reset: bool): string {
    "SubsitutionQuery {id: " + (NatToString(id) + AssignmentTail(assignment, reset))
  }

  function AssignmentTail(assignment: bool, reset: bool): string {
    ", assignment: " + (BoolText(assignment) + ResetTail(reset))
  }

  function ResetTail(reset: bool): string {
    ", reset: " + (BoolText(reset) + "}")
  }

  /** `impl Debug for Message`. The two added variants print their names,
      as a derived implementation would. */
  function DebugText(m: Message): (s: string)
    ensures s == "Fork" <==> m.Fork?
    ensures s == "Success" <==> m.Success?
    ensures m.SubsitutionQuery? ==> StartsWith(s, "SubsitutionQuery {id: ")
    ensures m.SubstitutionMask? ==> StartsWith(s, "SubstitutionMask {mask: [")
  {
    match m
    case Fork(_, _) => "Fork"
    case Success => "Success"
    case SubstitutionMask(mask) => "SubstitutionMask {mask: [" + UpdatesText(mask) + "]}"
    case SubsitutionQuery(id, a, r) => QueryText(id, a, r)
    case VariableNotFound => "VariableNotFound"
    case SubstitutionAbort => "SubstitutionAbort"
  }

  /** Two digit strings each followed by a non-digit agree when the texts do. */
  lemma DigitsThenStop(d1: string, x: string, d2: string, y: string)
    requires AllDigits(d1) && AllDigits(d2)
    requires x != [] && !IsDigit(x[0]) && y != [] && !IsDigit(y[0])
    requires d1 + x == d2 + y
    ensures d1 == d2 && x == y
  {
    if |d1| < |d2| {
      CharOfConcat(d1, x, |d1|);
      CharOfConcat(d2, y, |d1|);
      assert false;
    } else if |d2| < |d1| {
      CharOfConcat(d1, x, |d2|);
      CharOfConcat(d2, y, |d2|);
      assert false;
    }
    assert d1 == (d1 + x)[..|d1|] && d2 == (d2 + y)[..|d2|];
    assert x == (d1 + x)[|d1|..] && y == (d2 + y)[|d2|..];
  }

  /** The character at position i of a + b. */
  lemma CharOfConcat(a: string, b: string, i: int)
    ensures 0 <= i < |a| ==> (a + b)[i] == a[i]
    ensures i == |a| && b != [] ==> (a + b)[i] == b[0]
  {
  }

  lemma BoolTextThen(a: bool, b: bool, x: string, y: string)
    requires BoolText(a) + x == BoolText(b) + y
    ensures a == b && x == y
  {
    assert (BoolText(a) + x)[0] == BoolText(a)[0];
    assert (BoolText(b) + y)[0] == BoolText(b)[0];
    assert x == (BoolText(a) + x)[|BoolText(a)|..];
  }

  lemma PrefixCancel(p: string, x: string, y: string)
    requires p + x == p + y
    ensures x == y
  {
    assert x == (p + x)[|p|..] && y == (p + y)[|p|..];
  }

  /** A query's debug text determines the query: its id, assignment and
      reset flag can all be read back from it. */
  lemma QueryTextInjective(m1: Message, m2: Message)
    requires m1.SubsitutionQuery? && m2.SubsitutionQuery?
    requires DebugText(m1) == DebugText(m2)
    ensures m1 == m2
  {
    var t1, t2 := AssignmentTail(m1.assignment, m1.reset), AssignmentTail(m2.assignment, m2.reset);
    PrefixCancel("SubsitutionQuery {id: ", NatToString(m1.id) + t1, NatToString(m2.id) + t2);
    assert t1[0] == ',' && t2[0] == ',';
    DigitsThenStop(NatToString(m1.id), t1, NatToString(m2.id), t2);
    DecimalOfNatToString(m1.id);
    DecimalOfNatToString(m2.id);
    var r1, r2 := ResetTail(m1.reset), ResetTail(m2.reset);
    PrefixCancel(", assignment: ", BoolText(m1.assignment) + r1, BoolText(m2.assignment) + r2);
    BoolTextThen(m1.assignment, m2.assignment, r1, r2);
    PrefixCancel(", reset: ", BoolText(m1.reset) + "}", BoolText(m2.reset) + "}");
    BoolTextThen(m1.reset, m2.reset, "}", "}");
  }

  /** The ring of slots a circular buffer holds, and its head. */
  datatype Ring<T> = Ring(slots: seq<seq<T>>, head: nat)

  predicate RingOk<T>(r: Ring<T>) {
    |r.slots| > 0 && r.head < |r.slots|
  }

  /** `push`: appends to the head slot, whatever the delay. */
  function RingPush<T>(r: Ring<T>, item: T): Ring<T>
    requires RingOk(r)
  {
    Ring(r.slots[r.head := r.slots[r.head] + [item]], r.head)
  }

  /** `k` calls of `step`. */
  function RingSteps<T>(r: Ring<T>, k: nat): (r': Ring<T>)
    requires RingOk(r)
    ensures RingOk(r') && r'.slots == r.slots
  {
    Ring(r.slots, (r.head + k) % |r.slots|)
  }

  /** `pop`: the head slot's contents, and the ring with that slot empty. */
  function RingPop<T>(r: Ring<T>): (seq<T>, Ring<T>)
    requires RingOk(r)
  {
    (r.slots[r.head], Ring(r.slots[r.head := []], r.head))
  }

  lemma StepMod(h: nat, i: nat)
    ensures ((h + i) % 64 + 1) % 64 == (h + i + 1) % 64
  {
  }

  /** `CircularBuffer<T, N>` for N > 0, its slots in an array. */
  class CircularBuffer<T> {
    const buffer: array<seq<T>>
    var head: nat

    ghost predicate Valid()
      reads this
    {
      buffer.Length > 0 && head < buffer.Length
    }

    ghost function Abs(): (r: Ring<T>)
      reads this, buffer
      requires Valid()
      ensures RingOk(r)
    {
      Ring(buffer[..], head)
    }

    /** `CircularBuffer::new`: N empty slots, head 0. */
    constructor (n: nat)
      requires n > 0
      ensures Valid() && fresh(buffer) && Abs() == Ring(seq(n, _ => []), 0)
    {
      buffer := new seq<T>[n](_ => []);
      head := 0;
    }

    /** `push(delay, item)`: `ok` is false where the source panics, i.e.
        unless 0 < delay < N; the item goes to the head slot either way. */
    method Push(delay: nat, item: T) returns (ok: bool)
      requires Valid()
      modifies buffer
      ensures Valid()
      ensures ok <==> 0 < delay < buffer.Length
      ensures Abs() == if ok then RingPush(old(Abs()), item) else old(Abs())
    {
      ok := 0 < delay < buffer.Length;
      if ok {
        buffer[head] := buffer[head] + [item];
      }
    }

    /** `step`: the head moves one slot, wrapping at N. */
    method Step()
      requires Valid()
      modifies this
      ensures Valid() && Abs() == RingSteps(old(Abs()), 1)
    {
      head := (head + 1) % buffer.Length;
    }

    /** `pop`: returns the head slot and leaves it empty. */
    method Pop() returns (items: seq<T>)
      requires Valid()
      modifies buffer
      ensures Valid()
      ensures (items, Abs()) == RingPop(old(Abs()))
    {
      items := buffer[head];
      buffer[head] := [];
    }
  }

  /** A message in flight: sender, destination, message. */
  datatype Entry = Entry(from: MessageDestination, to: MessageDestination, msg: Message)

  /** The number of slots of the queue's buffer. */
  const Slots: nat := 64

  /** The queue: its ring and the clock it last synchronised with. */
  datatype QueueState = QueueState(ring: Ring<Entry>, last: nat)

  predicate QueueOk(q: QueueState) {
    RingOk(q.ring) && |q.ring.slots| == Slots
  }

  /** `check_clock`: one step for each tick from `last` up to `clock`
      (none when the clock is not ahead), then `last` is the clock. */
  function Sync(q: QueueState, clock: nat): (q': QueueState)
    requires QueueOk(q)
    ensures QueueOk(q') && q'.last == clock && q'.ring.slots == q.ring.slots
  {
    QueueState(RingSteps(q.ring, if clock > q.last then clock - q.last else 0), clock)
  }

  /** `start_message` at `clock`: synchronise, then push with delay 1. */
  function Start(q: QueueState, clock: nat, e: Entry): (q': QueueState)
    requires QueueOk(q)
    ensures QueueOk(q')
  {
    var s := Sync(q, clock);
    s.(ring := RingPush(s.ring, e))
  }

  /** `pop_message` at `clock`: synchronise, then pop the head slot. */
  function PopAt(q: QueueState, clock: nat): (r: (seq<Entry>, QueueState))
    requires QueueOk(q)
    ensures QueueOk(r.1)
  {
    var s := Sync(q, clock);
    var (items, ring) := RingPop(s.ring);
    (items, s.(ring := ring))
  }

  /** The slot a pop at `clock` would return. */
  function Due(q: QueueState, clock: nat): seq<Entry>
    requires QueueOk(q)
  {
    Sync(q, clock).ring.slots[Sync(q, clock).ring.head]
  }

  /** Messages started one after the other at the same clock. */
  function StartAll(q: QueueState, clock: nat, es: seq<Entry>): (q': QueueState)
    requires QueueOk(q)
    ensures QueueOk(q')
    decreases |es|
  {
    if es == [] then Sync(q, clock) else Start(StartAll(q, clock, es[..|es| - 1]), clock, es[|es| - 1])
  }

  /** A pop at the clock the messages were started at returns them after
      what was already due, in the order they were started. */
  lemma {:induction false} StartAllThenPop(q: QueueState, clock: nat, es: seq<Entry>)
    requires QueueOk(q)
    ensures PopAt(StartAll(q, clock, es), clock).0 == Due(q, clock) + es
    ensures StartAll(q, clock, es).ring.head == Sync(q, clock).ring.head
  {
    var r := Sync(q, clock).ring;
    StartAllShape(q, clock, es);
    var q' := StartAll(q, clock, es);
    assert q'.ring.slots[r.head] == r.slots[r.head] + es;
    assert Sync(q', clock).ring == q'.ring;
  }

  /** Messages started at one clock are appended, in order, to the slot
      the head points to then. */
  lemma {:induction false} StartAllShape(q: QueueState, clock: nat, es: seq<Entry>)
    requires QueueOk(q)
    ensures StartAll(q, clock, es) ==
            QueueState(Ring(Sync(q, clock).ring.slots[Sync(q, clock).ring.head := Sync(q, clock).ring.slots[Sync(q, clock).ring.head] + es],
                            Sync(q, clock).ring.head), clock)
    decreases |es|
  {
    var r := Sync(q, clock).ring;
    if es == [] {
      assert r.slots[r.head] + es == r.slots[r.head];
    } else {
      var init, e := es[..|es| - 1], es[|es| - 1];
      StartAllShape(q, clock, init);
      var p := StartAll(q, clock, init);
      assert Sync(p, clock) == p;
      assert es == init + [e];
      assert p.ring.slots[r.head] == r.slots[r.head] + init;
      assert r.slots[r.head] + init + [e] == r.slots[r.head] + es;
      assert p.ring.slots[r.head := p.ring.slots[r.head] + [e]] == r.slots[r.head := r.slots[r.head] + es];
    }
  }

  /** A message started at one clock is not returned by a pop 1 to 63
      cycles later: that pop empties another slot, so the message waits
      until the head comes round again. */
  lemma MissedBetweenWraps(q: QueueState, clock: nat, later: nat, e: Entry)
    requires QueueOk(q) && q.last <= clock < later < clock + Slots
    ensures PopAt(Start(q, clock, e), later).0 == Due(q, later)
  {
    var h := Sync(q, clock).ring.head;
    var d := later - clock;
    var h2 := Sync(Start(q, clock, e), later).ring.head;
    assert h2 == (h + d) % Slots;
    StepMod2(q.ring.head, clock - q.last, d);
    assert h2 == Sync(q, later).ring.head;
    assert h2 != h;
  }

  lemma StepMod2(h: nat, a: nat, d: nat)
    ensures ((h + a) % 64 + d) % 64 == (h + a + d) % 64
  {
  }

  /** ... and is returned by the pop a whole turn of the ring later, after
      the messages that slot already held. */
  lemma DeliveredAfterWrap(q: QueueState, clock: nat, e: Entry)
    requires QueueOk(q) && q.last <= clock
    ensures PopAt(Start(q, clock, e), clock + Slots).0 == Due(q, clock) + [e]
  {
    StepMod2(q.ring.head, clock - q.last, Slots);
  }

  /** `MessageQueue`, its clock read through `check_clock`'s argument. */
  class MessageQueue {
    var lastClockUpdate: nat
    const queue: CircularBuffer<Entry>

    ghost predicate Valid()
      reads this, queue
    {
      queue.Valid() && queue.buffer.Length == Slots
    }

    ghost function Abs(): (q: QueueState)
      reads this, queue, queue.buffer
      requires Valid()
      ensures QueueOk(q)
    {
      QueueState(queue.Abs(), lastClockUpdate)
    }

    /** `MessageQueue::new` */
    constructor ()
      ensures Valid() && fresh(queue) && fresh(queue.buffer)
      ensures Abs() == QueueState(Ring(seq(Slots, _ => []), 0), 0)
    {
      queue := new CircularBuffer(Slots);
      lastClockUpdate := 0;
    }

    /** `check_clock` */
    method CheckClock(clock: nat)
      requires Valid()
      modifies this, queue
      ensures Valid() && Abs() == Sync(old(Abs()), clock)
    {
      var i := lastClockUpdate;
      while i < clock
        invariant Valid() && queue.buffer[..] == old(queue.buffer[..])
        invariant i == old(lastClockUpdate) || old(lastClockUpdate) < i <= clock
        invariant queue.head == (old(queue.head) + (i - old(lastClockUpdate))) % Slots
        decreases clock - i
      {
        StepMod(old(queue.head), i - old(lastClockUpdate));
        queue.Step();
        i := i + 1;
      }
      assert old(lastClockUpdate) < clock ==> i == clock;
      ghost var k := if clock > old(lastClockUpdate) then clock - old(lastClockUpdate) else 0;
      assert queue.head == (old(queue.head) + k) % Slots;
      lastClockUpdate := clock;
      assert Abs().ring == RingSteps(old(Abs()).ring, k);
    }

    /** `start_message` */
    method StartMessage(clock: nat, from: MessageDestination, to: MessageDestination, msg: Message)
      requires Valid()
      modifies this, queue, queue.buffer
      ensures Valid() && Abs() == Start(old(Abs()), clock, Entry(from, to, msg))
    {
      CheckClock(clock);
      var _ := queue.Push(1, Entry(from, to, msg));
    }

    /** `pop_message` */
    method PopMessage(clock: nat) returns (items: seq<Entry>)
      requires Valid()
      modifies this, queue, queue.buffer
      ensures Valid() && (items, Abs()) == PopAt(old(Abs()), clock)
    {
      CheckClock(clock);
      items := queue.Pop();
    }
  }
}
