/** network.rs: the event-driven swarm simulator. The arena and its three
    layouts are those of Arenas; `run_event_loop` keeps a heap of
    (local time, node id) entries, takes the largest entry each round
    (`BinaryHeap` is a max-heap, so this is the latest time, although the
    doc comment speaks of the earliest), lets that node act, and puts it
    back when it is still busy, waking its sleeping neighbours. The node
    operations `retry`, `receive_fork` and the fork search are not part of
    this file and are parameters of the loop. */
module Network {
  import opened Text
  import Neighbors
  import Arenas
  import Testing
  import opened NodeStates

  /** What the event loop reads and writes of a node. */
  datatype Node = Node(id: nat, state: NodeState, localTime: nat)

  /** What a node operation changes: the state and the local time. */
  type Status = (NodeState, nat)

  function Apply(n: Node, s: Status): Node {
    n.(state := s.0, localTime := s.1)
  }

  /** `TestResult`; `Default::default()` is false and zeros. */
  datatype TestResult = TestResult(simulatedResult: bool, simulatedCycles: nat, cyclesBusy: nat, cyclesIdle: nat)

  /** A heap entry: (local time, node id). */
  type Entry = (nat, nat)

  /** The tuple order of heap entries: by time, then by id. */
  predicate Below(a: Entry, b: Entry) {
    a.0 < b.0 || (a.0 == b.0 && a.1 < b.1)
  }

  /** `BinaryHeap::pop` on a non-empty heap: removes and returns an entry
      no other entry is above. */
  method PopMax(h: seq<Entry>) returns (e: Entry, rest: seq<Entry>, ghost at: nat)
    requires h != []
    ensures at < |h| && e == h[at] && rest == h[..at] + h[at + 1..]
    ensures forall k :: 0 <= k < |h| ==> !Below(e, h[k])
  {
    var best := 0;
    for i := 1 to |h|
      invariant best < i
      invariant forall k :: 0 <= k < i ==> !Below(h[best], h[k])
    {
      if Below(h[best], h[i]) {
        best := i;
      }
    }
    e, rest, at := h[best], h[..best] + h[best + 1..], best;
  }

  /** The earliest-first pop the doc comment of `run_event_loop` describes
      (a `BinaryHeap` of `Reverse` entries): removes and returns an entry
      no other entry is below. */
  method PopMin(h: seq<Entry>) returns (e: Entry, rest: seq<Entry>, ghost at: nat)
    requires h != []
    ensures at < |h| && e == h[at] && rest == h[..at] + h[at + 1..]
    ensures forall k :: 0 <= k < |h| ==> !Below(h[k], e)
  {
    var best := 0;
    for i := 1 to |h|
      invariant best < i
      invariant forall k :: 0 <= k < i ==> !Below(h[k], h[best])
    {
      if Below(h[i], h[best]) {
        best := i;
      }
    }
    e, rest, at := h[best], h[..best] + h[best + 1..], best;
  }

  /** With entries at times 0 and 5 the max-heap pop can only take the
      later one, where earliest-first would take the one at time 0. */
  lemma LatestNotEarliest(e: Entry)
    ensures var h := [(0, 0), (5, 1)];
      ((e in h && forall k :: 0 <= k < |h| ==> !Below(e, h[k])) <==> e == (5, 1)) &&
      ((e in h && forall k :: 0 <= k < |h| ==> !Below(h[k], e)) <==> e == (0, 0))
  {
    var h := [(0, 0), (5, 1)];
    assert Below(h[0], h[1]);
  }

  /** The heap `run_event_loop` starts from: an entry for each node that is
      not asleep, with its local time. */
  function Schedule(nodes: seq<Node>): (h: seq<Entry>)
    ensures forall e :: e in h <==>
              exists k :: 0 <= k < |nodes| && nodes[k].state != Sleep && e == (nodes[k].localTime, nodes[k].id)
  {
    if nodes == [] then []
    else
      var init, last := nodes[..|nodes| - 1], nodes[|nodes| - 1];
      assert forall k :: 0 <= k < |init| ==> init[k] == nodes[k];
      Schedule(init) + (if last.state != Sleep then [(last.localTime, last.id)] else [])
  }

  /** Node ids are their positions. */
  predicate Identified(nodes: seq<Node>) {
    forall k :: 0 <= k < |nodes| ==> nodes[k].id == k
  }

  /** What the heap holds during the loop: each entry names a node that is
      not asleep, with that node's current local time, and no node twice. */
  predicate Scheduled(nodes: seq<Node>, h: seq<Entry>) {
    (forall k :: 0 <= k < |h| ==>
       h[k].1 < |nodes| && nodes[h[k].1].state != Sleep && h[k].0 == nodes[h[k].1].localTime) &&
    (forall k, l :: 0 <= k < l < |h| ==> h[k].1 != h[l].1)
  }

  /** The starting heap meets that description. */
  lemma {:induction false} ScheduleScheduled(nodes: seq<Node>)
    requires Identified(nodes)
    ensures Scheduled(nodes, Schedule(nodes))
  {
    if nodes != [] {
      var init, last := nodes[..|nodes| - 1], nodes[|nodes| - 1];
      assert forall k :: 0 <= k < |init| ==> init[k] == nodes[k];
      ScheduleScheduled(init);
      var h0 := Schedule(init);
      assert forall k :: 0 <= k < |h0| ==> h0[k].1 < |init| && nodes[h0[k].1] == init[h0[k].1];
      SnocScheduled(nodes, h0, |init|);
    }
  }

  /** Appending the entry of a node not asleep whose id is above every id
      already in the heap. */
  lemma SnocScheduled(nodes: seq<Node>, h0: seq<Entry>, id: nat)
    requires Scheduled(nodes, h0) && id < |nodes| && id == |nodes| - 1 && nodes[id].id == id
    requires forall k :: 0 <= k < |h0| ==> h0[k].1 < id
    ensures Scheduled(nodes, h0 + (if nodes[id].state != Sleep then [(nodes[id].localTime, nodes[id].id)] else []))
  {
  }

  /** Taking one entry out keeps the rest a valid heap without that node. */
  lemma RestScheduled(nodes: seq<Node>, h: seq<Entry>, at: nat, rest: seq<Entry>)
    requires Scheduled(nodes, h) && at < |h| && rest == h[..at] + h[at + 1..]
    ensures Scheduled(nodes, rest)
    ensures forall k :: 0 <= k < |rest| ==> rest[k].1 != h[at].1
  {
    assert forall k :: 0 <= k < |rest| ==> rest[k] == (if k < at then h[k] else h[k + 1]);
  }

  /** After a round the heap is valid again: the acted node is back in it
      exactly when it is busy, and waking neighbours only turns sleeping
      nodes idle. */
  lemma KeepsScheduled(nodes: seq<Node>, rest: seq<Entry>, id: nat, n: Node, ns: seq<nat>)
    requires Scheduled(nodes, rest) && id < |nodes|
    requires forall k :: 0 <= k < |rest| ==> rest[k].1 != id
    ensures n.state == Busy ==> Scheduled(Woken(nodes[id := n], ns), rest + [(n.localTime, id)])
    ensures Scheduled(nodes[id := n], rest)
  {
    var m := nodes[id := n];
    assert forall k :: 0 <= k < |rest| ==> m[rest[k].1] == nodes[rest[k].1];
    if n.state == Busy {
      var w, h := Woken(m, ns), rest + [(n.localTime, id)];
      assert forall k :: 0 <= k < |h| ==> w[h[k].1].state != Sleep && w[h[k].1].localTime == m[h[k].1].localTime;
    }
  }

  /** A sleeping neighbour woken by a round gets no heap entry: only the
      acted node is pushed back, so the woken node is never visited
      again. */
  lemma WokenNotScheduled(nodes: seq<Node>, rest: seq<Entry>, id: nat, n: Node, ns: seq<nat>, k: nat)
    requires Scheduled(nodes, rest) && id < |nodes| && k < |nodes| && k != id
    requires nodes[k].state == Sleep && k in ns
    ensures Woken(nodes[id := n], ns)[k].state == Idle
    ensures forall j :: 0 <= j < |rest + [(n.localTime, id)]| ==> (rest + [(n.localTime, id)])[j].1 != k
  {
    var h := rest + [(n.localTime, id)];
    forall j | 0 <= j < |h|
      ensures h[j].1 != k
    {
      if j < |rest| {
        assert h[j] == rest[j];
      }
    }
  }

  /** SAT is only reported for a node that was SAT when the loop began:
      each entry in the heap names such a node or one not SAT. */
  predicate SatFromStart(start: seq<Node>, nodes: seq<Node>, h: seq<Entry>) {
    forall k :: 0 <= k < |h| && h[k].1 < |nodes| && h[k].1 < |start| && nodes[h[k].1].state == Sat ==>
      start[h[k].1].state == Sat
  }

  /** A round keeps that so: the pushed-back node is busy, the others are
      unchanged or woken (which leaves them idle). */
  lemma KeepsSatFromStart(start: seq<Node>, nodes: seq<Node>, rest: seq<Entry>, id: nat, n: Node, ns: seq<nat>)
    requires Scheduled(nodes, rest) && SatFromStart(start, nodes, rest) && id < |nodes|
    requires forall k :: 0 <= k < |rest| ==> rest[k].1 != id
    ensures n.state == Busy ==> SatFromStart(start, Woken(nodes[id := n], ns), rest + [(n.localTime, id)])
    ensures SatFromStart(start, nodes[id := n], rest)
  {
    var m := nodes[id := n];
    assert forall k :: 0 <= k < |rest| ==> m[rest[k].1] == nodes[rest[k].1];
    if n.state == Busy {
      var w, h := Woken(m, ns), rest + [(n.localTime, id)];
      assert forall k :: 0 <= k < |h| ==> w[h[k].1].state == Sat ==> h[k].1 != id && m[h[k].1].state == Sat;
    }
  }

  /** The node as the first `match` leaves it: a busy node retries, an
      idle node takes a fork when one is found and falls asleep otherwise,
      and a SAT node is left as it is. */
  function Acted<F>(n: Node, fork: Option<F>, retry: Node -> Status, receiveFork: (Node, F) -> Status): (r: Node)
    ensures r.id == n.id
  {
    match n.state
    case Busy => Apply(n, retry(n))
    case Idle => if fork.Some? then Apply(n, receiveFork(n, fork.value)) else n.(state := Sleep)
    case _ => n
  }

  /** The nodes after the wake-up loop over `ns`: every listed node that
      was asleep is idle, nothing else changes. */
  function Woken(nodes: seq<Node>, ns: seq<nat>): (r: seq<Node>)
    ensures |r| == |nodes|
  {
    seq(|nodes|, k requires 0 <= k < |nodes| =>
      if k in ns && nodes[k].state == Sleep then nodes[k].(state := Idle) else nodes[k])
  }

  /** The simulator: the arena, the fork delay and the result record. */
  class Network {
    var arena: Arenas.Arena<Node>
    var forkDelay: nat
    var results: TestResult

    /** Ids are positions and every neighbour id names a node. */
    ghost predicate Valid()
      reads this, arena
    {
      |arena.neighbors| == |arena.nodes| && Neighbors.InRange(arena.neighbors) && Identified(arena.nodes)
    }

    /** `Network::build(arena)` */
    constructor Build(a: Arenas.Arena<Node>)
      ensures arena == a && forkDelay == 0 && results == TestResult(false, 0, 0, 0)
    {
      arena := a;
      forkDelay := 0;
      results := TestResult(false, 0, 0, 0);
    }

    /** The wake-up loop: each neighbour of the node that is asleep becomes
        idle. */
    method WakeNeighbors(ns: seq<nat>)
      requires forall k :: 0 <= k < |ns| ==> ns[k] < |arena.nodes|
      modifies arena
      ensures arena.nodes == Woken(old(arena.nodes), ns)
      ensures arena.neighbors == old(arena.neighbors) && arena.links == old(arena.links)
    {
      ghost var start := arena.nodes;
      for i := 0 to |ns|
        invariant |arena.nodes| == |start|
        invariant arena.neighbors == old(arena.neighbors) && arena.links == old(arena.links)
        invariant forall k :: 0 <= k < |start| ==>
                    arena.nodes[k] == if k in ns[..i] && start[k].state == Sleep then start[k].(state := Idle) else start[k]
      {
        var neighborId := ns[i];
        assert ns[..i + 1] == ns[..i] + [neighborId];
        if arena.nodes[neighborId].state == Sleep {
          arena.nodes := arena.nodes[neighborId := arena.nodes[neighborId].(state := Idle)];
        }
      }
      assert ns[..|ns|] == ns;
    }

    /** One round of the loop for the popped entry (localTime, id): the
        first `match`, then the rescheduling. Returns true when the node was
        SAT and the loop stops. */
    method Visit<F>(localTime: nat, id: nat, rest: seq<Entry>,
                    retry: Node -> Status, createFork: (seq<Node>, Neighbors.Table, nat, nat) -> Option<F>,
                    receiveFork: (Node, F) -> Status)
      returns (done: bool, h: seq<Entry>)
      requires Valid() && id < |arena.nodes| && arena.nodes[id].state != Sleep
      modifies this, arena
      ensures arena == old(arena) && forkDelay == old(forkDelay)
      ensures arena.neighbors == old(arena.neighbors) && arena.links == old(arena.links)
      ensures done <==> old(arena.nodes[id].state) == Sat
      ensures done ==> results == old(results).(simulatedResult := true, simulatedCycles := localTime) &&
                       arena.nodes == old(arena.nodes) && h == rest
      ensures !done ==>
                results == old(results) &&
                var n := Acted(old(arena.nodes[id]), createFork(old(arena.nodes), old(arena.neighbors), id, localTime), retry, receiveFork);
                if n.state == Busy then
                  arena.nodes == Woken(old(arena.nodes)[id := n], old(arena.neighbors[id])) && h == rest + [(n.localTime, id)]
                else
                  arena.nodes == old(arena.nodes)[id := n] && h == rest
    {
      var node := arena.nodes[id];
      match node.state {
        case Busy =>
          arena.nodes := arena.nodes[id := Apply(node, retry(node))];
        case Idle =>
          var fork := createFork(arena.nodes, arena.neighbors, id, localTime);
          if fork.Some? {
            arena.nodes := arena.nodes[id := Apply(node, receiveFork(node, fork.value))];
          } else {
            arena.nodes := arena.nodes[id := node.(state := Sleep)];
          }
        case Sat =>
          results := results.(simulatedResult := true, simulatedCycles := localTime);
          return true, rest;
      }
      done, h := false, rest;
      node := arena.nodes[id];
      if node.state == Busy {
        h := h + [(node.localTime, id)];
        var neighbors := arena.neighbors[id];
        assert forall k :: 0 <= k < |neighbors| ==> neighbors[k] in arena.neighbors[id];
        WakeNeighbors(neighbors);
      }
    }

    /** `run_event_loop`: resets the results, schedules every node that is
        not asleep and runs rounds until the heap is empty or a SAT node is
        popped. At most `fuel` rounds are run; `exhausted` says the bound
        stopped the loop, with the entries still in the heap as
        `remaining`. The `unreachable!()` for a sleeping node is never
        reached. */
    method RunEventLoop<F>(retry: Node -> Status, createFork: (seq<Node>, Neighbors.Table, nat, nat) -> Option<F>,
                           receiveFork: (Node, F) -> Status, fuel: nat)
      returns (exhausted: bool, ghost remaining: seq<Entry>)
      requires Valid()
      modifies this, arena
      ensures Valid() && arena == old(arena) && arena.neighbors == old(arena.neighbors)
      ensures results.cyclesBusy == 0 && results.cyclesIdle == 0
      ensures |arena.nodes| == |old(arena.nodes)|
      ensures results.simulatedResult ==>
                exists k :: 0 <= k < |arena.nodes| && arena.nodes[k].state == Sat &&
                            arena.nodes[k].localTime == results.simulatedCycles && old(arena.nodes)[k].state == Sat
      ensures !results.simulatedResult ==> results.simulatedCycles == 0
      ensures exhausted ==> !results.simulatedResult && results.simulatedCycles == 0 && remaining != []
      ensures !exhausted ==> results.simulatedResult || remaining == []
    {
      results := TestResult(false, 0, 0, 0);
      ScheduleScheduled(arena.nodes);
      var activated := Schedule(arena.nodes);
      var steps := 0;
      while |activated| > 0 && steps < fuel
        invariant Valid() && arena == old(arena) && arena.neighbors == old(arena.neighbors)
        invariant Scheduled(arena.nodes, activated) && |arena.nodes| == |old(arena.nodes)|
        invariant SatFromStart(old(arena.nodes), arena.nodes, activated)
        invariant results == TestResult(false, 0, 0, 0)
        decreases fuel - steps
      {
        ghost var before, h0 := arena.nodes, activated;
        var entry, rest, at := PopMax(activated);
        var (localTime, id) := entry;
        RestScheduled(before, activated, at, rest);
        var done;
        done, activated := Visit(localTime, id, rest, retry, createFork, receiveFork);
        if done {
          assert h0[at] == (localTime, id) && before[id].state == Sat;
          assert arena.nodes[id].state == Sat && arena.nodes[id].localTime == results.simulatedCycles;
          assert old(arena.nodes)[id].state == Sat;
          return false, rest;
        }
        ghost var n := Acted(before[id], createFork(before, arena.neighbors, id, localTime), retry, receiveFork);
        KeepsScheduled(before, rest, id, n, arena.neighbors[id]);
        KeepsSatFromStart(old(arena.nodes), before, rest, id, n, arena.neighbors[id]);
        steps := steps + 1;
      }
      exhausted, remaining := |activated| > 0, activated;
    }
  }

  /** `Network::generate`: the layout of the configured topology, each
      node made by `Node::new` (its first state and time given by `init`)
      with its own position as id. */
  method Generate(topology: Testing.Topology, init: nat -> Status) returns (net: Network)
    ensures fresh(net) && net.Valid()
    ensures |net.arena.nodes| == Neighbors.TopologyNodes(topology)
    ensures forall k :: 0 <= k < |net.arena.nodes| ==> net.arena.nodes[k] == Node(k, init(k).0, init(k).1)
    ensures net.arena.neighbors == Neighbors.TopologyTable(topology)
    ensures net.forkDelay == 0 && net.results == TestResult(false, 0, 0, 0)
  {
    var mk := (k: nat) => Node(k, init(k).0, init(k).1);
    var a := Arenas.Generate(topology, mk);
    Neighbors.TopologyTableInRange(topology);
    net := new Network.Build(a);
  }
}
