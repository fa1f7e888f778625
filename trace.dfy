/** src/structures/trace.rs: the 8-byte `Trace` record that logs one step
    of a recorded DPLL run, the cycle-cost accounting of `propagate` that
    replays such a log on a simulated node, and the `TraceArena` that holds
    the nodes and their neighbour table. */
module Traces {
  import opened Text
  import Neighbors
  import Testing
  import Arenas
  import opened NodeStates

  const MaxU16: nat := 0xFFFF
  const MaxU32: nat := 0xFFFF_FFFF

  type U16 = x: nat | x <= MaxU16
  type U32 = x: nat | x <= MaxU32

  /** A log entry. The all-ones values of `unsat_clause` and `right_child`
      are sentinels: a branch has a real right child, an UNSAT entry a
      real clause, and a SAT entry neither. */
  datatype Trace = Trace(unitProps: U16, unsatClause: U16, rightChild: U32)

  /** `is_sat` */
  predicate IsSat(t: Trace) {
    t.unsatClause == MaxU16 && t.rightChild == MaxU32
  }

  /** `is_unsat` */
  predicate IsUnsat(t: Trace) {
    t.rightChild == MaxU32 && !IsSat(t)
  }

  /** `is_branch` */
  predicate IsBranch(t: Trace) {
    t.rightChild != MaxU32
  }

  /** `Trace::unsat(unit_props, unsat_clause)`: an UNSAT entry unless the
      clause id is the sentinel itself, which makes it read as SAT. */
  function UnsatTrace(unitProps: U16, unsatClause: U16): (t: Trace)
    ensures t.unitProps == unitProps && t.unsatClause == unsatClause
    ensures IsUnsat(t) <==> unsatClause != MaxU16
    ensures IsSat(t) <==> unsatClause == MaxU16
    ensures !IsBranch(t)
  {
    Trace(unitProps, unsatClause, MaxU32)
  }

  /** `Trace::sat(unit_props)` */
  function SatTrace(unitProps: U16): (t: Trace)
    ensures t.unitProps == unitProps
    ensures IsSat(t) && !IsUnsat(t) && !IsBranch(t)
  {
    Trace(unitProps, MaxU16, MaxU32)
  }

  /** `Trace::branch(unit_props, right_child)`: `right_child as u32` keeps the
      low 32 bits, so the entry is a branch unless those bits are all ones. */
  function BranchTrace(unitProps: U16, rightChild: nat): (t: Trace)
    ensures t.unitProps == unitProps && t.rightChild == rightChild % 0x1_0000_0000
    ensures rightChild < MaxU32 ==> t.rightChild == rightChild
    ensures IsBranch(t) <==> rightChild % 0x1_0000_0000 != MaxU32
    ensures !IsBranch(t) ==> IsSat(t)
  {
    Trace(unitProps, MaxU16, rightChild % 0x1_0000_0000)
  }

  /** `Trace::placeholder()` */
  function PlaceholderTrace(): (t: Trace)
    ensures IsSat(t)
  {
    Trace(MaxU16, MaxU16, MaxU32)
  }

  /** Every entry is exactly one of SAT, UNSAT and branch. */
  lemma ExactlyOne(t: Trace)
    ensures IsSat(t) || IsUnsat(t) || IsBranch(t)
    ensures !(IsSat(t) && IsUnsat(t)) && !(IsSat(t) && IsBranch(t)) && !(IsUnsat(t) && IsBranch(t))
  {
  }

  /** The `Debug` text, chosen by the predicates in that order. */
  function DebugText(t: Trace): (s: string)
    ensures s == "SAT" <==> IsSat(t)
    ensures StartsWith(s, "UNSAT(unit:") <==> IsUnsat(t)
    ensures StartsWith(s, "BRANCH(unit:") <==> IsBranch(t)
    ensures IsUnsat(t) ==> s == "UNSAT(unit:" + NatToString(t.unitProps) + ",clz:" + NatToString(t.unsatClause) + ")"
    ensures IsBranch(t) ==> s == "BRANCH(unit:" + NatToString(t.unitProps) + ",right:" + NatToString(t.rightChild) + ")"
  {
    if IsSat(t) then
      "SAT"
    else if IsUnsat(t) then
      var s := "UNSAT(unit:" + NatToString(t.unitProps) + ",clz:" + NatToString(t.unsatClause) + ")";
      assert s[..11] == "UNSAT(unit:" && s[0] == 'U';
      assert |s| >= 12 ==> s[..12][0] == 'U';
      s
    else
      var s := "BRANCH(unit:" + NatToString(t.unitProps) + ",right:" + NatToString(t.rightChild) + ")";
      assert s[..12] == "BRANCH(unit:" && s[0] == 'B';
      assert s[..11][0] == 'B';
      s
  }

  /** `div_up(a, b)` = `(a + (b - 1)) / b`: the least multiple count of b
      that covers a. `b - 1` underflows for b = 0, so b must be positive. */
  function DivUp(a: nat, b: nat): (r: nat)
    requires b > 0
    ensures r * b >= a
    ensures r > 0 ==> (r - 1) * b < a
  {
    var r := (a + (b - 1)) / b;
    assert r * b + (a + (b - 1)) % b == a + (b - 1);
    assert (r - 1) * b == r * b - b;
    r
  }

  /** The fields of `ArchitectureDescription` that `propagate` reads. */
  datatype Architecture = Architecture(decisionDelay: nat, clausePerEval: nat, cyclesPerEval: nat)

  /** A branch record: the log index of the branch, the time it was taken
      and the index of its right child. */
  type BranchRecord = (nat, nat, nat)

  datatype TraceNode = TraceNode(branches: seq<BranchRecord>, trail: seq<bool>, localTime: nat, state: NodeState, id: nat)

  /** `TraceNode::new(id)` */
  function NewNode(id: nat): TraceNode {
    TraceNode([], [], 0, Idle, id)
  }

  /** The cycles charged on reaching a log entry: the decision delay plus
      one pass over all clauses per unit propagation. */
  function EntryCost(cfg: Architecture, numClauses: nat, t: Trace): nat
    requires cfg.clausePerEval > 0
  {
    cfg.decisionDelay + DivUp(numClauses, cfg.clausePerEval) * cfg.cyclesPerEval * t.unitProps
  }

  /** The extra cycles of the entry that ends a run: none for SAT, the
      scan up to the conflicting clause for UNSAT. */
  function TerminalCost(cfg: Architecture, t: Trace): nat
    requires cfg.clausePerEval > 0
  {
    if IsSat(t) then 0 else DivUp(t.unsatClause, cfg.clausePerEval) * cfg.cyclesPerEval
  }

  /** The entry costs of log[lo..hi]. */
  function Spent(log: seq<Trace>, cfg: Architecture, numClauses: nat, lo: nat, hi: nat): nat
    requires cfg.clausePerEval > 0 && hi <= |log|
    decreases hi - lo
  {
    if lo >= hi then 0 else EntryCost(cfg, numClauses, log[lo]) + Spent(log, cfg, numClauses, lo + 1, hi)
  }

  /** Where a replay starting at `id` stops: the first entry from `id` on
      that is not a branch, or None when the log runs out first. */
  function RunEnd(log: seq<Trace>, id: nat): (r: Option<nat>)
    ensures r.Some? ==> id <= r.value < |log| && !IsBranch(log[r.value])
    ensures r.Some? ==> forall x :: id <= x < r.value ==> IsBranch(log[x])
    ensures r.None? ==> forall x :: id <= x < |log| ==> IsBranch(log[x])
    decreases |log| - id
  {
    if id >= |log| then None
    else if IsBranch(log[id]) then RunEnd(log, id + 1)
    else Some(id)
  }

  /** The debug assertion on a branch: branch ids only grow along the
      node's branch list. */
  predicate InOrder(node: TraceNode, id: nat) {
    node.branches == [] || id >= node.branches[|node.branches| - 1].0
  }

  function Falses(n: nat): (r: seq<bool>)
    ensures |r| == n && forall k :: 0 <= k < n ==> !r[k]
  {
    seq(n, _ => false)
  }

  /** What a replay from `id` that stops at log entry `k` leaves in a
      node: one branch record per branch passed, each with the index of
      the branch, the time it was reached and its right child; a `false`
      on the trail for each; the time of all entries passed plus the cost
      of the final one; and the SAT state when that entry is SAT. */
  predicate Replayed(node: TraceNode, id: nat, k: nat, log: seq<Trace>, cfg: Architecture, numClauses: nat, res: TraceNode)
    requires cfg.clausePerEval > 0 && id <= k < |log|
  {
    var m := |node.branches|;
    res.id == node.id &&
    |res.branches| == m + (k - id) && res.branches[..m] == node.branches &&
    (forall x :: id <= x < k ==>
       res.branches[m + (x - id)] == (x, node.localTime + Spent(log, cfg, numClauses, id, x + 1), log[x].rightChild)) &&
    res.trail == node.trail + Falses(k - id) &&
    res.localTime == node.localTime + Spent(log, cfg, numClauses, id, k + 1) + TerminalCost(cfg, log[k]) &&
    res.state == (if IsSat(log[k]) then NodeState.Sat else node.state)
  }

  /** `propagate(node, id, log, config, num_clauses)`: replays the log from
      `id`, following left branches, up to the first SAT or UNSAT entry.
      None when an index runs past the log or the debug assertion on the
      branch order fails. */
  method Propagate(node: TraceNode, id: nat, log: seq<Trace>, cfg: Architecture, numClauses: nat)
    returns (r: Option<TraceNode>)
    requires cfg.clausePerEval > 0
    ensures r.None? <==> RunEnd(log, id).None? || (IsBranch(log[id]) && !InOrder(node, id))
    ensures r.Some? ==> Replayed(node, id, RunEnd(log, id).value, log, cfg, numClauses, r.value)
    decreases |log| - id
  {
    if id >= |log| {
      return None;
    }
    var trace := log[id];
    var localTime := node.localTime + (cfg.decisionDelay + DivUp(numClauses, cfg.clausePerEval) * cfg.cyclesPerEval * trace.unitProps);
    if IsBranch(trace) {
      if node.branches != [] && id < node.branches[|node.branches| - 1].0 {
        return None;
      }
      var next := node.(localTime := localTime,
                        branches := node.branches + [(id, localTime, trace.rightChild)],
                        trail := node.trail + [false]);
      r := Propagate(next, id + 1, log, cfg, numClauses);
      if r.Some? {
        ReplayedStep(node, next, id, RunEnd(log, id).value, log, cfg, numClauses, r.value);
      }
    } else if IsSat(trace) {
      r := Some(node.(localTime := localTime, state := NodeState.Sat));
    } else {
      r := Some(node.(localTime := localTime + DivUp(trace.unsatClause, cfg.clausePerEval) * cfg.cyclesPerEval));
    }
  }

  /** A replay through a branch: recording the branch and going on from the
      next entry is a replay from the branch itself. */
  lemma ReplayedStep(node: TraceNode, next: TraceNode, id: nat, k: nat, log: seq<Trace>, cfg: Architecture, numClauses: nat, res: TraceNode)
    requires cfg.clausePerEval > 0 && id < k < |log|
    requires next == node.(localTime := node.localTime + EntryCost(cfg, numClauses, log[id]),
                           branches := node.branches + [(id, node.localTime + EntryCost(cfg, numClauses, log[id]), log[id].rightChild)],
                           trail := node.trail + [false])
    requires Replayed(next, id + 1, k, log, cfg, numClauses, res)
    ensures Replayed(node, id, k, log, cfg, numClauses, res)
  {
    var m := |node.branches|;
    assert Spent(log, cfg, numClauses, id, id + 1) == EntryCost(cfg, numClauses, log[id]);
    assert res.branches[..m] == res.branches[..m + 1][..m];
    forall x | id < x < k
      ensures res.branches[m + (x - id)] == (x, node.localTime + Spent(log, cfg, numClauses, id, x + 1), log[x].rightChild)
    {
      assert res.branches[m + 1 + (x - (id + 1))] ==
             (x, next.localTime + Spent(log, cfg, numClauses, id + 1, x + 1), log[x].rightChild);
    }
    assert res.branches[m] == res.branches[..m + 1][m];
    assert node.trail + [false] + Falses(k - (id + 1)) == node.trail + Falses(k - id);
  }

  /** Branch times grow along a replay: a later branch was reached no
      earlier than an earlier one, and the run ends no earlier still. */
  lemma {:induction false} SpentMonotone(log: seq<Trace>, cfg: Architecture, numClauses: nat, lo: nat, x: nat, y: nat)
    requires cfg.clausePerEval > 0 && x <= y <= |log|
    ensures Spent(log, cfg, numClauses, lo, x) <= Spent(log, cfg, numClauses, lo, y)
    decreases y - lo
  {
    if lo < x {
      SpentMonotone(log, cfg, numClauses, lo + 1, x, y);
    } else if lo < y {
      SpentNonNeg(log, cfg, numClauses, lo, y);
    }
  }

  lemma SpentNonNeg(log: seq<Trace>, cfg: Architecture, numClauses: nat, lo: nat, hi: nat)
    requires cfg.clausePerEval > 0 && hi <= |log|
    ensures Spent(log, cfg, numClauses, lo, hi) >= 0
  {
  }

  /** `generate(topology)`: the trace arena of the configured topology. */
  method Generate(topology: Testing.Topology) returns (arena: Arenas.Arena<TraceNode>)
    ensures fresh(arena)
    ensures Arenas.Numbered(arena.nodes, Neighbors.TopologyNodes(topology), NewNode)
    ensures arena.neighbors == Neighbors.TopologyTable(topology)
  {
    arena := Arenas.Generate(topology, NewNode);
  }
}
