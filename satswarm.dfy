/** src/structures/satswarm.rs: the swarm of nodes over one clause table.
    This file expects a newer node and clause table than node.rs and
    clause_table.rs provide: each clause of a table holds (term, state)
    pairs, and `Node::new(id, table)` keeps a copy of the clause table,
    whose pairs `recover_model` reads. Here a node is its id, its
    neighbour list and that table; a node's other fields are not used by
    the operations modelled. Panics (`expect`, `assert!`, `panic!`) make a
    method return `false` or `None`. */
module SatSwarms {
  import opened Text
  import opened Messages
  import Neighbors
  import Nodes
  import ClauseTables

  /** A term of a clause with the state a node has given it. */
  type StatedTerm = (ClauseTables.Term, TermState)

  type StateTable = seq<seq<StatedTerm>>

  datatype SwarmNode = SwarmNode(id: nat, neighbors: seq<nat>, table: StateTable)

  /** The neighbour lists of the nodes, by position. */
  function NeighborTable(nodes: seq<SwarmNode>): (t: Neighbors.Table)
    ensures |t| == |nodes| && forall k :: 0 <= k < |nodes| ==> t[k] == nodes[k].neighbors
  {
    seq(|nodes|, k requires 0 <= k < |nodes| => nodes[k].neighbors)
  }

  /** Node k has id k and a copy of the clause table. */
  predicate NewNodes(nodes: seq<SwarmNode>, clauses: StateTable) {
    forall k :: 0 <= k < |nodes| ==> nodes[k].id == k && nodes[k].table == clauses
  }

  /** Only the neighbour lists differ. */
  predicate SameNodes(a: seq<SwarmNode>, b: seq<SwarmNode>) {
    |a| == |b| && forall k :: 0 <= k < |a| ==> a[k].id == b[k].id && a[k].table == b[k].table
  }

  // ---------------------------------------------------------------------
  // The arena

  /** `Arena`: the nodes, owned by value. `links` is the ghost record of
      the `add_neighbor` calls made so far. */
  class Arena {
    var nodes: seq<SwarmNode>
    ghost var links: seq<Neighbors.Edge>

    /** The lists are what the recorded calls build from empty lists. */
    ghost predicate Linked()
      reads this
    {
      Neighbors.EdgesIn(links, |nodes|) &&
      NeighborTable(nodes) == Neighbors.LinkAll(Neighbors.Empty(|nodes|), links)
    }

    /** `Arena::new` */
    constructor ()
      ensures nodes == [] && links == [] && Linked()
    {
      nodes := [];
      links := [];
    }

    /** `Arena::from_nodes` */
    constructor FromNodes(nodes: seq<SwarmNode>)
      ensures this.nodes == nodes
    {
      this.nodes := nodes;
      links := [];
    }

    /** `get_node_opt` (and `get_node`, which panics on `None`). */
    function GetNode(id: nat): (r: Option<SwarmNode>)
      reads this
      ensures r.Some? <==> id < |nodes|
      ensures r.Some? ==> r.value == nodes[id]
    {
      if id < |nodes| then Some(nodes[id]) else None
    }

    /** `add_neighbor(a, b)`: b joins a's list, then a joins b's; a missing
        id panics. */
    method AddNeighbor(nodeId: nat, neighborId: nat) returns (ok: bool)
      modifies this
      ensures ok <==> nodeId < |old(nodes)| && neighborId < |old(nodes)|
      ensures SameNodes(nodes, old(nodes))
      ensures ok ==> NeighborTable(nodes) == Neighbors.AddNeighbor(NeighborTable(old(nodes)), nodeId, neighborId)
      ensures ok ==> links == old(links) + [Neighbors.Edge(nodeId, neighborId)]
      ensures !ok ==> nodes == old(nodes) && links == old(links)
      ensures old(Linked()) ==> Linked()
    {
      if nodeId >= |nodes| || neighborId >= |nodes| {
        return false;
      }
      ghost var t := NeighborTable(nodes);
      if Linked() {
        Neighbors.LinkAllSnoc(Neighbors.Empty(|nodes|), links, Neighbors.Edge(nodeId, neighborId));
      }
      nodes := nodes[nodeId := nodes[nodeId].(neighbors := nodes[nodeId].neighbors + [neighborId])];
      nodes := nodes[neighborId := nodes[neighborId].(neighbors := nodes[neighborId].neighbors + [nodeId])];
      links := links + [Neighbors.Edge(nodeId, neighborId)];
      assert NeighborTable(nodes) == Neighbors.AddNeighbor(t, nodeId, neighborId);
      ok := true;
    }

    /** `remove_neighbor(a, b)`: every b leaves a's list, then every a
        leaves b's; a missing id panics. */
    method RemoveNeighbor(nodeId: nat, neighborId: nat) returns (ok: bool)
      modifies this
      ensures ok <==> nodeId < |old(nodes)| && neighborId < |old(nodes)|
      ensures SameNodes(nodes, old(nodes))
      ensures ok ==> forall k :: 0 <= k < |nodes| ==>
        nodes[k].neighbors ==
          (if k == nodeId && k == neighborId then Nodes.Without(Nodes.Without(old(nodes)[k].neighbors, neighborId), nodeId)
           else if k == nodeId then Nodes.Without(old(nodes)[k].neighbors, neighborId)
           else if k == neighborId then Nodes.Without(old(nodes)[k].neighbors, nodeId)
           else old(nodes)[k].neighbors)
      ensures !ok ==> nodes == old(nodes)
    {
      if nodeId >= |nodes| || neighborId >= |nodes| {
        return false;
      }
      ghost var n0 := nodes;
      nodes := nodes[nodeId := nodes[nodeId].(neighbors := Nodes.Without(nodes[nodeId].neighbors, neighborId))];
      ghost var n1 := nodes;
      nodes := nodes[neighborId := nodes[neighborId].(neighbors := Nodes.Without(nodes[neighborId].neighbors, nodeId))];
      forall k | 0 <= k < |nodes|
        ensures nodes[k] == n0[k].(neighbors := nodes[k].neighbors)
      {
        assert n1[k] == n0[k].(neighbors := n1[k].neighbors);
      }
      ok := true;
    }

    /** The arena `grid(clauses, rows, cols)` builds: node i·cols + j for
        row i and column j, in row-major order, each created with a copy
        of the clause table and pushed before it is linked to the node
        above (when i > 0) and to the node on its left (when j > 0). */
    constructor Grid(clauses: StateTable, rows: nat, cols: nat)
      ensures NewNodes(nodes, clauses) && |nodes| == Neighbors.Mul(rows, cols)
      ensures Neighbors.EdgesIn(Neighbors.GridEdges(rows, cols), Neighbors.Mul(rows, cols))
      ensures NeighborTable(nodes) == Neighbors.LinkAll(Neighbors.Empty(Neighbors.Mul(rows, cols)), Neighbors.GridEdges(rows, cols))
    {
      nodes := [];
      links := [];
      new;
      assert NeighborTable(nodes) == Neighbors.Empty(0);
      for i := 0 to rows
        invariant Linked() && NewNodes(nodes, clauses)
        invariant |nodes| == Neighbors.Mul(i, cols)
        invariant links == Neighbors.LayoutEdges(false, rows, cols, i)
      {
        Neighbors.RowBounds(false, rows, cols, i);
        for j := 0 to cols
          invariant Linked() && NewNodes(nodes, clauses)
          invariant |nodes| == Neighbors.Mul(i, cols) + j
          invariant links == Neighbors.Prefix(false, rows, cols, i, j)
        {
          Neighbors.GridBodyEdges(rows, cols, i, j, |nodes|);
          GridCell(clauses, i, j, cols);
        }
      }
      Neighbors.MulIsProduct(rows, cols);
    }

    /** One cell of `grid`: push node `id`, then link it to the node above
        and to the node on its left when they exist. */
    method GridCell(clauses: StateTable, i: nat, j: nat, cols: nat)
      requires Linked() && NewNodes(nodes, clauses)
      requires i > 0 ==> |nodes| >= cols
      requires j > 0 ==> |nodes| > 0
      modifies this
      ensures Linked() && NewNodes(nodes, clauses) && |nodes| == |old(nodes)| + 1
      ensures links == old(links) + Neighbors.Opt(i > 0, Neighbors.Edge(|old(nodes)|, Neighbors.Up(|old(nodes)|, cols))) +
                                    Neighbors.Opt(j > 0, Neighbors.Edge(|old(nodes)|, Neighbors.Left(|old(nodes)|)))
    {
      var id := |nodes|;
      PushNode(clauses);
      ghost var before := links;
      if i > 0 {
        var _ := AddNeighbor(id, id - cols);
      }
      ghost var l1 := links;
      Neighbors.OptStep(before, l1, i > 0, Neighbors.Edge(id, Neighbors.Up(id, cols)));
      if j > 0 {
        var _ := AddNeighbor(id, id - 1);
      }
      Neighbors.OptStep(l1, links, j > 0, Neighbors.Edge(id, Neighbors.Left(id)));
    }

    /** `nodes.push(Node::new(id, clause_table.clone()))` with the next id:
        the new node has no neighbours yet. */
    method PushNode(clauses: StateTable)
      requires Linked() && NewNodes(nodes, clauses)
      modifies this
      ensures Linked() && NewNodes(nodes, clauses)
      ensures nodes == old(nodes) + [SwarmNode(|old(nodes)|, [], clauses)] && links == old(links)
    {
      var id := |nodes|;
      Neighbors.LinkAllGrow(Neighbors.Empty(id), links);
      assert Neighbors.Empty(id) + [[]] == Neighbors.Empty(id + 1);
      nodes := nodes + [SwarmNode(id, [], clauses)];
      assert NeighborTable(nodes) == NeighborTable(old(nodes)) + [[]];
    }
  }

  // ---------------------------------------------------------------------
  // Recovering a model

  /** The value `recover_model` records for a term: its literal made true
      for state True, made false for state False, and false otherwise. */
  function TermModel(p: StatedTerm): bool {
    match p.1
    case True => !p.0.negated
    case False => p.0.negated
    case Symbolic => false
  }

  /** The terms of a table in order, clause after clause. */
  function Flatten(table: StateTable): (ts: seq<StatedTerm>)
    decreases |table|
  {
    if table == [] then [] else Flatten(table[..|table| - 1]) + table[|table| - 1]
  }

  /** The model after recording the terms in order, each overwriting what
      an earlier term recorded for its variable. */
  function Recorded(m: map<U8, bool>, terms: seq<StatedTerm>): map<U8, bool>
    decreases |terms|
  {
    if terms == [] then m
    else
      var last := terms[|terms| - 1];
      Recorded(m, terms[..|terms| - 1])[last.0.variable := TermModel(last)]
  }

  /** The model `recover_model` returns for a node's table. */
  function Recovered(table: StateTable): map<U8, bool> {
    Recorded(map[0 := false], Flatten(table))
  }

  /** Every term's variable is in the model, and so is what m had. */
  lemma {:induction false} RecordedKeys(m: map<U8, bool>, terms: seq<StatedTerm>)
    ensures forall v :: v in m ==> v in Recorded(m, terms)
    ensures forall q :: 0 <= q < |terms| ==> terms[q].0.variable in Recorded(m, terms)
    ensures forall v :: v in Recorded(m, terms) ==> v in m || exists q :: 0 <= q < |terms| && terms[q].0.variable == v
    decreases |terms|
  {
    if terms != [] {
      var init := terms[..|terms| - 1];
      RecordedKeys(m, init);
      assert forall q :: 0 <= q < |init| ==> init[q] == terms[q];
    }
  }

  /** A term that no later term overrides decides its variable. */
  lemma {:induction false} RecordedLast(m: map<U8, bool>, terms: seq<StatedTerm>, p: nat)
    requires p < |terms|
    requires forall q :: p < q < |terms| ==> terms[q].0.variable != terms[p].0.variable
    ensures terms[p].0.variable in Recorded(m, terms)
    ensures Recorded(m, terms)[terms[p].0.variable] == TermModel(terms[p])
    decreases |terms|
  {
    var init := terms[..|terms| - 1];
    if p < |terms| - 1 {
      assert forall q :: p < q < |init| ==> init[q] == terms[q];
      RecordedLast(m, init, p);
    }
  }

  /** A variable whose every term records the value m has for it keeps
      that value. */
  lemma {:induction false} RecordedAgrees(m: map<U8, bool>, terms: seq<StatedTerm>, v: U8)
    requires v in m
    requires forall q :: 0 <= q < |terms| && terms[q].0.variable == v ==> TermModel(terms[q]) == m[v]
    ensures v in Recorded(m, terms) && Recorded(m, terms)[v] == m[v]
    decreases |terms|
  {
    if terms != [] {
      var init := terms[..|terms| - 1];
      assert forall q :: 0 <= q < |init| ==> init[q] == terms[q];
      RecordedAgrees(m, init, v);
    }
  }

  /** Some term of ts is on variable v. */
  predicate Mentions(ts: seq<StatedTerm>, v: U8) {
    exists q :: 0 <= q < |ts| && ts[q].0.variable == v
  }

  /** What `recover_model` promises of the keys: the model has exactly
      variable 0 and the variables of the table's terms. */
  lemma RecoveredKeys(table: StateTable)
    ensures forall v :: v in Recovered(table) <==> v == 0 || Mentions(Flatten(table), v)
  {
    var ts := Flatten(table);
    var m := map[0 := false];
    RecordedKeys(m, ts);
    forall v ensures v in Recorded(m, ts) <==> v == 0 || Mentions(ts, v) {
      if Mentions(ts, v) {
        var q :| 0 <= q < |ts| && ts[q].0.variable == v;
        assert ts[q].0.variable in Recorded(m, ts);
      }
      assert v in m <==> v == 0;
    }
  }

  /** What `recover_model` promises of the values: the last term on a
      variable decides its value. */
  lemma RecoveredLast(table: StateTable, p: nat)
    requires p < |Flatten(table)|
    requires forall q :: p < q < |Flatten(table)| ==> Flatten(table)[q].0.variable != Flatten(table)[p].0.variable
    ensures Flatten(table)[p].0.variable in Recovered(table)
    ensures Recovered(table)[Flatten(table)[p].0.variable] == TermModel(Flatten(table)[p])
  {
    RecordedLast(map[0 := false], Flatten(table), p);
  }

  /** Variable 0 is false in the model as long as every term on it
      records false: the closing clause of negated variable-0 terms in
      state True, and the padding terms (variable 0, not negated) in state
      False or Symbolic, all do. */
  lemma RecoveredZero(table: StateTable)
    requires forall q :: 0 <= q < |Flatten(table)| && Flatten(table)[q].0.variable == 0 ==> !TermModel(Flatten(table)[q])
    ensures 0 in Recovered(table) && !Recovered(table)[0]
  {
    RecordedAgrees(map[0 := false], Flatten(table), 0);
  }

  /** The first insertion of variable 0 is only a default: a padding term
      in state True makes variable 0 true in the model. */
  lemma RecoveredZeroOverridden()
    ensures Recovered([[(ClauseTables.Term(0, false), TermState.True)]])[0]
  {
    var table: StateTable := [[(ClauseTables.Term(0, false), TermState.True)]];
    assert Flatten(table) == Flatten(table[..0]) + table[0];
    assert Flatten(table) == table[0];
  }

  lemma FlattenStep(table: StateTable, k: nat)
    requires k < |table|
    ensures Flatten(table[..k + 1]) == Flatten(table[..k]) + table[k]
  {
    assert table[..k + 1][..k] == table[..k];
  }

  lemma RecordedStep(m: map<U8, bool>, before: seq<StatedTerm>, c: seq<StatedTerm>, i: nat)
    requires i < |c|
    ensures Recorded(m, before + c[..i + 1]) == Recorded(m, before + c[..i])[c[i].0.variable := TermModel(c[i])]
  {
    var ts := before + c[..i + 1];
    assert ts[..|ts| - 1] == before + c[..i];
  }

  /** The inner loop of `recover_model`, over the terms c of one clause,
      on the model m0 recorded from the terms before. */
  method RecordClause(ghost before: seq<StatedTerm>, m0: map<U8, bool>, c: seq<StatedTerm>) returns (m: map<U8, bool>)
    requires m0 == Recorded(map[0 := false], before)
    ensures m == Recorded(map[0 := false], before + c)
  {
    m := m0;
    assert before + c[..0] == before;
    for i := 0 to |c|
      invariant m == Recorded(map[0 := false], before + c[..i])
    {
      var (term, state) := c[i];
      RecordedStep(map[0 := false], before, c, i);
      match state {
        case True => m := m[term.variable := !term.negated];
        case False => m := m[term.variable := term.negated];
        case Symbolic => m := m[term.variable := false];
      }
    }
    assert c[..|c|] == c;
  }

  // ---------------------------------------------------------------------
  // Checking a Success broadcast

  /** A term passes the assertion of `send_message` under a model: its variable
      has a value, and a True or False state agrees with the value the
      term then takes. */
  predicate TermChecks(p: StatedTerm, model: map<U8, bool>) {
    p.0.variable in model &&
    (p.1 == TermState.True ==> ClauseTables.TermValue(p.0, model[p.0.variable])) &&
    (p.1 == TermState.False ==> !ClauseTables.TermValue(p.0, model[p.0.variable]))
  }

  predicate TermTrue(p: StatedTerm, model: map<U8, bool>) {
    p.0.variable in model && ClauseTables.TermValue(p.0, model[p.0.variable])
  }

  /** A clause passes: every term passes and some term is true. */
  predicate ClauseChecks(c: seq<StatedTerm>, model: map<U8, bool>) {
    (forall i :: 0 <= i < |c| ==> TermChecks(c[i], model)) &&
    exists i :: 0 <= i < |c| && TermTrue(c[i], model)
  }

  /** The model passes every clause of the table: it satisfies the formula. */
  predicate Certified(clauses: StateTable, model: map<U8, bool>) {
    forall k :: 0 <= k < |clauses| ==> ClauseChecks(clauses[k], model)
  }

  /** The assertion on one clause (the inner loop of `send_message`). */
  method CheckClause(c: seq<StatedTerm>, model: map<U8, bool>) returns (ok: bool)
    ensures ok <==> ClauseChecks(c, model)
  {
    var foundTrue := false;
    for i := 0 to |c|
      invariant forall j :: 0 <= j < i ==> TermChecks(c[j], model)
      invariant foundTrue <==> exists j :: 0 <= j < i && TermTrue(c[j], model)
    {
      var (term, termState) := c[i];
      if term.variable !in model {
        return false;
      }
      var val := model[term.variable];
      var termVal := if term.negated then !val else val;
      if termVal {
        foundTrue := true;
      }
      match termState {
        case True =>
          if !termVal {
            return false;
          }
        case False =>
          if termVal {
            return false;
          }
        case Symbolic =>
      }
    }
    ok := foundTrue;
  }

  /** The assertion on every clause (the outer loop of `send_message`). */
  method CheckClauses(clauses: StateTable, model: map<U8, bool>) returns (ok: bool)
    ensures ok <==> Certified(clauses, model)
  {
    for k := 0 to |clauses|
      invariant forall j :: 0 <= j < k ==> ClauseChecks(clauses[j], model)
    {
      var clauseOk := CheckClause(clauses[k], model);
      if !clauseOk {
        return false;
      }
    }
    ok := true;
  }

  /** Every term is decided (True or False). */
  predicate Decided(ts: seq<StatedTerm>) {
    forall q :: 0 <= q < |ts| ==> ts[q].1 != TermState.Symbolic
  }

  /** Terms on the same variable record the same value. */
  predicate Consistent(ts: seq<StatedTerm>) {
    forall p, q :: 0 <= p < |ts| && 0 <= q < |ts| && ts[p].0.variable == ts[q].0.variable ==>
      TermModel(ts[p]) == TermModel(ts[q])
  }

  /** Every clause has a term in state True. */
  predicate EveryClauseTrue(table: StateTable) {
    forall k :: 0 <= k < |table| ==> exists i :: 0 <= i < |table[k]| && table[k][i].1 == TermState.True
  }

  /** The last position of a term on variable v at or after... before n, or -1. */
  function LastOn(ts: seq<StatedTerm>, v: U8, n: nat): (r: int)
    requires n <= |ts|
    ensures -1 <= r < n
    ensures r >= 0 ==> ts[r].0.variable == v
    ensures forall q :: r < q < n ==> ts[q].0.variable != v
  {
    if n == 0 then -1 else if ts[n - 1].0.variable == v then n - 1 else LastOn(ts, v, n - 1)
  }

  /** The terms of clause k are among the flattened terms. */
  lemma {:induction false} InFlatten(table: StateTable, k: nat, i: nat)
    requires k < |table| && i < |table[k]|
    ensures table[k][i] in Flatten(table)
    decreases |table|
  {
    var init := table[..|table| - 1];
    if k < |table| - 1 {
      assert table[k] == init[k];
      InFlatten(init, k, i);
    }
  }

  /** A decided term is true exactly under the value it records. */
  lemma DecidedValue(p: StatedTerm)
    requires p.1 != TermState.Symbolic
    ensures ClauseTables.TermValue(p.0, TermModel(p)) <==> p.1 == TermState.True
  {
  }

  /** A node whose table is fully decided, consistent, and has a True term
      in every clause recovers a model that passes the assertion of that same
      table: Success broadcast from such a node is accepted. */
  lemma CertifiedOwnTable(table: StateTable)
    requires Decided(Flatten(table)) && Consistent(Flatten(table)) && EveryClauseTrue(table)
    ensures Certified(table, Recovered(table))
  {
    var ts := Flatten(table);
    var model := Recovered(table);
    RecordedKeys(map[0 := false], ts);
    forall k, i | 0 <= k < |table| && 0 <= i < |table[k]|
      ensures TermChecks(table[k][i], model)
      ensures table[k][i].1 == TermState.True ==> TermTrue(table[k][i], model)
    {
      var x := table[k][i];
      InFlatten(table, k, i);
      var p :| 0 <= p < |ts| && ts[p] == x;
      var l := LastOn(ts, x.0.variable, |ts|);
      assert l >= p;
      RecordedLast(map[0 := false], ts, l);
      assert model[x.0.variable] == TermModel(ts[l]) == TermModel(x);
      DecidedValue(x);
    }
    forall k | 0 <= k < |table| ensures ClauseChecks(table[k], model) {
      var i :| 0 <= i < |table[k]| && table[k][i].1 == TermState.True;
      assert TermTrue(table[k][i], model);
    }
  }

  // ---------------------------------------------------------------------
  // The swarm

  class SatSwarm {
    const arena: Arena
    const clauses: StateTable
    var done: bool

    /** `_blank(clause_table)`: no nodes. */
    constructor Blank(clauses: StateTable)
      ensures fresh(arena) && arena.nodes == [] && this.clauses == clauses && !done
    {
      arena := new Arena();
      this.clauses := clauses;
      done := false;
    }

    /** `grid(clause_table, rows, cols)` */
    constructor Grid(clauses: StateTable, rows: nat, cols: nat)
      ensures fresh(arena) && this.clauses == clauses && !done
      ensures NewNodes(arena.nodes, clauses) && |arena.nodes| == Neighbors.Mul(rows, cols)
      ensures Neighbors.EdgesIn(Neighbors.GridEdges(rows, cols), Neighbors.Mul(rows, cols))
      ensures NeighborTable(arena.nodes) == Neighbors.LinkAll(Neighbors.Empty(Neighbors.Mul(rows, cols)), Neighbors.GridEdges(rows, cols))
    {
      arena := new Arena.Grid(clauses, rows, cols);
      this.clauses := clauses;
      done := false;
    }

    /** `recover_model(id)`: variable 0 false, then each term of the node's
        table in order records its value; a missing node panics. */
    method RecoverModel(id: nat) returns (model: Option<map<U8, bool>>)
      ensures model.Some? <==> id < |arena.nodes|
      ensures model.Some? ==> model.value == Recovered(arena.nodes[id].table)
    {
      if id >= |arena.nodes| {
        return None;
      }
      var table := arena.nodes[id].table;
      var m: map<U8, bool> := map[0 := false];
      assert table[..0] == [];
      for k := 0 to |table|
        invariant m == Recorded(map[0 := false], Flatten(table[..k]))
      {
        m := RecordClause(Flatten(table[..k]), m, table[k]);
        FlattenStep(table, k);
      }
      assert table[..|table|] == table;
      model := Some(m);
    }

    /** The Broadcast branch of `send_message`: it panics when the swarm is
        already done, when the message is not Success from a node, when
        the node is missing, or when the node's recovered model fails the
        check of the swarm's clauses (a variable without a value, a state
        that disagrees with the model, or a clause with no true term);
        otherwise the swarm is done. */
    method SendBroadcast(from: MessageDestination, message: Message) returns (ok: bool)
      modifies this
      ensures ok <==> !old(done) && from.Neighbor? && message == Success && from.id < |arena.nodes| &&
                      Certified(clauses, Recovered(arena.nodes[from.id].table))
      ensures done == (old(done) || ok)
    {
      if done {
        return false;
      }
      match (from, message) {
        case (Neighbor(id), Success) =>
          var model := RecoverModel(id);
          if model.None? {
            return false;
          }
          ok := CheckClauses(clauses, model.value);
          if !ok {
            return false;
          }
        case _ =>
          return false;
      }
      done := true;
    }
  }
}
