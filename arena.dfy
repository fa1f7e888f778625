/** The states a node of the trace simulator and of the network simulator
    takes. trace.rs and network.rs both import one `NodeState` from
    node.rs; these are the states they use. */
module NodeStates {
  datatype NodeState = Idle | Busy | Sat | Sleep
}

/** The arena shared by the trace simulator and the network simulator:
    a vector of nodes and a vector of neighbour lists indexed by node id,
    filled by the `grid`, `torus` and `dense` constructors through
    `add_neighbor`. The constructors are proved to build exactly the tables
    that Neighbors describes. */
module Arenas {
  import Neighbors
  import Testing

  /** New nodes with the ids 0..m-1, in order. */
  predicate Numbered<N(==)>(nodes: seq<N>, m: nat, mk: nat -> N) {
    |nodes| == m && forall k :: 0 <= k < m ==> nodes[k] == mk(k)
  }


  lemma NumberedSnoc<N>(nodes: seq<N>, m: nat, mk: nat -> N)
    requires Numbered(nodes, m, mk)
    ensures Numbered(nodes + [mk(m)], m + 1, mk)
  {
  }

  /** An arena: the nodes and their neighbour table, one list of node ids
      per node. `links` is the ghost record of the `add_neighbor` calls
      made so far. */
  class Arena<N(==)> {
    var nodes: seq<N>
    var neighbors: Neighbors.Table
    ghost var links: seq<Neighbors.Edge>

    /** The table is what the recorded calls build from empty lists. */
    ghost predicate Linked()
      reads this
    {
      Neighbors.EdgesIn(links, |neighbors|) &&
      neighbors == Neighbors.LinkAll(Neighbors.Empty(|neighbors|), links)
    }

    /** `new()`: no nodes and no lists. */
    constructor ()
      ensures nodes == [] && neighbors == [] && links == []
      ensures Linked()
    {
      nodes := [];
      neighbors := [];
      links := [];
    }

    /** `add_neighbor(node_id, neighbor_id)`: each id joins the other's
        list; false, with nothing changed, where an id is past the table and
        the indexing panics. */
    method AddNeighbor(nodeId: nat, neighborId: nat) returns (ok: bool)
      modifies this
      ensures ok <==> nodeId < |old(neighbors)| && neighborId < |old(neighbors)|
      ensures !ok ==> unchanged(this)
      ensures nodes == old(nodes)
      ensures ok ==> neighbors == Neighbors.AddNeighbor(old(neighbors), nodeId, neighborId)
      ensures ok ==> links == old(links) + [Neighbors.Edge(nodeId, neighborId)]
      ensures old(Linked()) ==> Linked()
    {
      if nodeId >= |neighbors| || neighborId >= |neighbors| {
        return false;
      }
      ghost var t := neighbors;
      if Linked() {
        Neighbors.LinkAllSnoc(Neighbors.Empty(|neighbors|), links, Neighbors.Edge(nodeId, neighborId));
      }
      neighbors := neighbors[nodeId := neighbors[nodeId] + [neighborId]];
      neighbors := neighbors[neighborId := neighbors[neighborId] + [nodeId]];
      links := links + [Neighbors.Edge(nodeId, neighborId)];
      assert neighbors == Neighbors.AddNeighbor(t, nodeId, neighborId);
      ok := true;
    }

    /** `remove_neighbor(node_id, neighbor_id)` as written: `Vec::remove`
        takes a position, so it drops the entry AT index `neighbor_id` of
        the first list and at index `node_id` of the second; false where
        an index, into the table or into a list, is out of range and Rust
        panics. */
    method RemoveNeighbor(nodeId: nat, neighborId: nat) returns (ok: bool)
      modifies this
      ensures nodes == old(nodes) && |neighbors| == |old(neighbors)|
      ensures ok <==> nodeId < |old(neighbors)| && neighborId < |old(neighbors)| &&
                      neighborId < |old(neighbors)[nodeId]| &&
                      nodeId < |old(neighbors)[nodeId := RemoveAt(old(neighbors)[nodeId], neighborId)][neighborId]|
      ensures ok ==> var t := old(neighbors)[nodeId := RemoveAt(old(neighbors)[nodeId], neighborId)];
                     neighbors == t[neighborId := RemoveAt(t[neighborId], nodeId)]
    {
      if nodeId >= |neighbors| || neighborId >= |neighbors| {
        return false;
      }
      if neighborId >= |neighbors[nodeId]| {
        return false;
      }
      neighbors := neighbors[nodeId := RemoveAt(neighbors[nodeId], neighborId)];
      if nodeId >= |neighbors[neighborId]| {
        return false;
      }
      neighbors := neighbors[neighborId := RemoveAt(neighbors[neighborId], nodeId)];
      ok := true;
    }

    /** `grid(rows, cols)`: node `i·cols + j` for row i and column j, in
        row-major order, linked to the node above and to the left. */
    constructor Grid(rows: nat, cols: nat, mk: nat -> N)
      ensures Numbered(nodes, Neighbors.Mul(rows, cols), mk)
      ensures Neighbors.EdgesIn(Neighbors.GridEdges(rows, cols), Neighbors.Mul(rows, cols))
      ensures neighbors == Neighbors.LinkAll(Neighbors.Empty(Neighbors.Mul(rows, cols)), Neighbors.GridEdges(rows, cols))
    {
      var n := Neighbors.Mul(rows, cols);
      nodes := [];
      neighbors := Neighbors.Empty(n);
      links := [];
      new;
      for i := 0 to rows
        invariant |neighbors| == n && Linked()
        invariant Numbered(nodes, Neighbors.Mul(i, cols), mk)
        invariant links == Neighbors.LayoutEdges(false, rows, cols, i)
      {
        Neighbors.RowBounds(false, rows, cols, i);
        for j := 0 to cols
          invariant |neighbors| == n && Linked()
          invariant Numbered(nodes, Neighbors.Mul(i, cols) + j, mk)
          invariant links == Neighbors.Prefix(false, rows, cols, i, j)
        {
          var id := |nodes|;
          Neighbors.GridBodyEdges(rows, cols, i, j, id);
          NumberedSnoc(nodes, id, mk);
          GridCell(i, j, cols, n, mk);
        }
      }
    }

    /** One cell of `grid`: push node `id`, then link it to the node above
        and to the node on its left when they exist. */
    method GridCell(i: nat, j: nat, cols: nat, ghost n: nat, mk: nat -> N)
      requires |neighbors| == n && Linked() && |nodes| < n
      requires i > 0 ==> |nodes| >= cols
      requires j > 0 ==> |nodes| > 0
      modifies this
      ensures nodes == old(nodes) + [mk(|old(nodes)|)]
      ensures |neighbors| == n && Linked()
      ensures links == old(links) + Neighbors.Opt(i > 0, Neighbors.Edge(|old(nodes)|, Neighbors.Up(|old(nodes)|, cols))) +
                                    Neighbors.Opt(j > 0, Neighbors.Edge(|old(nodes)|, Neighbors.Left(|old(nodes)|)))
    {
      var id := |nodes|;
      nodes := nodes + [mk(id)];
      ghost var before := links;
      if i > 0 {
        var ok := AddNeighbor(id, id - cols);
      }
      ghost var l1 := links;
      Neighbors.OptStep(before, l1, i > 0, Neighbors.Edge(id, Neighbors.Up(id, cols)));
      if j > 0 {
        var ok := AddNeighbor(id, id - 1);
      }
      Neighbors.OptStep(l1, links, j > 0, Neighbors.Edge(id, Neighbors.Left(id)));
    }

    /** `torus(rows, cols)`: the grid links, plus a link from each node of
        the bottom row to the node of its column in the top row and from
        each node of the last column to the first node of its row. The
        debug assertion `id == row_index * cols + col_index` always holds. */
    constructor Torus(rows: nat, cols: nat, mk: nat -> N)
      ensures Numbered(nodes, Neighbors.Mul(rows, cols), mk)
      ensures Neighbors.EdgesIn(Neighbors.TorusEdges(rows, cols), Neighbors.Mul(rows, cols))
      ensures neighbors == Neighbors.LinkAll(Neighbors.Empty(Neighbors.Mul(rows, cols)), Neighbors.TorusEdges(rows, cols))
    {
      var n := Neighbors.Mul(rows, cols);
      nodes := [];
      neighbors := Neighbors.Empty(n);
      links := [];
      new;
      for rowIndex := 0 to rows
        invariant |neighbors| == n && Linked()
        invariant Numbered(nodes, Neighbors.Mul(rowIndex, cols), mk)
        invariant links == Neighbors.LayoutEdges(true, rows, cols, rowIndex)
      {
        Neighbors.RowBounds(true, rows, cols, rowIndex);
        for colIndex := 0 to cols
          invariant |neighbors| == n && Linked()
          invariant Numbered(nodes, Neighbors.Mul(rowIndex, cols) + colIndex, mk)
          invariant links == Neighbors.Prefix(true, rows, cols, rowIndex, colIndex)
        {
          var id := |nodes|;
          Neighbors.BodyEdges(true, rows, cols, rowIndex, colIndex, id);
          assert id == rowIndex * cols + colIndex;
          NumberedSnoc(nodes, id, mk);
          TorusCell(rowIndex, colIndex, rows, cols, n, mk);
        }
      }
    }

    /** One cell of `torus`: push node `id`, link it to the node above and
        to the left when they exist, then, in the bottom row, to the node of
        its column in the top row and, in the last column, to the first node
        of its row. */
    method TorusCell(rowIndex: nat, colIndex: nat, rows: nat, cols: nat, ghost n: nat, mk: nat -> N)
      requires |neighbors| == n && Linked() && |nodes| < n
      requires rowIndex > 0 ==> |nodes| >= cols
      requires colIndex > 0 ==> |nodes| > 0
      requires colIndex < n && Neighbors.Mul(rowIndex, cols) < n
      modifies this
      ensures nodes == old(nodes) + [mk(|old(nodes)|)]
      ensures |neighbors| == n && Linked()
      ensures links == old(links) +
                Neighbors.Opt(rowIndex > 0, Neighbors.Edge(|old(nodes)|, Neighbors.Up(|old(nodes)|, cols))) +
                Neighbors.Opt(colIndex > 0, Neighbors.Edge(|old(nodes)|, Neighbors.Left(|old(nodes)|))) +
                Neighbors.Opt(rowIndex == rows - 1, Neighbors.Edge(|old(nodes)|, colIndex)) +
                Neighbors.Opt(colIndex == cols - 1, Neighbors.Edge(|old(nodes)|, Neighbors.Mul(rowIndex, cols)))
    {
      var id := |nodes|;
      GridCell(rowIndex, colIndex, cols, n, mk);
      ghost var l2 := links;
      if rowIndex == rows - 1 {
        var below := colIndex;
        var ok := AddNeighbor(id, below);
      }
      ghost var l3 := links;
      Neighbors.OptStep(l2, l3, rowIndex == rows - 1, Neighbors.Edge(id, colIndex));
      if colIndex == cols - 1 {
        var right := Neighbors.Mul(rowIndex, cols);
        var ok := AddNeighbor(id, right);
      }
      Neighbors.OptStep(l3, links, colIndex == cols - 1, Neighbors.Edge(id, Neighbors.Mul(rowIndex, cols)));
    }

    /** `dense(num_nodes)`: the nodes first, then a link for every pair
        i < j, row by row. */
    constructor Dense(numNodes: nat, mk: nat -> N)
      ensures Numbered(nodes, numNodes, mk)
      ensures Neighbors.EdgesIn(Neighbors.DenseEdges(numNodes), numNodes)
      ensures neighbors == Neighbors.LinkAll(Neighbors.Empty(numNodes), Neighbors.DenseEdges(numNodes))
    {
      nodes := [];
      neighbors := Neighbors.Empty(numNodes);
      links := [];
      new;
      for id := 0 to numNodes
        invariant Numbered(nodes, id, mk)
        invariant neighbors == Neighbors.Empty(numNodes) && links == []
      {
        NumberedSnoc(nodes, id, mk);
        nodes := nodes + [mk(id)];
      }
      for i := 0 to numNodes
        invariant Numbered(nodes, numNodes, mk)
        invariant |neighbors| == numNodes && Linked()
        invariant links == Neighbors.DenseRows(numNodes, i)
      {
        Neighbors.DenseRowBounds(numNodes, i);
        for j := i + 1 to numNodes
          invariant Numbered(nodes, numNodes, mk)
          invariant |neighbors| == numNodes && Linked()
          invariant links == Neighbors.DensePrefix(numNodes, i, j)
        {
          Neighbors.DenseStep(numNodes, i, j);
          var ok := AddNeighbor(i, j);
        }
      }
    }
  }

  /** `generate(topology)`: the arena of the configured topology, its
      nodes made by `mk` from their ids. */
  method Generate<N(==)>(topology: Testing.Topology, mk: nat -> N) returns (arena: Arena<N>)
    ensures fresh(arena)
    ensures Numbered(arena.nodes, Neighbors.TopologyNodes(topology), mk)
    ensures arena.neighbors == Neighbors.TopologyTable(topology)
  {
    Neighbors.TopologyEdgesIn(topology);
    if topology.Grid? {
      arena := new Arena.Grid(topology.rows, topology.cols, mk);
    } else if topology.Torus? {
      arena := new Arena.Torus(topology.rows, topology.cols, mk);
    } else {
      arena := new Arena.Dense(topology.numNodes, mk);
    }
  }

  /** `Vec::remove(index)` on an index in range. */
  function RemoveAt(s: seq<nat>, index: nat): (r: seq<nat>)
    requires index < |s|
    ensures |r| == |s| - 1
    ensures forall k :: 0 <= k < index ==> r[k] == s[k]
    ensures forall k :: index <= k < |r| ==> r[k] == s[k + 1]
  {
    s[..index] + s[index + 1..]
  }
}
