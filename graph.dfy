/** src/structures/graph.rs: a graph of nodes kept in a map from id to
    node, with directed edges and one pending message per sender. The
    node type it uses (`Node::new()`, `set_neighbor_message`,
    `get_neighbor_message`, `get_neighbor_ids`, `has_available_neighbor`)
    is an older version than the one in node.rs; it is modelled here by
    its neighbour list and its per-sender message slots, with
    `add_neighbor` appending and `remove_neighbor` removing every
    occurrence as node.rs does. */
module Graphs {
  import opened Text
  import Messages
  import Nodes

  datatype GraphNode = GraphNode(neighbors: seq<nat>, messages: map<nat, Messages.Message>)

  /** `Node::new()` */
  const NewNode := GraphNode([], map[])

  /** `remove_neighbor(id)` on a node. */
  function Pruned(n: GraphNode, id: nat): GraphNode {
    n.(neighbors := Nodes.Without(n.neighbors, id))
  }

  /** Every node pruned, none removed. */
  function PrunedAll(nodes: map<nat, GraphNode>, id: nat): map<nat, GraphNode> {
    map k | k in nodes :: Pruned(nodes[k], id)
  }

  /** The map after `remove_node(id)`. */
  function Removed(nodes: map<nat, GraphNode>, id: nat): map<nat, GraphNode> {
    PrunedAll(nodes, id) - {id}
  }

  /** After `remove_node(id)` the id is gone, every other node is kept with
      its messages, and no remaining node lists the id as a neighbour;
      every other neighbour stays listed. */
  lemma RemovedClean(nodes: map<nat, GraphNode>, id: nat)
    ensures Removed(nodes, id).Keys == nodes.Keys - {id}
    ensures forall k :: k in Removed(nodes, id) ==> Removed(nodes, id)[k].messages == nodes[k].messages
    ensures forall k :: k in Removed(nodes, id) ==> id !in Removed(nodes, id)[k].neighbors
    ensures forall k, x :: k in Removed(nodes, id) && x != id ==>
      (x in Removed(nodes, id)[k].neighbors <==> x in nodes[k].neighbors)
  {
    forall k, x | k in Removed(nodes, id)
      ensures x in Removed(nodes, id)[k].neighbors <==> x in nodes[k].neighbors && x != id
    {
      var r := Removed(nodes, id)[k].neighbors;
      assert r == Nodes.Without(nodes[k].neighbors, id);
      assert x in r <==> multiset(r)[x] > 0;
      assert x in nodes[k].neighbors <==> multiset(nodes[k].neighbors)[x] > 0;
    }
  }

  class Graph {
    var nodes: map<nat, GraphNode>
    var nextNodeId: nat

    /** Every id in use was handed out already. */
    ghost predicate Valid()
      reads this
    {
      forall k :: k in nodes ==> k < nextNodeId
    }

    /** `Graph::new` */
    constructor ()
      ensures Valid() && nodes == map[] && nextNodeId == 0
    {
      nodes := map[];
      nextNodeId := 0;
    }

    /** `create_node`: the next id, which no node has yet. */
    method CreateNode() returns (id: nat)
      requires Valid()
      modifies this
      ensures Valid()
      ensures id == old(nextNodeId) && id !in old(nodes) && nextNodeId == id + 1
      ensures nodes == old(nodes)[id := NewNode]
    {
      id := nextNodeId;
      nodes := nodes[id := NewNode];
      nextNodeId := nextNodeId + 1;
    }

    /** `remove_node`: the id leaves every node's list, then the node
        itself goes. */
    method RemoveNode(id: nat)
      requires Valid()
      modifies this
      ensures Valid() && nextNodeId == old(nextNodeId)
      ensures nodes == Removed(old(nodes), id)
    {
      PruneAll(id);
      nodes := nodes - {id};
    }

    /** The loop of `remove_node` over the nodes, in the map's own order. */
    method PruneAll(id: nat)
      requires Valid()
      modifies this
      ensures Valid() && nextNodeId == old(nextNodeId)
      ensures nodes == PrunedAll(old(nodes), id)
    {
      var keys := nodes.Keys;
      while keys != {}
        invariant keys <= nodes.Keys && nodes.Keys == old(nodes).Keys && nextNodeId == old(nextNodeId)
        invariant forall k :: k in nodes ==> nodes[k] == if k in keys then old(nodes)[k] else Pruned(old(nodes)[k], id)
        decreases keys
      {
        var k :| k in keys;
        nodes := nodes[k := Pruned(nodes[k], id)];
        keys := keys - {k};
      }
      assert nodes.Keys == PrunedAll(old(nodes), id).Keys;
    }

    /** `add_edge(from, to)`: both ends must exist (else it panics); only
        the source lists the target, so edges are directed. */
    method AddEdge(fromId: nat, toId: nat) returns (ok: bool)
      modifies this
      ensures ok <==> fromId in old(nodes) && toId in old(nodes)
      ensures nextNodeId == old(nextNodeId)
      ensures nodes == if ok then old(nodes)[fromId := old(nodes)[fromId].(neighbors := old(nodes)[fromId].neighbors + [toId])]
                       else old(nodes)
    {
      if fromId in nodes {
        if toId in nodes {
          nodes := nodes[fromId := nodes[fromId].(neighbors := nodes[fromId].neighbors + [toId])];
          return true;
        }
      }
      return false;
    }

    /** `remove_edge(from, to)`: nothing happens when the source is missing. */
    method RemoveEdge(fromId: nat, toId: nat)
      modifies this
      ensures nextNodeId == old(nextNodeId)
      ensures nodes == if fromId in old(nodes) then old(nodes)[fromId := Pruned(old(nodes)[fromId], toId)] else old(nodes)
    {
      if fromId in nodes {
        nodes := nodes[fromId := Pruned(nodes[fromId], toId)];
      }
    }

    /** `send_message(from, to, m)`: the target keeps m as the message from
        `from`, replacing an earlier one; a missing target panics. */
    method SendMessage(fromId: nat, toId: nat, message: Messages.Message) returns (ok: bool)
      modifies this
      ensures ok <==> toId in old(nodes)
      ensures nextNodeId == old(nextNodeId)
      ensures nodes == if ok then old(nodes)[toId := old(nodes)[toId].(messages := old(nodes)[toId].messages[fromId := message])]
                       else old(nodes)
    {
      if toId !in nodes {
        return false;
      }
      nodes := nodes[toId := nodes[toId].(messages := nodes[toId].messages[fromId := message])];
      ok := true;
    }

    /** `clear_message(from, to)`: nothing happens when the target is missing. */
    method ClearMessage(fromId: nat, toId: nat)
      modifies this
      ensures nextNodeId == old(nextNodeId)
      ensures nodes == if toId in old(nodes) then old(nodes)[toId := old(nodes)[toId].(messages := old(nodes)[toId].messages - {fromId})]
                       else old(nodes)
    {
      if toId in nodes {
        nodes := nodes[toId := nodes[toId].(messages := nodes[toId].messages - {fromId})];
      }
    }

    /** `get_message(from, to)`: the target's message from `from`, if both
        exist. */
    function GetMessage(fromId: nat, toId: nat): (r: Option<Messages.Message>)
      reads this
      ensures r.Some? <==> toId in nodes && fromId in nodes[toId].messages
      ensures r.Some? ==> r.value == nodes[toId].messages[fromId]
    {
      if toId in nodes && fromId in nodes[toId].messages then Some(nodes[toId].messages[fromId]) else None
    }

    /** `get_node` */
    function GetNode(id: nat): (r: Option<GraphNode>)
      reads this
      ensures r.Some? <==> id in nodes
      ensures r.Some? ==> r.value == nodes[id]
    {
      if id in nodes then Some(nodes[id]) else None
    }

    /** `get_node_ids`, as a set: the map's iteration order is unspecified. */
    function GetNodeIds(): (ids: set<nat>)
      reads this
      ensures forall k :: k in ids <==> k in nodes
    {
      nodes.Keys
    }

    /** `get_neighbors`: empty for a missing node. */
    function GetNeighbors(id: nat): (r: seq<nat>)
      reads this
      ensures id !in nodes ==> r == []
      ensures id in nodes ==> r == nodes[id].neighbors
    {
      if id in nodes then nodes[id].neighbors else []
    }

    /** `has_available_neighbor`: the node's own test, false for a missing
        node. The node-level test is not part of this model and is a
        parameter. */
    function HasAvailableNeighbor(id: nat, available: GraphNode -> bool): (r: bool)
      reads this
      ensures r <==> id in nodes && available(nodes[id])
    {
      id in nodes && available(nodes[id])
    }
  }

  /** The scenario of `test_graph_creation`: two fresh nodes get ids 0 and 1
      and both exist. */
  method CreationScenario() returns (first: nat, second: nat, ids: set<nat>)
    ensures first == 0 && second == 1 && ids == {0, 1}
  {
    var g := new Graph();
    first := g.CreateNode();
    second := g.CreateNode();
    ids := g.GetNodeIds();
    assert ids == {0, 1};
  }

  /** The scenario of `test_edge_management`: after `add_edge(0, 1)` node 0
      lists 1; after `remove_edge(0, 1)` it lists nothing; node 1 never
      lists 0. */
  method EdgeScenario() returns (afterAdd: seq<nat>, reverse: seq<nat>, afterRemove: seq<nat>)
    ensures afterAdd == [1] && reverse == [] && afterRemove == []
  {
    var g := new Graph();
    var a := g.CreateNode();
    var b := g.CreateNode();
    var ok := g.AddEdge(a, b);
    afterAdd := g.GetNeighbors(a);
    reverse := g.GetNeighbors(b);
    g.RemoveEdge(a, b);
    afterRemove := g.GetNeighbors(a);
  }

  /** The scenario of `test_message_passing`: after `send_message(0, 1, m)`
      the message is there; after `clear_message(0, 1)` it is gone. */
  method MessageScenario() returns (afterSend: Option<Messages.Message>, afterClear: Option<Messages.Message>)
    ensures afterSend == Some(Messages.Success) && afterClear == None
  {
    var g := new Graph();
    var a := g.CreateNode();
    var b := g.CreateNode();
    var ok := g.AddEdge(a, b);
    ok := g.SendMessage(a, b, Messages.Success);
    afterSend := g.GetMessage(a, b);
    g.ClearMessage(a, b);
    afterClear := g.GetMessage(a, b);
  }
}
