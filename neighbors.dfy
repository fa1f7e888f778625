/** The neighbour tables the swarm simulators build (trace.rs, network.rs,
    satswarm.rs): one list of node ids per node. `add_neighbor(a, b)`
    appends b to a's list and then a to b's; the grid, torus and dense
    layouts are sequences of such calls in the order their nested loops
    make them. This module states those sequences as lists of edges and
    proves what the finished tables contain. */
module Neighbors {
  import Testing

  type Table = seq<seq<nat>>
  /** A call `add_neighbor(src, dst)`. */
  datatype Edge = Edge(src: nat, dst: nat)

  /** `vec![vec![]; n]` */
  function Empty(n: nat): (t: Table)
    ensures |t| == n && forall a :: 0 <= a < n ==> t[a] == []
  {
    seq(n, _ => [])
  }

  predicate EdgesIn(es: seq<Edge>, n: nat) {
    forall k :: 0 <= k < |es| ==> es[k].src < n && es[k].dst < n
  }

  /** What linking the edge appends to a's list: the other endpoint when a
      is the first one, then the first endpoint when a is the second (a
      self-link appends a twice). */
  function Contribution(e: Edge, a: nat): seq<nat> {
    (if e.src == a then [e.dst] else []) + (if e.dst == a then [e.src] else [])
  }

  /** `add_neighbor(a, b)` */
  function AddNeighbor(t: Table, a: nat, b: nat): (r: Table)
    requires a < |t| && b < |t|
    ensures |r| == |t|
    ensures forall x :: 0 <= x < |t| ==> r[x] == t[x] + Contribution(Edge(a, b), x)
  {
    var t1 := t[a := t[a] + [b]];
    t1[b := t1[b] + [a]]
  }

  /** The table after linking the edges in order. */
  function LinkAll(t: Table, es: seq<Edge>): (r: Table)
    requires EdgesIn(es, |t|)
    ensures |r| == |t|
    decreases |es|
  {
    if es == [] then t else LinkAll(AddNeighbor(t, es[0].src, es[0].dst), es[1..])
  }

  lemma {:induction false} LinkAllSnoc(t: Table, es: seq<Edge>, e: Edge)
    requires EdgesIn(es, |t|) && e.src < |t| && e.dst < |t|
    ensures EdgesIn(es + [e], |t|)
    ensures LinkAll(t, es + [e]) == AddNeighbor(LinkAll(t, es), e.src, e.dst)
    decreases |es|
  {
    var es' := es + [e];
    assert EdgesIn(es', |t|) by {
      forall k | 0 <= k < |es'| ensures es'[k].src < |t| && es'[k].dst < |t| {
        if k < |es| { assert es'[k] == es[k]; }
      }
    }
    if es == [] {
      assert es'[1..] == [];
    } else {
      assert es'[1..] == es[1..] + [e];
      LinkAllSnoc(AddNeighbor(t, es[0].src, es[0].dst), es[1..], e);
    }
  }

  /** A node appended with an empty list, after the links among the
      earlier nodes, is the same as appending it first. */
  lemma {:induction false} LinkAllGrow(t: Table, es: seq<Edge>)
    requires EdgesIn(es, |t|)
    ensures EdgesIn(es, |t| + 1)
    ensures LinkAll(t + [[]], es) == LinkAll(t, es) + [[]]
    decreases |es|
  {
    if es != [] {
      var t1 := AddNeighbor(t, es[0].src, es[0].dst);
      assert AddNeighbor(t + [[]], es[0].src, es[0].dst) == t1 + [[]];
      assert EdgesIn(es[1..], |t1|) by {
        forall k | 0 <= k < |es[1..]| ensures es[1..][k].src < |t1| && es[1..][k].dst < |t1| {
          assert es[1..][k] == es[k + 1];
        }
      }
      LinkAllGrow(t1, es[1..]);
    }
  }

  /** Everything the edges append to a's list, in order. */
  function Incident(es: seq<Edge>, a: nat): seq<nat>
    decreases |es|
  {
    if es == [] then [] else Contribution(es[0], a) + Incident(es[1..], a)
  }

  /** Each list of the linked table is its old contents followed by what
      the edges contribute to it. */
  lemma {:induction false} LinkAllIncidentAt(t: Table, es: seq<Edge>, a: nat)
    requires EdgesIn(es, |t|) && a < |t|
    ensures LinkAll(t, es)[a] == t[a] + Incident(es, a)
    decreases |es|
  {
    if es != [] {
      var t1 := AddNeighbor(t, es[0].src, es[0].dst);
      EdgesInTail(es, |t|);
      LinkAllIncidentAt(t1, es[1..], a);
      LinkStep(t[a], t1[a], Contribution(es[0], a), Incident(es[1..], a), Incident(es, a));
    }
  }

  lemma EdgesInTail(es: seq<Edge>, n: nat)
    requires es != [] && EdgesIn(es, n)
    ensures EdgesIn(es[1..], n)
  {
    forall k | 0 <= k < |es| - 1 ensures es[1..][k].src < n && es[1..][k].dst < n {
      assert es[1..][k] == es[k + 1];
    }
  }

  lemma LinkStep(before: seq<nat>, after: seq<nat>, first: seq<nat>, rest: seq<nat>, all: seq<nat>)
    requires after == before + first && all == first + rest
    ensures after + rest == before + all
  {
  }

  lemma LinkAllIncident(t: Table, es: seq<Edge>)
    requires EdgesIn(es, |t|)
    ensures forall a :: 0 <= a < |t| ==> LinkAll(t, es)[a] == t[a] + Incident(es, a)
  {
    forall a | 0 <= a < |t| ensures LinkAll(t, es)[a] == t[a] + Incident(es, a) {
      LinkAllIncidentAt(t, es, a);
    }
  }

  lemma {:induction false} IncidentAppend(es1: seq<Edge>, es2: seq<Edge>, a: nat)
    ensures Incident(es1 + es2, a) == Incident(es1, a) + Incident(es2, a)
    decreases |es1|
  {
    if es1 == [] {
      assert es1 + es2 == es2;
    } else {
      assert (es1 + es2)[1..] == es1[1..] + es2;
      IncidentAppend(es1[1..], es2, a);
    }
  }

  /** The edge joins a and x, in either direction. */
  predicate Joins(e: Edge, a: nat, x: nat) {
    (e.src == a && e.dst == x) || (e.src == x && e.dst == a)
  }

  /** x is in a's list exactly when some edge joins a and x. */
  lemma {:induction false} IncidentMember(es: seq<Edge>, a: nat, x: nat)
    ensures x in Incident(es, a) <==> exists k :: 0 <= k < |es| && Joins(es[k], a, x)
    decreases |es|
  {
    if es != [] {
      var rest := es[1..];
      IncidentMember(rest, a, x);
      assert x in Contribution(es[0], a) <==> Joins(es[0], a, x);
      if x in Incident(es, a) {
        if x in Incident(rest, a) {
          var k :| 0 <= k < |rest| && Joins(rest[k], a, x);
          assert es[k + 1] == rest[k];
        }
      }
      if exists k :: 0 <= k < |es| && Joins(es[k], a, x) {
        var k :| 0 <= k < |es| && Joins(es[k], a, x);
        if k > 0 {
          assert Joins(rest[k - 1], a, x);
        }
      }
    }
  }

  /** Linking into an empty table: x is one of a's neighbours exactly when
      an edge joins them, whichever endpoint came first. */
  lemma LinkedIff(n: nat, es: seq<Edge>, a: nat, x: nat)
    requires EdgesIn(es, n) && a < n
    ensures x in LinkAll(Empty(n), es)[a] <==> exists k :: 0 <= k < |es| && Joins(es[k], a, x)
  {
    LinkAllIncident(Empty(n), es);
    IncidentMember(es, a, x);
  }

  // ---------------------------------------------------------------------
  // Multiplication facts for row-major ids

  /** i·c, by repeated addition, so that row-major ids stay linear. */
  function Mul(i: nat, c: nat): nat {
    if i == 0 then 0 else Mul(i - 1, c) + c
  }

  lemma {:induction false} MulIsProduct(i: nat, c: nat)
    ensures Mul(i, c) == i * c
  {
    if i > 0 {
      MulIsProduct(i - 1, c);
    }
  }

  lemma {:induction false} MulLe(x: nat, y: nat, c: nat)
    requires x <= y
    ensures Mul(x, c) <= Mul(y, c)
    decreases y
  {
    if x < y {
      MulLe(x, y - 1, c);
    }
  }

  /** Cell (i, j) of a rows×cols layout has an id below rows·cols. */
  lemma CellBound(i: nat, j: nat, rows: nat, cols: nat)
    requires i < rows && j < cols
    ensures Mul(i, cols) + j < Mul(rows, cols)
  {
    MulLe(i + 1, rows, cols);
  }

  /** Row-major ids are unique: the id determines row and column. */
  lemma CellUnique(i: nat, j: nat, p: nat, q: nat, cols: nat)
    ensures j < cols && q < cols && Mul(i, cols) + j == Mul(p, cols) + q ==> i == p && j == q
  {
    if j < cols && q < cols {
      if i < p {
        MulLe(i + 1, p, cols);
      } else if p < i {
        MulLe(p + 1, i, cols);
      }
    }
  }

  // ---------------------------------------------------------------------
  // Grid and torus layouts

  /** The links made for cell (i, j), id = i·cols+j, in source order: to
      the node above when i > 0, to the left when j > 0; the torus adds a
      link from the bottom row to the column index and from the last
      column to the row's first id. */
  function CellEdges(wrap: bool, rows: nat, cols: nat, i: nat, j: nat): seq<Edge> {
    var id := Mul(i, cols) + j;
    (if i > 0 then [Edge(id, Mul(i - 1, cols) + j)] else []) +
    (if j > 0 then [Edge(id, Mul(i, cols) + (j - 1))] else []) +
    (if wrap && i == rows - 1 then [Edge(id, j)] else []) +
    (if wrap && j == cols - 1 then [Edge(id, Mul(i, cols))] else [])
  }

  /** The links made for the first m cells of row i. */
  function RowEdges(wrap: bool, rows: nat, cols: nat, i: nat, m: nat): seq<Edge> {
    if m == 0 then [] else RowEdges(wrap, rows, cols, i, m - 1) + CellEdges(wrap, rows, cols, i, m - 1)
  }

  /** The links made for the first r rows. */
  function LayoutEdges(wrap: bool, rows: nat, cols: nat, r: nat): seq<Edge> {
    if r == 0 then [] else LayoutEdges(wrap, rows, cols, r - 1) + RowEdges(wrap, rows, cols, r - 1, cols)
  }

  function GridEdges(rows: nat, cols: nat): seq<Edge> {
    LayoutEdges(false, rows, cols, rows)
  }

  function TorusEdges(rows: nat, cols: nat): seq<Edge> {
    LayoutEdges(true, rows, cols, rows)
  }

  lemma CellEdgesIn(wrap: bool, rows: nat, cols: nat, i: nat, j: nat)
    requires i < rows && j < cols
    ensures EdgesIn(CellEdges(wrap, rows, cols, i, j), Mul(rows, cols))
  {
    CellBound(i, j, rows, cols);
    CellBound(i, 0, rows, cols);
    if i > 0 {
      CellBound(i - 1, j, rows, cols);
    }
    if j > 0 {
      CellBound(i, j - 1, rows, cols);
    }
    CellBound(0, j, rows, cols);
  }

  lemma EdgesInAppend(es1: seq<Edge>, es2: seq<Edge>, n: nat)
    requires EdgesIn(es1, n) && EdgesIn(es2, n)
    ensures EdgesIn(es1 + es2, n)
  {
    forall k | 0 <= k < |es1 + es2| ensures (es1 + es2)[k].src < n && (es1 + es2)[k].dst < n {
      if k >= |es1| {
        assert (es1 + es2)[k] == es2[k - |es1|];
      }
    }
  }

  lemma {:induction false} RowEdgesIn(wrap: bool, rows: nat, cols: nat, i: nat, m: nat)
    requires i < rows && m <= cols
    ensures EdgesIn(RowEdges(wrap, rows, cols, i, m), Mul(rows, cols))
  {
    if m > 0 {
      RowEdgesIn(wrap, rows, cols, i, m - 1);
      CellEdgesIn(wrap, rows, cols, i, m - 1);
      EdgesInAppend(RowEdges(wrap, rows, cols, i, m - 1), CellEdges(wrap, rows, cols, i, m - 1), Mul(rows, cols));
    }
  }

  lemma {:induction false} LayoutEdgesIn(wrap: bool, rows: nat, cols: nat, r: nat)
    requires r <= rows
    ensures EdgesIn(LayoutEdges(wrap, rows, cols, r), Mul(rows, cols))
  {
    if r > 0 {
      LayoutEdgesIn(wrap, rows, cols, r - 1);
      RowEdgesIn(wrap, rows, cols, r - 1, cols);
      EdgesInAppend(LayoutEdges(wrap, rows, cols, r - 1), RowEdges(wrap, rows, cols, r - 1, cols), Mul(rows, cols));
    }
  }

  /** The edges linked after row r's first m cells stay in range. */
  lemma ProgressIn(wrap: bool, rows: nat, cols: nat, r: nat, m: nat)
    requires r < rows && m <= cols
    ensures EdgesIn(LayoutEdges(wrap, rows, cols, r) + RowEdges(wrap, rows, cols, r, m), Mul(rows, cols))
  {
    LayoutEdgesIn(wrap, rows, cols, r);
    RowEdgesIn(wrap, rows, cols, r, m);
    EdgesInAppend(LayoutEdges(wrap, rows, cols, r), RowEdges(wrap, rows, cols, r, m), Mul(rows, cols));
  }

  /** The ids cell (i, j) links lie within the layout. */
  lemma CellIdsIn(rows: nat, cols: nat, i: nat, j: nat)
    requires i < rows && j < cols
    ensures Mul(i, cols) + j < Mul(rows, cols) && j < Mul(rows, cols) && Mul(i, cols) < Mul(rows, cols)
    ensures i > 0 ==> Mul(i - 1, cols) + j < Mul(rows, cols)
    ensures j > 0 ==> Mul(i, cols) + (j - 1) < Mul(rows, cols)
  {
    CellBound(i, j, rows, cols);
    CellBound(i, 0, rows, cols);
    CellBound(0, j, rows, cols);
    if i > 0 { CellBound(i - 1, j, rows, cols); }
    if j > 0 { CellBound(i, j - 1, rows, cols); }
  }

  /** Either a one-edge list to link or an empty one. */
  function Opt(c: bool, e: Edge): seq<Edge> {
    if c then [e] else []
  }

  /** A call made under condition c extends the record by Opt(c, e). */
  lemma OptStep(before: seq<Edge>, after: seq<Edge>, c: bool, e: Edge)
    requires c ==> after == before + [e]
    requires !c ==> after == before
    ensures after == before + Opt(c, e)
  {
    if !c {
      assert before + [] == before;
    }
  }

  /** The edges linked before cell (i, j): all earlier rows, then row i's
      first j cells. */
  function Prefix(wrap: bool, rows: nat, cols: nat, i: nat, j: nat): seq<Edge> {
    LayoutEdges(wrap, rows, cols, i) + RowEdges(wrap, rows, cols, i, j)
  }

  lemma PrefixNext(wrap: bool, rows: nat, cols: nat, i: nat, j: nat)
    ensures Prefix(wrap, rows, cols, i, j + 1) == Prefix(wrap, rows, cols, i, j) + CellEdges(wrap, rows, cols, i, j)
  {
    Assoc(LayoutEdges(wrap, rows, cols, i), RowEdges(wrap, rows, cols, i, j), CellEdges(wrap, rows, cols, i, j));
  }

  lemma Assoc(a: seq<Edge>, b: seq<Edge>, c: seq<Edge>)
    ensures a + (b + c) == (a + b) + c
  {
  }

  /** The id above `id` as the loops compute it (`id - cols`), and 0
      where the loops do not use it. */
  function Up(id: nat, cols: nat): nat {
    if id >= cols then id - cols else 0
  }

  /** The id left of `id` (`id - 1`), and 0 where the loops do not use it. */
  function Left(id: nat): nat {
    if id > 0 then id - 1 else 0
  }

  /** The loop body for cell (i, j), whose node id the loops count as
      i·cols + j: its `add_neighbor` calls (above, left, and on the torus
      below and right, each under the source's condition) are exactly the
      cell's edges, and every id they pass lies within the layout. */
  lemma BodyEdges(wrap: bool, rows: nat, cols: nat, i: nat, j: nat, id: nat)
    requires i < rows && j < cols && id == Mul(i, cols) + j
    ensures i > 0 ==> id >= cols
    ensures id == i * cols + j
    ensures id < Mul(rows, cols) && Up(id, cols) < Mul(rows, cols) && Left(id) < Mul(rows, cols)
    ensures j < Mul(rows, cols) && Mul(i, cols) < Mul(rows, cols)
    ensures Prefix(wrap, rows, cols, i, j + 1) ==
            Prefix(wrap, rows, cols, i, j) + Opt(i > 0, Edge(id, Up(id, cols))) + Opt(j > 0, Edge(id, Left(id))) +
            Opt(wrap && i == rows - 1, Edge(id, j)) + Opt(wrap && j == cols - 1, Edge(id, Mul(i, cols)))
  {
    CellIdsIn(rows, cols, i, j);
    MulIsProduct(i, cols);
    if i > 0 {
      assert Mul(i, cols) == Mul(i - 1, cols) + cols;
    }
    var o1, o2 := Opt(i > 0, Edge(id, Up(id, cols))), Opt(j > 0, Edge(id, Left(id)));
    var o3, o4 := Opt(wrap && i == rows - 1, Edge(id, j)), Opt(wrap && j == cols - 1, Edge(id, Mul(i, cols)));
    CellEdgesOpt(wrap, rows, cols, i, j, id);
    PrefixNext(wrap, rows, cols, i, j);
    var p := Prefix(wrap, rows, cols, i, j);
    Assoc(p, o1 + o2 + o3, o4);
    Assoc(p, o1 + o2, o3);
    Assoc(p, o1, o2);
  }

  /** The links of one cell as the four conditional links of the loop body. */
  lemma CellEdgesOpt(wrap: bool, rows: nat, cols: nat, i: nat, j: nat, id: nat)
    requires id == Mul(i, cols) + j && (i > 0 ==> Mul(i, cols) == Mul(i - 1, cols) + cols)
    ensures CellEdges(wrap, rows, cols, i, j) ==
            Opt(i > 0, Edge(id, Up(id, cols))) + Opt(j > 0, Edge(id, Left(id))) +
            Opt(wrap && i == rows - 1, Edge(id, j)) + Opt(wrap && j == cols - 1, Edge(id, Mul(i, cols)))
  {
  }

  /** The same step without wrap-around links, as `grid` makes them. */
  lemma GridBodyEdges(rows: nat, cols: nat, i: nat, j: nat, id: nat)
    requires i < rows && j < cols && id == Mul(i, cols) + j
    ensures i > 0 ==> id >= cols
    ensures id < Mul(rows, cols)
    ensures Prefix(false, rows, cols, i, j + 1) ==
            Prefix(false, rows, cols, i, j) + Opt(i > 0, Edge(id, Up(id, cols))) + Opt(j > 0, Edge(id, Left(id)))
  {
    BodyEdges(false, rows, cols, i, j, id);
    var q := Prefix(false, rows, cols, i, j) + Opt(i > 0, Edge(id, Up(id, cols))) + Opt(j > 0, Edge(id, Left(id)));
    assert q + [] + [] == q;
  }

  /** Row boundaries of the loop: no cell of row i yet, and all of it. */
  lemma RowBounds(wrap: bool, rows: nat, cols: nat, i: nat)
    ensures Prefix(wrap, rows, cols, i, 0) == LayoutEdges(wrap, rows, cols, i)
    ensures Prefix(wrap, rows, cols, i, cols) == LayoutEdges(wrap, rows, cols, i + 1)
  {
    assert LayoutEdges(wrap, rows, cols, i) + [] == LayoutEdges(wrap, rows, cols, i);
  }

  /** The neighbours a grid cell ends with, in the order they are linked:
      above, left, right, below, each when it exists. */
  function GridExpected(rows: nat, cols: nat, i: nat, j: nat): seq<nat> {
    Own(cols, i, j) +
    (if j + 1 < cols then [Mul(i, cols) + (j + 1)] else []) +
    (if i + 1 < rows then [Mul(i + 1, cols) + j] else [])
  }

  /** The links cell (i, j) makes itself: above, then left. */
  function Own(cols: nat, i: nat, j: nat): seq<nat> {
    (if i > 0 then [Mul(i - 1, cols) + j] else []) + (if j > 0 then [Mul(i, cols) + (j - 1)] else [])
  }

  /** What cell (p, q)'s grid links append to cell (i, j)'s list. */
  function FromCell(cols: nat, i: nat, j: nat, p: nat, q: nat): seq<nat> {
    if p == i && q == j then Own(cols, i, j)
    else if p == i && q == j + 1 then [Mul(i, cols) + (j + 1)]
    else if p == i + 1 && q == j then [Mul(i + 1, cols) + j]
    else []
  }

  /** What the first m cells of row p append to cell (i, j)'s list. */
  function FromRow(cols: nat, i: nat, j: nat, p: nat, m: nat): seq<nat> {
    if p == i then
      if m <= j then [] else Own(cols, i, j) + (if j + 1 < m then [Mul(i, cols) + (j + 1)] else [])
    else if p == i + 1 && j < m then [Mul(i + 1, cols) + j]
    else []
  }

  /** What the first r rows append to cell (i, j)'s list. */
  function FromRows(cols: nat, i: nat, j: nat, r: nat): seq<nat> {
    if r <= i then []
    else
      Own(cols, i, j) + (if j + 1 < cols then [Mul(i, cols) + (j + 1)] else []) +
      (if i + 1 < r then [Mul(i + 1, cols) + j] else [])
  }

  lemma GridCellContribution(rows: nat, cols: nat, i: nat, j: nat, p: nat, q: nat)
    requires j < cols && q < cols
    ensures Incident(CellEdges(false, rows, cols, p, q), Mul(i, cols) + j) == FromCell(cols, i, j, p, q)
  {
    var a := Mul(i, cols) + j;
    var id := Mul(p, cols) + q;
    var upId := if p > 0 then Mul(p - 1, cols) + q else 0;
    var leftId := if q > 0 then Mul(p, cols) + (q - 1) else 0;
    var up: seq<Edge> := if p > 0 then [Edge(id, upId)] else [];
    var left: seq<Edge> := if q > 0 then [Edge(id, leftId)] else [];
    assert CellEdges(false, rows, cols, p, q) == up + left;
    IncidentAppend(up, left, a);
    IncidentOne(Edge(id, upId), a);
    IncidentOne(Edge(id, leftId), a);
    CellIds(cols, i, j, p, q);
    CellCombine(cols, i, j, p, q, Incident(up, a), Incident(left, a));
  }

  /** Which of cell (p, q)'s ids coincide with cell (i, j)'s. */
  lemma CellIds(cols: nat, i: nat, j: nat, p: nat, q: nat)
    requires j < cols && q < cols
    ensures Mul(p, cols) + q == Mul(i, cols) + j <==> p == i && q == j
    ensures p > 0 ==> (Mul(p - 1, cols) + q == Mul(i, cols) + j <==> p == i + 1 && q == j)
    ensures q > 0 ==> (Mul(p, cols) + (q - 1) == Mul(i, cols) + j <==> p == i && q == j + 1)
  {
    CellUnique(i, j, p, q, cols);
    if p > 0 { CellUnique(i, j, p - 1, q, cols); }
    if q > 0 { CellUnique(i, j, p, q - 1, cols); }
    assert p == i + 1 ==> Mul(p - 1, cols) == Mul(i, cols);
  }

  lemma CellCombine(cols: nat, i: nat, j: nat, p: nat, q: nat, cu: seq<nat>, cl: seq<nat>)
    requires j < cols && q < cols
    requires Mul(p, cols) + q == Mul(i, cols) + j <==> p == i && q == j
    requires p > 0 ==> (Mul(p - 1, cols) + q == Mul(i, cols) + j <==> p == i + 1 && q == j)
    requires q > 0 ==> (Mul(p, cols) + (q - 1) == Mul(i, cols) + j <==> p == i && q == j + 1)
    requires cu == if p > 0 then Contribution(Edge(Mul(p, cols) + q, Mul(p - 1, cols) + q), Mul(i, cols) + j) else []
    requires cl == if q > 0 then Contribution(Edge(Mul(p, cols) + q, Mul(p, cols) + (q - 1)), Mul(i, cols) + j) else []
    ensures cu + cl == FromCell(cols, i, j, p, q)
  {
  }

  lemma IncidentOne(e: Edge, a: nat)
    ensures Incident([e], a) == Contribution(e, a)
  {
    assert [e][1..] == [];
  }

  lemma RowStep(cols: nat, i: nat, j: nat, p: nat, m: nat)
    requires 0 < m <= cols && j < cols
    ensures FromRow(cols, i, j, p, m - 1) + FromCell(cols, i, j, p, m - 1) == FromRow(cols, i, j, p, m)
  {
  }

  lemma RowsStep(cols: nat, i: nat, j: nat, r: nat)
    requires 0 < r && j < cols
    ensures FromRows(cols, i, j, r - 1) + FromRow(cols, i, j, r - 1, cols) == FromRows(cols, i, j, r)
  {
  }

  lemma {:induction false} GridRowContribution(rows: nat, cols: nat, i: nat, j: nat, p: nat, m: nat)
    requires j < cols && m <= cols
    ensures Incident(RowEdges(false, rows, cols, p, m), Mul(i, cols) + j) == FromRow(cols, i, j, p, m)
  {
    if m > 0 {
      GridRowContribution(rows, cols, i, j, p, m - 1);
      GridCellContribution(rows, cols, i, j, p, m - 1);
      IncidentAppend(RowEdges(false, rows, cols, p, m - 1), CellEdges(false, rows, cols, p, m - 1), Mul(i, cols) + j);
      RowStep(cols, i, j, p, m);
    }
  }

  lemma {:induction false} GridRowsContribution(rows: nat, cols: nat, i: nat, j: nat, r: nat)
    requires j < cols
    ensures Incident(LayoutEdges(false, rows, cols, r), Mul(i, cols) + j) == FromRows(cols, i, j, r)
  {
    if r > 0 {
      GridRowsContribution(rows, cols, i, j, r - 1);
      GridRowContribution(rows, cols, i, j, r - 1, cols);
      IncidentAppend(LayoutEdges(false, rows, cols, r - 1), RowEdges(false, rows, cols, r - 1, cols), Mul(i, cols) + j);
      RowsStep(cols, i, j, r);
    }
  }

  /** The finished grid: cell (i, j) lists exactly the cells above, left,
      right and below it that exist, in that order. */
  lemma GridNeighbors(rows: nat, cols: nat, i: nat, j: nat)
    requires i < rows && j < cols
    ensures Mul(i, cols) + j < Mul(rows, cols) && EdgesIn(GridEdges(rows, cols), Mul(rows, cols))
    ensures LinkAll(Empty(Mul(rows, cols)), GridEdges(rows, cols))[Mul(i, cols) + j] == GridExpected(rows, cols, i, j)
  {
    LayoutEdgesIn(false, rows, cols, rows);
    CellBound(i, j, rows, cols);
    LinkAllIncident(Empty(Mul(rows, cols)), GridEdges(rows, cols));
    GridRowsContribution(rows, cols, i, j, rows);
    assert FromRows(cols, i, j, rows) == GridExpected(rows, cols, i, j);
  }

  lemma InAppend(e: Edge, es1: seq<Edge>, es2: seq<Edge>)
    ensures e in es1 || e in es2 ==> e in es1 + es2
  {
  }

  lemma {:induction false} CellInRow(wrap: bool, rows: nat, cols: nat, i: nat, j: nat, m: nat, e: Edge)
    requires j < m && e in CellEdges(wrap, rows, cols, i, j)
    ensures e in RowEdges(wrap, rows, cols, i, m)
  {
    if j < m - 1 {
      CellInRow(wrap, rows, cols, i, j, m - 1, e);
    }
    InAppend(e, RowEdges(wrap, rows, cols, i, m - 1), CellEdges(wrap, rows, cols, i, m - 1));
  }

  /** Each of cell (i, j)'s links is among the layout's edges. */
  lemma {:induction false} CellInLayout(wrap: bool, rows: nat, cols: nat, i: nat, j: nat, r: nat, e: Edge)
    requires i < r && j < cols && e in CellEdges(wrap, rows, cols, i, j)
    ensures e in LayoutEdges(wrap, rows, cols, r)
  {
    if i < r - 1 {
      CellInLayout(wrap, rows, cols, i, j, r - 1, e);
    } else {
      CellInRow(wrap, rows, cols, i, j, cols, e);
    }
    InAppend(e, LayoutEdges(wrap, rows, cols, r - 1), RowEdges(wrap, rows, cols, r - 1, cols));
  }

  /** Both endpoints of a linked edge list each other. */
  lemma EdgeLinked(n: nat, es: seq<Edge>, e: Edge)
    requires EdgesIn(es, n) && e in es
    ensures e.src < n && e.dst < n
    ensures e.dst in LinkAll(Empty(n), es)[e.src] && e.src in LinkAll(Empty(n), es)[e.dst]
  {
    var k :| 0 <= k < |es| && es[k] == e;
    assert Joins(es[k], e.src, e.dst) && Joins(es[k], e.dst, e.src);
    LinkedIff(n, es, e.src, e.dst);
    LinkedIff(n, es, e.dst, e.src);
  }

  lemma TorusEdgeLinked(rows: nat, cols: nat, i: nat, j: nat, e: Edge)
    requires i < rows && j < cols && e in CellEdges(true, rows, cols, i, j)
    ensures EdgesIn(TorusEdges(rows, cols), Mul(rows, cols))
    ensures e.src < Mul(rows, cols) && e.dst < Mul(rows, cols)
    ensures e.dst in LinkAll(Empty(Mul(rows, cols)), TorusEdges(rows, cols))[e.src]
    ensures e.src in LinkAll(Empty(Mul(rows, cols)), TorusEdges(rows, cols))[e.dst]
  {
    LayoutEdgesIn(true, rows, cols, rows);
    CellInLayout(true, rows, cols, i, j, rows, e);
    EdgeLinked(Mul(rows, cols), TorusEdges(rows, cols), e);
  }

  /** The links a torus cell makes itself: above and left as in the grid,
      the bottom row to its column index, the last column to its row's
      first id. */
  lemma TorusCellEdges(rows: nat, cols: nat, i: nat, j: nat)
    ensures var id := Mul(i, cols) + j;
            var ce := CellEdges(true, rows, cols, i, j);
            (i > 0 ==> Edge(id, Mul(i - 1, cols) + j) in ce) &&
            (j > 0 ==> Edge(id, Mul(i, cols) + (j - 1)) in ce) &&
            (i == rows - 1 ==> Edge(id, j) in ce) &&
            (j == cols - 1 ==> Edge(id, Mul(i, cols)) in ce)
  {
  }

  // ---------------------------------------------------------------------
  // Dense layout

  /** `lo..hi` */
  function Range(lo: nat, hi: nat): (r: seq<nat>) {
    if lo < hi then seq(hi - lo, k => lo + k) else []
  }

  lemma RangeMember(lo: nat, hi: nat)
    ensures |Range(lo, hi)| == if lo <= hi then hi - lo else 0
    ensures forall x :: x in Range(lo, hi) <==> lo <= x < hi
  {
    forall x | lo <= x < hi ensures x in Range(lo, hi) {
      assert Range(lo, hi)[x - lo] == x;
    }
  }

  /** Row i of the dense loops: links (i, j) for i < j < m. */
  function DenseRow(i: nat, m: nat): seq<Edge> {
    if m <= i + 1 then [] else DenseRow(i, m - 1) + [Edge(i, m - 1)]
  }

  function DenseRows(n: nat, r: nat): seq<Edge> {
    if r == 0 then [] else DenseRows(n, r - 1) + DenseRow(r - 1, n)
  }

  /** `for i in 0..n { for j in (i + 1)..n { add_neighbor(i, j) } }` */
  function DenseEdges(n: nat): seq<Edge> {
    DenseRows(n, n)
  }

  /** Every other node, ascending. */
  function Others(n: nat, a: nat): seq<nat> {
    Range(0, a) + Range(a + 1, n)
  }

  /** What row i's first links append to a's list. */
  function FromDenseRow(i: nat, m: nat, a: nat): seq<nat> {
    if a == i then Range(i + 1, m) else if i < a < m then [i] else []
  }

  /** What the first r rows append to a's list. */
  function FromDenseRows(n: nat, r: nat, a: nat): seq<nat> {
    if a < r then Others(n, a) else Range(0, r)
  }

  lemma DenseRowStep(i: nat, m: nat, a: nat, prev: seq<nat>, last: seq<nat>)
    requires m > i + 1
    requires prev == FromDenseRow(i, m - 1, a) && last == Contribution(Edge(i, m - 1), a)
    ensures prev + last == FromDenseRow(i, m, a)
  {
  }

  lemma {:induction false} DenseRowContribution(i: nat, m: nat, a: nat)
    ensures Incident(DenseRow(i, m), a) == FromDenseRow(i, m, a)
  {
    if m > i + 1 {
      DenseRowContribution(i, m - 1, a);
      IncidentAppend(DenseRow(i, m - 1), [Edge(i, m - 1)], a);
      IncidentOne(Edge(i, m - 1), a);
      DenseRowStep(i, m, a, Incident(DenseRow(i, m - 1), a), Incident([Edge(i, m - 1)], a));
    }
  }

  lemma DenseRowsStep(n: nat, r: nat, a: nat, prev: seq<nat>, row: seq<nat>)
    requires 0 < r <= n && a < n
    requires prev == FromDenseRows(n, r - 1, a) && row == FromDenseRow(r - 1, n, a)
    ensures prev + row == FromDenseRows(n, r, a)
  {
    if a < r - 1 {
      assert row == [];
    }
  }

  lemma {:induction false} DenseRowsContribution(n: nat, r: nat, a: nat)
    requires a < n && r <= n
    ensures Incident(DenseRows(n, r), a) == FromDenseRows(n, r, a)
  {
    if r > 0 {
      DenseRowsContribution(n, r - 1, a);
      DenseRowContribution(r - 1, n, a);
      IncidentAppend(DenseRows(n, r - 1), DenseRow(r - 1, n), a);
      DenseRowsStep(n, r, a, Incident(DenseRows(n, r - 1), a), Incident(DenseRow(r - 1, n), a));
    }
  }

  /** The dense loops' state before pair (i, j): all earlier rows, then
      row i's pairs below j. */
  function DensePrefix(n: nat, i: nat, j: nat): seq<Edge> {
    DenseRows(n, i) + DenseRow(i, j)
  }

  /** `add_neighbor(i, j)` links the next pair. */
  lemma DenseStep(n: nat, i: nat, j: nat)
    requires i < j < n
    ensures DensePrefix(n, i, j + 1) == DensePrefix(n, i, j) + [Edge(i, j)]
  {
  }

  /** Row boundaries of the dense loops. */
  lemma DenseRowBounds(n: nat, i: nat)
    ensures DensePrefix(n, i, i + 1) == DenseRows(n, i)
    ensures DensePrefix(n, i, n) == DenseRows(n, i + 1)
  {
    assert DenseRows(n, i) + [] == DenseRows(n, i);
  }

  lemma {:induction false} DenseRowIn(i: nat, m: nat, n: nat)
    requires i < n && m <= n
    ensures EdgesIn(DenseRow(i, m), n)
  {
    if m > i + 1 {
      DenseRowIn(i, m - 1, n);
      EdgesInAppend(DenseRow(i, m - 1), [Edge(i, m - 1)], n);
    }
  }

  lemma {:induction false} DenseRowsIn(n: nat, r: nat)
    requires r <= n
    ensures EdgesIn(DenseRows(n, r), n)
  {
    if r > 0 {
      DenseRowsIn(n, r - 1);
      DenseRowIn(r - 1, n, n);
      EdgesInAppend(DenseRows(n, r - 1), DenseRow(r - 1, n), n);
    }
  }

  /** The other nodes: n − 1 of them, each once. */
  lemma OthersFacts(n: nat, a: nat)
    requires a < n
    ensures |Others(n, a)| == n - 1
    ensures forall x :: x in Others(n, a) <==> 0 <= x < n && x != a
  {
    RangeMember(0, a);
    RangeMember(a + 1, n);
    forall x ensures x in Others(n, a) <==> x in Range(0, a) || x in Range(a + 1, n) {
    }
  }

  /** The finished dense layout: every node lists all the others in
      ascending order, so it has n − 1 neighbours and none twice. */
  lemma DenseNeighbors(n: nat, a: nat)
    requires a < n
    ensures EdgesIn(DenseEdges(n), n)
    ensures LinkAll(Empty(n), DenseEdges(n))[a] == Others(n, a)
    ensures |LinkAll(Empty(n), DenseEdges(n))[a]| == n - 1
    ensures forall x :: x in LinkAll(Empty(n), DenseEdges(n))[a] <==> 0 <= x < n && x != a
  {
    DenseRowsIn(n, n);
    LinkAllIncident(Empty(n), DenseEdges(n));
    DenseRowsContribution(n, n, a);
    assert LinkAll(Empty(n), DenseEdges(n))[a] == [] + Others(n, a);
    assert [] + Others(n, a) == Others(n, a);
    OthersFacts(n, a);
  }

  /** How many nodes a topology has. */
  function TopologyNodes(t: Testing.Topology): nat {
    match t
    case Grid(rows, cols) => Mul(rows, cols)
    case Torus(rows, cols) => Mul(rows, cols)
    case Dense(n) => n
  }

  /** The `add_neighbor` calls that build a topology's table. */
  function TopologyEdges(t: Testing.Topology): seq<Edge> {
    match t
    case Grid(rows, cols) => GridEdges(rows, cols)
    case Torus(rows, cols) => TorusEdges(rows, cols)
    case Dense(n) => DenseEdges(n)
  }

  lemma TopologyEdgesIn(t: Testing.Topology)
    ensures EdgesIn(TopologyEdges(t), TopologyNodes(t))
  {
    match t
    case Grid(rows, cols) => LayoutEdgesIn(false, rows, cols, rows);
    case Torus(rows, cols) => LayoutEdgesIn(true, rows, cols, rows);
    case Dense(n) => DenseRowsIn(n, n);
  }

  /** The finished table of a topology. */
  function TopologyTable(t: Testing.Topology): (r: Table)
    ensures |r| == TopologyNodes(t)
  {
    TopologyEdgesIn(t);
    LinkAll(Empty(TopologyNodes(t)), TopologyEdges(t))
  }

  /** Every id in a list names a node of the table. */
  predicate InRange(t: Table) {
    forall a, x :: 0 <= a < |t| && x in t[a] ==> x < |t|
  }

  /** The tables of all three topologies only hold ids of their nodes. */
  lemma TopologyTableInRange(t: Testing.Topology)
    ensures InRange(TopologyTable(t))
  {
    var n, es := TopologyNodes(t), TopologyEdges(t);
    TopologyEdgesIn(t);
    forall a, x | 0 <= a < n && x in TopologyTable(t)[a] ensures x < n {
      LinkedIff(n, es, a, x);
      var k :| 0 <= k < |es| && Joins(es[k], a, x);
    }
  }
}
