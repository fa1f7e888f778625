/** src/structures/testing.rs: the network topology named on the command
    line. */
module Testing {
  import opened Text

  datatype Topology = Grid(rows: nat, cols: nat) | Torus(rows: nat, cols: nat) | Dense(numNodes: nat)

  /** The integer square root, searched upwards from `r`. */
  function SqrtFrom(n: nat, r: nat): (s: nat)
    requires r * r <= n
    ensures s * s <= n < (s + 1) * (s + 1)
    decreases n - r * r
  {
    if (r + 1) * (r + 1) > n then r else SqrtFrom(n, r + 1)
  }

  /** `(n as f64).sqrt() as usize`: the largest s with s * s <= n. */
  function FloorSqrt(n: nat): (s: nat)
    ensures s * s <= n < (s + 1) * (s + 1)
  {
    SqrtFrom(n, 0)
  }

  /** `parse_topology`; None where the source panics on an unknown name. */
  function ParseTopology(name: string, numNodes: nat): (t: Option<Topology>)
    ensures name == "grid" <==> t.Some? && t.value.Grid?
    ensures name == "torus" <==> t.Some? && t.value.Torus?
    ensures name == "dense" <==> t == Some(Dense(numNodes))
    ensures t.None? <==> name !in {"grid", "torus", "dense"}
    ensures t.Some? && !t.value.Dense? ==>
              t.value.rows == t.value.cols &&
              t.value.rows * t.value.rows <= numNodes < (t.value.rows + 1) * (t.value.rows + 1)
  {
    if name == "grid" then Some(Grid(FloorSqrt(numNodes), FloorSqrt(numNodes)))
    else if name == "torus" then Some(Torus(FloorSqrt(numNodes), FloorSqrt(numNodes)))
    else if name == "dense" then Some(Dense(numNodes))
    else None
  }

  /** A grid or torus never has more nodes than asked for, and one square
      more would be too many. */
  lemma SquareFits(name: string, numNodes: nat)
    requires ParseTopology(name, numNodes).Some? && !ParseTopology(name, numNodes).value.Dense?
    ensures var t := ParseTopology(name, numNodes).value;
            t.rows * t.cols <= numNodes && numNodes < (t.rows + 1) * (t.cols + 1)
  {
  }
}
