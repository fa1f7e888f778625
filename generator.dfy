/** `generate_unsat_3sat`, shared by minisat_eval/unsat_gen.py and
    unsat_test/unsat_gen.py, which differ only in how many base clauses they
    draw. Python's `random` module is a stream of draws `rnd(0), rnd(1), ...`
    read from a position that every draw advances: `random.choice` of two
    values and `random.random() < 0.5` take one draw each and pick by its
    parity; `random.sample` takes one draw per element, each choosing from
    the elements not yet taken. */
module Generator {
  import opened Text

  type Draws = nat -> nat

  function Var(l: int): nat {
    if l < 0 then -l else l
  }

  /** The hidden assignment, keyed by variable. */
  type Assignment = map<nat, bool>

  /** The literal of `v` that the assignment makes true
      (`var if solution[var] else -var`). */
  function Agreeing(solution: Assignment, v: nat): int
    requires v in solution
  {
    var x: int := v;
    if solution[v] then x else -x
  }

  /** The truth value of a literal under the assignment. */
  function LitValue(solution: Assignment, l: int): bool
    requires Var(l) in solution
  {
    if l > 0 then solution[l] else !solution[Var(l)]
  }

  lemma AgreeingValue(solution: Assignment, v: nat)
    requires v in solution && v > 0
    ensures Var(Agreeing(solution, v)) == v && Var(-Agreeing(solution, v)) == v
    ensures LitValue(solution, Agreeing(solution, v))
    ensures !LitValue(solution, -Agreeing(solution, v))
  {
  }

  predicate Distinct(s: seq<nat>) {
    forall i, j :: 0 <= i < j < |s| ==> s[i] != s[j]
  }

  /** A clause of three literals over three distinct variables of 1..n. */
  predicate Clause3(c: seq<int>, n: int) {
    |c| == 3 &&
    (forall k :: 0 <= k < 3 ==> 1 <= Var(c[k]) <= n) &&
    Var(c[0]) != Var(c[1]) && Var(c[0]) != Var(c[2]) && Var(c[1]) != Var(c[2])
  }

  /** `range(1, n + 1)` */
  function Range(n: nat): (r: seq<nat>)
    ensures |r| == n && Distinct(r)
    ensures forall k :: 0 <= k < n ==> r[k] == k + 1
  {
    seq(n, i => i + 1)
  }

  /** The pool without its `i`-th element. */
  function Without(pool: seq<nat>, i: nat): (rest: seq<nat>)
    requires i < |pool| && Distinct(pool)
    ensures |rest| == |pool| - 1 && Distinct(rest)
    ensures forall x :: x in rest ==> x in pool && x != pool[i]
  {
    var rest := pool[..i] + pool[i + 1..];
    assert forall x :: x in rest ==> x in pool && x != pool[i] by {
      forall x | x in rest ensures x in pool && x != pool[i] {
        var j :| 0 <= j < |rest| && rest[j] == x;
        if j < i { assert x == pool[j]; } else { assert x == pool[j + 1]; }
      }
    }
    assert Distinct(rest) by {
      forall a, b | 0 <= a < b < |rest| ensures rest[a] != rest[b] {
        var a', b' := if a < i then a else a + 1, if b < i then b else b + 1;
        assert rest[a] == pool[a'] && rest[b] == pool[b'];
      }
    }
    rest
  }

  /** `random.sample(pool, k)`: each draw picks one of the elements left. */
  function Sample(pool: seq<nat>, k: nat, rnd: Draws, pos: nat): (r: seq<nat>)
    requires k <= |pool| && Distinct(pool)
    ensures |r| == k && Distinct(r)
    ensures forall x :: x in r ==> x in pool
    decreases k
  {
    if k == 0 then []
    else
      var i := rnd(pos) % |pool|;
      var rest := Without(pool, i);
      var tail := Sample(rest, k - 1, rnd, pos + 1);
      assert forall x :: x in tail ==> x in pool && x != pool[i];
      var r := [pool[i]] + tail;
      assert forall a, b :: 0 <= a < b < |r| ==> r[a] != r[b] by {
        forall a, b | 0 <= a < b < |r| ensures r[a] != r[b] {
          assert r[b] == tail[b - 1] && r[b] in tail;
          if a > 0 { assert r[a] == tail[a - 1]; }
        }
      }
      r
  }

  /** `random.sample(range(1, n + 1), 3)`: three distinct variables of
      1..n, drawn at `pos`. */
  function Sample3(n: nat, rnd: Draws, pos: nat): (vs: seq<nat>)
    requires n >= 3
    ensures |vs| == 3 && Distinct(vs)
    ensures forall k :: 0 <= k < 3 ==> 1 <= vs[k] <= n
  {
    var vs := Sample(Range(n), 3, rnd, pos);
    assert forall k :: 0 <= k < 3 ==> vs[k] in Range(n);
    vs
  }

  /** `{var: random.choice([True, False]) for var in range(1, n + 1)}` */
  method DrawSolution(numVars: int, rnd: Draws, pos: nat) returns (solution: Assignment, next: nat)
    ensures forall v :: v in solution <==> 1 <= v <= numVars
    ensures forall v :: 1 <= v <= numVars ==> solution[v] == (rnd(pos + v - 1) % 2 == 0)
    ensures next == pos + (if numVars > 0 then numVars else 0)
  {
    solution := map[];
    next := pos;
    var v := 1;
    while v <= numVars
      invariant 1 <= v && (numVars >= 0 ==> v <= numVars + 1) && (numVars < 1 ==> v == 1)
      invariant forall u :: u in solution <==> 1 <= u < v
      invariant forall u :: 1 <= u < v ==> solution[u] == (rnd(pos + u - 1) % 2 == 0)
      invariant next == pos + v - 1
      decreases numVars - v
    {
      assert v !in solution;
      solution := solution[v := rnd(next) % 2 == 0];
      next := next + 1;
      v := v + 1;
    }
    assert numVars >= 0 ==> v == numVars + 1;
    assert numVars < 0 ==> v == 1;
  }

  /** A base clause: for each variable, the literal the assignment makes
      true when the draw is below one half, otherwise its negation. */
  method BaseClause(vars: seq<nat>, solution: Assignment, rnd: Draws, pos: nat)
    returns (clause: seq<int>, next: nat)
    requires forall k :: 0 <= k < |vars| ==> vars[k] in solution && vars[k] > 0
    ensures |clause| == |vars|
    ensures forall k :: 0 <= k < |vars| ==> Var(clause[k]) == vars[k]
    ensures forall k :: 0 <= k < |vars| ==>
              (LitValue(solution, clause[k]) <==> rnd(pos + k) % 2 == 0)
    ensures next == pos + |vars|
  {
    clause := [];
    next := pos;
    for k := 0 to |vars|
      invariant |clause| == k && next == pos + k
      invariant forall j :: 0 <= j < k ==> Var(clause[j]) == vars[j]
      invariant forall j :: 0 <= j < k ==> (LitValue(solution, clause[j]) <==> rnd(pos + j) % 2 == 0)
    {
      var v := vars[k];
      AgreeingValue(solution, v);
      var lit := if rnd(next) % 2 == 0 then Agreeing(solution, v) else -Agreeing(solution, v);
      clause := clause + [lit];
      next := next + 1;
    }
  }

  /** A conflict clause: for each variable, the literal the assignment
      makes false. */
  method ConflictClause(vars: seq<nat>, solution: Assignment) returns (clause: seq<int>)
    requires forall k :: 0 <= k < |vars| ==> vars[k] in solution && vars[k] > 0
    ensures |clause| == |vars|
    ensures forall k :: 0 <= k < |vars| ==> Var(clause[k]) == vars[k] && !LitValue(solution, clause[k])
  {
    clause := [];
    for k := 0 to |vars|
      invariant |clause| == k
      invariant forall j :: 0 <= j < k ==> Var(clause[j]) == vars[j] && !LitValue(solution, clause[j])
    {
      AgreeingValue(solution, vars[k]);
      clause := clause + [-Agreeing(solution, vars[k])];
    }
  }

  /** Every literal of the clause is false under the assignment. */
  predicate Falsified(solution: Assignment, c: seq<int>) {
    forall j :: 0 <= j < |c| ==> Var(c[j]) in solution && !LitValue(solution, c[j])
  }

  /** Three distinct, drawn variables in 1..n make a 3-literal clause. */
  lemma ClauseOfVars(c: seq<int>, vs: seq<nat>, n: int)
    requires |vs| == 3 && Distinct(vs) && forall k :: 0 <= k < 3 ==> 1 <= vs[k] <= n
    requires |c| == 3 && forall k :: 0 <= k < 3 ==> Var(c[k]) == vs[k]
    ensures Clause3(c, n)
  {
  }

  /** One iteration of the base loop: sample, then a base clause. */
  method DrawBase(n: nat, solution: Assignment, rnd: Draws, pos: nat) returns (clause: seq<int>, next: nat)
    requires n >= 3 && forall v :: 1 <= v <= n ==> v in solution
    ensures Clause3(clause, n)
    ensures forall k :: 0 <= k < 3 ==>
              Var(clause[k]) in solution && (LitValue(solution, clause[k]) <==> rnd(pos + 3 + k) % 2 == 0)
    ensures next == pos + 6
  {
    var vars := Sample3(n, rnd, pos);
    clause, next := BaseClause(vars, solution, rnd, pos + 3);
    ClauseOfVars(clause, vars, n);
  }

  /** A sample, then a conflict clause. */
  method DrawConflict(n: nat, solution: Assignment, rnd: Draws, pos: nat) returns (clause: seq<int>, next: nat)
    requires n >= 3 && forall v :: 1 <= v <= n ==> v in solution
    ensures Clause3(clause, n) && Falsified(solution, clause)
    ensures next == pos + 3
  {
    var vars := Sample3(n, rnd, pos);
    clause := ConflictClause(vars, solution);
    ClauseOfVars(clause, vars, n);
    next := pos + 3;
  }

  /** The formula: `numBase` base clauses (none when `numBase` is not
      positive), then two conflict clauses; None when `random.sample`
      raises because fewer than 3 variables exist. The hidden assignment
      falsifies both conflict clauses. */
  method Generate(numVars: int, numBase: int, rnd: Draws, pos: nat)
    returns (r: Option<seq<seq<int>>>, next: nat, ghost solution: Assignment)
    ensures r.None? <==> numVars < 3
    ensures r.Some? ==> |r.value| == (if numBase > 0 then numBase else 0) + 2
    ensures r.Some? ==> forall c :: c in r.value ==> Clause3(c, numVars)
    ensures r.Some? ==> forall v :: v in solution <==> 1 <= v <= numVars
    ensures r.Some? ==> Falsified(solution, r.value[|r.value| - 2]) && Falsified(solution, r.value[|r.value| - 1])
  {
    var sol;
    sol, next := DrawSolution(numVars, rnd, pos);
    solution := sol;
    if numVars < 3 {
      return None, next, solution;
    }
    var n: nat := numVars;
    var clauses: seq<seq<int>> := [];
    for i := 0 to (if numBase > 0 then numBase else 0)
      invariant |clauses| == i
      invariant forall c :: c in clauses ==> Clause3(c, numVars)
    {
      var clause;
      clause, next := DrawBase(n, sol, rnd, next);
      clauses := clauses + [clause];
    }
    var conflict1, conflict2;
    conflict1, next := DrawConflict(n, sol, rnd, next);
    conflict2, next := DrawConflict(n, sol, rnd, next);
    clauses := clauses + [conflict1] + [conflict2];
    r := Some(clauses);
  }
}
