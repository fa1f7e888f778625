/** The literal and clause level of src/structures/microsat.rs: literals
    are `i16` values whose sign is the polarity and whose absolute value is
    the variable; a clause is a list of literals with an `enabled` flag. */
module MicrosatClauses {
  import opened Text

  /** `Literal`, an `i16`. */
  type I16 = x: int | -0x8000 <= x <= 0x7FFF

  /** A literal the solver can work with: not 0 (the DIMACS terminator) and
      not -32768, whose negation and absolute value overflow `i16`. */
  type Lit = x: int | -0x7FFF <= x <= 0x7FFF && x != 0 witness 1

  /** `to_variable`: `literal.abs()`; the absolute value of -32768 does not
      fit `i16` and panics in a debug build. */
  function ToVariable(literal: I16): (v: Option<nat>)
    ensures v.Some? <==> literal != -0x8000
    ensures v.Some? ==> v.value <= 0x7FFF && (v.value == literal || v.value == -literal)
  {
    if literal == -0x8000 then None else if literal < 0 then Some(-literal) else Some(literal)
  }

  /** `negate`: `-literal`, which overflows for -32768. */
  function Negate(literal: I16): (r: Option<I16>)
    ensures r.Some? <==> literal != -0x8000
    ensures r.Some? ==> r.value + literal == 0
  {
    if literal == -0x8000 then None else Some(-literal)
  }

  /** Negating twice gives the literal back, and a literal and its negation
      name the same variable. */
  lemma NegateInvolution(literal: I16)
    requires literal != -0x8000
    ensures Negate(Negate(literal).value) == Some(literal)
    ensures ToVariable(Negate(literal).value) == ToVariable(literal)
  {
  }

  /** The variable of a solver literal, from 1 to 32767. */
  function Var(l: Lit): (v: nat)
    ensures 1 <= v <= 0x7FFF && Some(v) == ToVariable(l)
  {
    if l < 0 then -(l as int) else l as int
  }

  /** The negation of a solver literal. */
  function Neg(l: Lit): (n: Lit)
    ensures Some(n as I16) == Negate(l) && Var(n) == Var(l)
  {
    -(l as int)
  }

  /** A literal whose variable is `v`, true exactly when v is `value`
      (`variable as Literal` or its negation in `assign_variable`). */
  function LiteralOf(v: nat, value: bool): (l: Lit)
    requires 1 <= v <= 0x7FFF
    ensures Var(l) == v && (l > 0 <==> value)
  {
    if value then v else -(v as int)
  }

  datatype Clause = Clause(variables: seq<Lit>, enabled: bool)

  /** `Clause::new()` */
  const NewClause := Clause([], true)

  predicate NoDup(s: seq<Lit>) {
    forall i, j :: 0 <= i < j < |s| ==> s[i] != s[j]
  }

  /** `insert_checked`: the literal is appended only when it is absent, so
      a clause built this way never repeats a literal. */
  function InsertChecked(c: Clause, l: Lit): (r: Clause)
    ensures r.enabled == c.enabled && c.variables <= r.variables
    ensures forall x :: x in r.variables <==> x in c.variables || x == l
    ensures NoDup(c.variables) ==> NoDup(r.variables)
    ensures |r.variables| <= |c.variables| + 1
  {
    if l in c.variables then c else c.(variables := c.variables + [l])
  }

  /** `Vec::swap_remove(i)`: the last element takes position i. */
  function SwapRemove(s: seq<Lit>, i: nat): (r: seq<Lit>)
    requires i < |s|
    ensures |r| == |s| - 1
  {
    s[i := s[|s| - 1]][..|s| - 1]
  }

  lemma SwapRemoveBag(s: seq<Lit>, i: nat)
    requires i < |s|
    ensures multiset(SwapRemove(s, i)) == multiset(s) - multiset{s[i]}
  {
    var n := |s| - 1;
    var t := s[i := s[n]];
    assert t == t[..n] + [s[n]];
    assert multiset(t) == multiset(s) - multiset{s[i]} + multiset{s[n]};
    assert multiset(t) == multiset(t[..n]) + multiset{s[n]};
    var r, m := multiset(t[..n]), multiset(s) - multiset{s[i]};
    assert SwapRemove(s, i) == t[..n];
    forall z ensures r[z] == m[z] {
      assert multiset(t)[z] == r[z] + multiset{s[n]}[z] == m[z] + multiset{s[n]}[z];
    }
    assert r == m;
  }

  /** The position of the first occurrence of l. */
  function FirstIndex(s: seq<Lit>, l: Lit): (i: nat)
    requires l in s
    ensures i < |s| && s[i] == l && forall j :: 0 <= j < i ==> s[j] != l
  {
    if s[0] == l then 0 else 1 + FirstIndex(s[1..], l)
  }

  /** What `Clause::remove` leaves: the first occurrence of the literal
      swap-removed, or the clause as it is when the literal is absent. */
  function DropLit(c: Clause, l: Lit): (r: Clause)
    ensures r.enabled == c.enabled && |r.variables| <= |c.variables|
    ensures l in c.variables ==> |r.variables| == |c.variables| - 1
  {
    if l in c.variables then c.(variables := SwapRemove(c.variables, FirstIndex(c.variables, l))) else c
  }

  /** Removing l takes one copy of l out of the bag of literals. */
  lemma DropLitBag(c: Clause, l: Lit)
    ensures multiset(DropLit(c, l).variables) == multiset(c.variables) - multiset{l}
  {
    if l in c.variables {
      SwapRemoveBag(c.variables, FirstIndex(c.variables, l));
    } else {
      assert multiset(c.variables)[l] == 0;
    }
  }

  /** `Clause::remove` */
  method Remove(c: Clause, l: Lit) returns (r: Clause)
    ensures r == DropLit(c, l)
  {
    for i := 0 to |c.variables|
      invariant forall j :: 0 <= j < i ==> c.variables[j] != l
    {
      if c.variables[i] == l {
        return c.(variables := SwapRemove(c.variables, i));
      }
    }
    return c;
  }

  /** A clause that removing l empties is the clause [l]. */
  lemma DropLitEmpty(c: Clause, l: Lit)
    requires DropLit(c, l).variables == [] && l in c.variables
    ensures c.variables == [l]
  {
    assert |c.variables| == 1;
    assert c.variables[0] == l;
  }

  /** A clause without repeats holds each of its literals once. */
  lemma {:induction false} NoDupBag(s: seq<Lit>)
    requires NoDup(s)
    ensures forall l :: l in multiset(s) ==> multiset(s)[l] == 1
    decreases |s|
  {
    if s != [] {
      var t := s[..|s| - 1];
      assert s == t + [s[|s| - 1]];
      assert NoDup(t);
      NoDupBag(t);
      assert s[|s| - 1] !in t;
    }
  }
}
