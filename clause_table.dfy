/** src/structures/clause_table.rs: the table that holds the formula's
    clauses and answers substitution queries. A node asks "variable v is
    now b"; the table queues the query, admits one query per clock cycle,
    and then sends the asking node one substitution mask per cycle, one
    for each clause in order, until every clause has been answered.
    Panics of the source (a failed `assert!`, an `unwrap` of nothing, an
    index out of range) make a method return `None` or `false`. */
module ClauseTables {
  import opened Text
  import opened Messages
  import Generator

  /** `Term`: a variable and whether it occurs negated. */
  datatype Term = Term(variable: U8, negated: bool)

  /** `Term::default()`, also the filler of short clauses: variable 0,
      which the dummy clause forces to false. */
  const Blank := Term(0, false)

  type Clause = c: seq<Term> | |c| == 3 witness [Blank, Blank, Blank]

  /** The clause appended to every table, `[Term{var: 0, negated: true}; 3]`. */
  const Dummy: Clause := [Term(0, true), Term(0, true), Term(0, true)]

  /** `Query`: who asked, the variable, the value it was given, whether
      later variables are reset, and how many clauses remain to answer. */
  datatype Query = Query(source: nat, variable: U8, value: bool, reset: bool, updatesLeft: nat)

  /** The largest variable of a clause (`c.iter().map(|t| t.var).max()`). */
  function ClauseMax(c: Clause): (m: U8)
    ensures m == c[0].variable || m == c[1].variable || m == c[2].variable
    ensures forall i :: 0 <= i < 3 ==> c[i].variable <= m
  {
    var a := if c[0].variable < c[1].variable then c[1].variable else c[0].variable;
    if a < c[2].variable then c[2].variable else a
  }

  /** The largest variable of a table, `None` for an empty table (where
      the source's `unwrap` panics). */
  function MaxVar(cs: seq<Clause>): (m: Option<U8>)
    ensures m.None? <==> cs == []
    ensures m.Some? ==> forall k, i :: 0 <= k < |cs| && 0 <= i < 3 ==> cs[k][i].variable <= m.value
    ensures m.Some? ==> exists k, i :: 0 <= k < |cs| && 0 <= i < 3 && cs[k][i].variable == m.value
  {
    if cs == [] then None
    else
      var h := ClauseMax(cs[0]);
      var rest := MaxVar(cs[1..]);
      assert forall k, i :: 1 <= k < |cs| && 0 <= i < 3 ==> cs[k][i] == cs[1..][k - 1][i];
      if rest.None? || rest.value < h then
        assert cs[0][0].variable == h || cs[0][1].variable == h || cs[0][2].variable == h;
        Some(h)
      else
        ghost var k, i :| 0 <= k < |cs[1..]| && 0 <= i < 3 && cs[1..][k][i].variable == rest.value;
        assert cs[k + 1][i].variable == rest.value;
        rest
  }

  // ---------------------------------------------------------------------
  // Masks

  /** The answer for one term (the body of the loop over a clause in
      `clock_update`): True when the term is on the queried variable and
      the given value makes it true, False when the value makes it false,
      Reset for a later variable on a reset query, Unchanged otherwise. */
  function TermMask(q: Query, t: Term): TermUpdate {
    if q.variable == t.variable then
      if q.value == !t.negated then TermUpdate.True else TermUpdate.False
    else if q.reset && t.variable > q.variable then TermUpdate.Reset
    else TermUpdate.Unchanged
  }

  function MaskFor(q: Query, c: Clause): Mask {
    [TermMask(q, c[0]), TermMask(q, c[1]), TermMask(q, c[2])]
  }

  /** The value a term takes when its variable is `b`. */
  function TermValue(t: Term, b: bool): bool {
    if t.negated then !b else b
  }

  /** What a mask says about each term: a term on the queried variable is
      marked True exactly when the query's value makes it true and False
      exactly when it makes it false; other terms are reset exactly when
      the query resets and they are on a later variable. */
  lemma MaskMeaning(q: Query, c: Clause, i: nat)
    requires i < 3
    ensures c[i].variable == q.variable ==>
      (MaskFor(q, c)[i] == TermUpdate.True <==> TermValue(c[i], q.value)) &&
      (MaskFor(q, c)[i] == TermUpdate.False <==> !TermValue(c[i], q.value))
    ensures c[i].variable != q.variable ==>
      (MaskFor(q, c)[i] == TermUpdate.Reset <==> q.reset && c[i].variable > q.variable) &&
      (MaskFor(q, c)[i] != TermUpdate.True && MaskFor(q, c)[i] != TermUpdate.False)
  {
  }

  /** The loop of `clock_update` that builds one mask. */
  method BuildMask(q: Query, c: Clause) returns (mask: Mask)
    ensures mask == MaskFor(q, c)
  {
    mask := [TermUpdate.Unchanged, TermUpdate.Unchanged, TermUpdate.Unchanged];
    for i := 0 to 3
      invariant forall j :: 0 <= j < i ==> mask[j] == TermMask(q, c[j])
      invariant forall j :: i <= j < 3 ==> mask[j] == TermUpdate.Unchanged
    {
      if q.variable == c[i].variable {
        if q.value == !c[i].negated {
          mask := mask[i := TermUpdate.True];
        } else {
          mask := mask[i := TermUpdate.False];
        }
      } else if q.reset && c[i].variable > q.variable {
        mask := mask[i := TermUpdate.Reset];
      }
    }
  }

  // ---------------------------------------------------------------------
  // The steps of `clock_update` as functions of the table's state

  /** `query.var >= self.num_vars as u8`: the cast keeps the low 8 bits. */
  predicate Unknown(q: Query, numVars: nat) {
    q.variable >= numVars % 256
  }

  /** The in-flight queries after the front query (if any) is admitted: a
      known variable's query replaces the one from the same source. */
  function Admit(inflight: map<nat, Query>, front: Option<Query>, numVars: nat): map<nat, Query> {
    match front
    case None => inflight
    case Some(q) => if Unknown(q, numVars) then inflight else inflight[q.source := q]
  }

  /** The VariableNotFound answer to an unknown front query. */
  function NotFound(front: Option<Query>, numVars: nat): seq<Entry> {
    match front
    case None => []
    case Some(q) => if Unknown(q, numVars) then [Entry(ClauseTable, Neighbor(q.source), VariableNotFound)] else []
  }

  /** `retain(|_, q| q.updates_left > 0)` */
  function Retained(m: map<nat, Query>): (r: map<nat, Query>)
    ensures forall k :: k in r ==> r[k].updatesLeft > 0
  {
    map k | k in m && m[k].updatesLeft > 0 :: m[k]
  }

  /** Every query answered one more clause. */
  function Advanced(m: map<nat, Query>): map<nat, Query>
    requires forall k :: k in m ==> m[k].updatesLeft > 0
  {
    map k | k in m :: m[k].(updatesLeft := m[k].updatesLeft - 1)
  }

  /** The message answering query q with its next clause. */
  function MaskEntry(table: seq<Clause>, n: nat, q: Query): Entry
    requires 0 < q.updatesLeft <= n <= |table|
  {
    Entry(ClauseTable, Neighbor(q.source), SubstitutionMask(MaskFor(q, table[n - q.updatesLeft])))
  }

  predicate Answerable(table: seq<Clause>, n: nat, m: map<nat, Query>) {
    n <= |table| && forall k :: k in m ==> 0 < m[k].updatesLeft <= n
  }

  /** The answers to the queries of m, in the order the keys are visited. */
  function MaskEntries(table: seq<Clause>, n: nat, m: map<nat, Query>, order: seq<nat>): (es: seq<Entry>)
    requires Answerable(table, n, m)
    requires forall i :: 0 <= i < |order| ==> order[i] in m
    ensures |es| == |order|
    decreases |order|
  {
    if order == [] then []
    else MaskEntries(table, n, m, order[..|order| - 1]) + [MaskEntry(table, n, m[order[|order| - 1]])]
  }

  /** A visiting order of a set of keys: each key once. */
  predicate Enumerates(order: seq<nat>, keys: set<nat>) {
    (forall k :: k in keys ==> k in order) &&
    (forall i :: 0 <= i < |order| ==> order[i] in keys) &&
    forall i, j :: 0 <= i < j < |order| ==> order[i] != order[j]
  }

  lemma EnumeratesSnoc(order: seq<nat>, all: set<nat>, keys: set<nat>, k: nat)
    requires Enumerates(order, all - keys) && k in keys && keys <= all
    ensures Enumerates(order + [k], all - (keys - {k}))
  {
    assert all - (keys - {k}) == (all - keys) + {k};
  }

  /** The answer to query k after the answers in `order`. */
  lemma SentNext(q: QueueState, clock: nat, table: seq<Clause>, n: nat, m: map<nat, Query>, order: seq<nat>, k: nat)
    requires QueueOk(q) && Answerable(table, n, m) && k in m
    requires forall i :: 0 <= i < |order| ==> order[i] in m
    ensures Sent(q, clock, MaskEntries(table, n, m, order + [k])) ==
            Start(Sent(q, clock, MaskEntries(table, n, m, order)), clock, MaskEntry(table, n, m[k]))
  {
    assert (order + [k])[..|order|] == order;
    SentSnoc(q, clock, MaskEntries(table, n, m, order), MaskEntry(table, n, m[k]));
  }

  /** The queries of m outside `keys` advanced, those in `keys` not yet. */
  function PartlyAdvanced(m: map<nat, Query>, keys: set<nat>): map<nat, Query>
    requires forall k :: k in m ==> m[k].updatesLeft > 0
  {
    map k | k in m :: if k in keys then m[k] else m[k].(updatesLeft := m[k].updatesLeft - 1)
  }

  lemma AdvanceOne(m: map<nat, Query>, keys: set<nat>, k: nat)
    requires forall k :: k in m ==> m[k].updatesLeft > 0
    requires k in keys && keys <= m.Keys
    ensures PartlyAdvanced(m, keys)[k := m[k].(updatesLeft := m[k].updatesLeft - 1)] == PartlyAdvanced(m, keys - {k})
  {
    var a := PartlyAdvanced(m, keys)[k := m[k].(updatesLeft := m[k].updatesLeft - 1)];
    var b := PartlyAdvanced(m, keys - {k});
    assert a.Keys == b.Keys;
    forall j | j in a ensures a[j] == b[j] {
    }
  }

  lemma AdvancedAll(m: map<nat, Query>)
    requires forall k :: k in m ==> m[k].updatesLeft > 0
    ensures PartlyAdvanced(m, {}) == Advanced(m)
  {
  }

  /** The queue after the messages es, none meaning it is not touched. */
  function Sent(q: QueueState, clock: nat, es: seq<Entry>): QueueState
    requires QueueOk(q)
  {
    if es == [] then q else StartAll(q, clock, es)
  }

  lemma StartAllSnoc(q: QueueState, clock: nat, es: seq<Entry>, e: Entry)
    requires QueueOk(q)
    ensures StartAll(q, clock, es + [e]) == Start(StartAll(q, clock, es), clock, e)
  {
    assert (es + [e])[..|es|] == es;
  }

  /** Starting a message on a synchronised queue is starting it. */
  lemma SentOne(q: QueueState, clock: nat, e: Entry)
    requires QueueOk(q)
    ensures Sent(q, clock, [e]) == Start(q, clock, e)
  {
    assert [e][..0] == [];
    var s := Sync(q, clock);
    assert |s.ring.slots| == 64 && s.ring.head < 64;
    assert (s.ring.head + 0) % 64 == s.ring.head;
    assert Sync(s, clock) == s;
    assert StartAll(q, clock, [e]) == Start(StartAll(q, clock, []), clock, e);
    assert StartAll(q, clock, []) == s;
    assert Start(s, clock, e) == Start(q, clock, e);
  }

  lemma SentSnoc(q: QueueState, clock: nat, es: seq<Entry>, e: Entry)
    requires QueueOk(q)
    ensures Sent(q, clock, es + [e]) == Start(Sent(q, clock, es), clock, e)
  {
    if es == [] {
      assert es + [e] == [e];
      SentOne(q, clock, e);
    } else {
      StartAllSnoc(q, clock, es, e);
    }
  }

  // ---------------------------------------------------------------------
  // The life of one query

  /** One clock update with no new query admitted. */
  function Tick(m: map<nat, Query>): map<nat, Query> {
    Advanced(Retained(m))
  }

  function Ticks(m: map<nat, Query>, j: nat): map<nat, Query>
    decreases j
  {
    if j == 0 then m else Tick(Ticks(m, j - 1))
  }

  /** While no other query from its source replaces it, a query admitted
      with u clauses to answer is still in flight after j <= u updates with
      u - j left, so update j answers clause n - u + j; the update after its
      last answer drops it. With u == n (as `recieve_message` sets it) the
      updates answer clauses 0, 1, ..., n - 1 in order. */
  lemma {:induction false} QueryLifetime(m: map<nat, Query>, k: nat, j: nat)
    requires k in m && j <= m[k].updatesLeft
    ensures k in Ticks(m, j) && Ticks(m, j)[k] == m[k].(updatesLeft := m[k].updatesLeft - j)
    decreases j
  {
    if j > 0 {
      QueryLifetime(m, k, j - 1);
    }
  }

  lemma QueryDropped(m: map<nat, Query>, k: nat)
    requires k in m
    ensures k !in Retained(Ticks(m, m[k].updatesLeft))
  {
    QueryLifetime(m, k, m[k].updatesLeft);
  }

  // ---------------------------------------------------------------------
  // Loading a DIMACS file

  const I32Min: int := -0x8000_0000
  const I32Max: int := 0x7fff_ffff

  /** `part.parse::<i32>()` */
  function I32(t: string): Option<int> {
    RustParseSigned(t, I32Min, I32Max)
  }

  /** `(v as usize)` for an i32 v: negative values wrap around. */
  function UsizeOf(v: int): nat
    requires I32Min <= v
  {
    if v >= 0 then v else v + UsizeMax + 1
  }

  /** The index of the first word that reads as 0, or the number of words. */
  function FirstZero(parts: seq<string>): (z: nat)
    ensures z <= |parts|
    ensures forall t :: 0 <= t < z ==> I32(parts[t]) != Some(0)
    ensures z < |parts| ==> I32(parts[z]) == Some(0)
  {
    if parts == [] then 0 else if I32(parts[0]) == Some(0) then 0 else 1 + FirstZero(parts[1..])
  }

  /** A clause line the source reads without panicking: every word is an
      i32, nothing follows the first 0, at most three literals precede it,
      and each literal's magnitude is below 255. */
  predicate LineParses(parts: seq<string>) {
    var z := FirstZero(parts);
    (forall t :: 0 <= t < |parts| ==> I32(parts[t]).Some?) &&
    |parts| <= z + 1 && z <= 3 &&
    forall t :: 0 <= t < z ==> -255 < I32(parts[t]).value < 255
  }

  /** A literal n as a term: variable |n|, negated when n < 0. */
  function LitTerm(n: int): Term
    requires -255 < n < 255
  {
    Term(if n < 0 then -n else n, n < 0)
  }

  /** Term i of the clause whose first z words are its literals. */
  function LitAt(parts: seq<string>, z: nat, i: nat): Term {
    if i < z && i < |parts| && I32(parts[i]).Some? && -255 < I32(parts[i]).value < 255
    then LitTerm(I32(parts[i]).value) else Blank
  }

  function Lits(parts: seq<string>, z: nat): Clause {
    [LitAt(parts, z, 0), LitAt(parts, z, 1), LitAt(parts, z, 2)]
  }

  datatype LineParse = LinePanics | Unended | Ended(clause: Clause)

  /** What a clause line yields: a panic, no clause (no terminating 0), or
      the clause of its literals with the missing terms Blank. */
  function ClauseOfLine(parts: seq<string>): LineParse {
    if !LineParses(parts) then LinePanics
    else if FirstZero(parts) == |parts| then Unended
    else Ended(Lits(parts, FirstZero(parts)))
  }

  /** The four ways a clause line panics. */
  lemma WordAfterEnd(parts: seq<string>)
    requires FirstZero(parts) + 1 < |parts|
    ensures !LineParses(parts)
  {
  }

  lemma WordNotI32(parts: seq<string>, t: nat)
    requires t < |parts| && I32(parts[t]).None?
    ensures !LineParses(parts)
  {
  }

  lemma LiteralTooLarge(parts: seq<string>, t: nat)
    requires t < FirstZero(parts) && I32(parts[t]).Some? && !(-255 < I32(parts[t]).value < 255)
    ensures !LineParses(parts)
  {
  }

  lemma FourthLiteral(parts: seq<string>, t: nat)
    requires 3 <= t < FirstZero(parts)
    ensures !LineParses(parts)
  {
  }

  /** One more literal read. */
  lemma ExtendLiteral(parts: seq<string>, t: nat)
    requires t < 3 && t < |parts| && I32(parts[t]).Some? && -255 < I32(parts[t]).value < 255
    requires forall s :: 0 <= s < t ==> I32(parts[s]).Some? && -255 < I32(parts[s]).value < 255
    ensures Lits(parts, t)[t := LitTerm(I32(parts[t]).value)] == Lits(parts, t + 1)
    ensures forall s :: 0 <= s < t + 1 ==> -255 < I32(parts[s]).value < 255
  {
  }

  /** The loop of `load_file` over the words of a clause line. The
      assertion `term_index <= CLAUSE_LENGTH` cannot fail: a fourth literal
      already panics on the index. */
  method ParseClauseLine(parts: seq<string>) returns (ok: bool, clause: Clause, ended: bool)
    ensures ok <==> ClauseOfLine(parts) != LinePanics
    ensures ok ==> (ended <==> ClauseOfLine(parts).Ended?)
    ensures ok && ended ==> clause == ClauseOfLine(parts).clause
  {
    clause := [Blank, Blank, Blank];
    ended := false;
    var t := 0;
    ghost var z := 0;
    while t < |parts|
      invariant 0 <= t <= |parts| && z <= t && z <= 3
      invariant forall s :: 0 <= s < t ==> I32(parts[s]).Some?
      invariant ended ==> z == FirstZero(parts) && t == z + 1
      invariant !ended ==> z == t && t <= FirstZero(parts)
      invariant forall s :: 0 <= s < z ==> -255 < I32(parts[s]).value < 255
      invariant clause == Lits(parts, z)
    {
      if ended {
        WordAfterEnd(parts);
        return false, clause, ended;
      }
      var num := I32(parts[t]);
      if num.None? {
        WordNotI32(parts, t);
        return false, clause, ended;
      }
      if num.value == 0 {
        assert FirstZero(parts) == t;
        ended := true;
        for i := t to 3
          invariant clause == Lits(parts, t)
        {
          clause := clause[i := Blank];
        }
      } else {
        assert t < FirstZero(parts);
        if !(-255 < num.value < 255) {
          LiteralTooLarge(parts, t);
          return false, clause, ended;
        }
        if t >= 3 {
          FourthLiteral(parts, t);
          return false, clause, ended;
        }
        ExtendLiteral(parts, t);
        clause := clause[t := LitTerm(num.value)];
        z := t + 1;
      }
      t := t + 1;
    }
    assert LineParses(parts);
    ok := true;
  }

  /** What `load_file` has read so far: the header's numbers and the
      clauses since the header. */
  datatype Scan = Scan(varCount: I32Value, numClauses: nat, clauses: seq<Clause>)

  type I32Value = x: int | I32Min <= x <= I32Max

  datatype Step = Next(scan: Scan) | Stop | Panic

  /** A "p cnf" line: its third word is the variable count (an i32 below
      255), its fourth the clause count (a usize); the clauses read so far
      are discarded. */
  function HeaderStep(parts: seq<string>): Step {
    if |parts| < 3 || I32(parts[2]).None? || !(I32(parts[2]).value < 255) then Panic
    else if |parts| < 4 || RustParseUnsigned(parts[3], UsizeMax).None? then Panic
    else Next(Scan(I32(parts[2]).value, RustParseUnsigned(parts[3], UsizeMax).value, []))
  }

  /** One line: a header, a comment ("c..."), the end marker ("%..."), or a
      clause line whose clause is kept when it is terminated by 0. */
  function LineStep(st: Scan, line: string): Step {
    if StartsWith(line, "p cnf") then HeaderStep(RustSplit(line))
    else if StartsWith(line, "c") then Next(st)
    else if StartsWith(line, "%") then Stop
    else match ClauseOfLine(RustSplit(line))
      case LinePanics => Panic
      case Unended => Next(st)
      case Ended(c) => Next(st.(clauses := st.clauses + [c]))
  }

  /** The lines read in order, up to the end marker. */
  function ScanLines(st: Scan, lines: seq<string>): Option<Scan>
    decreases |lines|
  {
    if lines == [] then Some(st)
    else match LineStep(st, lines[0])
      case Next(s) => ScanLines(s, lines[1..])
      case Stop => Some(st)
      case Panic => None
  }

  const Start0 := Scan(0, 0, [])

  /** Reading the first of the lines. */
  lemma ScanOne(st: Scan, lines: seq<string>, step: Step)
    requires lines != [] && step == LineStep(st, lines[0])
    ensures step.Next? ==> ScanLines(st, lines) == ScanLines(step.scan, lines[1..])
    ensures step == Stop ==> ScanLines(st, lines) == Some(st)
    ensures step == Panic ==> ScanLines(st, lines) == None
  {
  }

  /** Nothing after the end marker is read. */
  lemma {:induction false} ScanStopsAtEnd(st: Scan, before: seq<string>, marker: string, after: seq<string>)
    requires StartsWith(marker, "%")
    ensures ScanLines(st, before + [marker] + after) == ScanLines(st, before + [marker])
    decreases |before|
  {
    assert !StartsWith(marker, "p cnf") && !StartsWith(marker, "c") by {
      assert marker[0] == '%';
    }
    if before == [] {
      assert (before + [marker] + after)[0] == marker;
      assert (before + [marker])[0] == marker;
    } else {
      assert (before + [marker] + after)[0] == before[0];
      assert (before + [marker])[0] == before[0];
      assert (before + [marker] + after)[1..] == before[1..] + [marker] + after;
      assert (before + [marker])[1..] == before[1..] + [marker];
      match LineStep(st, before[0]) {
        case Next(s) => ScanStopsAtEnd(s, before[1..], marker, after);
        case Stop =>
        case Panic =>
      }
    }
  }

  /** A header discards whatever was read before it. */
  lemma {:induction false} HeaderRestarts(st1: Scan, st2: Scan, before: seq<string>, header: string, after: seq<string>)
    requires StartsWith(header, "p cnf")
    requires forall k :: 0 <= k < |before| ==> LineStep(st1, before[k]).Next?
    ensures ScanLines(st1, before + [header] + after) == ScanLines(st2, [header] + after)
    decreases |before|
  {
    if before == [] {
      assert before + [header] + after == [header] + after;
    } else {
      assert (before + [header] + after)[0] == before[0];
      assert (before + [header] + after)[1..] == before[1..] + [header] + after;
      assert (before + [header])[0] == before[0];
      assert (before + [header])[1..] == before[1..] + [header];
      var s := LineStep(st1, before[0]).scan;
      forall k | 0 <= k < |before[1..]| ensures LineStep(s, before[1..][k]).Next? {
        assert LineStep(st1, before[k + 1]).Next?;
        StepKindIndependent(st1, s, before[k + 1]);
      }
      HeaderRestarts(s, st2, before[1..], header, after);
    }
  }

  /** Whether a line panics, ends the file or is read on does not depend
      on what was read before it. */
  lemma StepKindIndependent(st1: Scan, st2: Scan, line: string)
    ensures LineStep(st1, line).Next? <==> LineStep(st2, line).Next?
    ensures LineStep(st1, line) == Stop <==> LineStep(st2, line) == Stop
  {
  }

  /** Whether `load_file` returns, given what the lines yield: the clause
      count matches the header and the largest variable (counting the
      dummy clause) is the header's count truncated to a u8. */
  predicate Accepted(s: Scan) {
    |s.clauses| == s.numClauses &&
    MaxVar(s.clauses + [Dummy]) == Some(s.varCount % 256)
  }

  // ---------------------------------------------------------------------
  // The table

  class ClauseTable {
    var clauseTable: seq<Clause>
    var numClauses: nat
    var numVars: nat
    var queryBuffer: seq<Query>
    var inflightQueries: map<nat, Query>

    /** The count is the table's length, no query has more clauses to
        answer than the table has, and in-flight queries are keyed by their
        source. */
    ghost predicate Valid()
      reads this
    {
      numClauses == |clauseTable| &&
      (forall i :: 0 <= i < |queryBuffer| ==> queryBuffer[i].updatesLeft <= numClauses) &&
      (forall k :: k in inflightQueries ==> inflightQueries[k].updatesLeft <= numClauses && inflightQueries[k].source == k)
    }

    /** The struct literal of `random` and `load_file`. */
    constructor Make(clauses: seq<Clause>, vars: nat)
      ensures Valid()
      ensures clauseTable == clauses && numClauses == |clauses| && numVars == vars
      ensures queryBuffer == [] && inflightQueries == map[]
    {
      clauseTable := clauses;
      numClauses := |clauses|;
      numVars := vars;
      queryBuffer := [];
      inflightQueries := map[];
    }

    /** `_dummy`: ten blank clauses over one variable. */
    constructor Placeholder()
      ensures Valid()
      ensures clauseTable == seq(10, _ => [Blank, Blank, Blank]) && numClauses == 10 && numVars == 1
      ensures queryBuffer == [] && inflightQueries == map[]
    {
      clauseTable := seq(10, _ => [Blank, Blank, Blank]);
      numClauses := 10;
      numVars := 1;
      queryBuffer := [];
      inflightQueries := map[];
    }

    /** `number_of_vars`: the largest variable in the table. */
    function NumberOfVars(): (r: Option<nat>)
      reads this
      ensures r.None? <==> clauseTable == []
      ensures r.Some? ==> forall k, i :: 0 <= k < |clauseTable| && 0 <= i < 3 ==> clauseTable[k][i].variable <= r.value
      ensures r.Some? ==> exists k, i :: 0 <= k < |clauseTable| && 0 <= i < 3 && clauseTable[k][i].variable == r.value
    {
      match MaxVar(clauseTable)
      case None => None
      case Some(m) => Some(m)
    }

    /** `get_blank_state`: a Symbolic state for every term of every clause. */
    function GetBlankState(): (r: CnfState)
      reads this
      ensures |r| == numClauses
      ensures forall k, i :: 0 <= k < |r| && 0 <= i < 3 ==> r[k][i] == TermState.Symbolic
    {
      seq(numClauses, _ => [TermState.Symbolic, TermState.Symbolic, TermState.Symbolic])
    }

    /** `recieve_message`: a query from a node joins the back of the buffer
        with every clause still to answer; an abort from a node changes
        nothing (the source builds a query and drops it); anything else
        panics. */
    method ReceiveMessage(from: MessageDestination, message: Message) returns (ok: bool)
      requires Valid()
      modifies this
      ensures Valid()
      ensures ok <==> from.Neighbor? && (message.SubsitutionQuery? || message.SubstitutionAbort?)
      ensures queryBuffer == if ok && message.SubsitutionQuery?
        then old(queryBuffer) + [Query(from.id, message.id, message.assignment, message.reset, numClauses)]
        else old(queryBuffer)
      ensures clauseTable == old(clauseTable) && numClauses == old(numClauses) && numVars == old(numVars)
      ensures inflightQueries == old(inflightQueries)
    {
      match (from, message) {
        case (Neighbor(nodeId), SubsitutionQuery(id, assignment, reset)) =>
          queryBuffer := queryBuffer + [Query(nodeId, id, assignment, reset, numClauses)];
          ok := true;
        case (Neighbor(nodeId), SubstitutionAbort) =>
          ok := true;
        case _ =>
          ok := false;
      }
    }

    /** The first part of `clock_update`: the front query, if any, leaves
        the buffer; an unknown variable is answered VariableNotFound, a
        known one becomes (or replaces) its source's in-flight query. */
    method AdmitQuery(network: MessageQueue, clock: nat) returns (ghost front: Option<Query>)
      requires Valid() && network.Valid()
      modifies this, network, network.queue, network.queue.buffer
      ensures Valid() && network.Valid()
      ensures front == if old(queryBuffer) == [] then None else Some(old(queryBuffer)[0])
      ensures queryBuffer == if old(queryBuffer) == [] then [] else old(queryBuffer)[1..]
      ensures inflightQueries == Admit(old(inflightQueries), front, numVars)
      ensures network.Abs() == Sent(old(network.Abs()), clock, NotFound(front, numVars))
      ensures clauseTable == old(clauseTable) && numClauses == old(numClauses) && numVars == old(numVars)
    {
      front := None;
      if queryBuffer != [] {
        var query := queryBuffer[0];
        front := Some(query);
        queryBuffer := queryBuffer[1..];
        if query.variable >= numVars % 256 {
          network.StartMessage(clock, ClauseTable, Neighbor(query.source), VariableNotFound);
          SentOne(old(network.Abs()), clock, Entry(ClauseTable, Neighbor(query.source), VariableNotFound));
        } else {
          inflightQueries := inflightQueries[query.source := query];
        }
      }
    }

    /** The last part of `clock_update`: every in-flight query, in the
        map's order, is sent the mask for its next clause and has one
        clause fewer left. */
    method SendMasks(network: MessageQueue, clock: nat) returns (ghost order: seq<nat>)
      requires Valid() && network.Valid()
      requires forall k :: k in inflightQueries ==> inflightQueries[k].updatesLeft > 0
      modifies this, network, network.queue, network.queue.buffer
      ensures Valid() && network.Valid()
      ensures Answerable(clauseTable, numClauses, old(inflightQueries))
      ensures Enumerates(order, old(inflightQueries).Keys)
      ensures inflightQueries == Advanced(old(inflightQueries))
      ensures network.Abs() == Sent(old(network.Abs()), clock, MaskEntries(clauseTable, numClauses, old(inflightQueries), order))
      ensures clauseTable == old(clauseTable) && numClauses == old(numClauses) && numVars == old(numVars)
      ensures queryBuffer == old(queryBuffer)
    {
      assert Answerable(clauseTable, numClauses, inflightQueries);
      var inflight;
      inflight, order := AnswerAll(network, clock, inflightQueries);
      inflightQueries := inflight;
    }

    /** The loop of `clock_update` over the in-flight queries m, in the
        map's order; the table itself is not touched. */
    method AnswerAll(network: MessageQueue, clock: nat, m: map<nat, Query>) returns (inflight: map<nat, Query>, ghost order: seq<nat>)
      requires network.Valid() && Answerable(clauseTable, numClauses, m)
      modifies network, network.queue, network.queue.buffer
      ensures network.Valid()
      ensures Enumerates(order, m.Keys)
      ensures inflight == Advanced(m)
      ensures network.Abs() == Sent(old(network.Abs()), clock, MaskEntries(clauseTable, numClauses, m, order))
    {
      inflight := m;
      var keys := inflight.Keys;
      order := [];
      while keys != {}
        invariant network.Valid()
        invariant keys <= m.Keys && inflight == PartlyAdvanced(m, keys)
        invariant Enumerates(order, m.Keys - keys)
        invariant network.Abs() == Sent(old(network.Abs()), clock, MaskEntries(clauseTable, numClauses, m, order))
        decreases keys
      {
        var k :| k in keys;
        var query := inflight[k];
        assert query == m[k];
        AnswerQuery(network, clock, query);
        SentNext(old(network.Abs()), clock, clauseTable, numClauses, m, order, k);
        AdvanceOne(m, keys, k);
        inflight := inflight[k := query.(updatesLeft := query.updatesLeft - 1)];
        EnumeratesSnoc(order, m.Keys, keys, k);
        order := order + [k];
        keys := keys - {k};
      }
      AdvancedAll(m);
      assert m.Keys - {} == m.Keys;
    }

    /** One turn of the loop of `clock_update`: the mask for the query's
        next clause goes to its source. */
    method AnswerQuery(network: MessageQueue, clock: nat, query: Query)
      requires network.Valid()
      requires 0 < query.updatesLeft <= numClauses <= |clauseTable|
      modifies network, network.queue, network.queue.buffer
      ensures network.Valid()
      ensures network.Abs() == Start(old(network.Abs()), clock, MaskEntry(clauseTable, numClauses, query))
    {
      var clauseToCheck := numClauses - query.updatesLeft;
      var mask := BuildMask(query, clauseTable[clauseToCheck]);
      network.StartMessage(clock, ClauseTable, Neighbor(query.source), SubstitutionMask(mask));
    }

    /** `clock_update`: admit the front query, drop the queries with
        nothing left to answer, then answer one clause of each in-flight
        query. The map's iteration order is `order`, which visits each
        remaining query once. */
    method ClockUpdate(network: MessageQueue, clock: nat) returns (ghost order: seq<nat>)
      requires Valid() && network.Valid()
      modifies this, network, network.queue, network.queue.buffer
      ensures Valid() && network.Valid()
      ensures clauseTable == old(clauseTable) && numClauses == old(numClauses) && numVars == old(numVars)
      ensures queryBuffer == if old(queryBuffer) == [] then [] else old(queryBuffer)[1..]
      ensures var front := if old(queryBuffer) == [] then None else Some(old(queryBuffer)[0]);
              var kept := Retained(Admit(old(inflightQueries), front, numVars));
              Answerable(clauseTable, numClauses, kept) &&
              Enumerates(order, kept.Keys) &&
              inflightQueries == Advanced(kept) &&
              network.Abs() == Sent(old(network.Abs()), clock,
                NotFound(front, numVars) + MaskEntries(clauseTable, numClauses, kept, order))
    {
      ghost var q0 := network.Abs();
      ghost var front := AdmitQuery(network, clock);
      ghost var q1 := network.Abs();
      inflightQueries := Retained(inflightQueries);
      ghost var kept := inflightQueries;
      order := SendMasks(network, clock);
      SentConcat(q0, clock, NotFound(front, numVars), MaskEntries(clauseTable, numClauses, kept, order));
    }
  }

  /** Messages sent in two batches are the messages sent in one. */
  lemma {:induction false} SentConcat(q: QueueState, clock: nat, a: seq<Entry>, b: seq<Entry>)
    requires QueueOk(q)
    ensures QueueOk(Sent(q, clock, a))
    ensures Sent(Sent(q, clock, a), clock, b) == Sent(q, clock, a + b)
    decreases |b|
  {
    if b == [] {
      assert a + b == a;
    } else {
      var b0 := b[..|b| - 1];
      var e := b[|b| - 1];
      assert b == b0 + [e];
      SentConcat(q, clock, a, b0);
      SentSnoc(Sent(q, clock, a), clock, b0, e);
      assert a + b == (a + b0) + [e];
      SentSnoc(q, clock, a + b0, e);
    }
  }

  /** `random(num_clauses, num_vars)` with the random draws given: term i
      of clause k takes its variable from draw 2(3k + i) modulo 256 and
      then modulo the variable count, its sign from the next draw. */
  function DrawnTerm(rnd: Generator.Draws, p: nat, numVars: U8): Term
    requires numVars > 0
  {
    Term((rnd(p) % 256) % numVars, rnd(p + 1) % 2 == 1)
  }

  function DrawnClause(rnd: Generator.Draws, p: nat, numVars: U8): Clause
    requires numVars > 0
  {
    [DrawnTerm(rnd, p, numVars), DrawnTerm(rnd, p + 2, numVars), DrawnTerm(rnd, p + 4, numVars)]
  }

  /** `random`: the drawn clauses, then the dummy clause. With no variables
      the first draw's `% 0` panics, so only an empty formula is built. */
  method Random(numClauses: nat, numVars: U8, rnd: Generator.Draws, pos: nat) returns (r: Option<ClauseTable>)
    ensures r.None? <==> numClauses > 0 && numVars == 0
    ensures r.Some? ==> (fresh(r.value) && r.value.Valid() && r.value.numVars == numVars &&
      r.value.queryBuffer == [] && r.value.inflightQueries == map[] &&
      |r.value.clauseTable| == numClauses + 1 && r.value.clauseTable[numClauses] == Dummy &&
      forall k :: 0 <= k < numClauses ==> r.value.clauseTable[k] == DrawnClause(rnd, pos + 6 * k, numVars))
    ensures r.Some? ==> forall k, i :: 0 <= k < numClauses && 0 <= i < 3 ==> r.value.clauseTable[k][i].variable < numVars
  {
    if numClauses > 0 && numVars == 0 {
      return None;
    }
    var table: seq<Clause> := [];
    var p := pos;
    for k := 0 to numClauses
      invariant |table| == k && p == pos + 6 * k
      invariant forall j :: 0 <= j < k ==> table[j] == DrawnClause(rnd, pos + 6 * j, numVars)
    {
      var clause: Clause := [Blank, Blank, Blank];
      for i := 0 to 3
        invariant p == pos + 6 * k + 2 * i
        invariant forall j :: 0 <= j < i ==> clause[j] == DrawnTerm(rnd, pos + 6 * k + 2 * j, numVars)
      {
        var v := (rnd(p) % 256) % numVars;
        var negated := rnd(p + 1) % 2 == 1;
        clause := clause[i := Term(v, negated)];
        p := p + 2;
      }
      table := table + [clause];
    }
    table := table + [Dummy];
    var t := new ClauseTable.Make(table, numVars);
    r := Some(t);
  }

  /** The body of `load_file`'s loop over the lines. */
  method ReadLine(st: Scan, line: string) returns (step: Step)
    ensures step == LineStep(st, line)
  {
    if StartsWith(line, "p cnf") {
      var parts := RustSplit(line);
      if |parts| < 3 {
        return Panic;
      }
      var varCount := I32(parts[2]);
      if varCount.None? || !(varCount.value < 255) {
        return Panic;
      }
      if |parts| < 4 {
        return Panic;
      }
      var n := RustParseUnsigned(parts[3], UsizeMax);
      if n.None? {
        return Panic;
      }
      step := Next(Scan(varCount.value, n.value, []));
    } else if StartsWith(line, "c") {
      step := Next(st);
    } else if StartsWith(line, "%") {
      step := Stop;
    } else {
      var ok, clause, ended := ParseClauseLine(RustSplit(line));
      if !ok {
        return Panic;
      }
      step := if ended then Next(st.(clauses := st.clauses + [clause])) else Next(st);
    }
  }

  /** `load_file(path)` with the file's text given: the answer "SAT
      expected" is that the lower-cased path does not contain "unsat"; the
      table is the clauses read (see ScanLines) and the dummy clause, over
      the header's variable count plus one; any panic gives `None`. */
  method LoadFile(path: string, text: string) returns (r: Option<ClauseTable>, sat: bool)
    ensures sat == !Contains(LowerAscii(path), "unsat")
    ensures r.Some? <==> ScanLines(Start0, RustLines(text)).Some? && Accepted(ScanLines(Start0, RustLines(text)).value)
    ensures r.Some? ==> var s := ScanLines(Start0, RustLines(text)).value;
      fresh(r.value) && r.value.Valid() &&
      r.value.clauseTable == s.clauses + [Dummy] && r.value.numVars == UsizeOf(s.varCount + 1) &&
      r.value.queryBuffer == [] && r.value.inflightQueries == map[]
  {
    sat := !Contains(LowerAscii(path), "unsat");
    var scanned := ScanFile(RustLines(text));
    if scanned.None? {
      return None, sat;
    }
    r := Build(scanned.value);
  }

  /** The loop of `load_file` over the lines. */
  method ScanFile(lines: seq<string>) returns (scanned: Option<Scan>)
    ensures scanned == ScanLines(Start0, lines)
  {
    var st := Start0;
    var i := 0;
    while i < |lines|
      invariant 0 <= i <= |lines|
      invariant ScanLines(Start0, lines) == ScanLines(st, lines[i..])
      decreases |lines| - i
    {
      assert lines[i..][0] == lines[i] && lines[i..][1..] == lines[i + 1..];
      var step := ReadLine(st, lines[i]);
      ScanOne(st, lines[i..], step);
      match step {
        case Panic => return None;
        case Stop => return Some(st);
        case Next(s) => st := s;
      }
      i := i + 1;
    }
    assert lines[i..] == [];
    scanned := Some(st);
  }

  /** The tests after `load_file`'s loop and the table it returns. */
  method Build(s: Scan) returns (r: Option<ClauseTable>)
    ensures r.Some? <==> Accepted(s)
    ensures r.Some? ==> (fresh(r.value) && r.value.Valid() &&
      r.value.clauseTable == s.clauses + [Dummy] && r.value.numVars == UsizeOf(s.varCount + 1) &&
      r.value.queryBuffer == [] && r.value.inflightQueries == map[])
  {
    if |s.clauses| != s.numClauses {
      return None;
    }
    var clauses := s.clauses + [Dummy];
    if MaxVar(clauses) != Some(s.varCount % 256) {
      return None;
    }
    var t := new ClauseTable.Make(clauses, UsizeOf(s.varCount + 1));
    r := Some(t);
  }
}
