/** The fragment of Python's `re` that the MiniSat log parsers use:
    literals, `\s+`, `\d+` and `[\d.]+`, the latter two possibly inside a
    capture group, searched with `re.search` (leftmost match). */
module Pattern {
  import opened Text

  datatype CharClass = Space | Digit | DigitOrDot

  /** A pattern piece: a literal, or one or more characters of a class
      (`\s+`, `\d+`, `[\d.]+`), captured as a group when `capture` holds. */
  datatype Piece = Lit(text: string) | Plus(cls: CharClass, capture: bool)

  type Regex = seq<Piece>

  predicate InClass(cls: CharClass, c: char) {
    match cls
    case Space => IsPySpace(c)
    case Digit => IsDigit(c)
    case DigitOrDot => IsDigit(c) || c == '.'
  }

  predicate AllIn(cls: CharClass, t: string) {
    forall i :: 0 <= i < |t| ==> InClass(cls, t[i])
  }

  /** The classes of the capturing pieces, in order. */
  function CaptureClasses(pat: Regex): seq<CharClass> {
    if pat == [] then []
    else match pat[0]
      case Lit(_) => CaptureClasses(pat[1..])
      case Plus(cls, capture) => (if capture then [cls] else []) + CaptureClasses(pat[1..])
  }

  /** Backtracking semantics: `pat` matches `s[i..j]`. */
  ghost predicate Matches(s: string, i: nat, pat: Regex, j: nat)
    decreases |pat|
  {
    i <= |s| &&
    if pat == [] then j == i
    else match pat[0]
      case Lit(l) => StartsWith(s[i..], l) && Matches(s, i + |l|, pat[1..], j)
      case Plus(cls, _) =>
        exists k :: i < k <= |s| && AllIn(cls, s[i..k]) && Matches(s, k, pat[1..], j)
  }

  /** The end of the longest run of `cls` characters starting at `i`. */
  function RunEnd(s: string, i: nat, cls: CharClass): (j: nat)
    requires i <= |s|
    ensures i <= j <= |s|
    ensures AllIn(cls, s[i..j])
    ensures j < |s| ==> !InClass(cls, s[j])
    decreases |s| - i
  {
    if i < |s| && InClass(cls, s[i]) then
      var j := RunEnd(s, i + 1, cls);
      assert s[i..j] == [s[i]] + s[i + 1..j];
      j
    else i
  }

  /** Greedy matching at position `i`: each class piece takes its longest
      run. Returns the end of the match and the captured groups. */
  function MatchAt(s: string, i: nat, pat: Regex): (r: Option<(nat, seq<string>)>)
    requires i <= |s|
    ensures r.Some? ==> i <= r.value.0 <= |s|
    ensures r.Some? ==> |r.value.1| == |CaptureClasses(pat)|
    ensures r.Some? ==> forall k :: 0 <= k < |r.value.1| ==>
              r.value.1[k] != [] && AllIn(CaptureClasses(pat)[k], r.value.1[k])
    decreases |pat|
  {
    if pat == [] then Some((i, []))
    else match pat[0]
      case Lit(l) =>
        if StartsWith(s[i..], l) then MatchAt(s, i + |l|, pat[1..]) else None
      case Plus(cls, capture) =>
        var j := RunEnd(s, i, cls);
        if j == i then None
        else match MatchAt(s, j, pat[1..])
          case None => None
          case Some((e, caps)) => Some((e, (if capture then [s[i..j]] else []) + caps))
  }

  /** Whether the character `c` can begin a match of `p`. */
  predicate CanStart(p: Piece, c: char) {
    match p
    case Lit(l) => l != [] && l[0] == c
    case Plus(cls, _) => InClass(cls, c)
  }

  /** Every class piece is followed either by nothing or by a piece whose
      first character cannot continue the run, so the greedy choice is the
      only one that can succeed. */
  predicate Unambiguous(pat: Regex) {
    forall k :: 0 <= k < |pat| - 1 && pat[k].Plus? ==>
      (pat[k + 1].Lit? ==> pat[k + 1].text != []) &&
      forall c :: CanStart(pat[k + 1], c) ==> !InClass(pat[k].cls, c)
  }

  /** A literal in front of a pattern adds no group and no ambiguity. */
  lemma LitPrefix(name: string, p: Regex)
    requires Unambiguous(p)
    ensures CaptureClasses([Lit(name)] + p) == CaptureClasses(p)
    ensures Unambiguous([Lit(name)] + p)
  {
    assert ([Lit(name)] + p)[1..] == p;
    forall k | 1 <= k < |p| ensures ([Lit(name)] + p)[k] == p[k - 1] && ([Lit(name)] + p)[k + 1] == p[k] {
    }
  }

  /** `\s+` in front of a pattern that cannot start with a space adds no
      group and no ambiguity. */
  lemma SpaceThen(p: Regex)
    requires p != [] && Unambiguous(p) && forall c :: CanStart(p[0], c) ==> !IsPySpace(c)
    requires p[0].Lit? ==> p[0].text != []
    ensures CaptureClasses([Plus(Space, false)] + p) == CaptureClasses(p)
    ensures Unambiguous([Plus(Space, false)] + p)
  {
    assert ([Plus(Space, false)] + p)[1..] == p;
    forall k | 1 <= k < |p| ensures ([Plus(Space, false)] + p)[k] == p[k - 1] && ([Plus(Space, false)] + p)[k + 1] == p[k] {
    }
  }

  lemma {:induction false} MatchAtSound(s: string, i: nat, pat: Regex)
    requires i <= |s|
    ensures MatchAt(s, i, pat).Some? ==> Matches(s, i, pat, MatchAt(s, i, pat).value.0)
    decreases |pat|
  {
    if pat != [] && MatchAt(s, i, pat).Some? {
      match pat[0]
      case Lit(l) =>
        MatchAtSound(s, i + |l|, pat[1..]);
      case Plus(cls, _) =>
        var j := RunEnd(s, i, cls);
        MatchAtSound(s, j, pat[1..]);
    }
  }

  /** A match of a non-empty pattern needs a first character it can start with. */
  lemma MatchesStart(s: string, i: nat, pat: Regex, j: nat)
    requires pat != [] && Matches(s, i, pat, j)
    requires pat[0].Lit? ==> pat[0].text != []
    ensures i < |s| && CanStart(pat[0], s[i])
  {
    match pat[0]
    case Lit(l) =>
      assert s[i..][0] == s[i];
    case Plus(cls, _) =>
      var k :| i < k <= |s| && AllIn(cls, s[i..k]) && Matches(s, k, pat[1..], j);
      assert s[i..k][0] == s[i];
  }

  lemma UnambiguousTail(pat: Regex)
    requires pat != [] && Unambiguous(pat)
    ensures Unambiguous(pat[1..])
  {
    forall k | 0 <= k < |pat[1..]| - 1 && pat[1..][k].Plus?
      ensures (pat[1..][k + 1].Lit? ==> pat[1..][k + 1].text != []) &&
              forall c :: CanStart(pat[1..][k + 1], c) ==> !InClass(pat[1..][k].cls, c)
    {
      assert pat[1..][k] == pat[k + 1] && pat[1..][k + 1] == pat[k + 2];
    }
  }

  /** A run of `cls` characters that stops at `k` is the longest run. */
  lemma {:induction false} RunEndAt(s: string, i: nat, cls: CharClass, k: nat)
    requires i <= k <= |s| && AllIn(cls, s[i..k])
    requires k < |s| ==> !InClass(cls, s[k])
    ensures RunEnd(s, i, cls) == k
    decreases k - i
  {
    if i < k {
      assert InClass(cls, s[i..k][0]);
      assert s[i + 1..k] == s[i..k][1..];
      RunEndAt(s, i + 1, cls, k);
    }
  }

  /** For an unambiguous pattern, greedy matching finds a match wherever
      the backtracking semantics has one. */
  lemma {:induction false} MatchAtComplete(s: string, i: nat, pat: Regex, j: nat)
    requires Unambiguous(pat) && Matches(s, i, pat, j)
    ensures MatchAt(s, i, pat).Some?
    decreases |pat|
  {
    if pat != [] {
      UnambiguousTail(pat);
      match pat[0]
      case Lit(l) =>
        MatchAtComplete(s, i + |l|, pat[1..], j);
      case Plus(cls, _) =>
        var k :| i < k <= |s| && AllIn(cls, s[i..k]) && Matches(s, k, pat[1..], j);
        if |pat| == 1 {
          assert pat[1..] == [];
          assert RunEnd(s, i, cls) > i by {
            assert InClass(cls, s[i..k][0]);
          }
        } else {
          assert pat[1] == pat[1..][0];
          MatchesStart(s, k, pat[1..], j);
          RunEndAt(s, i, cls, k);
          MatchAtComplete(s, k, pat[1..], j);
        }
    }
  }

  /** No match of pat starts in s at a position from a up to b. */
  predicate NoMatchIn(s: string, pat: Regex, a: nat, b: nat)
    requires b <= |s| + 1
  {
    forall p :: a <= p < b ==> MatchAt(s, p, pat).None?
  }

  /** `re.search` from position `from`: the leftmost position with a match,
      its end and its groups. */
  function SearchFrom(s: string, pat: Regex, from: nat): (r: Option<(nat, nat, seq<string>)>)
    requires from <= |s|
    ensures r.Some? ==> from <= r.value.0 <= |s| &&
                        MatchAt(s, r.value.0, pat) == Some((r.value.1, r.value.2))
    ensures r.Some? ==> NoMatchIn(s, pat, from, r.value.0)
    ensures r.None? ==> NoMatchIn(s, pat, from, |s| + 1)
    decreases |s| - from
  {
    var m := MatchAt(s, from, pat);
    if m.Some? then Some((from, m.value.0, m.value.1))
    else if from == |s| then None
    else SearchFrom(s, pat, from + 1)
  }

  function Search(s: string, pat: Regex): Option<(nat, nat, seq<string>)> {
    SearchFrom(s, pat, 0)
  }

  /** The first group of the leftmost match (`m.group(1)`), if any. */
  function Group1(s: string, pat: Regex): (r: Option<string>)
    requires |CaptureClasses(pat)| >= 1
    ensures r.Some? ==> r.value != [] && AllIn(CaptureClasses(pat)[0], r.value)
  {
    match Search(s, pat)
    case None => None
    case Some((_, _, caps)) => Some(caps[0])
  }

  /** `re.search` finds something exactly when the pattern matches some
      substring, and what it finds is a match starting at the leftmost
      position where any match starts. */
  lemma SearchCorrect(s: string, pat: Regex)
    requires Unambiguous(pat)
    ensures Search(s, pat).Some? <==> exists i: nat, j: nat :: i <= |s| && Matches(s, i, pat, j)
    ensures Search(s, pat).Some? ==>
              Matches(s, Search(s, pat).value.0, pat, Search(s, pat).value.1) &&
              forall i: nat, j: nat :: i < Search(s, pat).value.0 && Matches(s, i, pat, j) ==> false
  {
    var r := Search(s, pat);
    if r.Some? {
      MatchAtSound(s, r.value.0, pat);
      assert Matches(s, r.value.0, pat, r.value.1);
      forall i: nat, j: nat | i < r.value.0 && Matches(s, i, pat, j) ensures false {
        MatchAtComplete(s, i, pat, j);
      }
    } else {
      forall i: nat, j: nat | i <= |s| && Matches(s, i, pat, j) ensures false {
        MatchAtComplete(s, i, pat, j);
      }
    }
  }
}
