/** Option and Result wrappers and the string helpers the parsers share:
    whitespace classes, tokenising, prefix and substring tests, decimal
    formatting and the integer parsers of Python and Rust. */
module Text {

  datatype Option<+T> = None | Some(value: T)

  /** An outcome that is either a value or a failure the source reports by
      raising or panicking. */
  datatype Result<+T> = Ok(value: T) | Fail(reason: string)

  /** Python's str.isspace (and the `\s` class of `re` on str patterns),
      restricted to the characters below U+3001. */
  predicate IsPySpace(c: char) {
    c == ' ' || ('\U{0009}' <= c <= '\U{000D}') || ('\U{001C}' <= c <= '\U{001F}')
    || c == '\U{0085}' || c == '\U{00A0}' || c == '\U{1680}'
    || ('\U{2000}' <= c <= '\U{200A}') || c == '\U{2028}' || c == '\U{2029}'
    || c == '\U{202F}' || c == '\U{205F}' || c == '\U{3000}'
  }

  /** Rust's char::is_whitespace (used by str::split_whitespace). */
  predicate IsRustSpace(c: char) {
    c == ' ' || ('\U{0009}' <= c <= '\U{000D}')
    || c == '\U{0085}' || c == '\U{00A0}' || c == '\U{1680}'
    || ('\U{2000}' <= c <= '\U{200A}') || c == '\U{2028}' || c == '\U{2029}'
    || c == '\U{202F}' || c == '\U{205F}' || c == '\U{3000}'
  }

  predicate IsDigit(c: char) { '0' <= c <= '9' }

  predicate AllDigits(s: string) { forall i :: 0 <= i < |s| ==> IsDigit(s[i]) }

  predicate StartsWith(s: string, p: string) { |p| <= |s| && s[..|p|] == p }

  predicate EndsWith(s: string, p: string) { |p| <= |s| && s[|s| - |p|..] == p }

  /** Substring test (`p in s` in Python, `str::contains` in Rust). */
  predicate Contains(s: string, p: string)
    decreases |s|
  {
    StartsWith(s, p) || (|s| > 0 && Contains(s[1..], p))
  }

  /** The longest prefix of `s` without a separator. */
  function TakeToken(s: string, sep: char -> bool): (t: string)
    ensures |t| <= |s| && t == s[..|t|]
    ensures forall i :: 0 <= i < |t| ==> !sep(t[i])
    ensures |t| < |s| ==> sep(s[|t|])
  {
    if s == [] || sep(s[0]) then [] else [s[0]] + TakeToken(s[1..], sep)
  }

  /** The tokens of `s`: maximal runs of non-separators, in order (Python's
      `str.split()` with no argument, Rust's `split_whitespace`). */
  function Tokens(s: string, sep: char -> bool): seq<string>
    decreases |s|
  {
    if s == [] then []
    else if sep(s[0]) then Tokens(s[1..], sep)
    else
      var t := TakeToken(s, sep);
      [t] + Tokens(s[|t|..], sep)
  }

  lemma {:induction false} TokensNonEmpty(s: string, sep: char -> bool)
    ensures forall k :: 0 <= k < |Tokens(s, sep)| ==> Tokens(s, sep)[k] != []
    ensures forall k, i :: 0 <= k < |Tokens(s, sep)| && 0 <= i < |Tokens(s, sep)[k]| ==> !sep(Tokens(s, sep)[k][i])
    decreases |s|
  {
    if s == [] {
    } else if sep(s[0]) {
      TokensNonEmpty(s[1..], sep);
    } else {
      var t := TakeToken(s, sep);
      TokensNonEmpty(s[|t|..], sep);
    }
  }

  /** Python's str.split(): tokens separated by runs of whitespace. */
  function PySplit(s: string): seq<string> { Tokens(s, IsPySpace) }

  /** Rust's str::split_whitespace. */
  function RustSplit(s: string): seq<string> { Tokens(s, IsRustSpace) }

  /** Leading tokens separated by single separators tokenise back to
      themselves: a separator-free, non-empty token `t` followed by a
      separator and the rest. */
  lemma {:induction false} TokensCons(t: string, c: char, rest: string, sep: char -> bool)
    requires t != [] && sep(c)
    requires forall i :: 0 <= i < |t| ==> !sep(t[i])
    ensures Tokens(t + [c] + rest, sep) == [t] + Tokens(rest, sep)
  {
    var s := t + [c] + rest;
    TakeTokenOf(t, [c] + rest, sep);
    assert s == t + ([c] + rest);
    assert s[|t|..] == [c] + rest;
    assert ([c] + rest)[1..] == rest;
  }

  /** A token that runs to the end of the string is the last one. */
  lemma {:induction false} TokensLast(t: string, sep: char -> bool)
    requires t != []
    requires forall i :: 0 <= i < |t| ==> !sep(t[i])
    ensures Tokens(t, sep) == [t]
  {
    TakeTokenOf(t, [], sep);
    assert t + [] == t;
    assert t[|t|..] == [];
  }

  lemma {:induction false} TakeTokenOf(t: string, rest: string, sep: char -> bool)
    requires forall i :: 0 <= i < |t| ==> !sep(t[i])
    requires rest == [] || sep(rest[0])
    ensures TakeToken(t + rest, sep) == t
    decreases |t|
  {
    if t == [] {
      assert t + rest == rest;
    } else {
      assert (t + rest)[1..] == t[1..] + rest;
      TakeTokenOf(t[1..], rest, sep);
    }
  }

  /** Python's str.strip(): the string without leading and trailing
      whitespace. */
  function LStrip(s: string): (r: string)
    ensures r == [] || !IsPySpace(r[0])
    ensures forall i :: 0 <= i < |s| - |r| ==> IsPySpace(s[i])
    ensures |r| <= |s| && r == s[|s| - |r|..]
  {
    if s != [] && IsPySpace(s[0]) then LStrip(s[1..]) else s
  }

  function RStrip(s: string): (r: string)
    ensures r == [] || !IsPySpace(r[|r| - 1])
    ensures forall i :: |r| <= i < |s| ==> IsPySpace(s[i])
    ensures |r| <= |s| && r == s[..|r|]
  {
    if s != [] && IsPySpace(s[|s| - 1]) then RStrip(s[..|s| - 1]) else s
  }

  function Strip(s: string): string { LStrip(RStrip(s)) }

  /** strip() leaves nothing exactly when the line is all whitespace. */
  lemma StripEmpty(s: string)
    ensures Strip(s) == [] <==> forall i :: 0 <= i < |s| ==> IsPySpace(s[i])
  {
    var r := RStrip(s);
    if Strip(s) == [] {
      forall i | 0 <= i < |s| ensures IsPySpace(s[i]) { }
    } else {
      var t := Strip(s);
      assert s[|r| - |t|] == t[0];
    }
  }

  function DigitChar(d: nat): char
    requires d < 10
  {
    (d + '0' as int) as char
  }

  function DigitValue(c: char): nat
    requires IsDigit(c)
  {
    c as int - '0' as int
  }

  /** Decimal rendering of a natural number (`str(n)`, Rust `Display`). */
  function NatToString(n: nat): (s: string)
    ensures s != [] && AllDigits(s)
    ensures |s| > 1 ==> s[0] != '0'
    decreases n
  {
    if n < 10 then [DigitChar(n)] else NatToString(n / 10) + [DigitChar(n % 10)]
  }

  /** Decimal rendering of an integer, with a leading '-' when negative. */
  function IntToString(i: int): string {
    if i < 0 then "-" + NatToString(-i) else NatToString(i)
  }

  /** The value of a string of decimal digits. */
  function DecimalValue(s: string): nat
    requires AllDigits(s)
    decreases |s|
  {
    if s == [] then 0 else DecimalValue(s[..|s| - 1]) * 10 + DigitValue(s[|s| - 1])
  }

  lemma {:induction false} DecimalOfNatToString(n: nat)
    ensures DecimalValue(NatToString(n)) == n
    decreases n
  {
    var s := NatToString(n);
    if n >= 10 {
      DecimalOfNatToString(n / 10);
      assert s[..|s| - 1] == NatToString(n / 10);
    }
  }

  /** Python's int() applied to a whitespace-free token: an optional sign
      followed by one or more decimal digits. */
  function PyInt(t: string): (r: Option<int>)
    ensures r.Some? ==> t != []
  {
    if t != [] && (t[0] == '+' || t[0] == '-') then
      var ds := t[1..];
      if ds != [] && AllDigits(ds) then
        var n: int := DecimalValue(ds);
        Some(if t[0] == '-' then -n else n)
      else None
    else if t != [] && AllDigits(t) then Some(DecimalValue(t))
    else None
  }

  lemma PyIntOfIntToString(i: int)
    ensures PyInt(IntToString(i)) == Some(i)
  {
    if i < 0 {
      var s := NatToString(-i);
      var t := "-" + s;
      assert t[0] == '-' && t[1..] == s;
      DecimalOfNatToString(-i);
    } else {
      var s := NatToString(i);
      assert s[0] != '+' && s[0] != '-' by { assert IsDigit(s[0]); }
      DecimalOfNatToString(i);
    }
  }

  /** The largest `usize` of a 64-bit target. */
  const UsizeMax: nat := 0xffff_ffff_ffff_ffff

  /** Rust's str::parse for a signed integer type with range [lo, hi]: an
      optional '+' or '-' and one or more ASCII digits, value in range. */
  function RustParseSigned(t: string, lo: int, hi: int): (r: Option<int>)
    ensures r.Some? ==> lo <= r.value <= hi
  {
    var neg := t != [] && t[0] == '-';
    var ds := if t != [] && (t[0] == '+' || t[0] == '-') then t[1..] else t;
    if ds == [] || !AllDigits(ds) then None
    else
      var n: int := DecimalValue(ds);
      var v := if neg then -n else n;
      if lo <= v <= hi then Some(v) else None
  }

  /** Rust's str::parse for an unsigned integer type with maximum `hi`: an
      optional '+' and one or more ASCII digits, value at most `hi`. */
  function RustParseUnsigned(t: string, hi: nat): (r: Option<nat>)
    ensures r.Some? ==> r.value <= hi
  {
    var ds := if t != [] && t[0] == '+' then t[1..] else t;
    if ds == [] || !AllDigits(ds) then None
    else if DecimalValue(ds) <= hi then Some(DecimalValue(ds)) else None
  }

  /** ASCII lower-casing (Rust's to_lowercase restricted to ASCII). */
  function LowerAscii(s: string): (r: string)
    ensures |r| == |s|
  {
    if s == [] then []
    else [if 'A' <= s[0] <= 'Z' then (s[0] as int + 32) as char else s[0]] + LowerAscii(s[1..])
  }

  /** The words joined by single spaces (Python's " ".join). */
  function JoinSpace(words: seq<string>): string {
    if words == [] then ""
    else if |words| == 1 then words[0]
    else words[0] + " " + JoinSpace(words[1..])
  }

  /** Splitting single-space-joined, separator-free, non-empty words recovers
      them, also when more text follows after one more separator. */
  lemma {:induction false} TokensOfJoin(words: seq<string>, c: char, rest: string, sep: char -> bool)
    requires sep(' ') && sep(c)
    requires forall k :: 0 <= k < |words| ==> words[k] != []
    requires forall k, i :: 0 <= k < |words| && 0 <= i < |words[k]| ==> !sep(words[k][i])
    requires words != []
    ensures Tokens(JoinSpace(words) + [c] + rest, sep) == words + Tokens(rest, sep)
    decreases |words|
  {
    var head := words[0];
    forall i | 0 <= i < |head| ensures !sep(head[i]) {
      assert !sep(words[0][i]);
    }
    if |words| == 1 {
      assert JoinSpace(words) == head;
      TokensCons(head, c, rest, sep);
      assert words == [head];
    } else {
      var tailWords := words[1..];
      forall k | 0 <= k < |tailWords| ensures tailWords[k] != [] {
        assert tailWords[k] == words[k + 1];
      }
      forall k, i | 0 <= k < |tailWords| && 0 <= i < |tailWords[k]| ensures !sep(tailWords[k][i]) {
        assert tailWords[k] == words[k + 1];
        assert !sep(words[k + 1][i]);
      }
      var more := JoinSpace(tailWords);
      var tail := more + [c] + rest;
      assert JoinSpace(words) == head + " " + more;
      assert JoinSpace(words) + [c] + rest == head + [' '] + tail;
      TokensCons(head, ' ', tail, sep);
      TokensOfJoin(tailWords, c, rest, sep);
      assert words == [head] + tailWords;
    }
  }

  /** Python's readlines() on text whose newlines are already '\n': every
      line keeps its terminator, and a final unterminated line is kept. */
  function ReadLines(text: string): (ls: seq<string>)
    ensures text == [] <==> ls == []
    decreases |text|
  {
    if text == [] then []
    else
      var n := LineLength(text);
      [text[..n]] + ReadLines(text[n..])
  }

  /** Rust's `BufRead::lines()`: the lines of `ReadLines`, each without its
      '\n' and without a '\r' just before that '\n'. */
  function RustLines(text: string): (ls: seq<string>)
    ensures |ls| == |ReadLines(text)|
    ensures forall k :: 0 <= k < |ls| ==> ls[k] == LineBody(ReadLines(text)[k])
  {
    var raw := ReadLines(text);
    seq(|raw|, k requires 0 <= k < |raw| => LineBody(raw[k]))
  }

  /** A line without its terminator ("\n" or "\r\n"). */
  function LineBody(l: string): (b: string)
    ensures l == b || l == b + "\n" || l == b + "\r\n"
  {
    if l != [] && l[|l| - 1] == '\n' then
      var m := l[..|l| - 1];
      if m != [] && m[|m| - 1] == '\r' then m[..|m| - 1] else m
    else l
  }

  /** Length of the first line of a non-empty text, terminator included. */
  function LineLength(text: string): (n: nat)
    requires text != []
    ensures 0 < n <= |text|
    ensures forall i :: 0 <= i < n - 1 ==> text[i] != '\n'
    ensures n < |text| ==> text[n - 1] == '\n'
  {
    if text[0] == '\n' || |text| == 1 then 1 else 1 + LineLength(text[1..])
  }

  /** Reading back lines that each end with their only '\n'. */
  lemma {:induction false} ReadLinesOfLines(ls: seq<string>)
    requires forall k :: 0 <= k < |ls| ==> ls[k] != [] && ls[k][|ls[k]| - 1] == '\n'
    requires forall k, i :: 0 <= k < |ls| && 0 <= i < |ls[k]| - 1 ==> ls[k][i] != '\n'
    ensures ReadLines(Concat(ls)) == ls
    decreases |ls|
  {
    if ls != [] {
      var l := ls[0];
      var rest := Concat(ls[1..]);
      assert Concat(ls) == l + rest;
      LineLengthOf(l, rest);
      assert (l + rest)[..|l|] == l && (l + rest)[|l|..] == rest;
      ReadLinesOfLines(ls[1..]);
      assert ls == [l] + ls[1..];
    }
  }

  lemma {:induction false} LineLengthOf(l: string, rest: string)
    requires l != [] && l[|l| - 1] == '\n'
    requires forall i :: 0 <= i < |l| - 1 ==> l[i] != '\n'
    ensures LineLength(l + rest) == |l|
    decreases |l|
  {
    if |l| > 1 {
      assert (l + rest)[1..] == l[1..] + rest;
      LineLengthOf(l[1..], rest);
    }
  }

  function Concat(ls: seq<string>): string {
    if ls == [] then [] else ls[0] + Concat(ls[1..])
  }

  lemma {:induction false} ConcatAppend(ls: seq<string>, l: string)
    ensures Concat(ls + [l]) == Concat(ls) + l
    decreases |ls|
  {
    if ls == [] {
      assert [] + [l] == [l];
    } else {
      assert (ls + [l])[1..] == ls[1..] + [l];
      ConcatAppend(ls[1..], l);
    }
  }

  /** Python's string order: lexicographic by code point, a proper prefix
      first. */
  predicate StrLe(a: string, b: string)
    decreases |a|
  {
    a == [] || (b != [] && (a[0] < b[0] || (a[0] == b[0] && StrLe(a[1..], b[1..]))))
  }

  lemma {:induction false} StrLeTotal(a: string, b: string)
    ensures StrLe(a, b) || StrLe(b, a)
    decreases |a|
  {
    if a != [] && b != [] && a[0] == b[0] {
      StrLeTotal(a[1..], b[1..]);
    }
  }

  lemma {:induction false} StrLeTrans(a: string, b: string, c: string)
    requires StrLe(a, b) && StrLe(b, c)
    ensures StrLe(a, c)
    decreases |a|
  {
    if a != [] && a[0] == b[0] && b[0] == c[0] {
      StrLeTrans(a[1..], b[1..], c[1..]);
    }
  }

  predicate SortedStrings(ss: seq<string>) {
    forall i, j :: 0 <= i < j < |ss| ==> StrLe(ss[i], ss[j])
  }

  /** `x` inserted into sorted `ss` before the first element above it. */
  function Insert(x: string, ss: seq<string>): (r: seq<string>)
    requires SortedStrings(ss)
    ensures SortedStrings(r) && multiset(r) == multiset(ss) + multiset{x}
    decreases |ss|
  {
    if ss == [] then [x]
    else if StrLe(x, ss[0]) then
      assert forall j :: 0 <= j < |ss| ==> StrLe(x, ss[j]) by {
        forall j | 0 <= j < |ss| ensures StrLe(x, ss[j]) {
          if j > 0 { StrLeTrans(x, ss[0], ss[j]); }
        }
      }
      [x] + ss
    else
      StrLeTotal(x, ss[0]);
      var t := Insert(x, ss[1..]);
      assert forall j :: 0 <= j < |t| ==> StrLe(ss[0], t[j]) by {
        forall j | 0 <= j < |t| ensures StrLe(ss[0], t[j]) {
          assert t[j] in multiset(t);
          if t[j] != x {
            assert t[j] in multiset(ss[1..]);
            var k :| 0 <= k < |ss[1..]| && ss[1..][k] == t[j];
            assert ss[k + 1] == t[j];
          }
        }
      }
      assert ss == [ss[0]] + ss[1..];
      [ss[0]] + t
  }

  /** Python's sorted() on a list of strings. */
  function Sort(ss: seq<string>): (r: seq<string>)
    ensures SortedStrings(r) && multiset(r) == multiset(ss)
  {
    if ss == [] then []
    else
      assert ss == [ss[0]] + ss[1..];
      Insert(ss[0], Sort(ss[1..]))
  }

  /** os.path.basename: the part after the last '/'. */
  function Basename(p: string): (b: string)
    ensures '/' !in b
    ensures EndsWith(p, b)
    ensures |b| < |p| ==> p[|p| - |b| - 1] == '/'
  {
    if p == [] || p[|p| - 1] == '/' then []
    else
      var b := Basename(p[..|p| - 1]);
      BasenameStep(p, b);
      b + [p[|p| - 1]]
  }

  /** One more character that is not '/' lengthens the basename. */
  lemma BasenameStep(p: string, b: string)
    requires p != [] && p[|p| - 1] != '/' && '/' !in b
    requires EndsWith(p[..|p| - 1], b) && (|b| < |p| - 1 ==> p[..|p| - 1][|p| - 1 - |b| - 1] == '/')
    ensures '/' !in b + [p[|p| - 1]] && EndsWith(p, b + [p[|p| - 1]])
    ensures |b| + 1 < |p| ==> p[|p| - |b| - 2] == '/'
  {
    var q := p[..|p| - 1];
    assert p[|p| - |b| - 1..] == q[|q| - |b|..] + [p[|p| - 1]];
  }

  /** os.path.join for two components on POSIX. */
  function PathJoin(dir: string, name: string): string {
    if name != [] && name[0] == '/' then name
    else if dir == [] || dir[|dir| - 1] == '/' then dir + name
    else dir + "/" + name
  }

  lemma BasenameOfJoin(dir: string, name: string)
    requires '/' !in name
    ensures Basename(PathJoin(dir, name)) == name
  {
    var p := PathJoin(dir, name);
    var sep := if dir == [] || dir[|dir| - 1] == '/' then dir else dir + "/";
    assert p == sep + name;
    BasenameOfSuffix(sep, name);
  }

  lemma {:induction false} BasenameOfSuffix(dir: string, name: string)
    requires '/' !in name
    requires dir == [] || dir[|dir| - 1] == '/'
    ensures Basename(dir + name) == name
    decreases |name|
  {
    if name == [] {
      assert dir + name == dir;
    } else {
      var p := dir + name;
      var init, last := name[..|name| - 1], name[|name| - 1];
      assert p[..|p| - 1] == dir + init;
      assert p[|p| - 1] == last && last in name;
      assert '/' !in init by {
        forall i | 0 <= i < |init| ensures init[i] != '/' {
          assert init[i] == name[i];
        }
      }
      assert Basename(p) == Basename(dir + init) + [last];
      BasenameOfSuffix(dir, init);
      assert name == init + [last];
    }
  }
}
