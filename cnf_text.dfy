/** The DIMACS text that both formula generators write: a header line
    "p cnf <vars> <clauses>" and one line per clause, its literals joined by
    single spaces and terminated by " 0". Reading such text back with the
    check of MinisatTester accepts it. */
module CnfText {
  import opened Text
  import MinisatTester

  /** "p cnf <vars> <n>\n" */
  function HeaderLine(vars: nat, n: nat): string {
    "p cnf " + NatToString(vars) + " " + NatToString(n) + "\n"
  }

  /** The words joined by single spaces, then " 0\n". */
  function ClauseLine(words: seq<string>): string {
    JoinSpace(words) + " 0\n"
  }

  /** `str(l)` for each literal. */
  function LitWords(c: seq<int>): (ws: seq<string>)
    ensures |ws| == |c| && forall k :: 0 <= k < |c| ==> ws[k] == IntToString(c[k])
  {
    if c == [] then [] else [IntToString(c[0])] + LitWords(c[1..])
  }

  /** The characters `str()` of an integer consists of. */
  predicate IntWord(w: string) {
    w != [] && forall i :: 0 <= i < |w| ==> IsDigit(w[i]) || w[i] == '-'
  }

  predicate IntWords(ws: seq<string>) {
    forall k :: 0 <= k < |ws| ==> IntWord(ws[k])
  }

  lemma IntToStringWord(i: int)
    ensures IntWord(IntToString(i))
  {
  }

  lemma LitWordsInt(c: seq<int>)
    ensures IntWords(LitWords(c))
  {
    forall k | 0 <= k < |c| ensures IntWord(LitWords(c)[k]) {
      IntToStringWord(c[k]);
    }
  }

  /** A line as `readlines()` returns it: non-empty, its only '\n' last. */
  predicate NewlineTerminated(l: string) {
    l != [] && l[|l| - 1] == '\n' && forall i :: 0 <= i < |l| - 1 ==> l[i] != '\n'
  }

  /** Joined integer words hold only digits, '-' and spaces. */
  lemma {:induction false} JoinSpaceChars(ws: seq<string>)
    requires IntWords(ws)
    ensures forall i :: 0 <= i < |JoinSpace(ws)| ==>
              IsDigit(JoinSpace(ws)[i]) || JoinSpace(ws)[i] == '-' || JoinSpace(ws)[i] == ' '
    ensures ws != [] ==> JoinSpace(ws) != [] && JoinSpace(ws)[0] != ' '
    decreases |ws|
  {
    if |ws| > 1 {
      JoinSpaceChars(ws[1..]);
      var j := JoinSpace(ws);
      assert j == ws[0] + " " + JoinSpace(ws[1..]);
      forall i | 0 <= i < |j| ensures IsDigit(j[i]) || j[i] == '-' || j[i] == ' ' {
        if i < |ws[0]| {
          assert j[i] == ws[0][i];
        } else if i > |ws[0]| {
          assert j[i] == JoinSpace(ws[1..])[i - |ws[0]| - 1];
        }
      }
    }
  }

  /** Every clause line is counted by `check_cnf_file`: it is not blank and does
      not start with 'c', also for a clause without literals (" 0"). */
  lemma ClauseLineShape(words: seq<string>)
    requires IntWords(words)
    ensures MinisatTester.IsClauseLine(ClauseLine(words))
    ensures NewlineTerminated(ClauseLine(words))
  {
    var j := JoinSpace(words);
    JoinSpaceChars(words);
    assert ClauseLine(words) == j + " 0\n";
    ClauseLineNewline(j);
    ClauseLineNotBlank(j);
    ClauseLineNotComment(j);
  }

  lemma ClauseLineNotBlank(j: string)
    ensures Strip(j + " 0\n") != []
  {
    var l := j + " 0\n";
    assert l[|j| + 1] == '0';
    assert !IsPySpace(l[|j| + 1]);
    StripEmpty(l);
  }

  lemma ClauseLineNotComment(j: string)
    requires forall i :: 0 <= i < |j| ==> IsDigit(j[i]) || j[i] == '-' || j[i] == ' '
    ensures !StartsWith(j + " 0\n", "c")
  {
    var l := j + " 0\n";
    assert l[0] == (if j == [] then ' ' else j[0]);
    assert l[..1] == [l[0]];
  }

  lemma ClauseLineNewline(j: string)
    requires forall i :: 0 <= i < |j| ==> IsDigit(j[i]) || j[i] == '-' || j[i] == ' '
    ensures NewlineTerminated(j + " 0\n")
  {
    var l := j + " 0\n";
    forall i | 0 <= i < |l| - 1 ensures l[i] != '\n' {
      if i < |j| {
        assert l[i] == j[i];
      }
    }
  }

  /** A clause line splits into its words followed by "0". */
  lemma ClauseLineTokens(words: seq<string>)
    requires IntWords(words)
    ensures PySplit(ClauseLine(words)) == words + ["0"]
  {
    TokensLast("0", IsPySpace);
    TokensCons("0", '\n', [], IsPySpace);
    assert "0" + ['\n'] + [] == "0\n";
    if words == [] {
      assert ClauseLine(words) == [' '] + "0\n";
    } else {
      forall k, i | 0 <= k < |words| && 0 <= i < |words[k]| ensures !IsPySpace(words[k][i]) {
        assert IntWord(words[k]);
      }
      TokensOfJoin(words, ' ', "0\n", IsPySpace);
      assert ClauseLine(words) == JoinSpace(words) + [' '] + "0\n";
    }
  }

  /** The header line without its newline. */
  function HeaderBody(vars: nat, n: nat): string {
    "p cnf " + NatToString(vars) + " " + NatToString(n)
  }

  lemma StripNewline(body: string)
    requires body != [] && !IsPySpace(body[0]) && !IsPySpace(body[|body| - 1])
    ensures Strip(body + "\n") == body
  {
    var h := body + "\n";
    assert IsPySpace(h[|h| - 1]);
    assert h[..|h| - 1] == body;
  }

  lemma HeaderStrip(vars: nat, n: nat)
    ensures Strip(HeaderLine(vars, n)) == HeaderBody(vars, n)
    ensures StartsWith(HeaderLine(vars, n), "p cnf")
  {
    var v, c := NatToString(vars), NatToString(n);
    var pre := "p cnf " + v + " ";
    var body := HeaderBody(vars, n);
    var h := HeaderLine(vars, n);
    assert body == pre + c;
    assert h == body + "\n";
    assert body[|body| - 1] == c[|c| - 1];
    assert IsDigit(c[|c| - 1]);
    assert body[0] == pre[0] == 'p';
    StripNewline(body);
    forall i | 0 <= i < 5 ensures h[i] == "p cnf"[i] {
      assert h[i] == body[i] == pre[i];
    }
    assert h[..5] == "p cnf";
  }

  lemma HeaderNewline(vars: nat, n: nat)
    ensures NewlineTerminated(HeaderLine(vars, n))
  {
    var v, c := NatToString(vars), NatToString(n);
    var body := HeaderBody(vars, n);
    var h := HeaderLine(vars, n);
    assert h == body + "\n";
    forall i | 0 <= i < |h| - 1 ensures h[i] != '\n' {
      assert h[i] == body[i];
      if i >= 7 + |v| {
        assert body[i] == c[i - 7 - |v|];
      } else if 6 <= i < 6 + |v| {
        assert body[i] == v[i - 6];
      }
    }
  }

  /** Words joined by single spaces split back into the words. */
  lemma SplitJoined(words: seq<string>)
    requires words != []
    requires forall k :: 0 <= k < |words| ==> words[k] != []
    requires forall k, i :: 0 <= k < |words| && 0 <= i < |words[k]| ==> !IsPySpace(words[k][i])
    ensures PySplit(JoinSpace(words)) == words
  {
    if |words| == 1 {
      TokensLast(words[0], IsPySpace);
    } else {
      var init, last := words[..|words| - 1], words[|words| - 1];
      JoinSpaceSnoc(init, last);
      TokensOfJoin(init, ' ', last, IsPySpace);
      TokensLast(last, IsPySpace);
      assert words == init + [last];
    }
  }

  lemma {:induction false} JoinSpaceSnoc(init: seq<string>, last: string)
    requires init != []
    ensures JoinSpace(init + [last]) == JoinSpace(init) + [' '] + last
    decreases |init|
  {
    var w := init + [last];
    assert w[1..] == init[1..] + [last];
    if |init| > 1 {
      JoinSpaceSnoc(init[1..], last);
    } else {
      assert w[1..] == [last];
    }
  }

  function HeaderWords(vars: nat, n: nat): seq<string> {
    ["p", "cnf", NatToString(vars), NatToString(n)]
  }

  lemma HeaderJoin(vars: nat, n: nat)
    ensures JoinSpace(HeaderWords(vars, n)) == HeaderBody(vars, n)
  {
    var w := HeaderWords(vars, n);
    assert w[1..][1..] == [NatToString(vars), NatToString(n)];
    assert JoinSpace(w[1..][1..]) == NatToString(vars) + " " + NatToString(n);
    assert JoinSpace(w[1..]) == "cnf" + " " + JoinSpace(w[1..][1..]);
  }

  lemma HeaderWordsPlain(vars: nat, n: nat)
    ensures forall k :: 0 <= k < 4 ==> HeaderWords(vars, n)[k] != []
    ensures forall k, i :: 0 <= k < 4 && 0 <= i < |HeaderWords(vars, n)[k]| ==> !IsPySpace(HeaderWords(vars, n)[k][i])
  {
    var w := HeaderWords(vars, n);
    forall k, i | 0 <= k < 4 && 0 <= i < |w[k]| ensures !IsPySpace(w[k][i]) {
      if k >= 2 { assert IsDigit(w[k][i]); }
    }
  }

  lemma HeaderTokens(vars: nat, n: nat)
    ensures PySplit(HeaderBody(vars, n)) == HeaderWords(vars, n)
  {
    HeaderWordsPlain(vars, n);
    SplitJoined(HeaderWords(vars, n));
    HeaderJoin(vars, n);
  }

  /** The header line splits into four tokens and carries its counts. */
  lemma HeaderCountsOf(vars: nat, n: nat)
    ensures MinisatTester.HeaderCounts(HeaderLine(vars, n)) == Some((vars, n))
    ensures NewlineTerminated(HeaderLine(vars, n))
  {
    HeaderStrip(vars, n);
    HeaderTokens(vars, n);
    HeaderNewline(vars, n);
    PyIntOfIntToString(vars);
    PyIntOfIntToString(n);
  }

  /** The text of a formula file: the header, then the clause lines. */
  function FileText(vars: nat, lines: seq<string>): string {
    Concat([HeaderLine(vars, |lines|)] + lines)
  }

  /** Writing one more line after the lines written so far. */
  lemma WriteLine(header: string, written: seq<string>, line: string)
    ensures Concat([header] + written) + line == Concat([header] + (written + [line]))
  {
    ConcatAppend([header] + written, line);
    assert [header] + written + [line] == [header] + (written + [line]);
  }

  /** Text written this way passes the CNF check: the header's clause count
      equals the number of clause lines, and the lines read back as written. */
  lemma FileTextLines(vars: nat, lines: seq<string>)
    requires forall k :: 0 <= k < |lines| ==> NewlineTerminated(lines[k])
    ensures ReadLines(FileText(vars, lines)) == [HeaderLine(vars, |lines|)] + lines
  {
    var all := [HeaderLine(vars, |lines|)] + lines;
    HeaderNewline(vars, |lines|);
    assert forall k :: 1 <= k < |all| ==> all[k] == lines[k - 1];
    ReadLinesOfLines(all);
  }

  lemma FileTextValid(vars: nat, lines: seq<string>)
    requires forall k :: 0 <= k < |lines| ==> MinisatTester.IsClauseLine(lines[k]) && NewlineTerminated(lines[k])
    ensures ReadLines(FileText(vars, lines)) == [HeaderLine(vars, |lines|)] + lines
    ensures MinisatTester.CnfValid(Some(FileText(vars, lines)))
  {
    FileTextLines(vars, lines);
    HeaderCountsOf(vars, |lines|);
    MinisatTester.ClauseLineCountAll(lines);
    MinisatTester.CnfAccepts(FileText(vars, lines), HeaderLine(vars, |lines|), lines, vars, |lines|);
  }

  /** A written clause line splits into the literals' decimal texts and
      "0", which `int()` reads back as the clause and 0. */
  lemma ClauseLineRoundTrip(c: seq<int>)
    ensures PySplit(ClauseLine(LitWords(c))) == LitWords(c) + ["0"]
    ensures forall k :: 0 <= k < |c| ==> PyInt(LitWords(c)[k]) == Some(c[k])
  {
    LitWordsInt(c);
    ClauseLineTokens(LitWords(c));
    forall k | 0 <= k < |c| ensures PyInt(LitWords(c)[k]) == Some(c[k]) {
      PyIntOfIntToString(c[k]);
    }
  }
}
