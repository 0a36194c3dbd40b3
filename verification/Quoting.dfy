/** Which part of a line is a comment and which lines are block text, stated on their characters (config/interpolate.rs). */
module Quoting {
  import opened Prelude
  import opened Text
  import opened Trimming
  import opened Interpolate
  import opened Layout

  // ---------------------------------------------------------------- quotes

  /** The inside of a double-quoted stretch: a backslash takes the next character with it. */
  ghost predicate DoubleBody(u: string) {
    || u == ""
    || (u[0] == '\\' && 2 <= |u| && DoubleBody(u[2..]))
    || (u[0] != '\\' && u[0] != '"' && DoubleBody(u[1..]))
  }

  /** One character that is no quote, or a quoted stretch with its quotes. */
  ghost predicate Stretch(t: string) {
    || (|t| == 1 && t[0] != '\'' && t[0] != '"')
    || (2 <= |t| && t[0] == '\'' && t[|t| - 1] == '\'' && '\'' !in t[1..|t| - 1])
    || (2 <= |t| && t[0] == '"' && t[|t| - 1] == '"' && DoubleBody(t[1..|t| - 1]))
  }

  /** No quote is open at the end of `s`: it is made of such stretches. */
  ghost predicate Closed(s: string)
    decreases |s|
  {
    s == "" || exists k :: 0 <= k < |s| && Closed(s[..k]) && Stretch(s[k..])
  }

  function Step(q: Quote, c: char): Quote {
    match q
    case Plain => if c == '\'' then Single else if c == '"' then Double else Plain
    case Single => if c == '\'' then Plain else Single
    case Double => if c == '\\' then Escaped else if c == '"' then Plain else Double
    case Escaped => Double
  }

  function QuoteFrom(q: Quote, t: string): Quote
    decreases |t|
  {
    if t == "" then q else QuoteFrom(Step(q, t[0]), t[1..])
  }

  lemma QuoteNext(s: string, c: char)
    ensures QuoteAfter(s + [c]) == Step(QuoteAfter(s), c)
  {
    assert (s + [c])[..|s|] == s;
  }

  lemma {:induction false} QuoteOn(a: string, t: string)
    ensures QuoteAfter(a + t) == QuoteFrom(QuoteAfter(a), t)
    decreases |t|
  {
    hide QuoteAfter, Step;
    if t == "" {
      assert a + t == a;
    } else {
      QuoteNext(a, t[0]);
      assert a + t == a + [t[0]] + t[1..];
      QuoteOn(a + [t[0]], t[1..]);
    }
  }

  lemma {:induction false} SingleRuns(t: string)
    requires '\'' !in t
    ensures QuoteFrom(Single, t) == Single
  {
    if t != "" {
      SingleRuns(t[1..]);
    }
  }

  lemma {:induction false} DoubleRuns(u: string)
    requires DoubleBody(u)
    ensures QuoteFrom(Double, u) == Double
    decreases |u|
  {
    if u != "" {
      if u[0] == '\\' {
        DoubleRuns(u[2..]);
        assert u[1..][1..] == u[2..];
        assert QuoteFrom(Escaped, u[1..]) == QuoteFrom(Double, u[2..]);
      } else {
        DoubleRuns(u[1..]);
      }
    }
  }

  lemma {:induction false} FromInTwo(q: Quote, a: string, b: string)
    ensures QuoteFrom(q, a + b) == QuoteFrom(QuoteFrom(q, a), b)
    decreases |a|
  {
    hide Step;
    if a == "" {
      assert a + b == b;
    } else {
      assert (a + b)[1..] == a[1..] + b;
      FromInTwo(Step(q, a[0]), a[1..], b);
    }
  }

  lemma StretchCloses(t: string)
    requires Stretch(t)
    ensures QuoteFrom(Plain, t) == Plain
  {
    if |t| == 1 {
      OneOn(Plain, t[0]);
      assert t == [t[0]];
    } else {
      var body, open := t[1..|t| - 1], if t[0] == '\'' then Single else Double;
      assert t == [t[0]] + (body + [t[|t| - 1]]);
      FromInTwo(Plain, [t[0]], body + [t[|t| - 1]]);
      FromInTwo(open, body, [t[|t| - 1]]);
      OneOn(Plain, t[0]);
      OneOn(open, t[|t| - 1]);
      if open == Single {
        SingleRuns(body);
      } else {
        DoubleRuns(body);
      }
      hide QuoteFrom, DoubleBody;
    }
  }

  lemma OneOn(q: Quote, c: char)
    ensures QuoteFrom(q, [c]) == Step(q, c)
  {
  }

  lemma {:induction false} ClosedIsPlain(s: string)
    requires Closed(s)
    ensures QuoteAfter(s) == Plain
    decreases |s|
  {
    hide Stretch, QuoteFrom;
    if s != "" {
      var k :| 0 <= k < |s| && Closed(s[..k]) && Stretch(s[k..]);
      ClosedIsPlain(s[..k]);
      StretchCloses(s[k..]);
      assert s == s[..k] + s[k..];
      QuoteOn(s[..k], s[k..]);
    }
  }

  lemma {:induction false} BodyGrows(u: string, v: string)
    requires DoubleBody(u) && ((|v| == 1 && v[0] != '\\' && v[0] != '"') || (|v| == 2 && v[0] == '\\'))
    ensures DoubleBody(u + v)
    decreases |u|
  {
    if u == "" {
      assert u + v == v && v[|v|..] == "";
    } else if u[0] == '\\' {
      BodyGrows(u[2..], v);
      assert (u + v)[2..] == u[2..] + v;
    } else {
      BodyGrows(u[1..], v);
      assert (u + v)[1..] == u[1..] + v;
    }
  }

  /** What the quoting in force at the end of `s` says of the stretch begun at `k`. */
  ghost predicate OpenedAt(s: string, k: nat) {
    match QuoteAfter(s)
    case Plain => Closed(s)
    case Single => k < |s| && Closed(s[..k]) && s[k] == '\'' && '\'' !in s[k + 1..]
    case Double => k < |s| && Closed(s[..k]) && s[k] == '"' && DoubleBody(s[k + 1..])
    case Escaped => k + 1 < |s| && Closed(s[..k]) && s[k] == '"' && s[|s| - 1] == '\\' && DoubleBody(s[k + 1..|s| - 1])
  }

  lemma ClosedAfter(s: string, k: nat)
    requires k < |s| && Closed(s[..k]) && Stretch(s[k..])
    ensures Closed(s)
  {
  }

  lemma NextPlain(s: string, c: char)
    requires Closed(s)
    ensures c != '\'' && c != '"' ==> Closed(s + [c])
    ensures Closed((s + [c])[..|s|]) && (s + [c])[|s| + 1..] == "" && DoubleBody("")
  {
    hide DoubleBody;
    assert (s + [c])[..|s|] == s && (s + [c])[|s|..] == [c];
    if c != '\'' && c != '"' {
      ClosedAfter(s + [c], |s|);
    }
    EmptyBody();
  }

  lemma NextQuoted(s: string, c: char, k: nat)
    requires k < |s| && Closed(s[..k]) && s[k] == c
    requires (c == '\'' && '\'' !in s[k + 1..]) || (c == '"' && DoubleBody(s[k + 1..]))
    ensures Closed(s + [c])
  {
    hide DoubleBody, Closed;
    var t := s + [c];
    assert t[..k] == s[..k] && t[k..][1..|t[k..]| - 1] == s[k + 1..];
    ClosedAfter(t, k);
  }

  lemma NextInside(s: string, c: char, k: nat)
    requires k < |s|
    ensures (s + [c])[..k] == s[..k] && (s + [c])[k] == s[k] && (s + [c])[k + 1..] == s[k + 1..] + [c]
    ensures (s + [c])[k + 1..|s|] == s[k + 1..]
  {
  }

  lemma {:induction false} Opened(s: string) returns (k: nat)
    ensures OpenedAt(s, k)
    decreases |s|
  {
    hide Closed, DoubleBody, QuoteAfter;
    k := 0;
    if s == "" {
      NothingOpen();
    } else {
      var n := |s| - 1;
      var before, c := s[..n], s[n];
      k := Opened(before);
      QuoteNext(before, c);
      assert s == before + [c];
      match QuoteAfter(before)
      case Plain =>
        k := n;
        NextPlain(before, c);
      case Single =>
        NextInside(before, c, k);
        if c == '\'' {
          NextQuoted(before, c, k);
        }
      case Double =>
        NextInside(before, c, k);
        if c == '"' {
          NextQuoted(before, c, k);
        } else if c != '\\' {
          BodyGrows(before[k + 1..], [c]);
        }
      case Escaped =>
        NextInside(before, c, k);
        var inside := before[k + 1..n - 1];
        assert before[k + 1..] == inside + [before[n - 1]];
        BodyGrows(inside, [before[n - 1], c]);
        assert s[k + 1..] == inside + [before[n - 1], c];
    }
  }

  lemma NothingOpen()
    ensures QuoteAfter("") == Plain && Closed("")
  {
  }

  lemma EmptyBody()
    ensures DoubleBody("")
  {
  }

  /** No quote is open exactly when the text is made of unquoted characters and whole quoted stretches. */
  lemma PlainIffClosed(s: string)
    ensures QuoteAfter(s) == Plain <==> Closed(s)
  {
    var k := Opened(s);
    if Closed(s) {
      ClosedIsPlain(s);
    }
  }

  // ---------------------------------------------------------------- comments

  /** A `#` that opens a comment: outside quotes, and first in the line or after a space or a tab. */
  ghost predicate HashAt(line: string, i: nat) {
    && i < |line| && line[i] == '#' && Closed(line[..i])
    && (i == 0 || line[i - 1] as int == 0x20 || line[i - 1] as int == 0x09)
  }

  /** The code of a line is what comes before the first such `#`. */
  ghost predicate CodeOf(line: string, n: nat) {
    && n <= |line| && (n < |line| ==> HashAt(line, n))
    && forall j :: 0 <= j < n ==> !HashAt(line, j)
  }

  lemma HashIs(line: string, i: nat)
    requires i < |line|
    ensures HashAt(line, i) <==> OpensComment(line, i)
  {
    PlainIffClosed(line[..i]);
    hide Closed, QuoteAfter;
  }

  lemma CommentIs(line: string, n: nat)
    ensures CodeOf(line, n) <==> CommentFrom(line, 0) == n
  {
    hide HashAt, OpensComment;
    forall i | 0 <= i < |line|
      ensures HashAt(line, i) <==> OpensComment(line, i)
    {
      HashIs(line, i);
    }
  }

  // ---------------------------------------------------------------- block scalars

  /** The first character after the last colon, white space aside, is `|` or `>`. */
  ghost predicate OpensAt(code: string, i: nat, j: nat) {
    && i < j < |code| && code[i] == ':' && ':' !in code[i + 1..]
    && AllSpace(code[i + 1..j]) && (code[j] == '|' || code[j] == '>')
  }

  ghost predicate Opens(code: string) {
    exists i: nat, j: nat :: OpensAt(code, i, j)
  }

  lemma {:induction false} LastColonIs(s: string) returns (i: nat)
    ensures AfterLastColon(s).None? <==> ':' !in s
    ensures AfterLastColon(s).Some? ==> i < |s| && s[i] == ':' && ':' !in s[i + 1..] && AfterLastColon(s) == Some(s[i + 1..])
  {
    i := 0;
    if s != "" {
      var n := |s| - 1;
      assert s == s[..n] + [s[n]];
      if s[n] == ':' {
        i := n;
        assert s[n + 1..] == "";
      } else {
        i := LastColonIs(s[..n]);
        if AfterLastColon(s).Some? {
          assert s[i + 1..] == s[..n][i + 1..] + [s[n]];
        }
      }
    }
  }

  lemma ColonIsNoSpace()
    ensures !IsSpace(':') && !IsSpace('|') && !IsSpace('>')
  {
  }

  lemma OpensIs(code: string)
    ensures Opens(code) <==> OpensBlockScalar(code)
  {
    var n := EndIs(code);
    var t := code[..n];
    var i := LastColonIs(t);
    hide IsSpace, TrimEnd, Trim, AfterLastColon, OpensAt;
    if OpensBlockScalar(code) {
      var a := TrimmedFirst(t[i + 1..]);
      OpensHere(code, n, i, a);
    }
    if Opens(code) {
      var k: nat, j: nat :| OpensAt(code, k, j);
      SameColon(code, n, k, j);
      FirstAfterSpace(t[k + 1..], j - k - 1);
      OneColon(t, i, k);
    }
  }

  lemma OpensHere(code: string, n: nat, i: nat, a: nat)
    requires n <= |code| && i < n && AllSpace(code[n..]) && code[..n][i] == ':' && ':' !in code[..n][i + 1..]
    requires a < |code[..n][i + 1..]| && AllSpace(code[..n][i + 1..][..a])
    requires code[..n][i + 1..][a] == '|' || code[..n][i + 1..][a] == '>'
    ensures OpensAt(code, i, i + 1 + a)
  {
    ColonIsNoSpace();
    hide IsSpace;
    var rest := code[..n][i + 1..];
    assert code[i + 1..] == rest + code[n..] && code[i + 1..i + 1 + a] == rest[..a];
  }

  lemma SameColon(code: string, n: nat, k: nat, j: nat)
    requires n <= |code| && AllSpace(code[n..]) && OpensAt(code, k, j)
    ensures k < j < n && code[..n][k] == ':' && ':' !in code[..n][k + 1..]
    ensures AllSpace(code[..n][k + 1..][..j - k - 1]) && !IsSpace(code[j])
    ensures code[..n][k + 1..][j - k - 1] == code[j] && (code[j] == '|' || code[j] == '>')
  {
    ColonIsNoSpace();
    hide IsSpace;
    assert forall p :: n <= p < |code| ==> IsSpace(code[p]) by {
      assert forall p :: n <= p < |code| ==> code[n..][p - n] == code[p];
    }
    assert code[k + 1..] == code[..n][k + 1..] + code[n..];
    assert code[..n][k + 1..][..j - k - 1] == code[k + 1..j];
  }

  lemma OneColon(t: string, i: nat, k: nat)
    requires k < |t| && t[k] == ':' && ':' !in t[k + 1..]
    requires ':' in t ==> i < |t| && t[i] == ':' && ':' !in t[i + 1..]
    ensures i == k
  {
    assert forall p :: k < p < |t| ==> t[p] in t[k + 1..] by {
      assert forall p :: k < p < |t| ==> t[k + 1..][p - k - 1] == t[p];
    }
    assert forall p :: i < p < |t| ==> t[p] in t[i + 1..] by {
      assert forall p :: i < p < |t| ==> t[i + 1..][p - i - 1] == t[p];
    }
  }

  lemma TrimmedFirst(s: string) returns (a: nat)
    requires Trim(s) != ""
    ensures a < |s| && AllSpace(s[..a]) && Trim(s)[0] == s[a]
  {
    TrimIsBare(s);
    hide Trim, IsSpace;
    a :| BareFrom(s, Trim(s), a);
  }

  lemma FirstAfterSpace(s: string, a: nat)
    requires a < |s| && AllSpace(s[..a]) && !IsSpace(s[a])
    ensures Trim(s) != "" && Trim(s)[0] == s[a]
  {
    TrimIsBare(s);
    hide Trim, IsSpace;
    var b: nat :| BareFrom(s, Trim(s), b);
    BlankIs(s);
    assert Trim(s)[0] == s[b];
    assert forall p :: 0 <= p < b ==> IsSpace(s[p]) by {
      assert forall p :: 0 <= p < b ==> s[..b][p] == s[p];
    }
    assert forall p :: 0 <= p < a ==> IsSpace(s[p]) by {
      assert forall p :: 0 <= p < a ==> s[..a][p] == s[p];
    }
  }

  // ---------------------------------------------------------------- which lines are block text

  /** Every line from `from` to `to`, both included, is blank or indented deeper than line `m`. */
  ghost predicate Deeper(lines: seq<string>, m: nat, from: nat, to: int)
    requires m < |lines| && to < |lines|
  {
    forall k :: from <= k <= to ==> AllSpace(lines[k]) || IndentOf(lines[m]) < IndentOf(lines[k])
  }

  /** Line `i` is block text: a line that is not has opened a block, and every line since, this one too, belongs to it. */
  ghost predicate InBlock(lines: seq<string>, i: nat)
    requires i < |lines|
    decreases i
  {
    exists m: nat :: m < i && !InBlock(lines, m) && OpensIn(lines[m]) && Deeper(lines, m, m + 1, i)
  }

  /** The code of the line opens a block. */
  ghost predicate OpensIn(line: string) {
    exists n: nat :: n <= |line| && CodeOf(line, n) && Opens(line[..n])
  }

  /** A line outside any block opened this one, which holds up to line `i`. */
  ghost predicate OpenSince(lines: seq<string>, m: nat, i: nat)
    requires i <= |lines|
  {
    m < i && !InBlock(lines, m) && OpensIn(lines[m]) && Deeper(lines, m, m + 1, i - 1)
  }

  lemma OpensInIs(line: string)
    ensures OpensIn(line) <==> OpensBlockScalar(line[..CommentFrom(line, 0)])
  {
    hide OpensBlockScalar, Opens, CodeOf, CommentFrom;
    var at := CommentFrom(line, 0);
    CommentIs(line, at);
    OpensIs(line[..at]);
    if OpensIn(line) {
      var n: nat :| n <= |line| && CodeOf(line, n) && Opens(line[..n]);
      CommentIs(line, n);
    }
  }

  lemma BlockAtIs(line: string, block: Option<nat>)
    ensures BlockAt(line, block) == if block.Some? && (AllSpace(line) || block.value < IndentOf(line)) then block else None
  {
    BlankIs(line);
    hide Trim, AllSpace, IndentOf;
  }

  lemma AtMostOneOpen(lines: seq<string>, m: nat, n: nat, i: nat)
    requires i <= |lines| && OpenSince(lines, m, i) && OpenSince(lines, n, i)
    ensures m == n
  {
    hide OpensIn, Deeper;
    if m < n {
      DeeperUpTo(lines, m, m + 1, i - 1, n);
    } else if n < m {
      DeeperUpTo(lines, n, n + 1, i - 1, m);
    }
  }

  lemma DeeperUpTo(lines: seq<string>, m: nat, from: nat, to: int, upTo: int)
    requires m < |lines| && to < |lines| && Deeper(lines, m, from, to) && upTo <= to
    ensures Deeper(lines, m, from, upTo)
  {
  }

  /** The block open before line `i` is the one an earlier line opened and every line since belongs to. */
  lemma {:induction false} BlockBeforeIs(lines: seq<string>, i: nat)
    requires i <= |lines|
    ensures var block := BlockBefore(lines, i);
            && (block.None? ==> forall m: nat :: !OpenSince(lines, m, i))
            && (block.Some? ==> exists m: nat :: m < i && OpenSince(lines, m, i) && block.value == IndentOf(lines[m]))
  {
    hide OpensIn, Deeper, InBlock, BlockAt, OpensBlockScalar, CommentFrom, IndentOf, AllSpace;
    if 0 < i {
      BlockBeforeIs(lines, i - 1);
      LineInBlock(lines, i - 1);
      OpensInIs(lines[i - 1]);
      BlockAtIs(lines[i - 1], BlockBefore(lines, i - 1));
      if InBlock(lines, i - 1) {
        var m: nat :| m < i - 1 && OpenSince(lines, m, i - 1) && BlockBefore(lines, i - 1) == Some(IndentOf(lines[m]));
        StillOpen(lines, m, i - 1);
      } else {
        forall m: nat | OpenSince(lines, m, i)
          ensures m == i - 1 && OpensIn(lines[i - 1])
        {
          NoneStillOpen(lines, i - 1, m);
        }
        if OpensIn(lines[i - 1]) {
          JustOpened(lines, i - 1);
        }
      }
    }
  }

  /** Line `i` is block text exactly when a block is open before it and it belongs to it. */
  lemma LineInBlock(lines: seq<string>, i: nat)
    requires i < |lines|
    requires var block := BlockBefore(lines, i);
             && (block.None? ==> forall m: nat :: !OpenSince(lines, m, i))
             && (block.Some? ==> exists m: nat :: m < i && OpenSince(lines, m, i) && block.value == IndentOf(lines[m]))
    ensures InBlock(lines, i) <==> BlockAt(lines[i], BlockBefore(lines, i)).Some?
  {
    hide *;
    var block := BlockBefore(lines, i);
    BlockAtIs(lines[i], block);
    if block.Some? {
      var m: nat :| m < i && OpenSince(lines, m, i) && block.value == IndentOf(lines[m]);
      if AllSpace(lines[i]) || IndentOf(lines[m]) < IndentOf(lines[i]) {
        Inside(lines, m, i);
      }
      if InBlock(lines, i) {
        var n := BlockOf(lines, i);
        AtMostOneOpen(lines, m, n, i);
      }
    } else if InBlock(lines, i) {
      var n := BlockOf(lines, i);
    }
  }

  lemma Inside(lines: seq<string>, m: nat, i: nat)
    requires i < |lines| && OpenSince(lines, m, i)
    requires AllSpace(lines[i]) || IndentOf(lines[m]) < IndentOf(lines[i])
    ensures InBlock(lines, i)
  {
    hide OpensIn, IndentOf, AllSpace;
    assert m < i && !InBlock(lines, m) && OpensIn(lines[m]) && Deeper(lines, m, m + 1, i);
  }

  lemma BlockOf(lines: seq<string>, i: nat) returns (m: nat)
    requires i < |lines| && InBlock(lines, i)
    ensures OpenSince(lines, m, i) && OpenSince(lines, m, i + 1)
    ensures AllSpace(lines[i]) || IndentOf(lines[m]) < IndentOf(lines[i])
  {
    hide OpensIn, IndentOf, AllSpace;
    m :| m < i && !InBlock(lines, m) && OpensIn(lines[m]) && Deeper(lines, m, m + 1, i);
  }

  lemma StillOpen(lines: seq<string>, m: nat, i: nat)
    requires i < |lines| && OpenSince(lines, m, i) && InBlock(lines, i)
    ensures OpenSince(lines, m, i + 1)
  {
    hide *;
    var n := BlockOf(lines, i);
    AtMostOneOpen(lines, m, n, i);
  }

  lemma NoneStillOpen(lines: seq<string>, i: nat, m: nat)
    requires i < |lines| && !InBlock(lines, i) && OpenSince(lines, m, i + 1)
    ensures m == i && OpensIn(lines[i])
  {
    hide OpensIn, IndentOf, AllSpace;
  }

  lemma JustOpened(lines: seq<string>, i: nat)
    requires i < |lines| && !InBlock(lines, i) && OpensIn(lines[i])
    ensures OpenSince(lines, i, i + 1)
  {
  }

  /**
   What of a document is code.  A line that is block text is code to its end; of any other line the code
   ends where its comment begins.  Which lines are block text is decided by the lines before them.
   */
  lemma CodeIs(lines: seq<string>, i: nat)
    requires i < |lines|
    ensures var n := CodeLength(lines[i], BlockBefore(lines, i));
            if InBlock(lines, i) then n == |lines[i]| else CodeOf(lines[i], n)
  {
    hide OpenSince, CodeOf, InBlock, BlockAt, BlockBefore, CommentFrom, IndentOf;
    BlockBeforeIs(lines, i);
    LineInBlock(lines, i);
    CommentIs(lines[i], CommentFrom(lines[i], 0));
  }
}
