/** Expansion keeps the layout of a document: its lines, its comments, and everything without a `$`. */
module Layout {
  import opened Prelude
  import opened Splitting
  import opened Substrings
  import opened Text
  import opened Interpolate
  import opened Inspection

  // ---------------------------------------------------------------- line by line

  /** The block open when line `i` is reached. */
  ghost function BlockBefore(lines: seq<string>, i: nat): Option<nat>
    requires i <= |lines|
  {
    if i == 0 then None else BlockAfter(lines[i - 1], BlockBefore(lines, i - 1))
  }

  /** One line expanded on its own: the values of its code, then its comment as it is. */
  ghost function LineValue(lines: seq<string>, i: nat, lookup: Lookup, fallback: Option<string -> string>): Option<string>
    requires i < |lines|
  {
    var n := CodeLength(lines[i], BlockBefore(lines, i));
    var scanned := Scan(lines[i][..n], i + 1);
    var v := Values(scanned.pieces, lookup, fallback);
    if scanned.error.Some? || v.None? then None else Some(v.value + lines[i][n..])
  }

  ghost predicate AllExpand(lines: seq<string>, from: nat, lookup: Lookup, fallback: Option<string -> string>) {
    forall i :: from <= i < |lines| ==> LineValue(lines, i, lookup, fallback).Some?
  }

  /** Each line of `outs` is the expansion of the line it stands for. */
  ghost predicate ExpandedLines(lines: seq<string>, outs: seq<string>, from: nat, lookup: Lookup, fallback: Option<string -> string>) {
    |outs| + from == |lines| && forall i :: from <= i < |lines| ==> LineValue(lines, i, lookup, fallback) == Some(outs[i - from])
  }

  lemma LineIsItsValue(x: Expanded, lines: seq<string>, i: nat, lookup: Lookup, fallback: Option<string -> string>)
    requires i < |lines|
    ensures var y := Continue(x, ScanLine(lines[i], BlockBefore(lines, i), i + 1), Runtime(fallback), lookup);
            var v := LineValue(lines, i, lookup, fallback);
            (y.Ok? <==> v.Some?) && (y.Ok? ==> y.value.text == x.text + v.value)
  {
    hide Emit, EmitAll, Values, BlockBefore, CodeLength;
    var n := CodeLength(lines[i], BlockBefore(lines, i));
    var scanned, comment := Scan(lines[i][..n], i + 1), lines[i][n..];
    ContinueThen(x, scanned, Scanned(Literal(comment), None), Runtime(fallback), lookup);
    RuntimeWritesValues(x, scanned.pieces, lookup, fallback);
    var y := Continue(x, scanned, Runtime(fallback), lookup);
    if y.Ok? {
      ContinueLiteral(y.value, comment, Runtime(fallback), lookup);
    }
  }

  /** The lines from `i` on expand exactly when each does, and come out joined again. */
  lemma {:induction false} LinesAreTheirValues(x: Expanded, lines: seq<string>, i: nat, lookup: Lookup, fallback: Option<string -> string>)
    returns (outs: seq<string>)
    requires i < |lines|
    ensures var y := Continue(x, ScanLines(lines[i..], BlockBefore(lines, i), i + 1), Runtime(fallback), lookup);
            && (y.Ok? <==> AllExpand(lines, i, lookup, fallback))
            && (y.Ok? ==> y.value.text == x.text + Join(outs, '\n') && ExpandedLines(lines, outs, i, lookup, fallback))
    decreases |lines| - i
  {
    hide Continue, ScanLine, LineValue, BlockAfter;
    outs := [];
    var block := BlockBefore(lines, i);
    var first := ScanLine(lines[i], block, i + 1);
    LineIsItsValue(x, lines, i, lookup, fallback);
    var y := Continue(x, first, Runtime(fallback), lookup);
    assert lines[i..][0] == lines[i];
    if i + 1 == |lines| {
      if y.Ok? {
        outs := [LineValue(lines, i, lookup, fallback).value];
      }
    } else {
      assert lines[i..][1..] == lines[i + 1..];
      var newline := Scanned(Literal("\n"), None);
      ContinueThen(x, Then(first, newline), ScanLines(lines[i + 1..], BlockAfter(lines[i], block), i + 2), Runtime(fallback), lookup);
      ContinueThen(x, first, newline, Runtime(fallback), lookup);
      if y.Ok? {
        ContinueLiteral(y.value, "\n", Runtime(fallback), lookup);
        var later := LinesAreTheirValues(y.value.(text := y.value.text + "\n"), lines, i + 1, lookup, fallback);
        outs := [LineValue(lines, i, lookup, fallback).value] + later;
        if AllExpand(lines, i + 1, lookup, fallback) {
          JoinFirst(x.text, outs);
        }
      }
    }
  }

  lemma JoinFirst(before: string, outs: seq<string>)
    requires 1 < |outs|
    ensures before + outs[0] + "\n" + Join(outs[1..], '\n') == before + Join(outs, '\n')
  {
  }

  // ---------------------------------------------------------------- no line is added

  lemma {:induction false} TrimmedIsWithin(s: string, c: char)
    requires c !in s
    ensures c !in TrimStart(s) && c !in TrimEnd(s)
    decreases |s|
  {
    if s != "" {
      TrimmedIsWithin(s[1..], c);
      TrimmedIsWithin(s[..|s| - 1], c);
    }
  }

  lemma HeadHasNoNewline(f: string, line: nat)
    requires f != "" && '\n' !in f
    ensures ScanHead(f, line).Piece? && ScanHead(f, line).piece.Lit? ==> ScanHead(f, line).piece.c != '\n'
  {
  }

  lemma {:induction false} ValuesHaveNoNewline(f: string, line: nat, lookup: Lookup, fallback: Option<string -> string>)
    requires '\n' !in f
    ensures var v := Values(Scan(f, line).pieces, lookup, fallback); v.Some? ==> '\n' !in v.value
    decreases |f|
  {
    if f != "" {
      var head := ScanHead(f, line);
      HeadHasNoNewline(f, line);
      if head.Piece? {
        var rest := f[|head.piece.source|..];
        ValuesHaveNoNewline(rest, line, lookup, fallback);
        assert ([head.piece] + Scan(rest, line).pieces)[1..] == Scan(rest, line).pieces;
        hide ScanHead, Candidate;
        if head.piece.Ref? && Selected(lookup, head.piece, fallback).Some? {
          assert '\n' !in Selected(lookup, head.piece, fallback).value;
        }
      }
    }
  }

  lemma ExpandedLinesAreClean(lines: seq<string>, outs: seq<string>, lookup: Lookup, fallback: Option<string -> string>)
    requires Clean(lines, '\n') && ExpandedLines(lines, outs, 0, lookup, fallback)
    ensures Clean(outs, '\n')
  {
    hide LineValue;
    forall i | 0 <= i < |outs|
      ensures '\n' !in outs[i]
    {
      assert LineValue(lines, i, lookup, fallback) == Some(outs[i]) && '\n' !in lines[i];
      LineValueIsClean(lines, i, lookup, fallback);
    }
  }

  lemma LineValueIsClean(lines: seq<string>, i: nat, lookup: Lookup, fallback: Option<string -> string>)
    requires i < |lines| && '\n' !in lines[i]
    ensures LineValue(lines, i, lookup, fallback).Some? ==> '\n' !in LineValue(lines, i, lookup, fallback).value
  {
    hide Scan, Values, CodeLength, BlockBefore;
    var n := CodeLength(lines[i], BlockBefore(lines, i));
    ValuesHaveNoNewline(lines[i][..n], i + 1, lookup, fallback);
  }

  /**
   Expansion works line by line: it succeeds exactly when every line expands, and then line `i` of the
   result is the expansion of line `i`, ending in the comment of that line unchanged.
   */
  lemma ExpandsLineByLine(text: string, lookup: Lookup, fallback: Option<string -> string>)
    ensures var lines, r := Split(text, '\n'), Interpolated(text, lookup, fallback);
            && (r.Ok? <==> AllExpand(lines, 0, lookup, fallback))
            && (r.Ok? ==> ExpandedLines(lines, Split(r.value.text, '\n'), 0, lookup, fallback))
  {
    var lines := Split(text, '\n');
    var outs := LinesAreTheirValues(NOTHING, lines, 0, lookup, fallback);
    assert lines[0..] == lines;
    SplitClean(text, '\n');
    if Interpolated(text, lookup, fallback).Ok? {
      assert "" + Join(outs, '\n') == Join(outs, '\n');
      ExpandedLinesAreClean(lines, outs, lookup, fallback);
      SplitJoin(outs, '\n');
    }
  }

  // ---------------------------------------------------------------- the end of the text

  ghost predicate EndsInNewline(text: string) {
    text != "" && text[|text| - 1] == '\n'
  }

  lemma {:induction false} LastPart(parts: seq<string>)
    requires 0 < |parts| && Clean(parts, '\n')
    ensures EndsInNewline(Join(parts, '\n')) <==> 1 < |parts| && parts[|parts| - 1] == ""
  {
    if 1 < |parts| {
      LastPart(parts[1..]);
      var rest := Join(parts[1..], '\n');
      if |parts| == 2 {
        assert rest == parts[1];
        assert rest != "" ==> rest[|rest| - 1] in parts[1];
      }
    } else if parts[0] != "" {
      assert parts[0][|parts[0]| - 1] in parts[0];
    }
  }

  lemma EndOfText(text: string)
    ensures var parts := Split(text, '\n'); EndsInNewline(text) <==> 1 < |parts| && parts[|parts| - 1] == ""
  {
    SplitClean(text, '\n');
    JoinSplit(text, '\n');
    LastPart(Split(text, '\n'));
  }

  /** A reference that fills in nothing at all. */
  ghost predicate Blank(p: Piece, lookup: Lookup, fallback: Option<string -> string>) {
    p.Ref? && Selected(lookup, p, fallback) == Some("")
  }

  ghost predicate AllBlank(pieces: seq<Piece>, lookup: Lookup, fallback: Option<string -> string>) {
    forall i :: 0 <= i < |pieces| ==> Blank(pieces[i], lookup, fallback)
  }

  /** Only an unset variable, through an empty default or an empty fallback, is blank: a blank value counts as unset. */
  lemma BlankIsUnset(p: Piece, lookup: Lookup, fallback: Option<string -> string>)
    requires p.Ref?
    ensures Blank(p, lookup, fallback) <==>
      && (lookup(p.name).None? || Trim(lookup(p.name).value) == "")
      && (p.default == Some("") || (p.default.None? && fallback.Some? && fallback.value(p.name) == ""))
  {
  }

  lemma {:induction false} EmptyValues(pieces: seq<Piece>, lookup: Lookup, fallback: Option<string -> string>)
    ensures Values(pieces, lookup, fallback) == Some("") <==> AllBlank(pieces, lookup, fallback)
  {
    if pieces != [] {
      EmptyValues(pieces[1..], lookup, fallback);
      assert AllBlank(pieces, lookup, fallback) <==> Blank(pieces[0], lookup, fallback) && AllBlank(pieces[1..], lookup, fallback);
    }
  }

  /** The last line has something on it, all of it references that fill in nothing. */
  ghost predicate LastLineVanishes(text: string, lookup: Lookup, fallback: Option<string -> string>) {
    var lines := Split(text, '\n');
    var i := |lines| - 1;
    && lines[i] != ""
    && CodeLength(lines[i], BlockBefore(lines, i)) == |lines[i]|
    && AllBlank(Scan(lines[i], i + 1).pieces, lookup, fallback)
  }

  /**
   A document that expands keeps whether it ends in a newline, except in one case: it has more than one
   line and its last line consists of references that all come out empty.
   */
  lemma TrailingNewlineKeptUnlessLastLineVanishes(text: string, lookup: Lookup, fallback: Option<string -> string>)
    requires Interpolated(text, lookup, fallback).Ok?
    ensures var kept := EndsInNewline(Interpolated(text, lookup, fallback).value.text) == EndsInNewline(text);
            kept <==> !('\n' in text && LastLineVanishes(text, lookup, fallback))
  {
    var lines, out := Split(text, '\n'), Interpolated(text, lookup, fallback).value.text;
    var i := |lines| - 1;
    ExpandsLineByLine(text, lookup, fallback);
    EndOfText(text);
    EndOfText(out);
    assert LineValue(lines, i, lookup, fallback) == Some(Split(out, '\n')[i]);
    LineVanishes(lines, i, lookup, fallback);
    hide LineValue, AllBlank, ExpandedLines, AllExpand;
    MoreThanOneLine(text);
  }

  lemma MoreThanOneLine(text: string)
    ensures '\n' in text <==> 1 < |Split(text, '\n')|
  {
    if '\n' in text {
      var k :| 0 <= k < |text| && text[k] == '\n';
      assert text == text[..k] + ['\n'] + text[k + 1..];
      SplitAppend(text[..k], text[k + 1..], '\n');
    } else {
      SplitWhole(text, '\n');
    }
  }

  lemma LineVanishes(lines: seq<string>, i: nat, lookup: Lookup, fallback: Option<string -> string>)
    requires i < |lines| && LineValue(lines, i, lookup, fallback).Some?
    ensures LineValue(lines, i, lookup, fallback) == Some("") <==>
      CodeLength(lines[i], BlockBefore(lines, i)) == |lines[i]| && AllBlank(Scan(lines[i], i + 1).pieces, lookup, fallback)
  {
    hide CodeLength, BlockBefore, Scan, Values, AllBlank;
    var n := CodeLength(lines[i], BlockBefore(lines, i));
    var scanned := Scan(lines[i][..n], i + 1);
    EmptyValues(scanned.pieces, lookup, fallback);
    assert n == |lines[i]| ==> lines[i][..n] == lines[i];
  }

  // ---------------------------------------------------------------- text without references

  lemma {:induction false} ScanPlain(f: string, line: nat)
    requires '$' !in f
    ensures Scan(f, line) == Scanned(Literal(f), None)
    decreases |f|
  {
    if f == "" {
      assert Literal(f) == [];
    } else {
      ScanPlain(f[1..], line);
      assert Literal(f) == [Lit(f[0], [f[0]])] + Literal(f[1..]);
    }
  }

  lemma LiteralInTwo(a: string, b: string)
    ensures Then(Scanned(Literal(a), None), Scanned(Literal(b), None)) == Scanned(Literal(a + b), None)
  {
    assert Literal(a) + Literal(b) == Literal(a + b);
  }

  lemma ScanLinePlain(raw: string, block: Option<nat>, line: nat)
    requires '$' !in raw
    ensures ScanLine(raw, block, line) == Scanned(Literal(raw), None)
  {
    var n := CodeLength(raw, block);
    ScanPlain(raw[..n], line);
    LiteralInTwo(raw[..n], raw[n..]);
    assert raw == raw[..n] + raw[n..];
  }

  lemma {:induction false} ScanLinesPlain(lines: seq<string>, block: Option<nat>, line: nat)
    requires 0 < |lines| && Clean(lines, '$')
    ensures ScanLines(lines, block, line) == Scanned(Literal(Join(lines, '\n')), None)
    decreases |lines|
  {
    assert '$' !in lines[0];
    ScanLinePlain(lines[0], block, line);
    if 1 < |lines| {
      ScanLinesPlain(lines[1..], BlockAfter(lines[0], block), line + 1);
      LiteralInTwo(lines[0], "\n");
      LiteralInTwo(lines[0] + "\n", Join(lines[1..], '\n'));
    }
  }

  lemma {:induction false} PartsAreWithin(s: string, sep: char, c: char)
    requires c !in s
    ensures Clean(Split(s, sep), c)
  {
    if s != "" {
      PartsAreWithin(s[1..], sep, c);
    }
  }

  /** A document without a `$` comes out as it is, expanded or inspected, whatever the environment. */
  lemma WithoutDollarUnchanged(text: string, mode: Mode, lookup: Lookup)
    requires '$' !in text
    ensures Continue(NOTHING, ScanText(text), mode, lookup) == Ok(NOTHING.(text := text))
  {
    PartsAreWithin(text, '\n', '$');
    ScanLinesPlain(Split(text, '\n'), None, 1);
    JoinSplit(text, '\n');
    ContinueLiteral(NOTHING, text, mode, lookup);
    assert "" + text == text;
  }

  // ---------------------------------------------------------------- escaping

  /** Every `$` written twice. */
  function Doubled(f: string): string {
    if f == "" then "" else (if f[0] == '$' then "$$" else [f[0]]) + Doubled(f[1..])
  }

  /** Doubling every `$` is a complete escape: expansion gives the fragment back, in either mode. */
  lemma {:induction false} DoubledExpandsBack(x: Expanded, f: string, line: nat, mode: Mode, lookup: Lookup)
    ensures Continue(x, Scan(Doubled(f), line), mode, lookup) == Ok(x.(text := x.text + f))
    decreases |f|
  {
    if f == "" {
      assert x.text + f == x.text;
    } else {
      var p := if f[0] == '$' then Lit('$', "$$") else Lit(f[0], [f[0]]);
      DoubledHead(f, line);
      var y := x.(text := x.text + [f[0]]);
      EmitHead(x, p, Scan(Doubled(f[1..]), line), mode, lookup);
      DoubledExpandsBack(y, f[1..], line, mode, lookup);
      hide Continue, Scan;
      assert x.text + [f[0]] + f[1..] == x.text + f;
    }
  }

  lemma DoubledHead(f: string, line: nat)
    requires f != ""
    ensures var p := if f[0] == '$' then Lit('$', "$$") else Lit(f[0], [f[0]]);
            Scan(Doubled(f), line) == Cons(p, Scan(Doubled(f[1..]), line))
  {
    var d := Doubled(f);
    var p := if f[0] == '$' then Lit('$', "$$") else Lit(f[0], [f[0]]);
    assert ScanHead(d, line) == Piece(p) && d[|p.source|..] == Doubled(f[1..]);
  }

  // ---------------------------------------------------------------- the exception is real

  lemma {:induction false} NoHashNoComment(line: string, i: nat)
    requires '#' !in line && i <= |line|
    ensures CommentFrom(line, i) == |line|
    decreases |line| - i
  {
    if i < |line| {
      NoHashNoComment(line, i + 1);
    }
  }

  lemma ReferenceAlone()
    ensures Scan("${X:-}", 2) == Scanned([Ref("X", Some(""), 2, "${X:-}")], None)
  {
    var f := "${X:-}";
    assert Close(f, 5) == 5 && Close(f, 4) == 5 && Close(f, 3) == 5 && Close(f, 2) == 5;
    assert f[2..5] == "X:-" && f[..6] == f;
    var body := "X:-";
    assert body[1..3] == ":-" && body[0..2] == "X:";
    FindIs(":-", body, 1);
    assert body[..1] == "X" && body[3..] == "";
    assert TrimStart("X") == "X" && TrimEnd("X") == "X";
    assert ScanHead(f, 2) == Piece(Ref("X", Some(""), 2, f));
    assert f[6..] == "" && Scan("", 2) == Scanned([], None);
  }

  const VANISHING: seq<string> := ["a", "${X:-}"]

  lemma FirstLineValue(lookup: Lookup)
    ensures LineValue(VANISHING, 0, lookup, None) == Some("a") && BlockBefore(VANISHING, 1).None?
  {
    NoHashNoComment("a", 0);
    ScanPlain("a", 1);
    assert Literal("a") == [Lit('a', "a")] && Literal("a")[1..] == [];
    assert [VANISHING[0][0]] + "" == "a" && VANISHING[0][..1] == "a";
    assert TrimEnd("a") == "a" && AfterLastColon("a").None?;
  }

  lemma LastLineCode()
    requires BlockBefore(VANISHING, 1).None?
    ensures CodeLength(VANISHING[1], BlockBefore(VANISHING, 1)) == 6 && VANISHING[1][..6] == "${X:-}" && VANISHING[1][6..] == ""
  {
    NoHashNoComment("${X:-}", 0);
  }

  lemma LastLineValue(lookup: Lookup)
    requires lookup("X").None?
    ensures LineValue(VANISHING, 1, lookup, None) == Some("")
  {
    FirstLineValue(lookup);
    LastLineCode();
    ReferenceAlone();
    var p := Ref("X", Some(""), 2, "${X:-}");
    assert Selected(lookup, p, None) == Some("");
    hide Scan, CodeLength, BlockBefore, Selected;
    assert [p][1..] == [];
    assert Values([p], lookup, None) == Some("" + "");
  }

  /** The exception happens: with `X` unset, the last line of this document vanishes and a newline is left at the end. */
  lemma TrailingNewlineAppears(lookup: Lookup)
    requires lookup("X").None?
    ensures var text := "a\n${X:-}";
            var r := Interpolated(text, lookup, None);
            r.Ok? && r.value.text == "a\n" && EndsInNewline(r.value.text) && !EndsInNewline(text)
  {
    hide Split, Join, LineValue, Interpolated;
    var text := "a\n${X:-}";
    JoinTwo("a", "${X:-}");
    assert VANISHING == ["a", "${X:-}"] && Join(VANISHING, '\n') == text;
    SplitJoin(VANISHING, '\n');
    FirstLineValue(lookup);
    LastLineValue(lookup);
    ExpandsLineByLine(text, lookup, None);
    TwoLinesOut(VANISHING, Interpolated(text, lookup, None).value.text, lookup);
  }

  lemma TwoLinesOut(lines: seq<string>, out: string, lookup: Lookup)
    requires |lines| == 2 && ExpandedLines(lines, Split(out, '\n'), 0, lookup, None)
    requires LineValue(lines, 0, lookup, None) == Some("a") && LineValue(lines, 1, lookup, None) == Some("")
    ensures out == "a\n"
  {
    hide Split, LineValue;
    JoinSplit(out, '\n');
    assert Split(out, '\n') == ["a", ""];
    JoinTwo("a", "");
  }

  lemma JoinTwo(a: string, b: string)
    ensures Join([a, b], '\n') == a + "\n" + b
  {
    assert [a, b][1..] == [b];
  }

  // ---------------------------------------------------------------- indentation

  /** Indentation in characters. */
  function Indent(line: string): (n: nat)
    ensures n <= |line|
  {
    if line != "" && IsSpace(line[0]) then 1 + Indent(line[1..]) else 0
  }

  ghost predicate AsciiIndent(line: string) {
    forall i :: 0 <= i < Indent(line) ==> line[i] < '\U{80}'
  }

  /** What is measured, in bytes, is the number of characters exactly when the leading white space is ASCII. */
  lemma {:induction false} IndentIsCharactersIff(line: string)
    ensures Indent(line) <= IndentOf(line)
    ensures IndentOf(line) == Indent(line) <==> AsciiIndent(line)
  {
    if line != "" && IsSpace(line[0]) {
      IndentIsCharactersIff(line[1..]);
      assert AsciiIndent(line) <==> line[0] < '\U{80}' && AsciiIndent(line[1..]) by {
        assert forall i :: 1 <= i < Indent(line) ==> line[i] == line[1..][i - 1];
      }
    }
  }

  /** The block a line closes if indentation were counted in characters. */
  function BlockAtByCharacters(line: string, block: Option<nat>): Option<nat> {
    if block.Some? && Trim(line) != "" && Indent(line) <= block.value then None else block
  }

  /** It matters exactly for a line that is no further in than its block in characters, but is in bytes. */
  lemma BytesKeepBlockOpenIff(line: string, block: nat)
    ensures BlockAt(line, Some(block)) != BlockAtByCharacters(line, Some(block))
      <==> Trim(line) != "" && Indent(line) <= block < IndentOf(line)
  {
    IndentIsCharactersIff(line);
  }

  /** An ideographic space is one character and three bytes, so behind it a block indented by one stays open. */
  lemma IdeographicSpaceKeepsBlockOpen()
    ensures BlockAt("\U{3000}x", Some(1)) == Some(1) && BlockAtByCharacters("\U{3000}x", Some(1)) == None
  {
    var line := "\U{3000}x";
    assert line[1..] == "x" && !IsSpace('x');
    assert TrimStart(line) == TrimStart("x") == "x" && TrimEnd("x") == "x";
    assert Indent("x") == 0 && IndentOf("x") == 0;
  }
}
