/** Where references are in a document, stated on its characters (config/interpolate.rs). */
module ReferenceSyntax {
  import opened Prelude
  import opened Splitting
  import opened Substrings
  import opened Text
  import opened Trimming
  import opened Interpolate
  import opened Layout
  import opened References

  // ---------------------------------------------------------------- one reference

  /** The first `:-` between the braces, which ends the name and begins the default. */
  ghost predicate MarkAt(body: string, k: nat) {
    && k + 2 <= |body| && body[k] == ':' && body[k + 1] == '-'
    && forall j :: 0 <= j < k ==> !(body[j] == ':' && body[j + 1] == '-')
  }

  ghost predicate NoMark(body: string) {
    forall j :: 0 <= j < |body| - 1 ==> !(body[j] == ':' && body[j + 1] == '-')
  }

  /** What stands between the braces names a variable, with or without a default. */
  ghost predicate Names(body: string, name: string, default: Option<string>) {
    match default
    case None => NoMark(body) && Bare(body, name)
    case Some(d) => exists k: nat :: k + 2 <= |body| && MarkAt(body, k) && Bare(body[..k], name) && d == body[k + 2..]
  }

  lemma MarkIs(body: string)
    ensures Find(":-", body).None? <==> NoMark(body)
    ensures Find(":-", body).Some? ==> MarkAt(body, Find(":-", body).value)
  {
    forall i | 0 <= i <= |body|
      ensures OccursAt(":-", body, i) <==> i + 2 <= |body| && body[i] == ':' && body[i + 1] == '-'
    {
      if i + 2 <= |body| {
        assert body[i..i + 2] == [body[i], body[i + 1]];
      }
    }
    var at := Find(":-", body);
    forall j | 0 <= j < if at.Some? then at.value else |body| - 1
      ensures !(body[j] == ':' && body[j + 1] == '-')
    {
      assert !OccursAt(":-", body, j);
    }
    if at.Some? {
      assert OccursAt(":-", body, at.value);
      assert body[at.value] == ':' && body[at.value + 1] == '-';
    }
  }

  lemma OneMark(body: string, j: nat, k: nat)
    requires MarkAt(body, j) && MarkAt(body, k)
    ensures j == k
  {
  }

  lemma NamesIs(body: string, name: string, default: Option<string>)
    ensures Names(body, name, default) <==> Body(body) == (name, default)
  {
    hide Trim, Find, MarkAt, NoMark, Bare;
    MarkIs(body);
    var at := Find(":-", body);
    BareIsTrim(body, name);
    if at.Some? {
      MarkInside(body, at.value);
      BareIsTrim(body[..at.value], name);
      if default.Some? && Names(body, name, default) {
        var k: nat :| k + 2 <= |body| && MarkAt(body, k) && Bare(body[..k], name) && default.value == body[k + 2..];
        OneMark(body, at.value, k);
      }
    } else if default.Some? && Names(body, name, default) {
      var k: nat :| k + 2 <= |body| && MarkAt(body, k) && Bare(body[..k], name) && default.value == body[k + 2..];
      NoMarkAnywhere(body, k);
    }
  }

  lemma MarkInside(body: string, k: nat)
    requires MarkAt(body, k)
    ensures k + 2 <= |body|
  {
  }

  lemma NoMarkAnywhere(body: string, k: nat)
    requires NoMark(body)
    ensures !MarkAt(body, k)
  {
  }

  /** A letter or an underscore, and then letters, digits and underscores. */
  ghost predicate IsName(name: string) {
    && name != ""
    && (forall i :: 0 <= i < |name| ==>
          var n := name[i] as int; 0x41 <= n <= 0x5A || 0x61 <= n <= 0x7A || n == 0x5F || (0 < i && 0x30 <= n <= 0x39))
  }

  lemma IsNameIs(name: string)
    ensures IsName(name) <==> IsValidName(name)
  {
    forall i | 0 <= i < |name|
      ensures IsNameChar(name[i]) <==> IsNameStart(name[i]) || 0x30 <= name[i] as int <= 0x39
    {
      CharactersAre(name[i]);
    }
  }

  // ---------------------------------------------------------------- the next piece

  /** `f` begins with `${`, a body without a closing brace, and `}`. */
  ghost predicate Braces(f: string, body: string) {
    |body| + 3 <= |f| && f[..|body| + 3] == "${" + body + "}" && '}' !in body
  }

  /**
   Piece `p` is what `f` begins with: `$$` for a dollar sign, a reference in braces, or any one character,
   a dollar sign among them if neither of these follows it.
   */
  ghost predicate Begins(f: string, line: nat, p: Piece) {
    && f != ""
    && match p
       case Lit(c, source) =>
         || (source == [c] && c == f[0] && (f[0] == '$' ==> |f| == 1 || (f[1] != '$' && f[1] != '{')))
         || (source == "$$" && c == '$' && 2 <= |f| && f[0] == '$' && f[1] == '$')
       case Ref(name, default, l, source) =>
         && l == line
         && exists body :: Braces(f, body) && source == "${" + body + "}" && Names(body, name, default) && IsName(name)
  }

  /** `f` begins with a reference that is not closed, or whose name is empty or none. */
  ghost predicate Fails(f: string, line: nat, error: Error) {
    && 2 <= |f| && f[0] == '$' && f[1] == '{'
    && match error
       case Unterminated(l) => l == line && '}' !in f[2..]
       case EmptyName(l) => l == line && exists body, default :: Braces(f, body) && Names(body, "", default)
       case BadName(name, l) =>
         && l == line && name != "" && !IsName(name)
         && exists body, default :: Braces(f, body) && Names(body, name, default)
       case _ => false
  }

  lemma CloseIs(f: string)
    requires 2 <= |f| && f[0] == '$' && f[1] == '{'
    ensures Close(f, 2) == |f| <==> '}' !in f[2..]
    ensures Close(f, 2) < |f| ==> Braces(f, f[2..Close(f, 2)]) && f[..Close(f, 2) + 1] == "${" + f[2..Close(f, 2)] + "}"
  {
    var close := Close(f, 2);
    if close < |f| {
      assert f[2..][close - 2] == '}';
      BracesAt(f, close);
    } else {
      assert forall i :: 0 <= i < |f[2..]| ==> f[2..][i] == f[i + 2];
    }
  }

  lemma BracesAt(f: string, close: nat)
    requires 2 <= close < |f| && f[0] == '$' && f[1] == '{' && f[close] == '}'
    requires forall j :: 2 <= j < close ==> f[j] != '}'
    ensures Braces(f, f[2..close]) && f[..close + 1] == "${" + f[2..close] + "}"
  {
    var body := f[2..close];
    assert f[..2] == "${" && f[close..close + 1] == "}";
    assert f[..close + 1] == f[..2] + body + f[close..close + 1];
  }

  lemma OneBody(f: string, a: string, b: string)
    requires Braces(f, a) && Braces(f, b)
    ensures a == b
  {
    BodyAt(f, a);
    BodyAt(f, b);
    assert forall i :: 0 <= i < |a| ==> f[i + 2] == a[i];
    assert forall i :: 0 <= i < |b| ==> f[i + 2] == b[i];
  }

  lemma BodyAt(f: string, body: string)
    requires Braces(f, body)
    ensures f[0] == '$' && f[1] == '{' && f[|body| + 2] == '}' && body == f[2..|body| + 2]
    ensures '}' in f[2..]
  {
    var s := "${" + body + "}";
    assert s[0] == '$' && s[1] == '{' && s[|body| + 2] == '}' && s[2..|body| + 2] == body;
    assert f[..|body| + 3][2..|body| + 2] == f[2..|body| + 2];
    assert f[2..][|body|] == '}';
  }

  /** The next piece is read as the characters say, and no other way. */
  lemma HeadIs(f: string, line: nat, p: Piece)
    requires f != ""
    ensures Begins(f, line, p) <==> ScanHead(f, line) == Piece(p)
  {
    hide Names, Braces, IsValidName, IsName, Close, Body;
    if 2 <= |f| && f[0] == '$' && f[1] == '{' {
      CloseIs(f);
      var close := Close(f, 2);
      if close < |f| {
        var body := f[2..close];
        var (name, default) := Body(body);
        NamesIs(body, name, default);
        IsNameIs(name);
        if p.Ref? && Begins(f, line, p) {
          var b :| Braces(f, b) && p.source == "${" + b + "}" && Names(b, p.name, p.default) && IsName(p.name);
          OneBody(f, b, body);
          NamesIs(body, p.name, p.default);
          EmptyIsNoName();
        }
        EmptyIsNoName();
      } else if p.Ref? && Begins(f, line, p) {
        var b :| Braces(f, b) && p.source == "${" + b + "}" && Names(b, p.name, p.default) && IsName(p.name);
        BodyAt(f, b);
      }
    } else if p.Ref? && Begins(f, line, p) {
      var b :| Braces(f, b) && p.source == "${" + b + "}" && Names(b, p.name, p.default) && IsName(p.name);
      BodyAt(f, b);
    }
  }

  lemma EmptyIsNoName()
    ensures !IsName("")
  {
  }

  lemma HeadFails(f: string, line: nat, error: Error)
    requires f != ""
    ensures Fails(f, line, error) <==> ScanHead(f, line) == Malformed(error)
  {
    hide Names, Braces, IsValidName, IsName, Close, Body;
    if 2 <= |f| && f[0] == '$' && f[1] == '{' {
      CloseIs(f);
      var close := Close(f, 2);
      if close < |f| {
        var body := f[2..close];
        var (name, default) := Body(body);
        NamesIs(body, name, default);
        IsNameIs(name);
        if Fails(f, line, error) {
          var b, d :| Braces(f, b) && Names(b, if error.BadName? then error.name else "", d);
          OneBody(f, b, body);
          NamesIs(body, if error.BadName? then error.name else "", d);
        }
      } else if Fails(f, line, error) && !error.Unterminated? {
        var b, d :| Braces(f, b) && Names(b, if error.BadName? then error.name else "", d);
        BodyAt(f, b);
      }
    }
  }

  // ---------------------------------------------------------------- a stretch of code

  /** Read piece by piece, `f` gives these pieces, up to its end or the first malformed reference. */
  ghost predicate Reads(f: string, line: nat, pieces: seq<Piece>, error: Option<Error>)
    decreases |pieces|
  {
    if pieces == [] then (if f == "" then error.None? else error.Some? && Fails(f, line, error.value))
    else
      && Begins(f, line, pieces[0])
      && 0 < |pieces[0].source| <= |f| && pieces[0].source == f[..|pieces[0].source|]
      && Reads(f[|pieces[0].source|..], line, pieces[1..], error)
  }

  lemma {:induction false} ScanIs(f: string, line: nat, pieces: seq<Piece>, error: Option<Error>)
    ensures Reads(f, line, pieces, error) <==> Scan(f, line) == Scanned(pieces, error)
    decreases |f|
  {
    hide ScanHead, Begins, Fails;
    if f != "" {
      var head := ScanHead(f, line);
      if head.Malformed? {
        HeadFails(f, line, head.error);
        if error.Some? {
          HeadFails(f, line, error.value);
        }
        if pieces != [] {
          HeadIs(f, line, pieces[0]);
        }
      } else {
        HeadIs(f, line, head.piece);
        var n := |head.piece.source|;
        var rest := Scan(f[n..], line);
        if pieces != [] {
          HeadIs(f, line, pieces[0]);
          assert ([head.piece] + rest.pieces)[1..] == rest.pieces;
          ScanIs(f[n..], line, pieces[1..], error);
          assert pieces == [pieces[0]] + pieces[1..];
        } else if error.Some? {
          HeadFails(f, line, error.value);
        }
      }
    }
  }

  // ---------------------------------------------------------------- a document

  /** The code of line `i`; what follows it is a comment. */
  ghost function CodeEnd(lines: seq<string>, i: nat): (n: nat)
    requires i < |lines|
    ensures n <= |lines[i]|
  {
    CodeLength(lines[i], BlockBefore(lines, i))
  }

  /**
   From line `i` on the document gives these pieces: each line's code read piece by piece under its own line
   number, its comment as it is, and the line breaks, up to the first malformed reference.
   */
  ghost predicate DocumentReads(lines: seq<string>, i: nat, pieces: seq<Piece>, error: Option<Error>)
    requires i < |lines|
    decreases |lines| - i
  {
    var n := CodeEnd(lines, i);
    exists code, e ::
      && Reads(lines[i][..n], i + 1, code, e)
      && if e.Some? then pieces == code && error == e
         else
           var comment := Literal(lines[i][n..]);
           if i + 1 == |lines| then pieces == code + comment && error.None?
           else exists rest :: DocumentReads(lines, i + 1, rest, error) && pieces == code + comment + Literal("\n") + rest
  }

  /** A document is read as its characters say. */
  lemma DocumentIs(text: string)
    ensures DocumentReads(Split(text, '\n'), 0, ScanText(text).pieces, ScanText(text).error)
  {
    hide DocumentReads, ScanLines;
    var lines := Split(text, '\n');
    assert lines[0..] == lines;
    LinesRead(lines, 0);
  }

  lemma {:induction false} LinesRead(lines: seq<string>, i: nat)
    requires i < |lines|
    ensures var scanned := ScanLines(lines[i..], BlockBefore(lines, i), i + 1);
            DocumentReads(lines, i, scanned.pieces, scanned.error)
    decreases |lines| - i
  {
    hide DocumentReads, Reads, CodeLength, BlockAfter, Scan, Literal;
    var n := CodeEnd(lines, i);
    var code := Scan(lines[i][..n], i + 1);
    ScanIs(lines[i][..n], i + 1, code.pieces, code.error);
    var comment := Literal(lines[i][n..]);
    assert lines[i..][0] == lines[i];
    if i + 1 < |lines| {
      assert lines[i..][1..] == lines[i + 1..];
      LinesRead(lines, i + 1);
      var rest := ScanLines(lines[i + 1..], BlockBefore(lines, i + 1), i + 2);
      MoreLines(lines, i, code.pieces, code.error, rest.pieces, rest.error);
    } else {
      LastLine(lines, i, code.pieces, code.error);
    }
  }

  lemma MoreLines(lines: seq<string>, i: nat, code: seq<Piece>, e: Option<Error>, rest: seq<Piece>, error: Option<Error>)
    requires i + 1 < |lines| && Reads(lines[i][..CodeEnd(lines, i)], i + 1, code, e) && DocumentReads(lines, i + 1, rest, error)
    ensures if e.Some? then DocumentReads(lines, i, code, e)
            else DocumentReads(lines, i, code + Literal(lines[i][CodeEnd(lines, i)..]) + Literal("\n") + rest, error)
  {
    hide Reads, CodeLength, Literal;
  }

  lemma LastLine(lines: seq<string>, i: nat, code: seq<Piece>, e: Option<Error>)
    requires i + 1 == |lines| && Reads(lines[i][..CodeEnd(lines, i)], i + 1, code, e)
    ensures if e.Some? then DocumentReads(lines, i, code, e)
            else DocumentReads(lines, i, code + Literal(lines[i][CodeEnd(lines, i)..]), None)
  {
    hide Reads, CodeLength, Literal;
  }
}
