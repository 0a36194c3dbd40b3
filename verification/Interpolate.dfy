/**
 `${VAR}` expansion over raw configuration text, and the inspection that masks the same references
 (config/interpolate.rs).
 */
module Interpolate {
  import opened Prelude
  import opened Splitting
  import opened Substrings
  import opened Text

  datatype Error =
    | Unset(name: string, line: nat)
    | Unterminated(line: nat)
    | EmptyName(line: nat)
    | BadName(name: string, line: nat)
    | ControlCharacter(name: string, line: nat)

  datatype Result<+T> = Ok(value: T) | Err(error: Error)

  type Lookup = string -> Option<string>

  // ---------------------------------------------------------------- characters

  predicate IsControl(c: char) {
    c < ' ' || '\U{7F}' <= c <= '\U{9F}'
  }

  predicate IsNameStart(c: char) {
    'a' <= c <= 'z' || 'A' <= c <= 'Z' || c == '_'
  }

  predicate IsNameChar(c: char) {
    IsNameStart(c) || '0' <= c <= '9'
  }

  predicate IsValidName(name: string) {
    name != "" && IsNameStart(name[0]) && forall i :: 1 <= i < |name| ==> IsNameChar(name[i])
  }

  /** A substituted value may fill a scalar in, never add structure. */
  predicate IsStructurallySafe(value: string) {
    forall i :: 0 <= i < |value| ==> !IsControl(value[i])
  }

  function Utf8Len(c: char): nat {
    if c < '\U{80}' then 1 else if c < '\U{800}' then 2 else if c < '\U{10000}' then 3 else 4
  }

  /** Indentation as the program measures it: the bytes of the leading white space. */
  function IndentOf(line: string): nat {
    if line != "" && IsSpace(line[0]) then Utf8Len(line[0]) + IndentOf(line[1..]) else 0
  }

  // ---------------------------------------------------------------- comments and block scalars

  datatype Quote = Plain | Single | Double | Escaped

  /** The quoting in force after a stretch of a line. */
  function QuoteAfter(s: string): Quote {
    if s == "" then Plain
    else
      var c := s[|s| - 1];
      match QuoteAfter(s[..|s| - 1])
      case Plain => if c == '\'' then Single else if c == '"' then Double else Plain
      case Single => if c == '\'' then Plain else Single
      case Double => if c == '\\' then Escaped else if c == '"' then Plain else Double
      case Escaped => Double
  }

  /** A `#` opens a comment outside quotes, at the start of the line or after a space or a tab. */
  predicate OpensComment(line: string, i: nat)
    requires i < |line|
  {
    line[i] == '#' && QuoteAfter(line[..i]) == Plain && (i == 0 || line[i - 1] == ' ' || line[i - 1] == '\t')
  }

  /** Where the comment of a line starts; the length of the line if it has none. */
  function CommentFrom(line: string, i: nat): (at: nat)
    requires i <= |line|
    ensures i <= at <= |line| && (at < |line| ==> OpensComment(line, at))
    ensures forall j :: i <= j < at ==> !OpensComment(line, j)
    decreases |line| - i
  {
    if i == |line| || OpensComment(line, i) then i else CommentFrom(line, i + 1)
  }

  method CommentStart(line: string) returns (at: Option<nat>)
    ensures CommentFrom(line, 0) == if at.Some? then at.value else |line|
    ensures at.Some? ==> at.value < |line|
  {
    var inSingle, inDouble, prevWasSpace, escaped := false, false, true, false;
    for i := 0 to |line|
      invariant CommentFrom(line, 0) == CommentFrom(line, i)
      invariant QuoteAfter(line[..i]) ==
        if escaped then Escaped else if inDouble then Double else if inSingle then Single else Plain
      invariant escaped ==> inDouble
      invariant !(inSingle && inDouble)
      invariant !inSingle && !inDouble ==> (prevWasSpace <==> i == 0 || line[i - 1] == ' ' || line[i - 1] == '\t')
    {
      var c := line[i];
      assert line[..i + 1][..i] == line[..i];
      if escaped {
        escaped, prevWasSpace := false, false;
      } else {
        if c == '\\' && inDouble {
          escaped := true;
        } else if c == '\'' && !inDouble {
          inSingle := !inSingle;
        } else if c == '"' && !inSingle {
          inDouble := !inDouble;
        } else if c == '#' && !inSingle && !inDouble && prevWasSpace {
          return Some(i);
        }
        prevWasSpace := c == ' ' || c == '\t';
      }
    }
    return None;
  }

  /** What follows the last colon, if there is one. */
  function AfterLastColon(s: string): Option<string> {
    if s == "" then None
    else if s[|s| - 1] == ':' then Some("")
    else
      var r := AfterLastColon(s[..|s| - 1]);
      if r.None? then None else Some(r.value + [s[|s| - 1]])
  }

  /** The line opens a block scalar, whose body is literal text. */
  predicate OpensBlockScalar(code: string) {
    var rest := AfterLastColon(TrimEnd(code));
    rest.Some? && var r := Trim(rest.value); r != "" && (r[0] == '|' || r[0] == '>')
  }

  /** The block still open when `line` is reached. */
  function BlockAt(line: string, block: Option<nat>): Option<nat> {
    if block.Some? && Trim(line) != "" && IndentOf(line) <= block.value then None else block
  }

  /** How much of the line is code, and the block open after it. */
  function CodeLength(line: string, block: Option<nat>): (n: nat)
    ensures n <= |line|
  {
    if BlockAt(line, block).Some? then |line| else CommentFrom(line, 0)
  }

  function BlockAfter(line: string, block: Option<nat>): Option<nat> {
    var open := BlockAt(line, block);
    if open.None? && OpensBlockScalar(line[..CodeLength(line, block)]) then Some(IndentOf(line)) else open
  }

  // ---------------------------------------------------------------- scanning

  /** A piece of a document, with the text it was written as. */
  datatype Piece =
    | Lit(c: char, source: string)
    | Ref(name: string, default: Option<string>, line: nat, source: string)

  /** The pieces up to the end of the text or to the first malformed reference. */
  datatype Scanned = Scanned(pieces: seq<Piece>, error: Option<Error>)

  function Cons(p: Piece, rest: Scanned): Scanned {
    rest.(pieces := [p] + rest.pieces)
  }

  function Then(a: Scanned, b: Scanned): Scanned {
    if a.error.Some? then a else Scanned(a.pieces + b.pieces, b.error)
  }

  function Literal(s: string): seq<Piece> {
    seq(|s|, i requires 0 <= i < |s| => Lit(s[i], [s[i]]))
  }

  /** Where the first closing brace is, if anywhere. */
  function Close(s: string, from: nat): (at: nat)
    requires from <= |s|
    ensures from <= at <= |s| && (at < |s| ==> s[at] == '}')
    ensures forall j :: from <= j < at ==> s[j] != '}'
    decreases |s| - from
  {
    if from == |s| || s[from] == '}' then from else Close(s, from + 1)
  }

  /** The name and default between the braces. */
  function Body(body: string): (string, Option<string>) {
    var at := Find(":-", body);
    if at.Some? then (Trim(body[..at.value]), Some(body[at.value + 2..])) else (Trim(body), None)
  }

  datatype Head = Piece(piece: Piece) | Malformed(error: Error)

  /** The piece a non-empty fragment begins with; its source is what it consumes. */
  function ScanHead(f: string, line: nat): (head: Head)
    requires f != ""
    ensures head.Piece? ==> 0 < |head.piece.source| && head.piece.source <= f
  {
    if f[0] != '$' then Piece(Lit(f[0], [f[0]]))
    else if 1 < |f| && f[1] == '$' then Piece(Lit('$', "$$"))
    else if 1 < |f| && f[1] == '{' then
      var close := Close(f, 2);
      if close == |f| then Malformed(Unterminated(line))
      else
        var (name, default) := Body(f[2..close]);
        if name == "" then Malformed(EmptyName(line))
        else if !IsValidName(name) then Malformed(BadName(name, line))
        else Piece(Ref(name, default, line, f[..close + 1]))
    else Piece(Lit('$', "$"))
  }

  function Scan(f: string, line: nat): Scanned
    decreases |f|
  {
    if f == "" then Scanned([], None)
    else
      match ScanHead(f, line)
      case Malformed(error) => Scanned([], Some(error))
      case Piece(piece) => Cons(piece, Scan(f[|piece.source|..], line))
  }

  function ScanLine(raw: string, block: Option<nat>, line: nat): Scanned {
    var n := CodeLength(raw, block);
    Then(Scan(raw[..n], line), Scanned(Literal(raw[n..]), None))
  }

  /** The lines of a document from line number `line` on. */
  function ScanLines(lines: seq<string>, block: Option<nat>, line: nat): Scanned
    requires 0 < |lines|
    decreases |lines|
  {
    var first := ScanLine(lines[0], block, line);
    if |lines| == 1 then first
    else Then(Then(first, Scanned(Literal("\n"), None)), ScanLines(lines[1..], BlockAfter(lines[0], block), line + 1))
  }

  function ScanText(text: string): Scanned {
    ScanLines(Split(text, '\n'), None, 1)
  }

  // ---------------------------------------------------------------- expansion

  datatype State = Set | Defaulted | Required | Invalid

  datatype VariableReference = VariableReference(
    name: string, line: nat, hasDefault: bool, state: State, marker: string, selected: Option<string>)

  datatype Mode = Runtime(fallback: Option<string -> string>) | Inspecting(prefix: string)

  datatype Expanded = Expanded(
    text: string,
    referenced: seq<string>, defaulted: seq<string>, placeheld: seq<string>,
    occurrences: seq<VariableReference>)

  const NOTHING: Expanded := Expanded("", [], [], [], [])

  function Note(list: seq<string>, name: string): seq<string> {
    if name in list then list else list + [name]
  }

  /** A blank value counts as unset. */
  function Resolved(lookup: Lookup, name: string): Option<string> {
    var v := lookup(name);
    if v.Some? && Trim(v.value) != "" then Some(Trim(v.value)) else None
  }

  function Marker(prefix: string, n: nat): string {
    prefix + Digits(n) + "-end"
  }

  /** The value a reference would take from the environment or its default. */
  function Candidate(lookup: Lookup, p: Piece): Option<string>
    requires p.Ref?
  {
    var v := Resolved(lookup, p.name);
    if v.Some? then v else p.default
  }

  /** Add one piece to what has been written so far. */
  function Emit(x: Expanded, p: Piece, mode: Mode, lookup: Lookup): Result<Expanded> {
    match p
    case Lit(c, _) => Ok(x.(text := x.text + [c]))
    case Ref(name, default, line, _) =>
      var noted := x.(referenced := Note(x.referenced, name));
      var resolved := Resolved(lookup, name);
      match mode
      case Inspecting(prefix) =>
        var selected := Candidate(lookup, p);
        var invalid := selected.Some? && !IsStructurallySafe(selected.value);
        var state := if invalid then Invalid else if resolved.Some? then Set else if default.Some? then Defaulted else Required;
        var marker := Marker(prefix, |x.occurrences|);
        Ok(noted.(text := x.text + marker,
                  occurrences := x.occurrences +
                    [VariableReference(name, line, default.Some?, state, marker, if invalid then None else selected)]))
      case Runtime(fallback) =>
        if resolved.None? && default.None? && fallback.None? then Err(Unset(name, line))
        else
          var value := if resolved.Some? then resolved.value else if default.Some? then default.value else fallback.value(name);
          if !IsStructurallySafe(value) then Err(ControlCharacter(name, line))
          else
            Ok(noted.(text := x.text + value,
                      defaulted := if resolved.None? && default.Some? then Note(x.defaulted, name) else x.defaulted,
                      placeheld := if resolved.None? && default.None? then Note(x.placeheld, name) else x.placeheld))
  }

  function EmitAll(x: Expanded, pieces: seq<Piece>, mode: Mode, lookup: Lookup): Result<Expanded>
    decreases |pieces|
  {
    if pieces == [] then Ok(x)
    else
      var y := Emit(x, pieces[0], mode, lookup);
      if y.Err? then y else EmitAll(y.value, pieces[1..], mode, lookup)
  }

  /** Expand what was scanned; errors come out in the order of the text. */
  function Continue(x: Expanded, scanned: Scanned, mode: Mode, lookup: Lookup): Result<Expanded> {
    var y := EmitAll(x, scanned.pieces, mode, lookup);
    if y.Ok? && scanned.error.Some? then Err(scanned.error.value) else y
  }

  lemma {:induction false} EmitAppend(x: Expanded, a: seq<Piece>, b: seq<Piece>, mode: Mode, lookup: Lookup)
    ensures EmitAll(x, a + b, mode, lookup) ==
      var y := EmitAll(x, a, mode, lookup);
      if y.Err? then y else EmitAll(y.value, b, mode, lookup)
    decreases |a|
  {
    if a == [] {
      assert a + b == b;
    } else {
      assert (a + b)[1..] == a[1..] + b;
      var y := Emit(x, a[0], mode, lookup);
      if y.Ok? {
        EmitAppend(y.value, a[1..], b, mode, lookup);
      }
    }
  }

  lemma ContinueThen(x: Expanded, a: Scanned, b: Scanned, mode: Mode, lookup: Lookup)
    ensures Continue(x, Then(a, b), mode, lookup) ==
      var y := Continue(x, a, mode, lookup);
      if y.Err? then y else Continue(y.value, b, mode, lookup)
  {
    EmitAppend(x, a.pieces, b.pieces, mode, lookup);
  }

  lemma {:induction false} EmitLiteral(x: Expanded, s: string, mode: Mode, lookup: Lookup)
    ensures EmitAll(x, Literal(s), mode, lookup) == Ok(x.(text := x.text + s))
    decreases |s|
  {
    if s == "" {
      assert x.text + s == x.text;
    } else {
      assert Literal(s)[1..] == Literal(s[1..]);
      EmitLiteral(x.(text := x.text + [s[0]]), s[1..], mode, lookup);
      assert x.text + [s[0]] + s[1..] == x.text + s;
    }
  }

  /** Read the next piece of a fragment, character by character. */
  method NextPiece(fragment: string, i: nat, line: nat) returns (head: Head)
    requires i < |fragment|
    ensures head == ScanHead(fragment[i..], line)
  {
    ghost var rest := fragment[i..];
    if fragment[i] != '$' {
      return Piece(Lit(fragment[i], [fragment[i]]));
    }
    if i + 1 < |fragment| && fragment[i + 1] == '$' {
      return Piece(Lit('$', "$$"));
    }
    if i + 1 < |fragment| && fragment[i + 1] == '{' {
      var j := i + 2;
      while j < |fragment| && fragment[j] != '}'
        invariant i + 2 <= j <= |fragment|
        invariant Close(rest, 2) == Close(rest, j - i)
      {
        j := j + 1;
      }
      assert Close(rest, 2) == j - i;
      if j == |fragment| {
        return Malformed(Unterminated(line));
      }
      assert rest[2..j - i] == fragment[i + 2..j] && rest[..j - i + 1] == fragment[i..j + 1];
      var (name, default) := Body(fragment[i + 2..j]);
      if name == "" {
        return Malformed(EmptyName(line));
      }
      if !IsValidName(name) {
        return Malformed(BadName(name, line));
      }
      return Piece(Ref(name, default, line, fragment[i..j + 1]));
    }
    return Piece(Lit('$', "$"));
  }

  /** Expansion of the code part of one line, in either mode. */
  method ExpandInto(fragment: string, line: nat, mode: Mode, lookup: Lookup, before: Expanded) returns (r: Result<Expanded>)
    ensures r == Continue(before, Scan(fragment, line), mode, lookup)
  {
    hide Emit, EmitAll, ScanHead;
    var x := before;
    var i := 0;
    assert fragment[0..] == fragment;
    while i < |fragment|
      invariant i <= |fragment|
      invariant Continue(before, Scan(fragment, line), mode, lookup) == Continue(x, Scan(fragment[i..], line), mode, lookup)
    {
      var head := NextPiece(fragment, i, line);
      if head.Malformed? {
        NothingEmitted(x, mode, lookup);
        return Err(head.error);
      }
      var n := |head.piece.source|;
      assert fragment[i..][n..] == fragment[i + n..];
      EmitHead(x, head.piece, Scan(fragment[i + n..], line), mode, lookup);
      var y := Emit(x, head.piece, mode, lookup);
      if y.Err? {
        return y;
      }
      x, i := y.value, i + n;
    }
    NothingEmitted(x, mode, lookup);
    r := Ok(x);
  }

  lemma NothingEmitted(x: Expanded, mode: Mode, lookup: Lookup)
    ensures EmitAll(x, [], mode, lookup) == Ok(x)
  {
  }

  lemma EmitHead(x: Expanded, p: Piece, rest: Scanned, mode: Mode, lookup: Lookup)
    ensures Continue(x, Cons(p, rest), mode, lookup) ==
      var y := Emit(x, p, mode, lookup);
      if y.Err? then y else Continue(y.value, rest, mode, lookup)
  {
    assert ([p] + rest.pieces)[1..] == rest.pieces;
  }

  // ---------------------------------------------------------------- whole documents

  /** Expand line by line. */
  method Process(text: string, mode: Mode, lookup: Lookup) returns (r: Result<Expanded>)
    ensures r == Continue(NOTHING, ScanText(text), mode, lookup)
  {
    hide Continue, EmitAll, CodeLength, BlockAfter, ScanLine;
    var x := NOTHING;
    var block: Option<nat> := None;
    var lines := Split(text, '\n');
    assert lines[0..] == lines;
    for i := 0 to |lines| - 1
      invariant Continue(NOTHING, ScanText(text), mode, lookup) == Continue(x, ScanLines(lines[i..], block, i + 1), mode, lookup)
    {
      ghost var rest := lines[i..];
      assert rest[1..] == lines[i + 1..] && 1 < |rest|;
      ContinueThen(x, Then(ScanLine(lines[i], block, i + 1), Scanned(Literal("\n"), None)),
                   ScanLines(lines[i + 1..], BlockAfter(lines[i], block), i + 2), mode, lookup);
      ContinueThen(x, ScanLine(lines[i], block, i + 1), Scanned(Literal("\n"), None), mode, lookup);
      var y, after := ProcessLine(lines[i], block, i + 1, mode, lookup, x);
      if y.Err? {
        return y;
      }
      ContinueLiteral(y.value, "\n", mode, lookup);
      x, block := y.value.(text := y.value.text + "\n"), after;
    }
    var last := |lines| - 1;
    assert |lines[last..]| == 1;
    r, block := ProcessLine(lines[last], block, last + 1, mode, lookup, x);
    if r.Ok? && text != "" && text[|text| - 1] == '\n' {
      var out := r.value.text + "\n";
      assert out[..|out| - 1] == r.value.text;
      r := Ok(r.value.(text := out[..|out| - 1]));
    }
  }

  lemma ContinueLiteral(x: Expanded, s: string, mode: Mode, lookup: Lookup)
    ensures Continue(x, Scanned(Literal(s), None), mode, lookup) == Ok(x.(text := x.text + s))
  {
    EmitLiteral(x, s, mode, lookup);
  }

  method ProcessLine(raw: string, block: Option<nat>, line: nat, mode: Mode, lookup: Lookup, x: Expanded)
    returns (r: Result<Expanded>, after: Option<nat>)
    ensures r == Continue(x, ScanLine(raw, block, line), mode, lookup)
    ensures after == BlockAfter(raw, block)
  {
    var open := block;
    if open.Some? && Trim(raw) != "" && IndentOf(raw) <= open.value {
      open := None;
    }
    var n := |raw|;
    if open.None? {
      var at := CommentStart(raw);
      if at.Some? {
        n := at.value;
      }
    }
    after := if open.None? && OpensBlockScalar(raw[..n]) then Some(IndentOf(raw)) else open;
    r := ExpandInto(raw[..n], line, mode, lookup, x);
    ContinueThen(x, Scan(raw[..n], line), Scanned(Literal(raw[n..]), None), mode, lookup);
    if r.Ok? {
      ContinueLiteral(r.value, raw[n..], mode, lookup);
      r := Ok(r.value.(text := r.value.text + raw[n..]));
    }
  }
}
