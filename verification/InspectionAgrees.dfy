/**
 Expansion and inspection agree on every document: markers never occur in, or overlap with, literal
 text or each other, so resolving the masked document gives exactly the expanded one.
 */
module InspectionAgrees {
  import opened Prelude
  import opened Splitting
  import opened Substrings
  import opened Interpolate
  import opened Inspection

  // ---------------------------------------------------------------- the prefix

  ghost predicate IsStem(prefix: string) {
    STEM <= prefix && forall i :: |STEM| <= i < |prefix| ==> prefix[i] == 'x'
  }

  /** Lengthening the prefix stops at one the text does not contain. */
  lemma {:induction false} FreshPrefix(text: string, prefix: string)
    requires IsStem(prefix)
    ensures IsStem(FreshFrom(text, prefix)) && !Contains(text, FreshFrom(text, prefix))
    decreases |text| + 1 - |prefix|
  {
    FindIsContains(prefix, text);
    if Find(prefix, text).Some? {
      FreshPrefix(text, prefix + "x");
    }
  }

  /** A prefix overlaps with itself only entirely. */
  lemma Unbordered(prefix: string, d: nat)
    requires IsStem(prefix) && 0 < d < |prefix|
    ensures prefix[d..] != prefix[..|prefix| - d]
  {
    var k := if d == 12 then 2 else if d == 18 then 1 else 0;
    var at := d + k;
    assert at < |prefix| && prefix[at] == if at < |STEM| then STEM[at] else 'x';
    assert prefix[k] == STEM[k];
    assert prefix[at] != prefix[k];
    assert prefix[d..][k] == prefix[at] && prefix[..|prefix| - d][k] == prefix[k];
  }

  // ---------------------------------------------------------------- literal text comes from the document

  ghost function Sources(pieces: seq<Piece>): string {
    if pieces == [] then "" else pieces[0].source + Sources(pieces[1..])
  }

  lemma {:induction false} SourcesAppend(a: seq<Piece>, b: seq<Piece>)
    ensures Sources(a + b) == Sources(a) + Sources(b)
  {
    if a == [] {
      assert a + b == b;
    } else {
      SourcesAppend(a[1..], b);
      assert (a + b)[1..] == a[1..] + b;
    }
  }

  /** A literal character was written as itself, or as an escaped dollar. */
  ghost predicate Honest(p: Piece) {
    p.Lit? ==> p.source == [p.c] || (p.c == '$' && p.source == "$$")
  }

  ghost predicate AllHonest(pieces: seq<Piece>) {
    forall i :: 0 <= i < |pieces| ==> Honest(pieces[i])
  }

  /** What was scanned is the beginning of the text, and all of it if nothing was malformed. */
  ghost predicate Accounts(scanned: Scanned, text: string) {
    && AllHonest(scanned.pieces)
    && Sources(scanned.pieces) <= text
    && (scanned.error.None? ==> Sources(scanned.pieces) == text)
  }

  lemma {:induction false} ScanAccounts(f: string, line: nat)
    ensures Accounts(Scan(f, line), f)
    decreases |f|
  {
    if f != "" {
      var head := ScanHead(f, line);
      if head.Piece? {
        var n := |head.piece.source|;
        HeadIsHonest(f, line);
        hide ScanHead, Honest;
        ScanAccounts(f[n..], line);
        ConsAccounts(head.piece, Scan(f[n..], line), f);
      }
    }
  }

  lemma HeadIsHonest(f: string, line: nat)
    requires f != ""
    ensures ScanHead(f, line).Piece? ==> Honest(ScanHead(f, line).piece)
  {
  }

  lemma ConsAccounts(p: Piece, rest: Scanned, f: string)
    requires Honest(p) && p.source <= f && Accounts(rest, f[|p.source|..])
    ensures Accounts(Cons(p, rest), f)
  {
    var n := |p.source|;
    assert f == f[..n] + f[n..];
    assert ([p] + rest.pieces)[1..] == rest.pieces;
  }

  lemma {:induction false} LiteralAccounts(s: string)
    ensures Accounts(Scanned(Literal(s), None), s)
  {
    if s != "" {
      LiteralAccounts(s[1..]);
      assert Literal(s)[1..] == Literal(s[1..]);
      assert s == [s[0]] + s[1..];
    }
  }

  lemma ThenAccounts(a: Scanned, b: Scanned, s: string, t: string)
    requires Accounts(a, s) && Accounts(b, t)
    ensures Accounts(Then(a, b), s + t)
  {
    SourcesAppend(a.pieces, b.pieces);
  }

  lemma ScanLineAccounts(raw: string, block: Option<nat>, line: nat)
    ensures Accounts(ScanLine(raw, block, line), raw)
  {
    var n := CodeLength(raw, block);
    ScanAccounts(raw[..n], line);
    LiteralAccounts(raw[n..]);
    ThenAccounts(Scan(raw[..n], line), Scanned(Literal(raw[n..]), None), raw[..n], raw[n..]);
    assert raw == raw[..n] + raw[n..];
  }

  lemma {:induction false} ScanLinesAccounts(lines: seq<string>, block: Option<nat>, line: nat)
    requires 0 < |lines|
    ensures Accounts(ScanLines(lines, block, line), Join(lines, '\n'))
    decreases |lines|
  {
    ScanLineAccounts(lines[0], block, line);
    if 1 < |lines| {
      ScanLinesAccounts(lines[1..], BlockAfter(lines[0], block), line + 1);
      LiteralAccounts("\n");
      var first := ScanLine(lines[0], block, line);
      ThenAccounts(first, Scanned(Literal("\n"), None), lines[0], "\n");
      ThenAccounts(Then(first, Scanned(Literal("\n"), None)), ScanLines(lines[1..], BlockAfter(lines[0], block), line + 1),
                   lines[0] + "\n", Join(lines[1..], '\n'));
    }
  }

  lemma ScanTextAccounts(text: string)
    ensures Accounts(ScanText(text), text)
  {
    ScanLinesAccounts(Split(text, '\n'), None, 1);
    JoinSplit(text, '\n');
  }

  /** Literal pieces in a row spell `s` from position `a` on. */
  ghost predicate Spells(pieces: seq<Piece>, a: nat, s: string) {
    a + |s| <= |pieces| && forall j :: a <= j < a + |s| ==> pieces[j].Lit? && pieces[j].c == s[j - a]
  }

  ghost predicate NeverSpells(pieces: seq<Piece>, s: string) {
    forall a :: 0 <= a <= |pieces| ==> !Spells(pieces, a, s)
  }

  /** Literals that spell something without a dollar were written just so. */
  lemma {:induction false} SpelledAsWritten(pieces: seq<Piece>, s: string)
    requires AllHonest(pieces) && |pieces| == |s| && Spells(pieces, 0, s) && '$' !in s
    ensures Sources(pieces) == s
  {
    if pieces != [] {
      assert pieces[0].c == s[0] && s[0] in s;
      SpelledAsWritten(pieces[1..], s[1..]);
    }
  }

  lemma TextNeverSpells(scanned: Scanned, text: string, s: string)
    requires Accounts(scanned, text) && '$' !in s && !Contains(text, s)
    ensures NeverSpells(scanned.pieces, s)
  {
    var pieces := scanned.pieces;
    forall a | 0 <= a <= |pieces|
      ensures !Spells(pieces, a, s)
    {
      if Spells(pieces, a, s) {
        SpelledSomewhere(pieces, s, a);
        OccursInMore(s, Sources(pieces), text, |Sources(pieces[..a])|);
      }
    }
  }

  lemma SpelledSomewhere(pieces: seq<Piece>, s: string, a: nat)
    requires AllHonest(pieces) && '$' !in s && Spells(pieces, a, s)
    ensures OccursAt(s, Sources(pieces), |Sources(pieces[..a])|)
  {
    var before, mid, after := pieces[..a], pieces[a..a + |s|], pieces[a + |s|..];
    SpelledAsWritten(mid, s);
    assert pieces == before + mid + after;
    SourcesAppend(before + mid, after);
    SourcesAppend(before, mid);
  }

  lemma OccursInMore(s: string, t: string, text: string, i: nat)
    requires t <= text && OccursAt(s, t, i)
    ensures Contains(text, s)
  {
    assert text[i..i + |s|] == t[i..i + |s|];
    assert OccursAt(s, text, i);
  }

  // ---------------------------------------------------------------- markers

  /** The literals up to the next reference. */
  ghost function Run(pieces: seq<Piece>): string {
    if pieces == [] || pieces[0].Ref? then "" else [pieces[0].c] + Run(pieces[1..])
  }

  lemma {:induction false} RunIsSpelled(pieces: seq<Piece>)
    ensures |Run(pieces)| <= |pieces| && Spells(pieces, 0, Run(pieces))
    ensures |Run(pieces)| < |pieces| ==> pieces[|Run(pieces)|].Ref?
  {
    if pieces != [] && pieces[0].Lit? {
      RunIsSpelled(pieces[1..]);
      var r := Run(pieces[1..]);
      forall j | 0 <= j < |Run(pieces)|
        ensures pieces[j].Lit? && pieces[j].c == Run(pieces)[j]
      {
        if 0 < j {
          assert pieces[j] == pieces[1..][j - 1] && Run(pieces)[j] == r[j - 1];
        }
      }
    }
  }

  /** Past the run, the masked text is the next marker and the rest. */
  lemma {:induction false} MaskedIsRunThenMarker(pieces: seq<Piece>, prefix: string, n: nat)
    ensures var k := |Run(pieces)|;
            && k <= |pieces|
            && Masked(pieces, prefix, n) == Run(pieces) +
                 if k == |pieces| then "" else Marker(prefix, n) + Masked(pieces[k + 1..], prefix, n + 1)
  {
    if pieces != [] && pieces[0].Lit? {
      MaskedIsRunThenMarker(pieces[1..], prefix, n);
      var k := |Run(pieces)|;
      assert k < |pieces| ==> pieces[1..][k..] == pieces[k + 1..];
    }
  }

  /** Before the first marker the prefix occurs nowhere: not in the literals, and not across into the marker. */
  lemma PrefixOnlyAtMarkers(run: string, tail: string, prefix: string, i: nat)
    requires IsStem(prefix) && !Contains(run, prefix)
    requires tail == "" || prefix <= tail
    requires i < |run| || tail == ""
    ensures !OccursAt(prefix, run + tail, i)
  {
    var s := run + tail;
    if i + |prefix| <= |run| {
      assert run[i..i + |prefix|] == s[i..i + |prefix|];
      assert !OccursAt(prefix, run, i);
    } else if i + |prefix| <= |s| {
      var d := |run| - i;
      Unbordered(prefix, d);
      assert tail[..|prefix| - d] == prefix[..|prefix| - d];
      assert s[i..i + |prefix|][d..] == tail[..|prefix| - d];
    }
  }

  /** Two different markers never stand at the same place. */
  lemma MarkersDiffer(prefix: string, j: nat, n: nat, s: string, i: nat)
    requires OccursAt(Marker(prefix, j), s, i) && OccursAt(Marker(prefix, n), s, i)
    ensures j == n
  {
    var dj, dn := Digits(j), Digits(n);
    var t := s[i + |prefix|..];
    MarkerShows(prefix, j, s, i);
    MarkerShows(prefix, n, s, i);
    SameRunOfDigits(dj, dn, t);
    DigitsRoundTrip(j);
    DigitsRoundTrip(n);
  }

  /** A marker is the prefix, its number, and a dash. */
  lemma MarkerShows(prefix: string, n: nat, s: string, i: nat)
    requires OccursAt(Marker(prefix, n), s, i)
    ensures i + |prefix| <= |s| && Digits(n) + "-" <= s[i + |prefix|..]
  {
    var m := Marker(prefix, n);
    var k := |Digits(n)| + 1;
    assert m[|prefix|..][..k] == Digits(n) + "-";
    assert s[i..i + |m|][|prefix|..][..k] == s[i + |prefix|..][..k];
  }

  lemma SameRunOfDigits(a: string, b: string, t: string)
    requires a + "-" <= t && b + "-" <= t && '-' !in a && '-' !in b
    ensures a == b
  {
    assert t[|a|] == (a + "-")[|a|] && t[|b|] == (b + "-")[|b|];
    assert |b| <= |a|;
    assert |a| <= |b|;
    assert a == (a + "-")[..|a|] && b == (b + "-")[..|b|];
  }

  // ---------------------------------------------------------------- resolving

  lemma {:induction false} NextMarkerNone(refs: seq<VariableReference>, rest: string)
    requires forall i, o :: 0 <= i < |refs| && 0 <= o <= |rest| ==> !OccursAt(refs[i].marker, rest, o)
    ensures NextMarker(refs, rest) == None
  {
    if refs != [] {
      NextMarkerNone(refs[..|refs| - 1], rest);
    }
  }

  lemma {:induction false} NextMarkerIs(refs: seq<VariableReference>, rest: string, n: nat, offset: nat)
    requires n < |refs| && OccursAt(refs[n].marker, rest, offset)
    requires forall i, o :: 0 <= i < |refs| && 0 <= o <= |rest| && OccursAt(refs[i].marker, rest, o) ==>
               offset <= o && (o == offset ==> i == n)
    ensures NextMarker(refs, rest) == Some(Hit(offset, n))
  {
    var last := |refs| - 1;
    if n == last {
      FindIs(refs[n].marker, rest, offset);
      NextMarkerLater(refs[..last], rest, offset);
    } else {
      NextMarkerIs(refs[..last], rest, n, offset);
    }
  }

  lemma NextMarkerLater(refs: seq<VariableReference>, rest: string, offset: nat)
    requires forall i, o :: 0 <= i < |refs| && 0 <= o <= |rest| && OccursAt(refs[i].marker, rest, o) ==> offset < o
    ensures NextMarker(refs, rest).Some? ==> offset < NextMarker(refs, rest).value.offset
  {
  }

  lemma {:induction false} ValuesOfRun(pieces: seq<Piece>, lookup: Lookup)
    ensures |Run(pieces)| <= |pieces|
    ensures var rest := Values(pieces[|Run(pieces)|..], lookup, None);
            Values(pieces, lookup, None) == if rest.None? then None else Some(Run(pieces) + rest.value)
  {
    if pieces != [] && pieces[0].Lit? {
      ValuesOfRun(pieces[1..], lookup);
      var k := |Run(pieces)|;
      assert pieces[1..][k - 1..] == pieces[k..];
      var rest := Values(pieces[k..], lookup, None);
      if rest.Some? {
        assert [pieces[0].c] + (Run(pieces[1..]) + rest.value) == Run(pieces) + rest.value;
      }
    } else {
      assert Run(pieces) == "" && pieces[0..] == pieces;
      var all := Values(pieces, lookup, None);
      assert all.Some? ==> "" + all.value == all.value;
    }
  }

  lemma {:induction false} DescribesPastRun(refs: seq<VariableReference>, n: nat, pieces: seq<Piece>, prefix: string, lookup: Lookup)
    requires Describes(refs, n, pieces, prefix, lookup)
    ensures |Run(pieces)| <= |pieces| && Describes(refs, n, pieces[|Run(pieces)|..], prefix, lookup)
  {
    if pieces != [] && pieces[0].Lit? {
      DescribesPastRun(refs, n, pieces[1..], prefix, lookup);
      assert pieces[1..][|Run(pieces)| - 1..] == pieces[|Run(pieces)|..];
    } else {
      assert pieces[0..] == pieces;
    }
  }

  lemma MarkerOccurrenceIsPrefix(prefix: string, n: nat, s: string, i: nat)
    requires OccursAt(Marker(prefix, n), s, i)
    ensures OccursAt(prefix, s, i)
  {
    assert s[i..i + |prefix|] == s[i..i + |Marker(prefix, n)|][..|prefix|] == prefix;
  }

  lemma RunHasNoPrefix(pieces: seq<Piece>, prefix: string)
    requires NeverSpells(pieces, prefix) && IsStem(prefix)
    ensures !Contains(Run(pieces), prefix)
  {
    RunIsSpelled(pieces);
    var run := Run(pieces);
    forall i | 0 <= i <= |run|
      ensures !OccursAt(prefix, run, i)
    {
      if OccursAt(prefix, run, i) {
        forall j | i <= j < i + |prefix|
          ensures pieces[j].Lit? && pieces[j].c == prefix[j - i]
        {
          assert run[i..i + |prefix|][j - i] == run[j];
        }
        assert Spells(pieces, i, prefix);
      }
    }
  }

  /** Resolving the masked text fills every marker in with its own value and changes nothing else. */
  lemma {:induction false} ResolveIsValues(refs: seq<VariableReference>, pieces: seq<Piece>, n: nat, prefix: string, lookup: Lookup)
    requires IsStem(prefix) && NeverSpells(pieces, prefix)
    requires MarkersOf(refs, prefix) && MarkersVisible(refs) && Describes(refs, n, pieces, prefix, lookup)
    ensures Resolve(refs, Masked(pieces, prefix, n)) == Values(pieces, lookup, None)
    decreases |pieces|
  {
    var run := Run(pieces);
    var k := |run|;
    var s := Masked(pieces, prefix, n);
    RunHasNoPrefix(pieces, prefix);
    MaskedIsRunThenMarker(pieces, prefix, n);
    ValuesOfRun(pieces, lookup);
    RunIsSpelled(pieces);
    if k == |pieces| {
      forall i, o | 0 <= i < |refs| && 0 <= o <= |s|
        ensures !OccursAt(refs[i].marker, s, o)
      {
        if OccursAt(refs[i].marker, s, o) {
          MarkerOccurrenceIsPrefix(prefix, i, s, o);
          PrefixOnlyAtMarkers(run, "", prefix, o);
        }
      }
      NextMarkerNone(refs, s);
    } else {
      DescribesPastRun(refs, n, pieces, prefix, lookup);
      var later := pieces[k + 1..];
      assert pieces[k..][1..] == later && pieces[k..][0] == pieces[k];
      NeverSpellsLater(pieces, k + 1, prefix);
      ResolveIsValues(refs, later, n + 1, prefix, lookup);
      ResolveAtMarker(refs, run, Masked(later, prefix, n + 1), n, prefix);
    }
  }

  lemma FirstMarkerIsNext(refs: seq<VariableReference>, run: string, tail: string, n: nat, prefix: string)
    requires IsStem(prefix) && !Contains(run, prefix) && n < |refs| && MarkersOf(refs, prefix)
    ensures NextMarker(refs, run + (Marker(prefix, n) + tail)) == Some(Hit(|run|, n))
  {
    hide IsStem, Contains, NextMarker;
    var rest := Marker(prefix, n) + tail;
    var s := run + rest;
    assert prefix <= rest;
    hide Marker;
    assert s[|run|..|run| + |Marker(prefix, n)|] == Marker(prefix, n);
    assert OccursAt(Marker(prefix, n), s, |run|);
    forall i, o | 0 <= i < |refs| && 0 <= o <= |s| && OccursAt(refs[i].marker, s, o)
      ensures |run| <= o && (o == |run| ==> i == n)
    {
      MarkerOccurrenceIsPrefix(prefix, i, s, o);
      if o < |run| {
        PrefixOnlyAtMarkers(run, rest, prefix, o);
      } else if o == |run| {
        MarkersDiffer(prefix, i, n, s, o);
      }
    }
    NextMarkerIs(refs, s, n, |run|);
  }

  /** Resolving text, a marker, and more: the marker's own value goes in, and the rest is resolved next. */
  lemma ResolveAtMarker(refs: seq<VariableReference>, run: string, tail: string, n: nat, prefix: string)
    requires IsStem(prefix) && !Contains(run, prefix)
    requires n < |refs| && MarkersOf(refs, prefix) && MarkersVisible(refs)
    ensures Resolve(refs, run + (Marker(prefix, n) + tail)) ==
      var after := Resolve(refs, tail);
      if refs[n].selected.None? || after.None? then None else Some(run + (refs[n].selected.value + after.value))
  {
    hide NextMarker, Marker;
    var m := Marker(prefix, n);
    var s := run + (m + tail);
    FirstMarkerIsNext(refs, run, tail, n, prefix);
    assert s[..|run|] == run && s[|run| + |m|..] == tail;
    var after := Resolve(refs, tail);
    if refs[n].selected.Some? && after.Some? {
      assert run + refs[n].selected.value + after.value == run + (refs[n].selected.value + after.value);
    }
  }

  lemma NeverSpellsLater(pieces: seq<Piece>, k: nat, s: string)
    requires NeverSpells(pieces, s) && k <= |pieces|
    ensures NeverSpells(pieces[k..], s)
  {
    forall a | 0 <= a <= |pieces[k..]|
      ensures !Spells(pieces[k..], a, s)
    {
      if Spells(pieces[k..], a, s) {
        forall j | k + a <= j < k + a + |s|
          ensures pieces[j].Lit? && pieces[j].c == s[j - k - a]
        {
          assert pieces[k..][j - k] == pieces[j];
        }
        assert Spells(pieces, k + a, s);
      }
    }
  }

  // ---------------------------------------------------------------- the agreement

  /** What a successful inspection wrote and recorded. */
  lemma InspectionIsMasked(text: string, lookup: Lookup)
    ensures var prefix, scanned, r := FreshFrom(text, STEM), ScanText(text), Inspected(text, lookup);
            && IsStem(prefix) && NeverSpells(scanned.pieces, prefix)
            && (r.Ok? <==> scanned.error.None?)
            && (r.Ok? ==>
                  && r.value.text == Masked(scanned.pieces, prefix, 0)
                  && Describes(r.value.occurrences, 0, scanned.pieces, prefix, lookup)
                  && MarkersOf(r.value.occurrences, prefix) && MarkersVisible(r.value.occurrences))
  {
    var prefix, scanned := FreshFrom(text, STEM), ScanText(text);
    FreshPrefix(text, STEM);
    ScanTextAccounts(text);
    NoDollar(prefix);
    TextNeverSpells(scanned, text, prefix);
    InspectionWritesMarkers(NOTHING, scanned.pieces, prefix, lookup);
    hide FreshFrom, ScanText, Masked, Describes, EmitAll, NeverSpells, IsStem;
    var masked := Masked(scanned.pieces, prefix, 0);
    assert "" + masked == masked;
  }

  lemma NoDollar(prefix: string)
    requires IsStem(prefix)
    ensures '$' !in prefix
  {
    forall i | 0 <= i < |prefix|
      ensures prefix[i] != '$'
    {
      assert prefix[i] == if i < |STEM| then STEM[i] else 'x';
    }
  }

  /**
   Expansion succeeds exactly when inspection does and the masked document resolves, and then the
   two give the same text.
   */
  lemma ExpansionIsInspectionResolved(text: string, lookup: Lookup)
    ensures var x, r := Interpolated(text, lookup, None), Inspected(text, lookup);
            && (r.Ok? ==> MarkersVisible(r.value.occurrences))
            && (x.Ok? <==> r.Ok? && Resolve(r.value.occurrences, r.value.text).Some?)
            && (x.Ok? ==> Resolve(r.value.occurrences, r.value.text) == Some(x.value.text))
  {
    var scanned, prefix, r := ScanText(text), FreshFrom(text, STEM), Inspected(text, lookup);
    InspectionIsMasked(text, lookup);
    RuntimeWritesValues(NOTHING, scanned.pieces, lookup, None);
    hide FreshFrom, ScanText, Masked, Describes, EmitAll, NeverSpells, IsStem, Values;
    if r.Ok? {
      ResolveIsValues(r.value.occurrences, scanned.pieces, 0, prefix, lookup);
      var v := Values(scanned.pieces, lookup, None);
      assert v.Some? ==> "" + v.value == v.value;
    }
  }

  ghost function RefsIn(pieces: seq<Piece>): nat {
    if pieces == [] then 0 else (if pieces[0].Ref? then 1 else 0) + RefsIn(pieces[1..])
  }

  lemma {:induction false} MaskedInTwo(a: seq<Piece>, b: seq<Piece>, prefix: string, n: nat)
    ensures Masked(a + b, prefix, n) == Masked(a, prefix, n) + Masked(b, prefix, n + RefsIn(a))
    decreases |a|
  {
    if a == [] {
      assert a + b == b;
    } else {
      assert (a + b)[1..] == a[1..] + b;
      MaskedInTwo(a[1..], b, prefix, n + if a[0].Ref? then 1 else 0);
    }
  }

  lemma {:induction false} DescribesInTwo(refs: seq<VariableReference>, n: nat, a: seq<Piece>, b: seq<Piece>, prefix: string, lookup: Lookup)
    requires Describes(refs, n, a + b, prefix, lookup)
    ensures Describes(refs, n, a, prefix, lookup) && Describes(refs, n + RefsIn(a), b, prefix, lookup)
    decreases |a|
  {
    if a == [] {
      assert a + b == b;
      DescribesBounds(refs, n, b, prefix, lookup);
    } else {
      assert (a + b)[1..] == a[1..] + b;
      DescribesInTwo(refs, n + if a[0].Ref? then 1 else 0, a[1..], b, prefix, lookup);
    }
  }

  lemma {:induction false} DescribesBounds(refs: seq<VariableReference>, n: nat, b: seq<Piece>, prefix: string, lookup: Lookup)
    requires Describes(refs, n, b, prefix, lookup)
    ensures n <= |refs|
    decreases |b|
  {
    if b != [] && b[0].Lit? {
      DescribesBounds(refs, n, b[1..], prefix, lookup);
    }
  }

  /**
   A scalar is a stretch of the masked document.  Wherever it is cut out, as long as no marker is cut
   in two, it resolves to the stretch of the expanded document written from the same pieces.
   */
  lemma EveryScalarResolves(text: string, lookup: Lookup, a: seq<Piece>, b: seq<Piece>, c: seq<Piece>)
    requires ScanText(text) == Scanned(a + b + c, None)
    ensures var r, prefix := Inspected(text, lookup), FreshFrom(text, STEM);
            && r.Ok? && MarkersVisible(r.value.occurrences)
            && r.value.text == Masked(a, prefix, 0) + Masked(b, prefix, RefsIn(a)) + Masked(c, prefix, RefsIn(a) + RefsIn(b))
            && Resolve(r.value.occurrences, Masked(b, prefix, RefsIn(a))) == Values(b, lookup, None)
  {
    hide *;
    InspectionIsMasked(text, lookup);
    StretchResolves(Inspected(text, lookup).value.occurrences, a, b, c, FreshFrom(text, STEM), lookup);
  }

  lemma StretchResolves(refs: seq<VariableReference>, a: seq<Piece>, b: seq<Piece>, c: seq<Piece>, prefix: string, lookup: Lookup)
    requires IsStem(prefix) && NeverSpells(a + b + c, prefix)
    requires MarkersOf(refs, prefix) && MarkersVisible(refs) && Describes(refs, 0, a + b + c, prefix, lookup)
    ensures Masked(a + b + c, prefix, 0) ==
      Masked(a, prefix, 0) + Masked(b, prefix, RefsIn(a)) + Masked(c, prefix, RefsIn(a) + RefsIn(b))
    ensures Resolve(refs, Masked(b, prefix, RefsIn(a))) == Values(b, lookup, None)
  {
    hide *;
    MaskedInTwo(a + b, c, prefix, 0);
    MaskedInTwo(a, b, prefix, 0);
    RefsInTwo(a, b);
    DescribesInTwo(refs, 0, a + b, c, prefix, lookup);
    DescribesInTwo(refs, 0, a, b, prefix, lookup);
    NeverSpellsWithin(a, b, c, prefix);
    ResolveIsValues(refs, b, RefsIn(a), prefix, lookup);
  }

  lemma {:induction false} RefsInTwo(a: seq<Piece>, b: seq<Piece>)
    ensures RefsIn(a + b) == RefsIn(a) + RefsIn(b)
  {
    if a == [] {
      assert a + b == b;
    } else {
      assert (a + b)[1..] == a[1..] + b;
      RefsInTwo(a[1..], b);
    }
  }

  lemma NeverSpellsWithin(a: seq<Piece>, b: seq<Piece>, c: seq<Piece>, s: string)
    requires NeverSpells(a + b + c, s)
    ensures NeverSpells(b, s)
  {
    forall i | 0 <= i <= |b|
      ensures !Spells(b, i, s)
    {
      if Spells(b, i, s) {
        forall j | |a| + i <= j < |a| + i + |s|
          ensures (a + b + c)[j].Lit? && (a + b + c)[j].c == s[j - |a| - i]
        {
          assert (a + b + c)[j] == b[j - |a|];
        }
        assert Spells(a + b + c, |a| + i, s);
      }
    }
  }
}
