/**
 What a `${...}` reference is and what it comes out as, stated on the characters themselves
 (config/interpolate.rs).
 */
module References {
  import opened Prelude
  import opened Text
  import opened Trimming
  import opened Interpolate
  import opened Inspection

  /** Control characters and the characters of names, by code point. */
  lemma CharactersAre(c: char)
    ensures IsControl(c) <==> var n := c as int; n < 0x20 || 0x7F <= n <= 0x9F
    ensures IsNameStart(c) <==> var n := c as int; 0x41 <= n <= 0x5A || 0x61 <= n <= 0x7A || n == 0x5F
    ensures IsNameChar(c) <==> IsNameStart(c) || 0x30 <= c as int <= 0x39
  {
  }

  // ---------------------------------------------------------------- what a reference comes out as

  ghost predicate SetFor(lookup: Lookup, name: string) {
    lookup(name).Some? && !AllSpace(lookup(name).value)
  }

  /**
   `w` fills a reference in: the value of a variable that is set and not blank, without the white space
   around it; otherwise the default as it is written; otherwise the fallback's answer.
   */
  ghost predicate FillsIn(w: string, name: string, default: Option<string>, lookup: Lookup, fallback: Option<string -> string>) {
    if SetFor(lookup, name) then Bare(lookup(name).value, w)
    else if default.Some? then w == default.value
    else fallback.Some? && w == fallback.value(name)
  }

  /** No character below 32 and none from 127 to 159. */
  ghost predicate Harmless(w: string) {
    forall i :: 0 <= i < |w| ==> 0x20 <= w[i] as int < 0x7F || 0x9F < w[i] as int
  }

  /** `part` is what piece `p` contributes. */
  ghost predicate PartOf(part: string, p: Piece, lookup: Lookup, fallback: Option<string -> string>) {
    match p
    case Lit(c, _) => part == [c]
    case Ref(name, default, _, _) => FillsIn(part, name, default, lookup, fallback) && Harmless(part)
  }

  ghost predicate CanFill(p: Piece, lookup: Lookup, fallback: Option<string -> string>) {
    exists part :: PartOf(part, p, lookup, fallback)
  }

  lemma HarmlessIs(w: string)
    ensures Harmless(w) <==> IsStructurallySafe(w)
  {
  }

  lemma FillsInIs(w: string, p: Piece, lookup: Lookup, fallback: Option<string -> string>)
    requires p.Ref?
    ensures FillsIn(w, p.name, p.default, lookup, fallback) <==>
              var v := Candidate(lookup, p);
              Some(w) == if v.None? && fallback.Some? then Some(fallback.value(p.name)) else v
  {
    var v := lookup(p.name);
    hide Trim, AllSpace, Bare;
    if v.Some? {
      BlankIs(v.value);
      BareIsTrim(v.value, w);
    }
  }

  lemma PartIs(w: string, p: Piece, lookup: Lookup, fallback: Option<string -> string>)
    ensures PartOf(w, p, lookup, fallback) <==> Contribution(p, lookup, fallback) == Some(w)
  {
    HarmlessIs(w);
    hide FillsIn, Candidate, Harmless, IsStructurallySafe;
    if p.Ref? {
      FillsInIs(w, p, lookup, fallback);
    }
  }

  lemma CanFillIs(p: Piece, lookup: Lookup, fallback: Option<string -> string>)
    ensures CanFill(p, lookup, fallback) <==> Contribution(p, lookup, fallback).Some?
  {
    hide Contribution, PartOf;
    var v := Contribution(p, lookup, fallback);
    if v.Some? {
      PartIs(v.value, p, lookup, fallback);
    }
    if CanFill(p, lookup, fallback) {
      var part :| PartOf(part, p, lookup, fallback);
      PartIs(part, p, lookup, fallback);
    }
  }

  ghost function Concat(parts: seq<string>): string {
    if parts == [] then "" else parts[0] + Concat(parts[1..])
  }

  ghost predicate PartsOf(parts: seq<string>, pieces: seq<Piece>, lookup: Lookup, fallback: Option<string -> string>) {
    |parts| == |pieces| && forall i :: 0 <= i < |parts| ==> PartOf(parts[i], pieces[i], lookup, fallback)
  }

  ghost predicate AllFill(pieces: seq<Piece>, lookup: Lookup, fallback: Option<string -> string>) {
    forall i :: 0 <= i < |pieces| ==> CanFill(pieces[i], lookup, fallback)
  }

  lemma {:induction false} ValuesAreParts(pieces: seq<Piece>, lookup: Lookup, fallback: Option<string -> string>) returns (parts: seq<string>)
    ensures Values(pieces, lookup, fallback).Some? <==> AllFill(pieces, lookup, fallback)
    ensures AllFill(pieces, lookup, fallback) ==>
              PartsOf(parts, pieces, lookup, fallback) && Values(pieces, lookup, fallback) == Some(Concat(parts))
    decreases |pieces|
  {
    hide Contribution, PartOf, CanFill;
    parts := [];
    if pieces != [] {
      var later := ValuesAreParts(pieces[1..], lookup, fallback);
      CanFillIs(pieces[0], lookup, fallback);
      assert AllFill(pieces, lookup, fallback) <==> CanFill(pieces[0], lookup, fallback) && AllFill(pieces[1..], lookup, fallback) by {
        FirstAndLater(pieces, lookup, fallback);
      }
      if AllFill(pieces, lookup, fallback) {
        var v := Contribution(pieces[0], lookup, fallback).value;
        PartIs(v, pieces[0], lookup, fallback);
        parts := [v] + later;
        assert parts[1..] == later;
      }
    }
  }

  lemma FirstAndLater(pieces: seq<Piece>, lookup: Lookup, fallback: Option<string -> string>)
    requires pieces != []
    ensures AllFill(pieces, lookup, fallback) <==> CanFill(pieces[0], lookup, fallback) && AllFill(pieces[1..], lookup, fallback)
  {
    hide CanFill;
    if CanFill(pieces[0], lookup, fallback) && AllFill(pieces[1..], lookup, fallback) {
      forall i | 0 <= i < |pieces|
        ensures CanFill(pieces[i], lookup, fallback)
      {
        assert i == 0 || pieces[i] == pieces[1..][i - 1];
      }
    }
  }

  /**
   Expansion writes each variable's own value.  A document expands exactly when it is well formed and every
   reference can be filled in with harmless text; the result is then its pieces one after another, each
   reference replaced by what fills it in.
   */
  lemma ExpansionFillsIn(text: string, lookup: Lookup, fallback: Option<string -> string>) returns (parts: seq<string>)
    ensures var r, scanned := Interpolated(text, lookup, fallback), ScanText(text);
            && (r.Ok? <==> scanned.error.None? && AllFill(scanned.pieces, lookup, fallback))
            && (r.Ok? ==> PartsOf(parts, scanned.pieces, lookup, fallback) && r.value.text == Concat(parts))
  {
    hide Values, EmitAll, ScanText, PartsOf, AllFill;
    var pieces := ScanText(text).pieces;
    RuntimeWritesValues(NOTHING, pieces, lookup, fallback);
    parts := ValuesAreParts(pieces, lookup, fallback);
  }

  // ---------------------------------------------------------------- which error is reported

  /** Something would fill the reference in, harmless or not. */
  ghost predicate HasText(p: Piece, lookup: Lookup, fallback: Option<string -> string>) {
    p.Lit? || exists w :: FillsIn(w, p.name, p.default, lookup, fallback)
  }

  lemma HasTextIs(p: Piece, lookup: Lookup, fallback: Option<string -> string>)
    requires p.Ref?
    ensures HasText(p, lookup, fallback) <==> Candidate(lookup, p).Some? || fallback.Some?
  {
    hide Candidate, FillsIn;
    var v := Candidate(lookup, p);
    if v.Some? || fallback.Some? {
      FillsInIs(if v.Some? then v.value else fallback.value(p.name), p, lookup, fallback);
    }
    if HasText(p, lookup, fallback) {
      var w :| FillsIn(w, p.name, p.default, lookup, fallback);
      FillsInIs(w, p, lookup, fallback);
    }
  }

  /** What is wrong with a piece that cannot be filled in. */
  function Complaint(p: Piece, hasText: bool): Error
    requires p.Ref?
  {
    if hasText then ControlCharacter(p.name, p.line) else Unset(p.name, p.line)
  }

  lemma EmitFails(x: Expanded, p: Piece, lookup: Lookup, fallback: Option<string -> string>)
    ensures var y := Emit(x, p, Runtime(fallback), lookup);
            && (y.Ok? <==> CanFill(p, lookup, fallback))
            && (y.Err? ==> p.Ref? && y.error == Complaint(p, HasText(p, lookup, fallback)))
  {
    CanFillIs(p, lookup, fallback);
    if p.Ref? {
      HasTextIs(p, lookup, fallback);
    }
    hide CanFill, HasText;
  }

  lemma {:induction false} FirstFailure(x: Expanded, pieces: seq<Piece>, lookup: Lookup, fallback: Option<string -> string>) returns (i: nat)
    requires !AllFill(pieces, lookup, fallback)
    ensures i < |pieces| && !CanFill(pieces[i], lookup, fallback) && AllFill(pieces[..i], lookup, fallback)
    ensures pieces[i].Ref? && EmitAll(x, pieces, Runtime(fallback), lookup) == Err(Complaint(pieces[i], HasText(pieces[i], lookup, fallback)))
    decreases |pieces|
  {
    hide Emit, CanFill, HasText, Complaint;
    i := 0;
    EmitFails(x, pieces[0], lookup, fallback);
    FirstAndLater(pieces, lookup, fallback);
    var y := Emit(x, pieces[0], Runtime(fallback), lookup);
    if y.Ok? {
      i := FirstFailure(y.value, pieces[1..], lookup, fallback);
      assert pieces[..i + 1][1..] == pieces[1..][..i];
      FirstAndLater(pieces[..i + 1], lookup, fallback);
      i := i + 1;
    }
  }

  /**
   The first thing wrong is what is reported, by name and line: a reference that nothing fills in, one that
   only text with a control character would, or the malformed reference everything before which is fine.
   */
  lemma FirstErrorIsReported(text: string, lookup: Lookup, fallback: Option<string -> string>) returns (i: nat)
    ensures var r, scanned := Interpolated(text, lookup, fallback), ScanText(text);
            r.Err? ==>
              if AllFill(scanned.pieces, lookup, fallback) then scanned.error == Some(r.error)
              else
                && i < |scanned.pieces| && AllFill(scanned.pieces[..i], lookup, fallback)
                && var p := scanned.pieces[i];
                   && p.Ref? && !CanFill(p, lookup, fallback)
                   && r.error == if HasText(p, lookup, fallback) then ControlCharacter(p.name, p.line) else Unset(p.name, p.line)
  {
    hide EmitAll, ScanText, AllFill, CanFill, HasText, PartsOf, Concat;
    i := 0;
    var scanned := ScanText(text);
    if !AllFill(scanned.pieces, lookup, fallback) {
      i := FirstFailure(NOTHING, scanned.pieces, lookup, fallback);
    } else {
      RuntimeWritesValues(NOTHING, scanned.pieces, lookup, fallback);
      var parts := ValuesAreParts(scanned.pieces, lookup, fallback);
    }
  }

  // ---------------------------------------------------------------- what is reported of a success

  datatype Fate = Mentioned | FromDefault | FromFallback

  /** A reference of this name with this fate. */
  ghost predicate Meets(p: Piece, name: string, fate: Fate, lookup: Lookup) {
    && p.Ref? && p.name == name
    && match fate
       case Mentioned => true
       case FromDefault => !SetFor(lookup, name) && p.default.Some?
       case FromFallback => !SetFor(lookup, name) && p.default.None?
  }

  /** The names of one fate, each once, in the order they are first met. */
  ghost predicate Lists(list: seq<string>, pieces: seq<Piece>, fate: Fate, lookup: Lookup) {
    && (forall i, j :: 0 <= i < j < |list| ==> list[i] != list[j])
    && (forall i :: 0 <= i < |pieces| && pieces[i].Ref? && Meets(pieces[i], pieces[i].name, fate, lookup) ==> pieces[i].name in list)
    && (forall i :: 0 <= i < |list| ==> MetAfter(list, i, pieces, fate, lookup))
  }

  /** The `i`th name is met, and nothing listed after it is met before that. */
  ghost predicate MetAfter(list: seq<string>, i: nat, pieces: seq<Piece>, fate: Fate, lookup: Lookup)
    requires i < |list|
  {
    exists k :: 0 <= k < |pieces| && Meets(pieces[k], list[i], fate, lookup)
      && forall j, m :: i < j < |list| && 0 <= m < k ==> !Meets(pieces[m], list[j], fate, lookup)
  }

  /** What a piece adds to the list of one fate. */
  function Noted(list: seq<string>, p: Piece, fate: Fate, lookup: Lookup): seq<string> {
    if p.Lit? then list
    else
      var unset := Resolved(lookup, p.name).None?;
      match fate
      case Mentioned => Note(list, p.name)
      case FromDefault => if unset && p.default.Some? then Note(list, p.name) else list
      case FromFallback => if unset && p.default.None? then Note(list, p.name) else list
  }

  lemma NotedIs(list: seq<string>, p: Piece, fate: Fate, lookup: Lookup)
    ensures Noted(list, p, fate, lookup) ==
      if p.Ref? && Meets(p, p.name, fate, lookup) && p.name !in list then list + [p.name] else list
  {
    if p.Ref? && lookup(p.name).Some? {
      BlankIs(lookup(p.name).value);
    }
    hide Trim, AllSpace;
  }

  lemma EmitNotes(x: Expanded, p: Piece, lookup: Lookup, fallback: Option<string -> string>)
    ensures var y := Emit(x, p, Runtime(fallback), lookup);
            y.Ok? ==>
              && y.value.referenced == Noted(x.referenced, p, Mentioned, lookup)
              && y.value.defaulted == Noted(x.defaulted, p, FromDefault, lookup)
              && y.value.placeheld == Noted(x.placeheld, p, FromFallback, lookup)
  {
    hide Resolved;
  }

  lemma MetAlready(list: seq<string>, i: nat, pieces: seq<Piece>, p: Piece, fate: Fate, lookup: Lookup)
    requires i < |list| && MetAfter(list, i, pieces, fate, lookup)
    ensures MetAfter(list, i, pieces + [p], fate, lookup)
  {
    hide Meets;
    var k :| 0 <= k < |pieces| && Meets(pieces[k], list[i], fate, lookup)
      && forall j, m :: i < j < |list| && 0 <= m < k ==> !Meets(pieces[m], list[j], fate, lookup);
    assert forall m :: 0 <= m <= k ==> (pieces + [p])[m] == pieces[m];
  }

  lemma MetWithOneMore(list: seq<string>, i: nat, pieces: seq<Piece>, name: string, fate: Fate, lookup: Lookup)
    requires i < |list| && MetAfter(list, i, pieces, fate, lookup)
    requires forall m :: 0 <= m < |pieces| ==> !Meets(pieces[m], name, fate, lookup)
    ensures MetAfter(list + [name], i, pieces, fate, lookup)
  {
    hide Meets;
    var k :| 0 <= k < |pieces| && Meets(pieces[k], list[i], fate, lookup)
      && forall j, m :: i < j < |list| && 0 <= m < k ==> !Meets(pieces[m], list[j], fate, lookup);
    assert (list + [name])[i] == list[i];
    forall j, m | i < j < |list| + 1 && 0 <= m < k
      ensures !Meets(pieces[m], (list + [name])[j], fate, lookup)
    {
      assert (list + [name])[j] == if j < |list| then list[j] else name;
    }
  }

  lemma ListsOneMore(list: seq<string>, pieces: seq<Piece>, p: Piece, fate: Fate, lookup: Lookup)
    requires Lists(list, pieces, fate, lookup)
    ensures Lists(Noted(list, p, fate, lookup), pieces + [p], fate, lookup)
  {
    NotedIs(list, p, fate, lookup);
    hide Noted, MetAfter;
    var next := Noted(list, p, fate, lookup);
    forall i | 0 <= i < |list|
      ensures MetAfter(next, i, pieces + [p], fate, lookup)
    {
      if next != list {
        NotMet(list, pieces, p.name, fate, lookup);
        MetWithOneMore(list, i, pieces, p.name, fate, lookup);
      }
      MetAlready(next, i, pieces, p, fate, lookup);
    }
    if next != list {
      LastIsMet(list, pieces, p, fate, lookup);
    }
    forall i | 0 <= i < |pieces| + 1 && (pieces + [p])[i].Ref? && Meets((pieces + [p])[i], (pieces + [p])[i].name, fate, lookup)
      ensures (pieces + [p])[i].name in next
    {
      assert i < |pieces| ==> (pieces + [p])[i] == pieces[i];
    }
  }

  lemma NotMet(list: seq<string>, pieces: seq<Piece>, name: string, fate: Fate, lookup: Lookup)
    requires Lists(list, pieces, fate, lookup) && name !in list
    ensures forall m :: 0 <= m < |pieces| ==> !Meets(pieces[m], name, fate, lookup)
  {
  }

  lemma LastIsMet(list: seq<string>, pieces: seq<Piece>, p: Piece, fate: Fate, lookup: Lookup)
    requires p.Ref? && Meets(p, p.name, fate, lookup)
    ensures MetAfter(list + [p.name], |list|, pieces + [p], fate, lookup)
  {
    hide Meets;
    assert (pieces + [p])[|pieces|] == p;
  }

  lemma {:induction false} ListsAfter(pieces: seq<Piece>, lookup: Lookup, fallback: Option<string -> string>)
    ensures var y := EmitAll(NOTHING, pieces, Runtime(fallback), lookup);
            y.Ok? ==>
              && Lists(y.value.referenced, pieces, Mentioned, lookup)
              && Lists(y.value.defaulted, pieces, FromDefault, lookup)
              && Lists(y.value.placeheld, pieces, FromFallback, lookup)
    decreases |pieces|
  {
    if pieces != [] {
      var n := |pieces| - 1;
      var before, p := pieces[..n], pieces[n];
      ListsAfter(before, lookup, fallback);
      assert pieces == before + [p];
      EmitAppend(NOTHING, before, [p], Runtime(fallback), lookup);
      var x := EmitAll(NOTHING, before, Runtime(fallback), lookup);
      if x.Ok? {
        EmitOne(x.value, p, Runtime(fallback), lookup);
        EmitNotes(x.value, p, lookup, fallback);
        hide *;
        ListsOneMore(x.value.referenced, before, p, Mentioned, lookup);
        ListsOneMore(x.value.defaulted, before, p, FromDefault, lookup);
        ListsOneMore(x.value.placeheld, before, p, FromFallback, lookup);
      }
    }
  }

  lemma EmitOne(x: Expanded, p: Piece, mode: Mode, lookup: Lookup)
    ensures EmitAll(x, [p], mode, lookup) == Emit(x, p, mode, lookup)
  {
    hide Emit;
  }

  /**
   A successful expansion names every variable the document refers to, those that took their default and
   those that took the fallback, each list without repetition and in the order of first meeting.
   */
  lemma NamesAreReported(text: string, lookup: Lookup, fallback: Option<string -> string>)
    requires Interpolated(text, lookup, fallback).Ok?
    ensures var x, pieces := Interpolated(text, lookup, fallback).value, ScanText(text).pieces;
            && Lists(x.referenced, pieces, Mentioned, lookup)
            && Lists(x.defaulted, pieces, FromDefault, lookup)
            && Lists(x.placeheld, pieces, FromFallback, lookup)
  {
    hide EmitAll, ScanText, Lists;
    ListsAfter(ScanText(text).pieces, lookup, fallback);
  }

  // ---------------------------------------------------------------- what inspection records

  ghost function RefsOf(pieces: seq<Piece>): (r: seq<Piece>)
    ensures forall i :: 0 <= i < |r| ==> r[i].Ref?
  {
    if pieces == [] then []
    else if pieces[|pieces| - 1].Ref? then RefsOf(pieces[..|pieces| - 1]) + [pieces[|pieces| - 1]]
    else RefsOf(pieces[..|pieces| - 1])
  }

  /** The record of one reference: whether it is set, falls to its default, lacks a value or has a harmful one, and the value. */
  ghost predicate Records(v: VariableReference, p: Piece, lookup: Lookup)
    requires p.Ref?
  {
    && v.name == p.name && v.line == p.line && v.hasDefault == p.default.Some?
    && if !HasText(p, lookup, None) then v.state == Required && v.selected == None
       else
         exists w :: FillsIn(w, p.name, p.default, lookup, None) &&
           if Harmless(w) then v.selected == Some(w) && v.state == (if SetFor(lookup, p.name) then Set else Defaulted)
           else v.selected == None && v.state == Invalid
  }

  lemma EmitRecords(x: Expanded, p: Piece, prefix: string, lookup: Lookup)
    ensures var y := Emit(x, p, Inspecting(prefix), lookup);
            && y.Ok?
            && if p.Lit? then y.value.occurrences == x.occurrences
               else
                 && |y.value.occurrences| == |x.occurrences| + 1 && x.occurrences <= y.value.occurrences
                 && Records(y.value.occurrences[|x.occurrences|], p, lookup)
  {
    if p.Ref? {
      HasTextIs(p, lookup, None);
      SetForIs(lookup, p.name);
      var v := Candidate(lookup, p);
      if v.Some? {
        FillsInIs(v.value, p, lookup, None);
        HarmlessIs(v.value);
      }
      hide HasText, SetFor, FillsIn, Harmless, IsStructurallySafe, Marker, Resolved;
      assert v.Some? ==> FillsIn(v.value, p.name, p.default, lookup, None);
    }
  }

  lemma SetForIs(lookup: Lookup, name: string)
    ensures SetFor(lookup, name) <==> Resolved(lookup, name).Some?
  {
    if lookup(name).Some? {
      BlankIs(lookup(name).value);
    }
    hide Trim, AllSpace;
  }

  ghost predicate AllRecorded(refs: seq<VariableReference>, pieces: seq<Piece>, lookup: Lookup) {
    |refs| == |RefsOf(pieces)| && forall i :: 0 <= i < |refs| ==> Records(refs[i], RefsOf(pieces)[i], lookup)
  }

  lemma {:induction false} RecordsAfter(pieces: seq<Piece>, prefix: string, lookup: Lookup)
    ensures var y := EmitAll(NOTHING, pieces, Inspecting(prefix), lookup);
            y.Ok? && AllRecorded(y.value.occurrences, pieces, lookup)
    decreases |pieces|
  {
    hide Emit, Records;
    if pieces != [] {
      var n := |pieces| - 1;
      var before, p := pieces[..n], pieces[n];
      RecordsAfter(before, prefix, lookup);
      assert pieces == before + [p];
      EmitAppend(NOTHING, before, [p], Inspecting(prefix), lookup);
      var x := EmitAll(NOTHING, before, Inspecting(prefix), lookup).value;
      EmitOne(x, p, Inspecting(prefix), lookup);
      EmitRecords(x, p, prefix, lookup);
    }
  }

  /**
   Inspection reads every document that is well formed and records each reference in order, with the state
   and the value expansion would find for it.
   */
  lemma InspectionRecordsAll(text: string, lookup: Lookup)
    ensures var r, scanned := Inspected(text, lookup), ScanText(text);
            && (r.Err? <==> scanned.error.Some?) && (r.Err? ==> r.error == scanned.error.value)
            && (r.Ok? ==> AllRecorded(r.value.occurrences, scanned.pieces, lookup))
  {
    hide EmitAll, ScanText, AllRecorded;
    RecordsAfter(ScanText(text).pieces, FreshFrom(text, STEM), lookup);
  }
}
