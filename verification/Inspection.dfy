/** Inspecting a document and resolving its markers gives what expanding it gives (config/interpolate.rs). */
module Inspection {
  import opened Prelude
  import opened Substrings
  import opened Interpolate

  // ---------------------------------------------------------------- entry points

  function Interpolated(text: string, lookup: Lookup, fallback: Option<string -> string>): Result<Expanded> {
    Continue(NOTHING, ScanText(text), Runtime(fallback), lookup)
  }

  function Inspected(text: string, lookup: Lookup): Result<Expanded> {
    Continue(NOTHING, ScanText(text), Inspecting(FreshFrom(text, STEM)), lookup)
  }

  const STEM: string := "lagos-vars-placeholder-"

  /** The marker prefix, lengthened until the text does not contain it. */
  function FreshFrom(text: string, prefix: string): string
    decreases |text| + 1 - |prefix|
  {
    if Find(prefix, text).Some? then FreshFrom(text, prefix + "x") else prefix
  }

  method Inspect(text: string, lookup: Lookup) returns (r: Result<Expanded>)
    ensures r == Inspected(text, lookup)
  {
    var prefix := STEM;
    while Find(prefix, text).Some?
      invariant FreshFrom(text, STEM) == FreshFrom(text, prefix)
      decreases |text| + 1 - |prefix|
    {
      prefix := prefix + "x";
    }
    r := Process(text, Inspecting(prefix), lookup);
  }

  datatype Hit = Hit(offset: nat, index: nat)

  /** The earliest marker in `rest`; among equals the first reference. */
  function NextMarker(refs: seq<VariableReference>, rest: string): (r: Option<Hit>)
    ensures r.Some? ==> r.value.index < |refs| && OccursAt(refs[r.value.index].marker, rest, r.value.offset)
  {
    if refs == [] then None
    else
      var n := |refs| - 1;
      var before := NextMarker(refs[..n], rest);
      var at := Find(refs[n].marker, rest);
      if at.Some? && (before.None? || at.value < before.value.offset) then Some(Hit(at.value, n)) else before
  }

  /** No marker occurs sooner, and where several begin together the first reference's is taken. */
  lemma {:induction false} NextMarkerIsEarliest(refs: seq<VariableReference>, rest: string, i: nat, at: nat)
    requires i < |refs| && OccursAt(refs[i].marker, rest, at)
    ensures var next := NextMarker(refs, rest);
            next.Some? && (next.value.offset < at || (next.value.offset == at && next.value.index <= i))
  {
    var n := |refs| - 1;
    if i < n {
      NextMarkerIsEarliest(refs[..n], rest, i, at);
    }
  }

  ghost predicate MarkersVisible(refs: seq<VariableReference>) {
    forall i :: 0 <= i < |refs| ==> refs[i].marker != ""
  }

  function Prefixed(out: string, tail: Option<string>): Option<string> {
    if tail.None? then None else Some(out + tail.value)
  }

  lemma PrefixedTwice(a: string, b: string, tail: Option<string>)
    ensures Prefixed(a, Prefixed(b, tail)) == Prefixed(a + b, tail)
  {
    if tail.Some? {
      assert a + (b + tail.value) == a + b + tail.value;
    }
  }

  /** Resolve a scalar taken from the masked document, looking at its own text only once. */
  function Resolve(refs: seq<VariableReference>, rest: string): Option<string>
    requires MarkersVisible(refs)
    decreases |rest|
  {
    var hit := NextMarker(refs, rest);
    if hit.None? then Some(rest)
    else
      var Hit(offset, index) := hit.value;
      if refs[index].selected.None? then None
      else Prefixed(rest[..offset] + refs[index].selected.value, Resolve(refs, rest[offset + |refs[index].marker|..]))
  }

  /** One turn of resolving: up to the next marker, its value, and on with the rest. */
  lemma ResolveStep(refs: seq<VariableReference>, rest: string, out: string)
    requires MarkersVisible(refs)
    ensures Prefixed(out, Resolve(refs, rest)) ==
      var hit := NextMarker(refs, rest);
      if hit.None? then Some(out + rest)
      else
        var Hit(offset, index) := hit.value;
        if refs[index].selected.None? then None
        else Prefixed(out + (rest[..offset] + refs[index].selected.value), Resolve(refs, rest[offset + |refs[index].marker|..]))
  {
    hide NextMarker;
    var hit := NextMarker(refs, rest);
    if hit.Some? && refs[hit.value.index].selected.Some? {
      var Hit(offset, index) := hit.value;
      PrefixedTwice(out, rest[..offset] + refs[index].selected.value, Resolve(refs, rest[offset + |refs[index].marker|..]));
    }
  }

  method EarliestMarker(refs: seq<VariableReference>, rest: string) returns (next: Option<Hit>)
    ensures next == NextMarker(refs, rest)
  {
    next := None;
    assert refs[..0] == [];
    for i := 0 to |refs|
      invariant next == NextMarker(refs[..i], rest)
    {
      assert refs[..i + 1][..i] == refs[..i];
      var at := Find(refs[i].marker, rest);
      if at.Some? && (next.None? || at.value < next.value.offset) {
        next := Some(Hit(at.value, i));
      }
    }
    assert refs[..|refs|] == refs;
  }

  method ResolveScalar(refs: seq<VariableReference>, scalar: string) returns (r: Option<string>)
    requires MarkersVisible(refs)
    ensures r == Resolve(refs, scalar)
  {
    hide Resolve, NextMarker;
    var rest := scalar;
    var out := "";
    assert forall t: string :: "" + t == t;
    while true
      invariant Resolve(refs, scalar) == Prefixed(out, Resolve(refs, rest))
      decreases |rest|
    {
      var next := EarliestMarker(refs, rest);
      ResolveStep(refs, rest, out);
      if next.None? {
        return Some(out + rest);
      }
      var Hit(offset, index) := next.value;
      if refs[index].selected.None? {
        return None;
      }
      assert out + rest[..offset] + refs[index].selected.value == out + (rest[..offset] + refs[index].selected.value);
      out := out + rest[..offset];
      out := out + refs[index].selected.value;
      rest := rest[offset + |refs[index].marker|..];
    }
  }

  // ---------------------------------------------------------------- what each mode writes

  /** The value a reference contributes: none if nothing gives it one, or if the value is unsafe. */
  function Selected(lookup: Lookup, p: Piece, fallback: Option<string -> string>): Option<string>
    requires p.Ref?
  {
    var v := Candidate(lookup, p);
    var w := if v.None? && fallback.Some? then Some(fallback.value(p.name)) else v;
    if w.Some? && IsStructurallySafe(w.value) then w else None
  }

  /** What one piece contributes to the expanded text. */
  function Contribution(p: Piece, lookup: Lookup, fallback: Option<string -> string>): Option<string> {
    if p.Lit? then Some([p.c]) else Selected(lookup, p, fallback)
  }

  /** The text with every reference filled in, if all can be. */
  ghost function Values(pieces: seq<Piece>, lookup: Lookup, fallback: Option<string -> string>): Option<string>
    decreases |pieces|
  {
    if pieces == [] then Some("")
    else
      var v := Contribution(pieces[0], lookup, fallback);
      if v.None? then None else Prefixed(v.value, Values(pieces[1..], lookup, fallback))
  }

  /** The text with the `n`th and later markers in place of the references. */
  ghost function Masked(pieces: seq<Piece>, prefix: string, n: nat): string
    decreases |pieces|
  {
    if pieces == [] then ""
    else if pieces[0].Lit? then [pieces[0].c] + Masked(pieces[1..], prefix, n)
    else Marker(prefix, n) + Masked(pieces[1..], prefix, n + 1)
  }

  lemma RuntimeWritesValue(x: Expanded, p: Piece, lookup: Lookup, fallback: Option<string -> string>)
    ensures var y := Emit(x, p, Runtime(fallback), lookup);
            var v := Contribution(p, lookup, fallback);
            (y.Ok? <==> v.Some?) && (y.Ok? ==> y.value.text == x.text + v.value)
  {
  }

  lemma ExpandFirst(x: Expanded, pieces: seq<Piece>, lookup: Lookup, fallback: Option<string -> string>)
    requires pieces != []
    ensures EmitAll(x, pieces, Runtime(fallback), lookup) ==
      var y := Emit(x, pieces[0], Runtime(fallback), lookup);
      if y.Err? then y else EmitAll(y.value, pieces[1..], Runtime(fallback), lookup)
    ensures Values(pieces, lookup, fallback) ==
      var v := Contribution(pieces[0], lookup, fallback);
      if v.None? then None else Prefixed(v.value, Values(pieces[1..], lookup, fallback))
  {
  }

  lemma {:induction false} RuntimeWritesValues(x: Expanded, pieces: seq<Piece>, lookup: Lookup, fallback: Option<string -> string>)
    ensures var y := EmitAll(x, pieces, Runtime(fallback), lookup);
            var v := Values(pieces, lookup, fallback);
            (y.Ok? <==> v.Some?) && (y.Ok? ==> y.value.text == x.text + v.value)
    decreases |pieces|
  {
    if pieces == [] {
      assert x.text + "" == x.text;
    } else {
      hide Emit, EmitAll, Contribution, Values;
      ExpandFirst(x, pieces, lookup, fallback);
      RuntimeWritesValue(x, pieces[0], lookup, fallback);
      var y := Emit(x, pieces[0], Runtime(fallback), lookup);
      if y.Ok? {
        RuntimeWritesValues(y.value, pieces[1..], lookup, fallback);
        PrefixedTwice(x.text, Contribution(pieces[0], lookup, fallback).value, Values(pieces[1..], lookup, fallback));
      }
    }
  }

  /** The references recorded from the `n`th on are those of `pieces`, in order. */
  ghost predicate Describes(refs: seq<VariableReference>, n: nat, pieces: seq<Piece>, prefix: string, lookup: Lookup)
    decreases |pieces|
  {
    if pieces == [] then n <= |refs|
    else if pieces[0].Lit? then Describes(refs, n, pieces[1..], prefix, lookup)
    else
      && n < |refs|
      && refs[n].marker == Marker(prefix, n) && refs[n].selected == Selected(lookup, pieces[0], None)
      && Describes(refs, n + 1, pieces[1..], prefix, lookup)
  }

  /** Every recorded reference carries the marker of its own number. */
  ghost predicate MarkersOf(refs: seq<VariableReference>, prefix: string) {
    forall i :: 0 <= i < |refs| ==> refs[i].marker == Marker(prefix, i)
  }

  lemma InspectionRecords(x: Expanded, p: Piece, prefix: string, lookup: Lookup)
    ensures var n := |x.occurrences|;
            var y := Emit(x, p, Inspecting(prefix), lookup);
            && y.Ok?
            && y.value.text == x.text + (if p.Lit? then [p.c] else Marker(prefix, n))
            && x.occurrences <= y.value.occurrences
            && |y.value.occurrences| == n + (if p.Lit? then 0 else 1)
            && (p.Ref? ==> y.value.occurrences[n].marker == Marker(prefix, n) && y.value.occurrences[n].selected == Selected(lookup, p, None))
  {
  }

  lemma {:induction false} InspectionWritesMarkers(x: Expanded, pieces: seq<Piece>, prefix: string, lookup: Lookup)
    ensures var y := EmitAll(x, pieces, Inspecting(prefix), lookup);
            && y.Ok?
            && y.value.text == x.text + Masked(pieces, prefix, |x.occurrences|)
            && x.occurrences <= y.value.occurrences
            && Describes(y.value.occurrences, |x.occurrences|, pieces, prefix, lookup)
            && (MarkersOf(x.occurrences, prefix) ==> MarkersOf(y.value.occurrences, prefix))
    decreases |pieces|
  {
    if pieces != [] {
      hide Emit, Marker, Selected;
      InspectionRecords(x, pieces[0], prefix, lookup);
      var y := Emit(x, pieces[0], Inspecting(prefix), lookup).value;
      InspectionWritesMarkers(y, pieces[1..], prefix, lookup);
      if pieces[0].Ref? {
        var n := |x.occurrences|;
        assert EmitAll(y, pieces[1..], Inspecting(prefix), lookup).value.occurrences[n] == y.occurrences[n];
      }
    }
  }
}
