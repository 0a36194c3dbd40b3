/** Which raw paths are accepted and as what, stated on their bytes (path.rs). */
module PathAcceptance {
  import opened Prelude
  import opened Splitting
  import opened RequestPath

  // ---------------------------------------------------------------- segments

  /** A stretch between slashes, or between one and an end of the path. */
  ghost predicate SegmentAt(p: Bytes, a: nat, b: nat) {
    && a <= b <= |p| && (a == 0 || p[a - 1] == 0x2F) && (b == |p| || p[b] == 0x2F)
    && forall i :: a <= i < b ==> p[i] != 0x2F
  }

  ghost predicate NoEmptySegment(p: Bytes) {
    forall a: nat, b: nat :: SegmentAt(p, a, b) ==> a < b
  }

  /** No segment is `.` or `..`. */
  ghost predicate NoDotSegment(p: Bytes) {
    forall a: nat, b: nat :: SegmentAt(p, a, b) ==> p[a..b] != [0x2E] && p[a..b] != [0x2E, 0x2E]
  }

  /** A segment of the rest of a path is one of the path, one place further on. */
  lemma SegmentShifts(s: Bytes, a: nat, b: nat)
    requires s != [] && SegmentAt(s[1..], a, b) && (0 < a || s[0] == SLASH)
    ensures SegmentAt(s, a + 1, b + 1)
  {
  }

  /** The first segment of the rest of a path is that of the path without its first byte. */
  lemma SegmentGrows(s: Bytes, b: nat)
    requires s != [] && SegmentAt(s[1..], 0, b) && s[0] != SLASH
    ensures SegmentAt(s, 0, b + 1)
  {
  }

  lemma EmptyAtStart(s: Bytes)
    requires s == [] || s[0] == SLASH
    ensures SegmentAt(s, 0, 0)
  {
  }

  lemma StretchOfRest(s: Bytes, a: nat, b: nat)
    requires s != [] && a <= b < |s|
    ensures s[a + 1..b + 1] == s[1..][a..b]
    ensures s[..b + 1] == [s[0]] + s[1..][..b]
  {
  }

  lemma {:induction false} PartHolds(s: Bytes, i: nat) returns (a: nat)
    requires i < |Split(s, SLASH)|
    ensures var part := Split(s, SLASH)[i]; SegmentAt(s, a, a + |part|) && a + |part| <= |s| && s[a..a + |part|] == part
    ensures a == 0 <==> i == 0
    decreases |s|
  {
    hide SegmentAt;
    a := 0;
    if s == [] || (s[0] == SLASH && i == 0) {
      EmptyAtStart(s);
    } else {
      var rest := Split(s[1..], SLASH);
      SplitFirst(s);
      hide Split;
      if s[0] == SLASH {
        var b := PartHolds(s[1..], i - 1);
        SegmentShifts(s, b, b + |rest[i - 1]|);
        StretchOfRest(s, b, b + |rest[i - 1]|);
        a := b + 1;
      } else {
        var b := PartHolds(s[1..], i);
        StretchOfRest(s, b, b + |rest[i]|);
        if i == 0 {
          SegmentGrows(s, |rest[0]|);
        } else {
          SegmentShifts(s, b, b + |rest[i]|);
          a := b + 1;
        }
      }
    }
  }

  lemma {:induction false} SegmentIsPart(s: Bytes, a: nat, b: nat)
    requires SegmentAt(s, a, b)
    ensures if a == 0 then s[a..b] == Split(s, SLASH)[0] else s[a..b] in Split(s, SLASH)[1..]
  {
    hide SegmentAt;
    WithinPath(s, a, b);
    if s != [] {
      var rest := Split(s[1..], SLASH);
      SplitFirst(s);
      hide Split;
      SegmentAfter(s, a, b);
      if a == 0 {
        if 0 < b {
          SegmentIsPart(s[1..], 0, b - 1);
          StretchOfRest(s, 0, b - 1);
        }
      } else {
        SegmentIsPart(s[1..], a - 1, b - 1);
        StretchOfRest(s, a - 1, b - 1);
        assert forall x :: x in rest[1..] ==> x in rest;
      }
    }
  }

  lemma SplitFirst(s: Bytes)
    requires s != []
    ensures var rest := Split(s[1..], SLASH);
            if s[0] == SLASH then Split(s, SLASH)[0] == [] && Split(s, SLASH)[1..] == rest
            else Split(s, SLASH)[0] == [s[0]] + rest[0] && Split(s, SLASH)[1..] == rest[1..]
  {
  }

  lemma SegmentAfter(s: Bytes, a: nat, b: nat)
    requires s != [] && SegmentAt(s, a, b)
    ensures a == 0 ==> (b == 0 <==> s[0] == SLASH) && (0 < b ==> SegmentAt(s[1..], 0, b - 1))
    ensures 0 < a ==> SegmentAt(s[1..], a - 1, b - 1) && (a == 1 ==> s[0] == SLASH)
  {
  }

  lemma SegmentsAre(p: Bytes)
    ensures NoEmptySegment(p) <==> forall i :: 0 <= i < |Split(p, SLASH)| ==> Split(p, SLASH)[i] != []
    ensures NoDotSegment(p) <==> !HoldsDotSegment(Split(p, SLASH))
  {
    hide Split, SegmentAt;
    var parts := Split(p, SLASH);
    forall i | 0 <= i < |parts|
      ensures NoEmptySegment(p) ==> parts[i] != []
      ensures NoDotSegment(p) ==> !DotSegment(parts[i])
    {
      var a := PartHolds(p, i);
    }
    forall a: nat, b: nat | SegmentAt(p, a, b)
      ensures a <= b <= |p| && p[a..b] in parts
    {
      WithinPath(p, a, b);
      SegmentIsPart(p, a, b);
      assert forall x :: x in parts[1..] ==> x in parts;
    }
  }

  lemma WithinPath(p: Bytes, a: nat, b: nat)
    requires SegmentAt(p, a, b)
    ensures a <= b <= |p|
  {
  }

  // ---------------------------------------------------------------- accepted paths

  /** No control character, no delete, no backslash. */
  ghost predicate Printable(p: Bytes) {
    forall i :: 0 <= i < |p| ==> 0x20 <= p[i] && p[i] != 0x7F && p[i] != 0x5C
  }

  lemma PrintableIs(p: Bytes)
    ensures Printable(p) <==> !HoldsHostile(p)
  {
    forall i | 0 <= i < |p|
      ensures Hostile(p[i]) <==> !(0x20 <= p[i] && p[i] != 0x7F && p[i] != 0x5C)
    {
    }
  }

  lemma {:induction false} NonEmptyHasNoDots(parts: seq<Bytes>)
    ensures HoldsDotSegment(NonEmpty(parts)) <==> HoldsDotSegment(parts)
  {
    hide DotSegment;
    EmptyIsNoDot();
    if parts != [] {
      NonEmptyHasNoDots(parts[1..]);
      var later := NonEmpty(parts[1..]);
      if i :| 0 <= i < |parts| && DotSegment(parts[i]) {
        if i == 0 {
          assert NonEmpty(parts)[0] == parts[0];
        } else {
          assert DotSegment(parts[1..][i - 1]);
          var j :| 0 <= j < |later| && DotSegment(later[j]);
          assert NonEmpty(parts)[|NonEmpty(parts)| - |later| + j] == later[j];
        }
      }
      if j :| 0 <= j < |NonEmpty(parts)| && DotSegment(NonEmpty(parts)[j]) {
        var front := |NonEmpty(parts)| - |later|;
        if front <= j {
          assert DotSegment(later[j - front]);
          var i :| 0 <= i < |parts[1..]| && DotSegment(parts[1..][i]);
          assert DotSegment(parts[i + 1]);
        } else {
          assert DotSegment(parts[0]);
        }
      }
    }
  }

  lemma EmptyIsNoDot()
    ensures !DotSegment([])
  {
  }

  /**
   What an accepted path holds: no control character, no backslash, no percent sign, and, unless it is
   empty, no empty segment; and no segment of it is `.` or `..`.
   */
  lemma AcceptedIsClean(raw: Bytes)
    requires Utf8(raw) && Canonical(raw).Some?
    ensures var p := Canonical(raw).value;
            && Utf8(p) && Printable(p) && 0x25 !in p
            && NoDotSegment(p) && (p == [] || NoEmptySegment(p))
  {
    var p := Canonical(raw).value;
    CanonicalIsCanonical(raw);
    PrintableIs(p);
    SegmentsAre(p);
    hide Canonical, NoDotSegment, NoEmptySegment, Printable;
    if p == [] {
      EmptyIsNoDot();
      assert Split(p, SLASH) == [[]];
    }
  }

  // ---------------------------------------------------------------- what is accepted

  /** The path ends where the query or the fragment begins. */
  lemma BareIs(raw: Bytes)
    ensures var b := Bare(raw);
            && b <= raw && 0x3F !in b && 0x23 !in b
            && (|b| < |raw| ==> raw[|b|] == 0x3F || raw[|b|] == 0x23)
  {
    FirstPart(raw, QUESTION);
    FirstPart(Split(raw, QUESTION)[0], HASH);
    hide Split;
    var front := Split(raw, QUESTION)[0];
    assert |Bare(raw)| < |front| ==> front[|Bare(raw)|] == raw[|Bare(raw)|];
    assert forall i :: 0 <= i < |Bare(raw)| ==> Bare(raw)[i] == front[i];
  }

  lemma {:induction false} FirstPart(s: Bytes, sep: byte)
    ensures var a := Split(s, sep)[0]; a <= s && sep !in a && (|a| < |s| ==> s[|a|] == sep)
  {
    if s != [] {
      FirstPart(s[1..], sep);
    }
  }

  /** Percent-decoded `k` times. */
  function Passes(s: Bytes, k: nat): Bytes
    decreases k
  {
    if k == 0 then s else Passes(Decode(s), k - 1)
  }

  /** After exactly `k` passes no percent sign is left, and every pass gave well-formed text. */
  ghost predicate ResolvesIn(s: Bytes, k: nat) {
    && 0x25 !in Passes(s, k)
    && (forall j :: 0 <= j < k ==> 0x25 in Passes(s, j))
    && (forall j :: 0 < j <= k ==> Utf8(Passes(s, j)))
  }

  lemma PassFirst(s: Bytes, k: nat)
    ensures ResolvesIn(s, k + 1) <==> 0x25 in s && Utf8(Decode(s)) && ResolvesIn(Decode(s), k)
  {
    hide Decode, Utf8;
    var next := Decode(s);
    assert forall j: nat :: Passes(s, j + 1) == Passes(next, j);
    assert Passes(s, 0) == s;
    assert Passes(s, 1) == next;
    if ResolvesIn(s, k + 1) {
      forall j | 0 <= j < k
        ensures 0x25 in Passes(next, j)
      {
        assert 0x25 in Passes(s, j + 1);
      }
      forall j | 0 < j <= k
        ensures Utf8(Passes(next, j))
      {
        assert Utf8(Passes(s, j + 1));
      }
    }
    if 0x25 in s && Utf8(next) && ResolvesIn(next, k) {
      forall j | 0 <= j < k + 1
        ensures 0x25 in Passes(s, j)
      {
        assert j == 0 || Passes(s, j) == Passes(next, j - 1);
      }
      forall j | 0 < j <= k + 1
        ensures Utf8(Passes(s, j))
      {
        assert Passes(s, j) == Passes(next, j - 1);
      }
    }
  }

  lemma {:induction false} StuckNeverResolves(s: Bytes, k: nat)
    requires 0x25 in s && Decode(s) == s
    ensures !ResolvesIn(s, k)
  {
    hide Decode;
    if k != 0 {
      PassFirst(s, k - 1);
      StuckNeverResolves(s, k - 1);
    }
  }

  /** Decoding settles on text without a percent sign exactly when one of the passes gives it. */
  lemma {:induction false} DecodedIs(s: Bytes, passes: nat)
    ensures var d := Decoded(s, passes);
            d.Some? && 0x25 !in d.value <==> exists k: nat :: k <= passes && ResolvesIn(s, k)
    ensures forall k: nat :: k <= passes && ResolvesIn(s, k) ==> Decoded(s, passes) == Some(Passes(s, k))
    decreases passes
  {
    hide Decode, Utf8, ResolvesIn;
    AlreadyResolved(s);
    forall k: nat | k <= passes && ResolvesIn(s, k)
      ensures Decoded(s, passes) == Some(Passes(s, k))
    {
      if k != 0 {
        PassFirst(s, k - 1);
        if Decode(s) == s {
          StuckNeverResolves(s, k);
        } else {
          DecodedIs(Decode(s), passes - 1);
        }
      }
    }
    var d := Decoded(s, passes);
    if d.Some? && 0x25 !in d.value && 0x25 in s {
      DecodedIs(Decode(s), passes - 1);
      var k: nat :| k <= passes - 1 && ResolvesIn(Decode(s), k);
      PassFirst(s, k);
    }
    if k: nat :| k <= passes && ResolvesIn(s, k) {
      ResolvedHasNone(s, k);
    }
  }

  lemma AlreadyResolved(s: Bytes)
    ensures ResolvesIn(s, 0) <==> 0x25 !in s
    ensures Passes(s, 0) == s
  {
  }

  lemma ResolvedHasNone(s: Bytes, k: nat)
    requires ResolvesIn(s, k)
    ensures 0x25 !in Passes(s, k) && (0 < k ==> 0x25 in s)
  {
    if 0 < k {
      assert 0x25 in Passes(s, 0);
    }
  }

  /**
   Acceptance, in both directions.  A path is accepted exactly when, up to its query or fragment, at most
   three passes of decoding leave no percent sign, giving well-formed text each time, and what they leave
   holds no control character, no backslash and no segment that is `.` or `..`; it is accepted as the
   segments that are not empty, joined by single slashes.
   */
  lemma AcceptedIff(raw: Bytes)
    ensures Canonical(raw).Some? <==>
              exists k: nat :: k <= 3 && ResolvesIn(Bare(raw), k) && Printable(Passes(Bare(raw), k)) && NoDotSegment(Passes(Bare(raw), k))
    ensures forall k: nat :: k <= 3 && ResolvesIn(Bare(raw), k) && Canonical(raw).Some? ==>
              Canonical(raw).value == Join(NonEmpty(Split(Passes(Bare(raw), k), 0x2F)), 0x2F)
  {
    var s := Bare(raw);
    DecodedIs(s, 3);
    CanonicalIs(raw);
    hide *;
    var d := Decoded(s, 3);
    if d.Some? && 0x25 !in d.value {
      var k: nat :| k <= 3 && ResolvesIn(s, k);
      assert d == Some(Passes(s, k));
    }
  }

  /** Canonicalizing in terms of what decoding leaves. */
  lemma CanonicalIs(raw: Bytes)
    ensures var d := Decoded(Bare(raw), 3);
            && (Canonical(raw).Some? <==> d.Some? && 0x25 !in d.value && Printable(d.value) && NoDotSegment(d.value))
            && (Canonical(raw).Some? ==> Canonical(raw).value == Join(NonEmpty(Split(d.value, 0x2F)), 0x2F))
  {
    hide Decoded, Bare, Printable, NoDotSegment, HoldsHostile, HoldsDotSegment, NonEmpty, Split, Join;
    var d := Decoded(Bare(raw), 3);
    if d.Some? {
      PrintableIs(d.value);
      SegmentsAre(d.value);
      NonEmptyHasNoDots(Split(d.value, SLASH));
    }
  }

  /** A path without a query, a fragment or a percent sign is judged as it stands. */
  lemma PlainAcceptedIff(raw: Bytes)
    requires 0x3F !in raw && 0x23 !in raw && 0x25 !in raw
    ensures Canonical(raw).Some? <==> Printable(raw) && NoDotSegment(raw)
    ensures Canonical(raw).Some? ==> Canonical(raw).value == Join(NonEmpty(Split(raw, 0x2F)), 0x2F)
  {
    NothingToStrip(raw);
    AcceptedIff(raw);
    AlreadyResolved(raw);
    hide *;
    forall k: nat | k <= 3 && ResolvesIn(raw, k)
      ensures k == 0
    {
      ResolvedHasNone(raw, k);
    }
  }

  /** The segments that are not empty, all of them and in their order. */
  lemma {:induction false} NonEmptyIs(parts: seq<Bytes>) returns (at: seq<nat>)
    ensures |at| == |NonEmpty(parts)|
    ensures forall i :: 0 <= i < |at| ==> at[i] < |parts| && NonEmpty(parts)[i] == parts[at[i]] && parts[at[i]] != []
    ensures forall i, j :: 0 <= i < j < |at| ==> at[i] < at[j]
    ensures forall k :: 0 <= k < |parts| && parts[k] != [] ==> k in at
  {
    at := [];
    if parts != [] {
      var n := |parts| - 1;
      at := NonEmptyIs(parts[..n]);
      NonEmptyLast(parts);
      if parts[n] != [] {
        at := at + [n];
      }
      assert forall k :: 0 <= k < n ==> parts[..n][k] == parts[k];
    }
  }

  lemma {:induction false} NonEmptyLast(parts: seq<Bytes>)
    requires parts != []
    ensures var n := |parts| - 1;
            NonEmpty(parts) == NonEmpty(parts[..n]) + if parts[n] == [] then [] else [parts[n]]
  {
    var n := |parts| - 1;
    if n != 0 {
      NonEmptyLast(parts[1..]);
      assert parts[..n][1..] == parts[1..][..n - 1] && parts[..n][0] == parts[0];
    }
  }

  // ---------------------------------------------------------------- escapes

  const DIGITS: string := "0123456789ABCDEF"
  const LOWER_DIGITS: string := "0123456789abcdef"

  /** The byte is the digit of this value, a capital or a small letter from ten on. */
  ghost predicate IsDigit(b: byte, v: nat)
    requires v < 16
  {
    b == DIGITS[v] as int || b == LOWER_DIGITS[v] as int
  }

  lemma HexDigitsAre(b: byte, v: nat)
    requires v < 16
    ensures HexValue(b) == Some(v) <==> IsDigit(b, v)
    ensures HexDigit(v) == DIGITS[v] as int
  {
    if v < 10 {
      assert DIGITS[v] as int == 0x30 + v && LOWER_DIGITS[v] as int == 0x30 + v;
    } else {
      assert DIGITS[v] as int == 0x41 + v - 10 && LOWER_DIGITS[v] as int == 0x61 + v - 10;
    }
  }

  /** A percent sign and two hexadecimal digits, in either case, stand for the byte they spell. */
  ghost predicate Spells(s: Bytes, b: byte) {
    3 <= |s| && s[0] == 0x25 && IsDigit(s[1], b / 16) && IsDigit(s[2], b % 16)
  }

  /** One pass turns each escape into the byte it spells and leaves everything else. */
  lemma DecodeIs(s: Bytes)
    requires s != []
    ensures forall b: byte :: Spells(s, b) ==> Decode(s) == [b] + Decode(s[3..])
    ensures (forall b: byte :: !Spells(s, b)) ==> Decode(s) == [s[0]] + Decode(s[1..])
  {
    hide HexValue, IsDigit;
    if IsEscape(s) {
      HexIsSmall(s[1]);
      HexIsSmall(s[2]);
      var b: byte := 16 * HexValue(s[1]).value + HexValue(s[2]).value;
      SpelledIs(s, b);
    }
    forall b: byte | Spells(s, b)
      ensures Decode(s) == [b] + Decode(s[3..])
    {
      SpelledIs(s, b);
    }
  }

  lemma SpelledIs(s: Bytes, b: byte)
    ensures Spells(s, b) <==> IsEscape(s) && b == 16 * HexValue(s[1]).value + HexValue(s[2]).value
  {
    hide HexValue, IsDigit;
    if 3 <= |s| && s[0] == PERCENT {
      HexDigitsAre(s[1], b / 16);
      HexDigitsAre(s[2], b % 16);
      HexIsSmall(s[1]);
      HexIsSmall(s[2]);
      if IsEscape(s) {
        TwoDigits(b, HexValue(s[1]).value, HexValue(s[2]).value);
      }
    }
  }

  lemma TwoDigits(b: byte, x: byte, y: byte)
    requires x < 16 && y < 16
    ensures b == 16 * x + y <==> x == b / 16 && y == b % 16
  {
  }

  lemma HexIsSmall(b: byte)
    ensures HexValue(b).Some? ==> HexValue(b).value < 16
  {
  }

  /** Letters, digits and these marks are sent as they are; every other byte is spelled with capital digits. */
  lemma EncodeByteIs(b: byte)
    ensures var kept := || 0x30 <= b <= 0x39 || 0x41 <= b <= 0x5A || 0x61 <= b <= 0x7A
                        || b == 0x21 || b == 0x24 || 0x26 <= b <= 0x2E || b == 0x3A || b == 0x3B || b == 0x3D
                        || b == 0x40 || b == 0x5F || b == 0x7E;
            EncodeByte(b) == if kept then [b] else [0x25, DIGITS[b / 16] as int, DIGITS[b % 16] as int]
  {
    HexDigitsAre(0, b / 16);
    HexDigitsAre(0, b % 16);
  }

  /** The target sent upstream is the path's and then the client's query as it came. */
  lemma QueryIsKept(base: Bytes, path: Bytes, query: Option<Bytes>)
    ensures UpstreamUri(base, path, query) == UpstreamUri(base, path, None) + if query.Some? then [0x3F] + query.value else []
  {
  }
}
