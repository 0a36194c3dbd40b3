/** Canonical request paths and their encoding for the upstream (path.rs). */
module RequestPath {
  import opened Prelude
  import opened Splitting

  const SLASH: byte := 0x2F
  const DOT: byte := 0x2E
  const PERCENT: byte := 0x25
  const QUESTION: byte := 0x3F
  const HASH: byte := 0x23
  const BACKSLASH: byte := 0x5C

  // ---------------------------------------------------------------- UTF-8

  predicate Tail(b: byte) {
    0x80 <= b < 0xC0
  }

  /** The length of the well-formed character `s` begins with, or 0: table 3-7 of the Unicode Standard. */
  function CharLength(s: Bytes): (n: nat)
    ensures n <= |s|
  {
    if s == [] then 0
    else if s[0] < 0x80 then 1
    else if 0xC2 <= s[0] < 0xE0 then (if 2 <= |s| && Tail(s[1]) then 2 else 0)
    else if 0xE0 <= s[0] < 0xF0 then
      (if 3 <= |s| && Tail(s[1]) && Tail(s[2]) && (s[0] == 0xE0 ==> 0xA0 <= s[1]) && (s[0] == 0xED ==> s[1] < 0xA0) then 3 else 0)
    else if 0xF0 <= s[0] < 0xF5 then
      (if 4 <= |s| && Tail(s[1]) && Tail(s[2]) && Tail(s[3]) && (s[0] == 0xF0 ==> 0x90 <= s[1]) && (s[0] == 0xF4 ==> s[1] < 0x90) then 4 else 0)
    else 0
  }

  predicate Utf8(s: Bytes) {
    s == [] || (0 < CharLength(s) && Utf8(s[CharLength(s)..]))
  }

  predicate Ascii(s: Bytes) {
    forall i :: 0 <= i < |s| ==> s[i] < 0x80
  }

  lemma {:induction false} AsciiIsUtf8(s: Bytes)
    requires Ascii(s)
    ensures Utf8(s)
  {
    if s != [] {
      AsciiIsUtf8(s[1..]);
    }
  }

  /** No character reaches across an ASCII byte. */
  lemma CharStopsAtAscii(a: Bytes, c: byte, b: Bytes)
    requires a != [] && c < 0x80
    ensures CharLength(a + [c] + b) == CharLength(a)
  {
    var s := a + [c] + b;
    assert s[|a|] == c;
    assert forall i :: 0 <= i < |a| ==> s[i] == a[i];
  }

  /** Text cut at an ASCII byte, or joined with one, is well-formed exactly when both sides are. */
  lemma {:induction false} Utf8AroundAscii(a: Bytes, c: byte, b: Bytes)
    requires c < 0x80
    ensures Utf8(a + [c] + b) <==> Utf8(a) && Utf8(b)
    decreases |a|
  {
    var s := a + [c] + b;
    if a == [] {
      assert s[0] == c && s[1..] == b;
    } else {
      CharStopsAtAscii(a, c, b);
      var n := CharLength(a);
      hide CharLength;
      if 0 < n {
        assert s[n..] == a[n..] + [c] + b;
        Utf8AroundAscii(a[n..], c, b);
      }
    }
  }

  ghost predicate AllUtf8(parts: seq<Bytes>) {
    forall i :: 0 <= i < |parts| ==> Utf8(parts[i])
  }

  lemma {:induction false} JoinUtf8(parts: seq<Bytes>, sep: byte)
    requires sep < 0x80
    ensures Utf8(Join(parts, sep)) <==> AllUtf8(parts)
  {
    hide Utf8;
    if parts == [] {
      AsciiIsUtf8([]);
    } else if 1 < |parts| {
      JoinUtf8(parts[1..], sep);
      Utf8AroundAscii(parts[0], sep, Join(parts[1..], sep));
      assert AllUtf8(parts) <==> Utf8(parts[0]) && AllUtf8(parts[1..]);
    }
  }

  lemma SplitUtf8(s: Bytes, sep: byte)
    requires Utf8(s) && sep < 0x80
    ensures AllUtf8(Split(s, sep))
  {
    JoinSplit(s, sep);
    JoinUtf8(Split(s, sep), sep);
  }

  // ---------------------------------------------------------------- percent-encoding

  function HexValue(b: byte): Option<byte> {
    if 0x30 <= b <= 0x39 then Some(b - 0x30)
    else if 0x41 <= b <= 0x46 then Some(b - 0x41 + 10)
    else if 0x61 <= b <= 0x66 then Some(b - 0x61 + 10)
    else None
  }

  function HexDigit(n: nat): byte
    requires n < 16
  {
    if n < 10 then 0x30 + n else 0x41 + n - 10
  }

  /** `%` and two hexadecimal digits. */
  predicate IsEscape(s: Bytes) {
    3 <= |s| && s[0] == PERCENT && HexValue(s[1]).Some? && HexValue(s[2]).Some?
  }

  /** Percent-decode once; a `%` that begins no escape stays. */
  function Decode(s: Bytes): Bytes {
    if s == [] then []
    else if IsEscape(s) then [16 * HexValue(s[1]).value + HexValue(s[2]).value] + Decode(s[3..])
    else [s[0]] + Decode(s[1..])
  }

  /** The bytes a path segment may not hold as they are. */
  predicate Escaped(b: byte) {
    b <= 0x20 || 0x7F <= b
    || b == 0x22 || b == HASH || b == PERCENT || b == SLASH || b == 0x3C || b == 0x3E || b == QUESTION
    || 0x5B <= b <= 0x5E || b == 0x60 || 0x7B <= b <= 0x7D
  }

  function EncodeByte(b: byte): Bytes {
    if Escaped(b) then [PERCENT, HexDigit(b / 16), HexDigit(b % 16)] else [b]
  }

  function EncodeSegment(s: Bytes): Bytes {
    if s == [] then [] else EncodeByte(s[0]) + EncodeSegment(s[1..])
  }

  function EncodeEach(parts: seq<Bytes>): (r: seq<Bytes>)
    ensures |r| == |parts| && forall i :: 0 <= i < |parts| ==> r[i] == EncodeSegment(parts[i])
  {
    if parts == [] then [] else [EncodeSegment(parts[0])] + EncodeEach(parts[1..])
  }

  /** `encode_path_segments`. */
  function Encode(path: Bytes): Bytes {
    Join(EncodeEach(Split(path, SLASH)), SLASH)
  }

  lemma HexRoundTrip(b: byte)
    ensures HexValue(HexDigit(b / 16)).Some? && HexValue(HexDigit(b % 16)).Some?
    ensures 16 * HexValue(HexDigit(b / 16)).value + HexValue(HexDigit(b % 16)).value == b
  {
  }

  /** Decoding an encoded segment and whatever follows gives the segment back, and then the rest decoded. */
  lemma {:induction false} DecodeEncodedSegment(s: Bytes, rest: Bytes)
    ensures Decode(EncodeSegment(s) + rest) == s + Decode(rest)
    decreases |s|
  {
    if s == [] {
      assert [] + rest == rest;
    } else {
      EncodeFirst(s, rest);
      hide *;
      var more := EncodeSegment(s[1..]) + rest;
      DecodeEncodedSegment(s[1..], rest);
      DecodeEncodedByte(s[0], more);
      FirstInFront(s, Decode(rest));
    }
  }

  lemma EncodeFirst(s: Bytes, rest: Bytes)
    requires s != []
    ensures EncodeSegment(s) + rest == EncodeByte(s[0]) + (EncodeSegment(s[1..]) + rest)
  {
    hide EncodeByte;
  }

  lemma FirstInFront(s: Bytes, rest: Bytes)
    requires s != []
    ensures [s[0]] + (s[1..] + rest) == s + rest
  {
  }

  lemma DecodeEncodedByte(b: byte, more: Bytes)
    ensures Decode(EncodeByte(b) + more) == [b] + Decode(more)
  {
    var whole := EncodeByte(b) + more;
    if Escaped(b) {
      HexRoundTrip(b);
      assert whole[3..] == more;
    } else {
      assert whole[1..] == more;
    }
  }

  lemma DecodeEncodedFirst(part: Bytes, later: Bytes)
    ensures Decode(EncodeSegment(part) + [SLASH] + later) == part + [SLASH] + Decode(later)
  {
    DecodeEncodedSegment(part, [SLASH] + later);
    assert ([SLASH] + later)[1..] == later;
    assert EncodeSegment(part) + ([SLASH] + later) == EncodeSegment(part) + [SLASH] + later;
    assert part + ([SLASH] + Decode(later)) == part + [SLASH] + Decode(later);
  }

  lemma {:induction false} DecodeEncodedParts(parts: seq<Bytes>)
    ensures Decode(Join(EncodeEach(parts), SLASH)) == Join(parts, SLASH)
  {
    hide Decode, EncodeSegment;
    if |parts| == 0 {
      DecodeNothing();
    } else if |parts| == 1 {
      DecodeEncodedSegment(parts[0], []);
      DecodeNothing();
      assert EncodeSegment(parts[0]) + [] == EncodeSegment(parts[0]);
    } else {
      var later := Join(EncodeEach(parts[1..]), SLASH);
      DecodeEncodedParts(parts[1..]);
      DecodeEncodedFirst(parts[0], later);
      assert EncodeEach(parts)[1..] == EncodeEach(parts[1..]);
    }
  }

  lemma DecodeNothing()
    ensures Decode([]) == []
  {
  }

  /** One decoding pass undoes the encoding of any text at all. */
  lemma DecodeEncode(path: Bytes)
    ensures Decode(Encode(path)) == path
  {
    DecodeEncodedParts(Split(path, SLASH));
    JoinSplit(path, SLASH);
  }

  /** What an encoded segment is made of: bytes allowed as they are, percent signs and hexadecimal digits. */
  lemma {:induction false} EncodedSegmentBytes(s: Bytes)
    ensures forall i :: 0 <= i < |EncodeSegment(s)| ==> !Escaped(EncodeSegment(s)[i]) || EncodeSegment(s)[i] == PERCENT
    ensures PERCENT !in EncodeSegment(s) ==> EncodeSegment(s) == s
  {
    if s != [] {
      EncodedSegmentBytes(s[1..]);
      assert EncodeSegment(s) == EncodeByte(s[0]) + EncodeSegment(s[1..]);
      assert s == [s[0]] + s[1..];
      assert Escaped(s[0]) ==> EncodeSegment(s)[0] == PERCENT;
    }
  }

  lemma EncodedPartsAreClean(parts: seq<Bytes>)
    ensures Clean(EncodeEach(parts), SLASH)
  {
    forall i | 0 <= i < |parts|
      ensures SLASH !in EncodeEach(parts)[i]
    {
      EncodedSegmentBytes(parts[i]);
    }
  }

  /** Encoding keeps the segments: each is encoded in place. */
  lemma EncodeKeepsSegments(path: Bytes)
    ensures Split(Encode(path), SLASH) == EncodeEach(Split(path, SLASH))
  {
    EncodedPartsAreClean(Split(path, SLASH));
    SplitJoin(EncodeEach(Split(path, SLASH)), SLASH);
  }

  /** Every byte of the parts satisfies what the joined text's bytes do, apart from the separator. */
  lemma {:induction false} JoinedBytes(parts: seq<Bytes>, sep: byte, b: byte)
    ensures b in Join(parts, sep) <==> (1 < |parts| && b == sep) || exists i :: 0 <= i < |parts| && b in parts[i]
  {
    if 1 < |parts| {
      JoinedBytes(parts[1..], sep, b);
      var later := Join(parts[1..], sep);
      assert Join(parts, sep) == parts[0] + [sep] + later;
      if exists i :: 0 <= i < |parts| && b in parts[i] {
        var i :| 0 <= i < |parts| && b in parts[i];
        assert i == 0 || b in parts[1..][i - 1];
      }
      if exists i :: 0 <= i < |parts[1..]| && b in parts[1..][i] {
        var i :| 0 <= i < |parts[1..]| && b in parts[1..][i];
        assert b in parts[i + 1];
      }
    }
  }

  /** An encoded path is printable ASCII and holds neither a query nor a fragment delimiter. */
  lemma EncodedIsSafe(path: Bytes)
    ensures Ascii(Encode(path)) && QUESTION !in Encode(path) && HASH !in Encode(path)
    ensures forall b :: b in Encode(path) ==> 0x20 < b < 0x7F && b != BACKSLASH
  {
    var parts := EncodeEach(Split(path, SLASH));
    forall b | b in Join(parts, SLASH)
      ensures b == SLASH || b == PERCENT || !Escaped(b)
    {
      JoinedBytes(parts, SLASH, b);
      if exists i :: 0 <= i < |parts| && b in parts[i] {
        var i :| 0 <= i < |parts| && b in parts[i];
        EncodedSegmentBytes(Split(path, SLASH)[i]);
      }
    }
    assert forall i :: 0 <= i < |Encode(path)| ==> Encode(path)[i] in Encode(path);
  }

  // ---------------------------------------------------------------- canonicalization

  const MAX_DECODE_PASSES: nat := 3

  /** The path without its query and fragment. */
  function Bare(raw: Bytes): Bytes {
    Split(Split(raw, QUESTION)[0], HASH)[0]
  }

  /** Decode until no `%` is left, nothing changes, or the passes run out; none if a pass yields malformed text. */
  function Decoded(s: Bytes, passes: nat): Option<Bytes>
    decreases passes
  {
    if passes == 0 || PERCENT !in s then Some(s)
    else
      var next := Decode(s);
      if !Utf8(next) then None else if next == s then Some(s) else Decoded(next, passes - 1)
  }

  predicate Hostile(b: byte) {
    b < 0x20 || b == 0x7F || b == BACKSLASH
  }

  predicate DotSegment(segment: Bytes) {
    segment == [DOT] || segment == [DOT, DOT]
  }

  predicate HoldsHostile(p: Bytes) {
    exists i :: 0 <= i < |p| && Hostile(p[i])
  }

  predicate HoldsDotSegment(segments: seq<Bytes>) {
    exists i :: 0 <= i < |segments| && DotSegment(segments[i])
  }

  function NonEmpty(parts: seq<Bytes>): seq<Bytes> {
    if parts == [] then [] else (if parts[0] == [] then [] else [parts[0]]) + NonEmpty(parts[1..])
  }

  /** `canonicalize_proxy_path`. */
  function Canonical(raw: Bytes): Option<Bytes> {
    var d := Decoded(Bare(raw), MAX_DECODE_PASSES);
    if d.None? || PERCENT in d.value || HoldsHostile(d.value) then None
    else
      var segments := NonEmpty(Split(d.value, SLASH));
      if HoldsDotSegment(segments) then None else Some(Join(segments, SLASH))
  }

  method CanonicalizeProxyPath(raw: Bytes) returns (r: Option<Bytes>)
    ensures r == Canonical(raw)
  {
    var decoded := Split(Split(raw, QUESTION)[0], HASH)[0];
    for pass := 0 to MAX_DECODE_PASSES
      invariant Decoded(Bare(raw), MAX_DECODE_PASSES) == Decoded(decoded, MAX_DECODE_PASSES - pass)
    {
      if PERCENT !in decoded {
        break;
      }
      var next := Decode(decoded);
      if !Utf8(next) {
        return None;
      }
      if next == decoded {
        break;
      }
      decoded := next;
    }
    if PERCENT in decoded {
      return None;
    }
    if HoldsHostile(decoded) {
      return None;
    }
    var segments := NonEmpty(Split(decoded, SLASH));
    if HoldsDotSegment(segments) {
      return None;
    }
    r := Some(Join(segments, SLASH));
  }

  // ---------------------------------------------------------------- what is canonical

  /** A path that policy may match on and that resolves to itself. */
  ghost predicate IsCanonical(p: Bytes) {
    && Utf8(p) && PERCENT !in p && (forall i :: 0 <= i < |p| ==> !Hostile(p[i]))
    && (p == [] || forall i :: 0 <= i < |Split(p, SLASH)| ==> Split(p, SLASH)[i] != [] && !DotSegment(Split(p, SLASH)[i]))
  }

  lemma {:induction false} DecodedIsUtf8(s: Bytes, passes: nat)
    requires Utf8(s)
    ensures Decoded(s, passes).Some? ==> Utf8(Decoded(s, passes).value)
    decreases passes
  {
    if passes != 0 && PERCENT in s && Utf8(Decode(s)) {
      DecodedIsUtf8(Decode(s), passes - 1);
    }
  }

  lemma {:induction false} NonEmptyParts(parts: seq<Bytes>)
    ensures forall i :: 0 <= i < |NonEmpty(parts)| ==> NonEmpty(parts)[i] in parts && NonEmpty(parts)[i] != []
    ensures (forall i :: 0 <= i < |parts| ==> parts[i] != []) ==> NonEmpty(parts) == parts
  {
    if parts != [] {
      NonEmptyParts(parts[1..]);
      assert forall x :: x in parts[1..] ==> x in parts;
    }
  }

  /** Every accepted path is canonical. */
  lemma CanonicalIsCanonical(raw: Bytes)
    requires Utf8(raw) && Canonical(raw).Some?
    ensures IsCanonical(Canonical(raw).value)
  {
    var d := Decoded(Bare(raw), MAX_DECODE_PASSES).value;
    SplitUtf8(raw, QUESTION);
    SplitUtf8(Split(raw, QUESTION)[0], HASH);
    DecodedIsUtf8(Bare(raw), MAX_DECODE_PASSES);
    KeepSegments(d);
  }

  lemma KeepSegments(d: Bytes)
    requires Utf8(d) && PERCENT !in d && forall i :: 0 <= i < |d| ==> !Hostile(d[i])
    requires var segments := NonEmpty(Split(d, SLASH)); forall i :: 0 <= i < |segments| ==> !DotSegment(segments[i])
    ensures IsCanonical(Join(NonEmpty(Split(d, SLASH)), SLASH))
  {
    hide Utf8, DotSegment, Hostile, Split, Join, NonEmpty;
    var parts := Split(d, SLASH);
    var segments := NonEmpty(parts);
    var p := Join(segments, SLASH);
    SplitUtf8(d, SLASH);
    NonEmptyParts(parts);
    JoinUtf8(segments, SLASH);
    SlashIsHarmless();
    forall i | 0 <= i < |p|
      ensures p[i] in d || p[i] == SLASH
    {
      if p[i] != SLASH && p[i] !in d {
        SegmentsBringNothing(d, p[i]);
      }
    }
    SplitClean(d, SLASH);
    if segments == [] {
      assert p == [] by {
        JoinNone();
      }
    } else {
      SplitJoin(segments, SLASH);
    }
  }

  lemma JoinNone()
    ensures Join<byte>([], SLASH) == []
  {
  }

  lemma SlashIsHarmless()
    ensures SLASH != PERCENT && !Hostile(SLASH)
  {
  }

  /** Whatever decodes to a canonical path is accepted as that path. */
  lemma AcceptedAs(raw: Bytes, p: Bytes)
    requires IsCanonical(p) && Decoded(Bare(raw), MAX_DECODE_PASSES) == Some(p)
    ensures Canonical(raw) == Some(p)
  {
    hide Utf8, Hostile;
    JoinSplit(p, SLASH);
    if p == [] {
      assert Split(p, SLASH) == [[]] && NonEmpty([[]]) == [] + NonEmpty([[]][1..]);
    } else {
      NonEmptyParts(Split(p, SLASH));
    }
  }

  lemma NothingToStrip(raw: Bytes)
    requires QUESTION !in raw && HASH !in raw
    ensures Bare(raw) == raw
  {
    SplitWhole(raw, QUESTION);
    SplitWhole(raw, HASH);
  }

  lemma {:induction false} FirstPartBytes(s: Bytes, sep: byte, b: byte)
    requires b !in s || b == sep
    ensures b !in Split(s, sep)[0]
  {
    if s != [] {
      FirstPartBytes(s[1..], sep, b);
    }
  }

  /** A canonical path survives being canonicalized again exactly when nothing in it reads as a query or a fragment. */
  lemma CanonicalAgain(p: Bytes)
    requires IsCanonical(p)
    ensures Canonical(p) == Some(p) <==> QUESTION !in p && HASH !in p
  {
    if QUESTION !in p && HASH !in p {
      NothingToStrip(p);
      AcceptedAs(p, p);
    } else if Canonical(p).Some? {
      var b := if QUESTION in p then QUESTION else HASH;
      var front := Split(p, QUESTION)[0];
      if b == QUESTION {
        FirstPartBytes(p, QUESTION, b);
      }
      FirstPartBytes(front, HASH, b);
      FirstPartBytes(p, QUESTION, PERCENT);
      FirstPartBytes(front, HASH, PERCENT);
      SegmentsBringNothing(Bare(p), b);
    }
  }

  lemma SegmentsBringNothing(d: Bytes, b: byte)
    requires b !in d && b != SLASH
    ensures b !in Join(NonEmpty(Split(d, SLASH)), SLASH)
  {
    var parts := Split(d, SLASH);
    NonEmptyParts(parts);
    JoinedBytes(NonEmpty(parts), SLASH, b);
    JoinedBytes(parts, SLASH, b);
    JoinSplit(d, SLASH);
  }

  // ---------------------------------------------------------------- encoding is undone

  function EncodeTimes(p: Bytes, n: nat): Bytes {
    if n == 0 then p else Encode(EncodeTimes(p, n - 1))
  }

  /** Encoding changes a text exactly when it puts in a `%`, and then makes it longer. */
  lemma {:induction false} EncodingGrows(parts: seq<Bytes>)
    ensures var e := Join(EncodeEach(parts), SLASH);
            if PERCENT in e then |Join(parts, SLASH)| < |e| else e == Join(parts, SLASH)
  {
    if |parts| == 1 {
      SegmentGrows(parts[0]);
    } else if 1 < |parts| {
      SegmentGrows(parts[0]);
      EncodingGrows(parts[1..]);
      hide EncodeSegment;
      var later := Join(EncodeEach(parts[1..]), SLASH);
      assert EncodeEach(parts)[1..] == EncodeEach(parts[1..]);
      assert Join(EncodeEach(parts), SLASH) == EncodeSegment(parts[0]) + [SLASH] + later;
      assert PERCENT in EncodeSegment(parts[0]) + [SLASH] + later <==> PERCENT in EncodeSegment(parts[0]) || PERCENT in later;
    }
  }

  lemma {:induction false} SegmentGrows(s: Bytes)
    ensures if PERCENT in EncodeSegment(s) then |s| < |EncodeSegment(s)| else EncodeSegment(s) == s
  {
    EncodedSegmentBytes(s);
    if s != [] {
      SegmentGrows(s[1..]);
    }
  }

  lemma PercentIsEncoded(s: Bytes)
    requires PERCENT in s
    ensures PERCENT in Encode(s)
  {
    EncodingGrows(Split(s, SLASH));
    JoinSplit(s, SLASH);
  }

  lemma {:induction false} EncodedTimesIsUtf8(p: Bytes, n: nat)
    requires Utf8(p)
    ensures Utf8(EncodeTimes(p, n))
  {
    if n != 0 {
      EncodedIsSafe(EncodeTimes(p, n - 1));
      AsciiIsUtf8(EncodeTimes(p, n));
    }
  }

  lemma {:induction false} EncodedTimesHasPercent(p: Bytes, n: nat)
    requires 0 < n
    ensures if Encode(p) == p then EncodeTimes(p, n) == p else PERCENT in EncodeTimes(p, n)
  {
    if n == 1 {
      EncodingGrows(Split(p, SLASH));
      JoinSplit(p, SLASH);
    } else {
      EncodedTimesHasPercent(p, n - 1);
      if Encode(p) != p {
        PercentIsEncoded(EncodeTimes(p, n - 1));
      }
    }
  }

  /** Each decoding pass undoes one encoding. */
  lemma {:induction false} DecodedTimes(p: Bytes, n: nat, passes: nat)
    requires Utf8(p) && PERCENT !in p
    ensures Decoded(EncodeTimes(p, n), passes) == Some(EncodeTimes(p, if n <= passes then 0 else n - passes))
    decreases passes
  {
    hide Decode, Encode, Utf8;
    if n != 0 {
      var s := EncodeTimes(p, n - 1);
      EncodedTimesHasPercent(p, n);
      if Encode(p) == p {
        EncodedTimesStay(p, n);
        EncodedTimesStay(p, n - passes);
      } else if passes != 0 {
        DecodeEncode(s);
        EncodedTimesIsUtf8(p, n - 1);
        EncodingChanges(s);
        DecodedTimes(p, n - 1, passes - 1);
      }
    }
  }

  lemma {:induction false} EncodedTimesStay(p: Bytes, n: int)
    requires Encode(p) == p
    ensures 0 <= n ==> EncodeTimes(p, n) == p
  {
    if 0 < n {
      EncodedTimesStay(p, n - 1);
    }
  }

  lemma EncodingChanges(s: Bytes)
    ensures PERCENT in Encode(s) ==> Encode(s) != s
  {
    EncodingGrows(Split(s, SLASH));
    JoinSplit(s, SLASH);
  }

  /**
   However often a canonical path is encoded, up to the three passes the gateway decodes, it comes back
   as itself; encoded more often it is refused, unless encoding has nothing to change in it.
   */
  lemma EncodedComesBack(p: Bytes, n: nat)
    requires IsCanonical(p) && 0 < n
    ensures Canonical(EncodeTimes(p, n)) == if n <= 3 || Encode(p) == p then Some(p) else None
  {
    hide Utf8, Decoded, Encode, Bare, Hostile, Canonical;
    var raw := EncodeTimes(p, n);
    EncodedIsSafe(EncodeTimes(p, n - 1));
    NothingToStrip(raw);
    DecodedTimes(p, n, MAX_DECODE_PASSES);
    if n <= MAX_DECODE_PASSES {
      AcceptedAs(raw, p);
    } else {
      EncodedTimesHasPercent(p, n - MAX_DECODE_PASSES);
      if Encode(p) == p {
        AcceptedAs(raw, p);
      } else {
        LeftoverIsRefused(raw);
      }
    }
  }

  lemma LeftoverIsRefused(raw: Bytes)
    requires var d := Decoded(Bare(raw), MAX_DECODE_PASSES); d.Some? && PERCENT in d.value
    ensures Canonical(raw) == None
  {
  }

  /** Whatever is accepted as `p` is encoded to something that is accepted as `p` again, with the same segments. */
  lemma PathRoundTrip(raw: Bytes)
    requires Utf8(raw) && Canonical(raw).Some?
    ensures var p := Canonical(raw).value;
            && Canonical(Encode(p)) == Some(p) && Decode(Encode(p)) == p
            && Ascii(Encode(p)) && QUESTION !in Encode(p) && HASH !in Encode(p)
            && Split(Encode(p), SLASH) == EncodeEach(Split(p, SLASH))
  {
    var p := Canonical(raw).value;
    CanonicalIsCanonical(raw);
    hide IsCanonical, Canonical, Decode, EncodeEach;
    EncodedComesBack(p, 1);
    assert EncodeTimes(p, 0) == p && EncodeTimes(p, 1) == Encode(p);
    hide Encode;
    EncodedIsSafe(p);
    EncodeKeepsSegments(p);
    DecodeEncode(p);
  }

  // ---------------------------------------------------------------- the path sent is the path authorized

  function NextSlash(s: Bytes, from: nat): (at: nat)
    requires from <= |s|
    ensures from <= at <= |s|
    decreases |s| - from
  {
    if from == |s| || s[from] == SLASH then from else NextSlash(s, from + 1)
  }

  /** `output` without its last segment and the slash before it. */
  function Parent(output: Bytes): (r: Bytes)
    ensures |r| <= |output|
  {
    if output == [] then []
    else if output[|output| - 1] == SLASH then output[..|output| - 1]
    else Parent(output[..|output| - 1])
  }

  /** `remove_dot_segments`, section 5.2.4 of RFC 3986: what an HTTP stack may do to a path. */
  function RemoveDotSegments(input: Bytes, output: Bytes): Bytes
    decreases |input|
  {
    if input == [] then output
    else if [DOT, DOT, SLASH] <= input then RemoveDotSegments(input[3..], output)
    else if [DOT, SLASH] <= input then RemoveDotSegments(input[2..], output)
    else if [SLASH, DOT, SLASH] <= input then RemoveDotSegments(input[2..], output)
    else if input == [SLASH, DOT] then RemoveDotSegments([SLASH], output)
    else if [SLASH, DOT, DOT, SLASH] <= input then RemoveDotSegments(input[3..], Parent(output))
    else if input == [SLASH, DOT, DOT] then RemoveDotSegments([SLASH], Parent(output))
    else if DotSegment(input) then output
    else
      var at := NextSlash(input, 1);
      RemoveDotSegments(input[at..], output + input[..at])
  }

  ghost predicate NoDots(parts: seq<Bytes>) {
    forall i :: 0 <= i < |parts| ==> !DotSegment(parts[i])
  }

  lemma {:induction false} RemovingNeverGrows(input: Bytes, output: Bytes)
    ensures |RemoveDotSegments(input, output)| <= |input| + |output|
    decreases |input|
  {
    if input == [] {
    } else if [DOT, DOT, SLASH] <= input {
      RemovingNeverGrows(input[3..], output);
    } else if [DOT, SLASH] <= input || [SLASH, DOT, SLASH] <= input {
      RemovingNeverGrows(input[2..], output);
    } else if input == [SLASH, DOT] {
      RemovingNeverGrows([SLASH], output);
    } else if [SLASH, DOT, DOT, SLASH] <= input {
      RemovingNeverGrows(input[3..], Parent(output));
    } else if input == [SLASH, DOT, DOT] {
      RemovingNeverGrows([SLASH], Parent(output));
    } else if !DotSegment(input) {
      var at := NextSlash(input, 1);
      RemovingNeverGrows(input[at..], output + input[..at]);
    }
  }

  /** The first segment of an absolute path: taken over whole, or shortening the path if it is a dot segment. */
  lemma FirstSegment(part: Bytes, rest: Bytes, output: Bytes)
    requires SLASH !in part && (rest == [] || rest[0] == SLASH)
    ensures var input := [SLASH] + part + rest;
            if DotSegment(part) then |RemoveDotSegments(input, output)| < |input| + |output|
            else RemoveDotSegments(input, output) == RemoveDotSegments(rest, output + ([SLASH] + part))
  {
    if DotSegment(part) {
      DotSegmentShrinks(part, rest, output);
    } else {
      var input := [SLASH] + part + rest;
      assert input[0] == SLASH;
      NotADotSegment(part, rest);
      SlashAfter(part, rest);
      assert input[..|part| + 1] == [SLASH] + part && input[|part| + 1..] == rest;
    }
  }

  lemma DotSegmentShrinks(part: Bytes, rest: Bytes, output: Bytes)
    requires DotSegment(part) && (rest == [] || rest[0] == SLASH)
    ensures var input := [SLASH] + part + rest; |RemoveDotSegments(input, output)| < |input| + |output|
  {
    hide RemoveDotSegments;
    if part == [DOT] {
      SingleDot(rest, output);
      assert [SLASH] + part + rest == [SLASH, DOT] + rest;
    } else {
      DoubleDot(rest, output);
      assert [SLASH] + part + rest == [SLASH, DOT, DOT] + rest;
    }
  }

  lemma SingleDot(rest: Bytes, output: Bytes)
    requires rest == [] || rest[0] == SLASH
    ensures |RemoveDotSegments([SLASH, DOT] + rest, output)| < |rest| + 2 + |output|
  {
    var input := [SLASH, DOT] + rest;
    if rest == [] {
      assert input == [SLASH, DOT];
      RemovingNeverGrows([SLASH], output);
    } else {
      assert input[0] == SLASH && input[1] == DOT && input[2] == SLASH && input[..3] == [SLASH, DOT, SLASH];
      RemovingNeverGrows(input[2..], output);
    }
  }

  lemma DoubleDot(rest: Bytes, output: Bytes)
    requires rest == [] || rest[0] == SLASH
    ensures |RemoveDotSegments([SLASH, DOT, DOT] + rest, output)| < |rest| + 3 + |output|
  {
    var input := [SLASH, DOT, DOT] + rest;
    assert input[0] == SLASH && input[1] == DOT && input[2] == DOT;
    if rest == [] {
      assert input == [SLASH, DOT, DOT];
      RemovingNeverGrows([SLASH], Parent(output));
    } else {
      assert input[3] == SLASH && input[..4] == [SLASH, DOT, DOT, SLASH];
      RemovingNeverGrows(input[3..], Parent(output));
    }
  }

  lemma NotADotSegment(part: Bytes, rest: Bytes)
    requires SLASH !in part && (rest == [] || rest[0] == SLASH) && !DotSegment(part)
    ensures var input := [SLASH] + part + rest;
            && !([SLASH, DOT, SLASH] <= input) && input != [SLASH, DOT]
            && !([SLASH, DOT, DOT, SLASH] <= input) && input != [SLASH, DOT, DOT]
  {
    var input := [SLASH] + part + rest;
    assert forall i :: 0 <= i < |part| ==> input[i + 1] == part[i] && part[i] in part;
    assert rest != [] ==> input[|part| + 1] == SLASH;
    assert |part| == 1 ==> part == [part[0]];
    assert |part| == 2 ==> part == [part[0], part[1]];
    assert 1 <= |part| ==> input[1] == part[0] && part[0] in part;
    assert 2 <= |part| ==> input[2] == part[1] && part[1] in part;
    assert 3 <= |part| ==> input[3] == part[2] && part[2] in part;
  }

  lemma {:induction false} NextSlashIs(s: Bytes, from: nat, at: nat)
    requires from <= at <= |s| && (at < |s| ==> s[at] == SLASH) && forall i :: from <= i < at ==> s[i] != SLASH
    ensures NextSlash(s, from) == at
    decreases at - from
  {
    if from < at {
      NextSlashIs(s, from + 1, at);
    }
  }

  lemma SlashAfter(part: Bytes, rest: Bytes)
    requires SLASH !in part && (rest == [] || rest[0] == SLASH)
    ensures NextSlash([SLASH] + part + rest, 1) == |part| + 1
  {
    var input := [SLASH] + part + rest;
    assert forall i :: 1 <= i < |part| + 1 ==> input[i] == part[i - 1];
    NextSlashIs(input, 1, |part| + 1);
  }

  /** An absolute path is a fixed point of dot-segment removal exactly when no segment of it is `.` or `..`. */
  lemma {:induction false} FixedIffNoDots(parts: seq<Bytes>, output: Bytes)
    requires 0 < |parts| && Clean(parts, SLASH)
    ensures var input := [SLASH] + Join(parts, SLASH);
            if NoDots(parts) then RemoveDotSegments(input, output) == output + input
            else |RemoveDotSegments(input, output)| < |input| + |output|
    decreases |parts|
  {
    hide DotSegment, RemoveDotSegments;
    var rest := if |parts| == 1 then [] else [SLASH] + Join(parts[1..], SLASH);
    var next := output + ([SLASH] + parts[0]);
    assert [SLASH] + Join(parts, SLASH) == [SLASH] + parts[0] + rest;
    hide Join;
    FirstSegment(parts[0], rest, output);
    assert next + rest == output + ([SLASH] + parts[0] + rest);
    if |parts| == 1 {
      RemoveNothing(next);
    } else {
      FixedIffNoDots(parts[1..], next);
    }
    FirstOrLater(parts);
    hide NoDots;
  }

  lemma FirstOrLater(parts: seq<Bytes>)
    requires 0 < |parts|
    ensures NoDots(parts) <==> !DotSegment(parts[0]) && (|parts| == 1 || NoDots(parts[1..]))
  {
    hide DotSegment;
    assert |parts| != 1 ==> forall i :: 1 <= i < |parts| ==> parts[i] == parts[1..][i - 1];
  }

  lemma RemoveNothing(output: Bytes)
    ensures RemoveDotSegments([], output) == output
  {
  }

  /** `upstream_uri`: the target's base path, the encoded path, the query. */
  function UpstreamUri(base: Bytes, path: Bytes, query: Option<Bytes>): Bytes {
    (if base != [] then [SLASH] + base else [])
    + (if path != [] || base == [] then [SLASH] + Encode(path) else [])
    + (if query.Some? then [QUESTION] + query.value else [])
  }

  /** The segments of the request target, before they are encoded. */
  function SentSegments(base: Bytes, path: Bytes): seq<Bytes> {
    (if base != [] then Split(base, SLASH) else []) + (if path != [] || base == [] then EncodeEach(Split(path, SLASH)) else [])
  }

  lemma TargetIsJoined(base: Bytes, path: Bytes)
    ensures UpstreamUri(base, path, None) == [SLASH] + Join(SentSegments(base, path), SLASH)
    ensures 0 < |SentSegments(base, path)| && Clean(SentSegments(base, path), SLASH)
  {
    hide EncodeEach;
    var own, sent := Split(base, SLASH), EncodeEach(Split(path, SLASH));
    JoinSplit(base, SLASH);
    SplitClean(base, SLASH);
    EncodedPartsAreClean(Split(path, SLASH));
    if base == [] {
      assert [] + sent == sent;
    } else if path == [] {
      assert own + [] == own;
    } else {
      JoinAppend(own, sent, SLASH);
      assert [SLASH] + base + ([SLASH] + Encode(path)) == [SLASH] + (base + [SLASH] + Encode(path));
    }
  }

  lemma EncodedSegmentIsNoDot(s: Bytes)
    requires !DotSegment(s)
    ensures !DotSegment(EncodeSegment(s))
  {
    EncodedSegmentBytes(s);
    var e := EncodeSegment(s);
    if PERCENT !in e {
      assert e == s;
    } else {
      assert e != [DOT] && e != [DOT, DOT];
    }
  }

  lemma CanonicalHasNoDots(p: Bytes)
    requires IsCanonical(p)
    ensures NoDots(Split(p, SLASH))
  {
  }

  /**
   The path sent is the path authorized: up to the query, the target sent upstream keeps its meaning
   under dot-segment removal, consists of the base path's segments and then those of the authorized
   path, each encoded in place, and each of these decodes to the segment policy matched on.
   */
  lemma PathSentIsPathAuthorized(base: Bytes, p: Bytes, query: Option<Bytes>)
    requires IsCanonical(p)
    requires QUESTION !in base && NoDots(Split(base, SLASH))
    ensures var target := Split(UpstreamUri(base, p, query), QUESTION)[0];
            && RemoveDotSegments(target, []) == target
            && Split(target, SLASH) == [[]] + SentSegments(base, p)
    ensures var sent := EncodeEach(Split(p, SLASH));
            && (p != [] || base == [] ==> sent == SentSegments(base, p)[|SentSegments(base, p)| - |sent|..])
            && forall i :: 0 <= i < |sent| ==> Decode(sent[i]) == Split(p, SLASH)[i]
  {
    var target, parts := UpstreamUri(base, p, None), SentSegments(base, p);
    TargetIsJoined(base, p);
    TargetBeforeQuery(base, p, query);
    SentHasNoDots(base, p);
    FixedIffNoDots(parts, []);
    assert [] + ([SLASH] + Join(parts, SLASH)) == [SLASH] + Join(parts, SLASH);
    SplitAppend([], Join(parts, SLASH), SLASH);
    assert [] + [SLASH] + Join(parts, SLASH) == [SLASH] + Join(parts, SLASH);
    SplitJoin(parts, SLASH);
    forall i | 0 <= i < |Split(p, SLASH)|
      ensures Decode(EncodeSegment(Split(p, SLASH)[i])) == Split(p, SLASH)[i]
    {
      DecodeSegment(Split(p, SLASH)[i]);
    }
  }

  lemma DecodeSegment(s: Bytes)
    ensures Decode(EncodeSegment(s)) == s
  {
    DecodeEncodedSegment(s, []);
    DecodeNothing();
    assert EncodeSegment(s) + [] == EncodeSegment(s);
  }

  lemma SentHasNoDots(base: Bytes, p: Bytes)
    requires IsCanonical(p) && NoDots(Split(base, SLASH))
    ensures NoDots(SentSegments(base, p))
  {
    CanonicalHasNoDots(p);
    forall i | 0 <= i < |Split(p, SLASH)|
      ensures !DotSegment(EncodeEach(Split(p, SLASH))[i])
    {
      EncodedSegmentIsNoDot(Split(p, SLASH)[i]);
    }
  }

  lemma TargetBeforeQuery(base: Bytes, p: Bytes, query: Option<Bytes>)
    requires QUESTION !in base
    ensures Split(UpstreamUri(base, p, query), QUESTION)[0] == UpstreamUri(base, p, None)
  {
    var target := UpstreamUri(base, p, None);
    EncodedIsSafe(p);
    assert QUESTION !in target;
    SplitWhole(target, QUESTION);
    if query.Some? {
      assert UpstreamUri(base, p, query) == target + [QUESTION] + query.value;
      SplitAppend(target, query.value, QUESTION);
    } else {
      assert UpstreamUri(base, p, query) == target;
    }
  }
}
