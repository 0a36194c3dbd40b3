/** Well-formed UTF-8 is what encoding some text gives: table 3-6 of the Unicode Standard. */
module Utf8Encoding {
  import opened Prelude
  import opened Interpolate
  import opened RequestPath
  import opened Text

  function EncodeChar(c: char): Bytes {
    var n := c as int;
    if n < 0x80 then [n]
    else if n < 0x800 then [0xC0 + n / 64, 0x80 + n % 64]
    else if n < 0x10000 then [0xE0 + n / 4096, 0x80 + n / 64 % 64, 0x80 + n % 64]
    else [0xF0 + n / 262144, 0x80 + n / 4096 % 64, 0x80 + n / 64 % 64, 0x80 + n % 64]
  }

  function EncodeText(s: string): Bytes {
    if s == "" then [] else EncodeChar(s[0]) + EncodeText(s[1..])
  }

  lemma CharIsWhole(c: char, rest: Bytes)
    ensures CharLength(EncodeChar(c) + rest) == |EncodeChar(c)|
  {
    var n, s := c as int, EncodeChar(c) + rest;
    if 0x800 <= n < 0x10000 {
      ThreeBytes(n);
      assert s[0] == 0xE0 + n / 4096 && s[1] == 0x80 + n / 64 % 64 && s[2] == 0x80 + n % 64;
    } else if 0x10000 <= n {
      FourBytes(n);
      assert s[0] == 0xF0 + n / 262144 && s[1] == 0x80 + n / 4096 % 64 && s[2] == 0x80 + n / 64 % 64 && s[3] == 0x80 + n % 64;
    }
  }

  lemma ThreeBytes(n: nat)
    requires 0x800 <= n < 0xD800 || 0xE000 <= n < 0x10000
    ensures n / 4096 < 16
    ensures n / 4096 == 0 ==> 32 <= n / 64 % 64
    ensures n / 4096 == 13 ==> n / 64 % 64 < 32
  {
  }

  lemma FourBytes(n: nat)
    requires 0x10000 <= n < 0x110000
    ensures n / 262144 <= 4
    ensures n / 262144 == 0 ==> 16 <= n / 4096 % 64
    ensures n / 262144 == 4 ==> n / 4096 % 64 < 16
  {
  }

  /** The character a well-formed sequence begins with. */
  lemma FirstChar(s: Bytes) returns (c: char)
    requires 0 < CharLength(s)
    ensures EncodeChar(c) == s[..CharLength(s)]
  {
    var k := CharLength(s);
    if k == 1 {
      c := s[0] as char;
    } else if k == 2 {
      c := TwoBack(s[0] - 0xC0, s[1] - 0x80);
    } else if k == 3 {
      c := ThreeBack(s[0] - 0xE0, s[1] - 0x80, s[2] - 0x80);
    } else {
      c := FourBack(s[0] - 0xF0, s[1] - 0x80, s[2] - 0x80, s[3] - 0x80);
    }
  }

  lemma TwoBack(x: nat, y: nat) returns (c: char)
    requires 2 <= x < 32 && y < 64
    ensures EncodeChar(c) == [0xC0 + x, 0x80 + y]
  {
    var n := 64 * x + y;
    assert n / 64 == x;
    c := n as char;
  }

  lemma ThreeBack(x: nat, y: nat, z: nat) returns (c: char)
    requires x < 16 && y < 64 && z < 64 && (x == 0 ==> 32 <= y) && (x == 13 ==> y < 32)
    ensures EncodeChar(c) == [0xE0 + x, 0x80 + y, 0x80 + z]
  {
    var n := 4096 * x + 64 * y + z;
    assert n / 64 == 64 * x + y && n / 4096 == x;
    c := n as char;
  }

  lemma FourBack(w: nat, x: nat, y: nat, z: nat) returns (c: char)
    requires w <= 4 && x < 64 && y < 64 && z < 64 && (w == 0 ==> 16 <= x) && (w == 4 ==> x < 16)
    ensures EncodeChar(c) == [0xF0 + w, 0x80 + x, 0x80 + y, 0x80 + z]
  {
    var n := 262144 * w + 4096 * x + 64 * y + z;
    assert n / 64 == 4096 * w + 64 * x + y && n / 4096 == 64 * w + x && n / 262144 == w;
    c := n as char;
  }

  lemma {:induction false} EncodedIsUtf8(s: string)
    ensures Utf8(EncodeText(s))
  {
    if s != "" {
      hide EncodeChar, CharLength;
      var rest := EncodeText(s[1..]);
      EncodedIsUtf8(s[1..]);
      CharIsWhole(s[0], rest);
      NotEmpty(s[0]);
      assert (EncodeChar(s[0]) + rest)[|EncodeChar(s[0])|..] == rest;
    }
  }

  lemma NotEmpty(c: char)
    ensures EncodeChar(c) != []
  {
  }

  lemma {:induction false} TextOf(s: Bytes) returns (text: string)
    requires Utf8(s)
    ensures EncodeText(text) == s
  {
    hide EncodeChar, CharLength;
    text := "";
    if s != [] {
      var c := FirstChar(s);
      var later := TextOf(s[CharLength(s)..]);
      text := [c] + later;
      InFront(c, later);
      assert s == s[..CharLength(s)] + s[CharLength(s)..];
    }
  }

  lemma InFront(c: char, later: string)
    ensures EncodeText([c] + later) == EncodeChar(c) + EncodeText(later)
  {
    assert ([c] + later)[1..] == later;
  }

  /** Bytes are taken for text exactly when they encode some text. */
  lemma Utf8Is(s: Bytes)
    ensures Utf8(s) <==> exists text :: EncodeText(text) == s
  {
    if Utf8(s) {
      var text := TextOf(s);
    }
    if text :| EncodeText(text) == s {
      EncodedIsUtf8(text);
    }
  }

  lemma LengthIs(c: char)
    ensures Utf8Len(c) == |EncodeChar(c)|
  {
  }

  /** Indentation is measured in the bytes of the characters. */
  lemma {:induction false} IndentIsBytes(line: string) returns (k: nat)
    ensures k <= |line| && (forall i :: 0 <= i < k ==> IsSpace(line[i]))
    ensures k < |line| ==> !IsSpace(line[k])
    ensures IndentOf(line) == |EncodeText(line[..k])|
  {
    k := 0;
    if line != "" && IsSpace(line[0]) {
      var j := IndentIsBytes(line[1..]);
      LengthIs(line[0]);
      k := j + 1;
      assert line[..k][1..] == line[1..][..j] && line[..k][0] == line[0];
    }
  }
}
