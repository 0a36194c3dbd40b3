/** Trimming white space, stated without recursion. */
module Trimming {
  import opened Text

  /** White space by code point: the property `White_Space` of the Unicode Character Database. */
  lemma SpaceIs(c: char)
    ensures IsSpace(c) <==> var n := c as int;
              n == 0x20 || 0x09 <= n <= 0x0D || n == 0x85 || n == 0xA0 || n == 0x1680 || 0x2000 <= n <= 0x200A
              || n == 0x2028 || n == 0x2029 || n == 0x202F || n == 0x205F || n == 0x3000
  {
  }

  /** Capitals of the basic alphabet become small, every other character stays. */
  lemma LowerIs(s: string, i: nat)
    requires i < |s|
    ensures LowerAscii(s)[i] as int == if 0x41 <= s[i] as int <= 0x5A then s[i] as int + 32 else s[i] as int
  {
  }

  ghost predicate AllSpace(s: string) {
    forall i :: 0 <= i < |s| ==> IsSpace(s[i])
  }

  /** From `a` on, `w` is all of `v` but the white space around it. */
  ghost predicate BareFrom(v: string, w: string, a: nat) {
    && a + |w| <= |v| && w == v[a..a + |w|]
    && AllSpace(v[..a]) && AllSpace(v[a + |w|..])
    && (w != "" ==> !IsSpace(w[0]) && !IsSpace(w[|w| - 1]))
  }

  /** `w` is `v` without the white space around it. */
  ghost predicate Bare(v: string, w: string) {
    exists a: nat :: BareFrom(v, w, a)
  }

  lemma {:induction false} StartIs(s: string) returns (a: nat)
    ensures a <= |s| && TrimStart(s) == s[a..] && AllSpace(s[..a]) && (a < |s| ==> !IsSpace(s[a]))
  {
    a := 0;
    if s != "" && IsSpace(s[0]) {
      a := StartIs(s[1..]);
      assert s[1..][a..] == s[a + 1..] && s[..a + 1] == [s[0]] + s[1..][..a];
      a := a + 1;
    }
  }

  lemma {:induction false} EndIs(s: string) returns (n: nat)
    ensures n <= |s| && TrimEnd(s) == s[..n] && AllSpace(s[n..]) && (0 < n ==> !IsSpace(s[n - 1]))
  {
    n := |s|;
    if s != "" && IsSpace(s[|s| - 1]) {
      n := EndIs(s[..|s| - 1]);
      assert s[..|s| - 1][..n] == s[..n] && s[n..] == s[..|s| - 1][n..] + [s[|s| - 1]];
    }
  }

  lemma TrimIsBare(v: string)
    ensures Bare(v, Trim(v))
  {
    var a := StartIs(v);
    var n := EndIs(v[a..]);
    var w := v[a..][..n];
    assert w == v[a..a + n] && v[a + n..] == v[a..][n..];
    assert n == 0 ==> w == "";
    assert 0 < n ==> w[0] == v[a] && w[n - 1] == v[a..][n - 1];
    assert BareFrom(v, w, a);
  }

  /** There is only one such text. */
  lemma BareIsTrim(v: string, w: string)
    ensures Bare(v, w) <==> w == Trim(v)
  {
    TrimIsBare(v);
    hide Trim;
    if Bare(v, w) {
      var a :| BareFrom(v, w, a);
      var b: nat :| BareFrom(v, Trim(v), b);
      OnlyOne(v, w, a, Trim(v), b);
    }
  }

  lemma OnlyOne(v: string, w: string, a: nat, x: string, b: nat)
    requires BareFrom(v, w, a) && BareFrom(v, x, b)
    ensures w == x
  {
    if w != "" || x != "" {
      NoSooner(v, w, a, x, b);
      NoSooner(v, x, b, w, a);
    }
  }

  lemma NoSooner(v: string, w: string, a: nat, x: string, b: nat)
    requires BareFrom(v, w, a) && BareFrom(v, x, b)
    ensures w != "" ==> b <= a && a + |w| <= b + |x|
  {
    hide IsSpace;
    assert forall i :: 0 <= i < b ==> IsSpace(v[i]) by {
      assert forall i :: 0 <= i < b ==> v[..b][i] == v[i];
    }
    assert forall i :: b + |x| <= i < |v| ==> IsSpace(v[i]) by {
      assert forall i :: b + |x| <= i < |v| ==> v[b + |x|..][i - (b + |x|)] == v[i];
    }
    assert w != "" ==> w[0] == v[a] && w[|w| - 1] == v[a + |w| - 1];
  }

  lemma EmptyMeansAllSpace(v: string, w: string, a: nat)
    requires BareFrom(v, w, a) && w == ""
    ensures AllSpace(v)
  {
    hide IsSpace;
    assert v == v[..a] + v[a..];
  }

  lemma BlankIs(v: string)
    ensures Trim(v) == "" <==> AllSpace(v)
  {
    TrimIsBare(v);
    hide Trim, IsSpace;
    var a: nat :| BareFrom(v, Trim(v), a);
    if Trim(v) == "" {
      EmptyMeansAllSpace(v, "", a);
    } else {
      assert v[a] == Trim(v)[0];
    }
  }
}
