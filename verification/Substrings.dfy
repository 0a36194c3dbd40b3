/** Searching for one string in another. */
module Substrings {
  import opened Prelude

  predicate OccursAt(pattern: string, s: string, i: nat) {
    i + |pattern| <= |s| && s[i..i + |pattern|] == pattern
  }

  ghost predicate Contains(s: string, pattern: string) {
    exists i :: 0 <= i <= |s| && OccursAt(pattern, s, i)
  }

  /** The first occurrence at or after `from`. */
  function FindFrom(pattern: string, s: string, from: nat): (r: Option<nat>)
    requires from <= |s|
    ensures r.Some? ==> from <= r.value && OccursAt(pattern, s, r.value)
    ensures forall i :: from <= i < (if r.Some? then r.value else |s| + 1) ==> !OccursAt(pattern, s, i)
    decreases |s| - from
  {
    if OccursAt(pattern, s, from) then Some(from)
    else if from == |s| then None
    else FindFrom(pattern, s, from + 1)
  }

  function Find(pattern: string, s: string): Option<nat> {
    FindFrom(pattern, s, 0)
  }

  lemma FindIsContains(pattern: string, s: string)
    ensures Find(pattern, s).Some? <==> Contains(s, pattern)
  {
  }

  lemma FindIs(pattern: string, s: string, i: nat)
    requires OccursAt(pattern, s, i) && forall j :: 0 <= j < i ==> !OccursAt(pattern, s, j)
    ensures Find(pattern, s) == Some(i)
  {
  }

  /** Decimal digits, as a number is printed. */
  function Digits(n: nat): (d: string)
    ensures d != "" && forall i :: 0 <= i < |d| ==> '0' <= d[i] <= '9'
  {
    var last := [('0' as int + n % 10) as char];
    if n < 10 then last else Digits(n / 10) + last
  }

  ghost function ValueOf(d: string): nat
    requires forall i :: 0 <= i < |d| ==> '0' <= d[i] <= '9'
  {
    if d == "" then 0 else ValueOf(d[..|d| - 1]) * 10 + (d[|d| - 1] as int - '0' as int)
  }

  lemma {:induction false} DigitsRoundTrip(n: nat)
    ensures ValueOf(Digits(n)) == n
  {
    if 10 <= n {
      DigitsRoundTrip(n / 10);
      assert Digits(n)[..|Digits(n)| - 1] == Digits(n / 10);
    }
  }
}
