/** Splitting a sequence at a separator and joining it again. */
module Splitting {

  /** The parts between separators; one more part than there are separators. */
  function Split<T(==)>(s: seq<T>, sep: T): (parts: seq<seq<T>>)
    ensures 0 < |parts|
  {
    if s == [] then [[]]
    else
      var rest := Split(s[1..], sep);
      if s[0] == sep then [[]] + rest else [[s[0]] + rest[0]] + rest[1..]
  }

  function Join<T>(parts: seq<seq<T>>, sep: T): seq<T> {
    if parts == [] then []
    else if |parts| == 1 then parts[0]
    else parts[0] + [sep] + Join(parts[1..], sep)
  }

  ghost predicate Clean<T>(parts: seq<seq<T>>, sep: T) {
    forall i :: 0 <= i < |parts| ==> sep !in parts[i]
  }

  lemma {:induction false} SplitClean<T>(s: seq<T>, sep: T)
    ensures Clean(Split(s, sep), sep)
  {
    if s != [] {
      SplitClean(s[1..], sep);
    }
  }

  lemma SplitCons<T>(x: T, s: seq<T>, sep: T)
    ensures Split([x] + s, sep) ==
      var rest := Split(s, sep);
      if x == sep then [[]] + rest else [[x] + rest[0]] + rest[1..]
  {
    assert ([x] + s)[1..] == s;
  }

  /** Putting an element in front of the first part, or a part in front of all, commutes with appending parts. */
  lemma InFront<T>(x: T, p: seq<seq<T>>, q: seq<seq<T>>)
    requires p != []
    ensures [[]] + (p + q) == ([[]] + p) + q
    ensures [[x] + (p + q)[0]] + (p + q)[1..] == ([[x] + p[0]] + p[1..]) + q
  {
    assert (p + q)[1..] == p[1..] + q;
  }

  lemma {:induction false} SplitAppend<T>(a: seq<T>, b: seq<T>, sep: T)
    ensures Split(a + [sep] + b, sep) == Split(a, sep) + Split(b, sep)
  {
    if a == [] {
      SplitCons(sep, b, sep);
      assert a + [sep] + b == [sep] + b;
    } else {
      var tail := a[1..] + [sep] + b;
      assert a == [a[0]] + a[1..] && a + [sep] + b == [a[0]] + tail;
      SplitAppend(a[1..], b, sep);
      SplitCons(a[0], tail, sep);
      SplitCons(a[0], a[1..], sep);
      hide Split;
      InFront(a[0], Split(a[1..], sep), Split(b, sep));
    }
  }

  lemma {:induction false} SplitWhole<T>(s: seq<T>, sep: T)
    requires sep !in s
    ensures Split(s, sep) == [s]
  {
    if s != [] {
      assert s[0] in s && s == [s[0]] + s[1..];
      SplitWhole(s[1..], sep);
    }
  }

  lemma {:induction false} JoinSplit<T>(s: seq<T>, sep: T)
    ensures Join(Split(s, sep), sep) == s
  {
    if s != [] {
      JoinSplit(s[1..], sep);
      var rest := Split(s[1..], sep);
      var parts := Split(s, sep);
      if s[0] == sep {
        assert parts[1..] == rest;
        assert s == [sep] + s[1..];
      } else if |rest| == 1 {
        assert parts == [[s[0]] + rest[0]];
      } else {
        assert parts[1..] == rest[1..];
        assert s == [s[0]] + (rest[0] + [sep] + Join(rest[1..], sep));
      }
    }
  }

  lemma {:induction false} SplitJoin<T>(parts: seq<seq<T>>, sep: T)
    requires 0 < |parts| && Clean(parts, sep)
    ensures Split(Join(parts, sep), sep) == parts
  {
    SplitWhole(parts[0], sep);
    if 1 < |parts| {
      SplitJoin(parts[1..], sep);
      SplitAppend(parts[0], Join(parts[1..], sep), sep);
    }
  }

  lemma {:induction false} JoinAppend<T>(a: seq<seq<T>>, b: seq<seq<T>>, sep: T)
    requires a != [] && b != []
    ensures Join(a + b, sep) == Join(a, sep) + [sep] + Join(b, sep)
  {
    if |a| == 1 {
      assert (a + b)[1..] == b;
    } else {
      JoinAppend(a[1..], b, sep);
      assert (a + b)[1..] == a[1..] + b;
    }
  }

  /** `s` is `p`, or continues past `p` with a separator. */
  ghost predicate Continues<T>(p: seq<T>, s: seq<T>, sep: T) {
    p <= s && (|p| == |s| || s[|p|] == sep)
  }

  lemma ContinuationSplits<T>(p: seq<T>, s: seq<T>, sep: T)
    requires Continues(p, s, sep)
    ensures Split(p, sep) <= Split(s, sep)
  {
    if |p| < |s| {
      SplitAppend(p, s[|p| + 1..], sep);
      assert s == p + [sep] + s[|p| + 1..];
    } else {
      assert s == p;
    }
  }

  lemma PartsContinue<T>(p: seq<T>, s: seq<T>, sep: T)
    requires Split(p, sep) <= Split(s, sep)
    ensures Continues(p, s, sep)
  {
    var a, b := Split(p, sep), Split(s, sep);
    JoinSplit(p, sep);
    JoinSplit(s, sep);
    if |a| < |b| {
      assert b == a + b[|a|..];
      JoinAppend(a, b[|a|..], sep);
    } else {
      assert a == b;
    }
  }

  /** A list of parts begins another exactly when the texts agree up to the end or to a separator. */
  lemma PartsPrefix<T>(p: seq<T>, s: seq<T>, sep: T)
    ensures Split(p, sep) <= Split(s, sep) <==> Continues(p, s, sep)
  {
    if Continues(p, s, sep) {
      ContinuationSplits(p, s, sep);
    } else if Split(p, sep) <= Split(s, sep) {
      PartsContinue(p, s, sep);
    }
  }
}
