/**
 One key's sliding window inside one process, and what it guarantees over whole runs
 (ratelimit/mod.rs, `Window`).
 */
module LocalWindow {
  import opened Prelude
  import opened Arithmetic
  import opened RateLimit

  datatype WindowState = WindowState(start: nat, current: nat, previous: nat)

  /** The window brought forward to `now`, and how far into it `now` is. */
  function RollWindow(w: WindowState, now: nat, interval: nat): (WindowState, nat) {
    var elapsed := SatSub(now, w.start);
    if elapsed >= Min(2 * interval, DURATION_MAX) then
      (WindowState(now, 0, 0), 0)
    else if elapsed >= interval then
      (WindowState(w.start + interval, 0, w.current), elapsed - interval)
    else
      (w, elapsed)
  }

  function CheckWindow(w: WindowState, now: nat, limit: nat, interval: nat): (WindowState, Decision)
    requires 0 < interval
  {
    var (rolled, elapsed) := RollWindow(w, now, interval);
    var d := Decide(rolled.previous, rolled.current, elapsed, limit, interval);
    (if d.allowed then rolled.(current := SatAdd(rolled.current, 1)) else rolled, d)
  }

  class Window {
    var start: nat
    var current: nat
    var previous: nat

    function View(): WindowState
      reads this
    {
      WindowState(start, current, previous)
    }

    constructor (now: nat)
      ensures View() == WindowState(now, 0, 0)
    {
      start, current, previous := now, 0, 0;
    }

    method Check(now: nat, limit: nat, interval: nat) returns (decision: Decision)
      requires 0 < interval
      modifies this
      ensures (View(), decision) == CheckWindow(old(View()), now, limit, interval)
    {
      var elapsed := SatSub(now, start);
      if elapsed >= Min(2 * interval, DURATION_MAX) {
        start, current, previous := now, 0, 0;
        elapsed := 0;
      } else if elapsed >= interval {
        previous := current;
        current := 0;
        start := start + interval;
        elapsed := elapsed - interval;
      }
      decision := Decide(previous, current, elapsed, limit, interval);
      if decision.allowed {
        current := SatAdd(current, 1);
      }
    }
  }

  // ---------------------------------------------------------------- runs

  ghost predicate Sorted(times: seq<nat>) {
    forall i, j :: 0 <= i <= j < |times| ==> times[i] <= times[j]
  }

  /** The state and the log of admission times after checks at `times`, starting from `w` and `log`. */
  ghost function Run(w: WindowState, log: seq<nat>, times: seq<nat>, limit: nat, interval: nat): (WindowState, seq<nat>)
    requires 0 < interval
  {
    if times == [] then
      (w, log)
    else
      var (v, l) := Run(w, log, times[..|times| - 1], limit, interval);
      var now := times[|times| - 1];
      var (v', d) := CheckWindow(v, now, limit, interval);
      (v', if d.allowed then l + [now] else l)
  }

  /** Admissions at times in `[lo, hi)`. */
  ghost function CountIn(log: seq<nat>, lo: int, hi: int): nat {
    if log == [] then 0
    else CountIn(log[..|log| - 1], lo, hi) + if lo <= log[|log| - 1] < hi then 1 else 0
  }

  lemma CountPush(log: seq<nat>, t: nat, lo: int, hi: int)
    ensures CountIn(log + [t], lo, hi) == CountIn(log, lo, hi) + if lo <= t < hi then 1 else 0
  {
    assert (log + [t])[..|log|] == log;
  }

  /** How much of the previous window has left the view, in whole requests, rounded up. */
  ghost function Aged(previous: nat, elapsed: nat, interval: nat): nat
    requires 0 < interval
  {
    CeilQuotient(Scale(previous, elapsed), interval)
  }

  lemma AgedMonotone(previous: nat, e0: nat, e1: nat, interval: nat)
    requires 0 < interval && e0 <= e1
    ensures Aged(previous, e0, interval) <= Aged(previous, e1, interval)
  {
    ScaleMonotoneUnit(previous, e0, e1);
    CeilQuotientMonotone(Scale(previous, e0), Scale(previous, e1), interval);
  }

  lemma {:induction false} CountNone(log: seq<nat>, lo: int, hi: int)
    requires forall i :: 0 <= i < |log| ==> !(lo <= log[i] < hi)
    ensures CountIn(log, lo, hi) == 0
  {
    if log != [] {
      CountNone(log[..|log| - 1], lo, hi);
    }
  }

  lemma {:induction false} CountCover(log: seq<nat>, lo: int, hi: int, a: int, b: int, c: int)
    requires forall i :: 0 <= i < |log| && lo <= log[i] < hi ==> a <= log[i] < c
    requires a <= b <= c
    ensures CountIn(log, lo, hi) <= CountIn(log, a, b) + CountIn(log, b, c)
  {
    if log != [] {
      CountCover(log[..|log| - 1], lo, hi, a, b, c);
    }
  }

  /** What holds of the window and the log once the last check was at `last`. */
  ghost predicate Inv(w: WindowState, log: seq<nat>, last: nat, limit: nat, interval: nat) {
    && 0 < interval
    && w.start <= last < w.start + interval
    && (forall i :: 0 <= i < |log| ==> log[i] <= last)
    && CountIn(log, w.start, w.start + interval) == w.current <= limit
    && CountIn(log, w.start - interval, w.start) == w.previous <= limit
    && w.previous + w.current <= limit + Aged(w.previous, last - w.start, interval)
  }

  lemma RollKeepsInv(w: WindowState, log: seq<nat>, last: nat, now: nat, limit: nat, interval: nat)
    requires Inv(w, log, last, limit, interval) && last <= now
    requires 2 * interval <= DURATION_MAX
    ensures var (v, elapsed) := RollWindow(w, now, interval);
            Inv(v, log, now, limit, interval) && elapsed == now - v.start
  {
    var (v, elapsed) := RollWindow(w, now, interval);
    if v == w {
      AgedMonotone(w.previous, last - w.start, now - w.start, interval);
    } else {
      CountNone(log, v.start, v.start + interval);
      if v.start == now && elapsed == 0 && v.previous == 0 && now >= w.start + 2 * interval {
        CountNone(log, v.start - interval, v.start);
      }
    }
  }

  lemma AdmitKeepsInv(w: WindowState, log: seq<nat>, now: nat, limit: nat, interval: nat)
    requires Inv(w, log, now, limit, interval) && limit <= U64_MAX
    requires w.current < limit
    requires w.previous + w.current + 1 <= limit + CeilQuotient(Scale(w.previous, now - w.start), interval)
    ensures Inv(w.(current := SatAdd(w.current, 1)), log + [now], now, limit, interval)
  {
    hide CountIn, Scale, CeilQuotient;
    CountPush(log, now, w.start, w.start + interval);
    CountPush(log, now, w.start - interval, w.start);
  }

  lemma CheckKeepsInv(w: WindowState, log: seq<nat>, last: nat, now: nat, limit: nat, interval: nat)
    requires Inv(w, log, last, limit, interval) && last <= now
    requires 2 * interval <= DURATION_MAX && limit <= U64_MAX
    ensures var (v, d) := CheckWindow(w, now, limit, interval);
            Inv(v, if d.allowed then log + [now] else log, now, limit, interval)
  {
    hide Inv, Decide, RollWindow;
    RollKeepsInv(w, log, last, now, limit, interval);
    var (r, elapsed) := RollWindow(w, now, interval);
    if Decide(r.previous, r.current, elapsed, limit, interval).allowed {
      AdmissionBounds(r.previous, r.current, elapsed, limit, interval);
      AdmitKeepsInv(r, log, now, limit, interval);
    }
  }

  lemma {:induction false} RunKeepsInv(w: WindowState, log: seq<nat>, last: nat, times: seq<nat>, limit: nat, interval: nat)
    requires Inv(w, log, last, limit, interval)
    requires 2 * interval <= DURATION_MAX && limit <= U64_MAX
    requires Sorted(times) && (times != [] ==> last <= times[0])
    ensures var (v, l) := Run(w, log, times, limit, interval);
            Inv(v, l, if times == [] then last else times[|times| - 1], limit, interval)
  {
    if times != [] {
      var n := |times| - 1;
      RunKeepsInv(w, log, last, times[..n], limit, interval);
      var (v, l) := Run(w, log, times[..n], limit, interval);
      CheckKeepsInv(v, l, if n == 0 then last else times[n - 1], times[n], limit, interval);
    }
  }

  lemma SpanBound(w: WindowState, log: seq<nat>, t: nat, limit: nat, interval: nat)
    requires Inv(w, log, t, limit, interval)
    ensures CountIn(log, t - interval, t + 1) <= limit + Aged(w.previous, t - w.start, interval)
  {
    CountCover(log, t - interval, t + 1, w.start - interval, w.start, w.start + interval);
  }

  /**
   Over every run on a monotone clock from the moment the key was first seen, and for every later
   moment `t`: the window `t` falls in holds at most `limit` admissions, and any span of one interval
   ending at `t` holds at most `limit` plus the part of the previous window that has aged out.
   */
  lemma WindowBoundsEverySpan(first: nat, times: seq<nat>, t: nat, limit: nat, interval: nat)
    requires 0 < interval && 2 * interval <= DURATION_MAX && limit <= U64_MAX
    requires Sorted(times) && first <= t
    requires times != [] ==> first <= times[0] && times[|times| - 1] <= t
    ensures var (w, log) := Run(WindowState(first, 0, 0), [], times, limit, interval);
            var (v, elapsed) := RollWindow(w, t, interval);
            && elapsed < interval
            && v.previous <= limit
            && CountIn(log, v.start, v.start + interval) <= limit
            && CountIn(log, t - interval, t + 1) <= limit + Aged(v.previous, elapsed, interval)
  {
    var initial := WindowState(first, 0, 0);
    assert Inv(initial, [], first, limit, interval);
    RunKeepsInv(initial, [], first, times, limit, interval);
    var (w, log) := Run(initial, [], times, limit, interval);
    RollKeepsInv(w, log, if times == [] then first else times[|times| - 1], t, limit, interval);
    SpanBound(RollWindow(w, t, interval).0, log, t, limit, interval);
  }

  /**
   Every answer is the quota applied to the admissions themselves: whatever checks came before, the next
   one is admitted exactly when those of the window it falls in, and of the window before weighted by the
   part still in view, fall short of the limit.  The window begins where the last one ended, or with this
   check after two windows without any.
   */
  lemma AnswersFollowTheLog(first: nat, times: seq<nat>, t: nat, limit: nat, interval: nat)
    requires 0 < interval && 2 * interval <= DURATION_MAX && limit <= U64_MAX
    requires Sorted(times) && first <= t
    requires times != [] ==> first <= times[0] && times[|times| - 1] <= t
    ensures var (w, log) := Run(WindowState(first, 0, 0), [], times, limit, interval);
            var start := CheckWindow(w, t, limit, interval).0.start;
            var elapsed := t - start;
            && 0 <= elapsed < interval
            && (start == w.start || start == w.start + interval || (start == t && w.start + 2 * interval <= t))
            && (CheckWindow(w, t, limit, interval).1.allowed <==>
                  CountIn(log, start - interval, start) * (interval - elapsed) + CountIn(log, start, start + interval) * interval
                    < limit * interval)
  {
    hide *;
    var initial := WindowState(first, 0, 0);
    NewKeepsInv(first, limit, interval);
    RunKeepsInv(initial, [], first, times, limit, interval);
    var (w, log) := Run(initial, [], times, limit, interval);
    var last := if times == [] then first else times[|times| - 1];
    RollKeepsInv(w, log, last, t, limit, interval);
    InvCounts(RollWindow(w, t, interval).0, log, t, limit, interval);
    InvCounts(w, log, last, limit, interval);
    CheckIs(w, t, limit, interval);
  }

  lemma NewKeepsInv(first: nat, limit: nat, interval: nat)
    requires 0 < interval
    ensures Inv(WindowState(first, 0, 0), [], first, limit, interval)
  {
  }

  lemma InvCounts(w: WindowState, log: seq<nat>, last: nat, limit: nat, interval: nat)
    requires Inv(w, log, last, limit, interval)
    ensures w.start <= last < w.start + interval
    ensures CountIn(log, w.start, w.start + interval) == w.current
    ensures CountIn(log, w.start - interval, w.start) == w.previous
  {
  }

  lemma CheckIs(w: WindowState, t: nat, limit: nat, interval: nat)
    requires w.start <= t && 0 < interval && 2 * interval <= DURATION_MAX
    ensures var (v, elapsed) := RollWindow(w, t, interval);
            && v.start <= t && elapsed == t - v.start < interval
            && (v.start == w.start || v.start == w.start + interval || (v.start == t && w.start + 2 * interval <= t))
            && CheckWindow(w, t, limit, interval).0.start == v.start
            && (CheckWindow(w, t, limit, interval).1.allowed <==>
                  v.previous * (interval - elapsed) + v.current * interval < limit * interval)
  {
    var (v, elapsed) := RollWindow(w, t, interval);
    DecideIs(v.previous, v.current, elapsed, limit, interval, 0);
    hide Decide;
  }

  /** With nothing left of the previous window, the window admits until it holds `limit`. */
  lemma EmptyPastAdmits(start: nat, held: nat, now: nat, limit: nat, interval: nat)
    requires 0 < interval && 2 * interval <= DURATION_MAX && limit <= U64_MAX
    requires start <= now < start + interval && held < limit
    ensures CheckWindow(WindowState(start, held, 0), now, limit, interval).0 == WindowState(start, held + 1, 0)
    ensures CheckWindow(WindowState(start, held, 0), now, limit, interval).1.allowed
  {
    ScaleStrict(held, limit, interval);
  }

  lemma ResetAdmits(w: WindowState, now: nat, limit: nat, interval: nat)
    requires 0 < interval && 2 * interval <= DURATION_MAX && 0 < limit <= U64_MAX
    requires w.start + 2 * interval <= now
    ensures CheckWindow(w, now, limit, interval).0 == WindowState(now, 1, 0)
    ensures CheckWindow(w, now, limit, interval).1.allowed
  {
    EmptyPastAdmits(now, 0, now, limit, interval);
  }

  /** After two idle intervals the next `limit` requests of one window are all admitted. */
  lemma {:induction false} IdleRestoresTheQuota(w: WindowState, log: seq<nat>, last: nat, times: seq<nat>, limit: nat, interval: nat)
    requires w.start <= last && 0 < interval && 2 * interval <= DURATION_MAX && limit <= U64_MAX
    requires 0 < |times| <= limit && Sorted(times)
    requires last + 2 * interval <= times[0] && times[|times| - 1] < times[0] + interval
    ensures Run(w, log, times, limit, interval) == (WindowState(times[0], |times|, 0), log + times)
  {
    hide CheckWindow;
    var n := |times| - 1;
    if n == 0 {
      assert Run(w, log, times[..n], limit, interval) == (w, log);
      ResetAdmits(w, times[0], limit, interval);
      assert log + [times[0]] == log + times;
    } else {
      IdleRestoresTheQuota(w, log, last, times[..n], limit, interval);
      EmptyPastAdmits(times[0], n, times[n], limit, interval);
    }
    assert log + times[..n] + [times[n]] == log + times;
  }

  /**
   A refused call changes no later answer.  It leaves the state a later call leaves as it would have been
   too, except where it rolled the window and the later call comes after the window would otherwise have
   been abandoned but before the rolled one is: then the two windows are anchored differently, though
   both are new.
   */
  lemma RefusedCallsAreInert(w: WindowState, t0: nat, t1: nat, limit: nat, interval: nat)
    requires 0 < interval && 2 * interval <= DURATION_MAX && 0 < limit
    requires !CheckWindow(w, t0, limit, interval).1.allowed && t0 <= t1
    ensures var after := CheckWindow(CheckWindow(w, t0, limit, interval).0, t1, limit, interval);
            var without := CheckWindow(w, t1, limit, interval);
            && after.1 == without.1
            && (after == without <==> !(w.start + interval <= t0 && w.start + 2 * interval < t1 < w.start + 3 * interval))
  {
    ScaleStrict(0, limit, interval);
  }
}
