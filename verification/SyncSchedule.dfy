/**
 One shard driven by its own events, and when the ticks among them can be told from its answers
 (ratelimit/shared.rs): exactly when a check finds that a tick has moved it past the window the check,
 or any check before it, has reached.
 */
module SyncSchedule {
  import opened Prelude
  import opened Arithmetic
  import opened RateLimit
  import opened SharedCounters

  datatype Event = Asked(bucket: nat, elapsed: nat) | Ticked(bucket: nat) | Heard(publish: Publish, totals: Totals)

  ghost function React(s: Shard, e: Event, limit: nat, interval: nat): (Shard, seq<Decision>)
    requires 0 < interval
  {
    match e
    case Asked(bucket, elapsed) =>
      if elapsed > interval then (s, []) else
      var (t, d) := CheckShard(s, bucket, elapsed, limit, interval);
      (t, [d])
    case Ticked(bucket) => (RollTo(s, bucket), [])
    case Heard(p, totals) => (ApplyTotals(s, p, totals), [])
  }

  /** A shard driven by its own events alone: its last state and the answers it gave. */
  ghost function Replay(s: Shard, events: seq<Event>, limit: nat, interval: nat): (Shard, seq<Decision>)
    requires 0 < interval
  {
    if events == [] then (s, [])
    else
      var (t, answers) := Replay(s, events[..|events| - 1], limit, interval);
      var (u, more) := React(t, events[|events| - 1], limit, interval);
      (u, answers + more)
  }

  lemma ReplayMore(s: Shard, events: seq<Event>, more: seq<Event>, limit: nat, interval: nat)
    requires 0 < interval && |more| <= 1
    ensures var (t, answers) := Replay(s, events, limit, interval);
            Replay(s, events + more, limit, interval) ==
              if more == [] then (t, answers)
              else (React(t, more[0], limit, interval).0, answers + React(t, more[0], limit, interval).1)
  {
    if more == [] {
      assert events + more == events;
    } else {
      assert (events + more)[..|events|] == events;
    }
  }

  lemma ReplayNothing(s: Shard, limit: nat, interval: nat)
    requires 0 < interval
    ensures Replay(s, [], limit, interval) == (s, [])
  {
  }

  lemma {:induction false} ReplayInTwo(s: Shard, a: seq<Event>, b: seq<Event>, limit: nat, interval: nat)
    requires 0 < interval
    ensures var (t, answers) := Replay(s, a, limit, interval);
            var (u, more) := Replay(t, b, limit, interval);
            Replay(s, a + b, limit, interval) == (u, answers + more)
    decreases |b|
  {
    var (t, answers) := Replay(s, a, limit, interval);
    if b == [] {
      assert a + b == a && answers + [] == answers;
    } else {
      var n := |b| - 1;
      ReplayInTwo(s, a, b[..n], limit, interval);
      ReplayMore(s, a + b[..n], [b[n]], limit, interval);
      ReplayMore(t, b[..n], [b[n]], limit, interval);
      assert a + b == a + b[..n] + [b[n]] && b == b[..n] + [b[n]];
      var (u, more) := Replay(t, b[..n], limit, interval);
      var last := React(u, b[n], limit, interval).1;
      hide React, Replay;
      assert answers + more + last == answers + (more + last);
    }
  }

  /** The events of a replica that never syncs. */
  ghost function Questions(events: seq<Event>): seq<Event> {
    if events == [] then []
    else
      var e := events[|events| - 1];
      Questions(events[..|events| - 1]) + if e.Asked? then [e] else []
  }

  // ---------------------------------------------------------------- windows

  /** The latest window an event has brought the shard to. */
  ghost function Reached(events: seq<Event>, interval: nat): nat {
    if events == [] then 0
    else Max(Reached(events[..|events| - 1], interval), WindowSeen(events[|events| - 1], interval))
  }

  ghost function WindowSeen(e: Event, interval: nat): nat {
    match e
    case Asked(bucket, elapsed) => if elapsed <= interval then bucket else 0
    case Ticked(bucket) => bucket
    case Heard(_, _) => 0
  }

  /** An event of a key no one else counts: a reply reports no other usage. */
  ghost predicate LoneEvent(e: Event) {
    match e
    case Asked(bucket, _) => bucket < U64_MAX
    case Ticked(bucket) => bucket < U64_MAX
    case Heard(p, totals) => SatSub(totals.current, p.ownCurrent) == 0 && SatSub(totals.previous, p.ownPrevious) == 0
  }

  ghost predicate Lone(events: seq<Event>) {
    forall i :: 0 <= i < |events| ==> LoneEvent(events[i])
  }

  /** A check is in step if nothing has moved the shard past both its own window and those of earlier checks. */
  ghost predicate KeepsStep(before: seq<Event>, e: Event, interval: nat) {
    e.Asked? && e.elapsed <= interval ==> Reached(before, interval) <= Max(e.bucket, Reached(Questions(before), interval))
  }

  ghost predicate InStep(events: seq<Event>, interval: nat) {
    events == [] ||
      (InStep(events[..|events| - 1], interval) && KeepsStep(events[..|events| - 1], events[|events| - 1], interval))
  }

  lemma {:induction false} QuestionsInTwo(a: seq<Event>, b: seq<Event>)
    ensures Questions(a + b) == Questions(a) + Questions(b)
    decreases |b|
  {
    if b == [] {
      assert a + b == a;
    } else {
      var n := |b| - 1;
      QuestionsInTwo(a, b[..n]);
      assert (a + b)[..|a| + n] == a + b[..n];
    }
  }

  ghost predicate NoRemote(s: Shard) {
    s.remoteCurrent == 0 && s.remotePrevious == 0
  }

  /** `s` is `t` brought forward. */
  ghost predicate Ahead(s: Shard, t: Shard) {
    s.bucket < U64_MAX && t.bucket <= s.bucket && NoRemote(t) && s == RollTo(t, s.bucket)
  }

  lemma StepTogether(s: Shard, t: Shard, e: Event, limit: nat, interval: nat)
    requires 0 < interval && Ahead(s, t) && LoneEvent(e)
    requires e.Asked? && e.elapsed <= interval ==> s.bucket <= Max(e.bucket, t.bucket)
    ensures e.Asked? ==> React(s, e, limit, interval).1 == React(t, e, limit, interval).1
    ensures Ahead(React(s, e, limit, interval).0, if e.Asked? then React(t, e, limit, interval).0 else t)
  {
    if !e.Heard? {
      RollTwice(t, s.bucket, e.bucket);
    }
    hide Decide;
  }

  lemma {:induction false} WindowReached(source: Source, events: seq<Event>, limit: nat, interval: nat)
    requires 0 < interval
    ensures Replay(NewShard(source), events, limit, interval).0.bucket == Reached(events, interval)
  {
    if events != [] {
      WindowReached(source, events[..|events| - 1], limit, interval);
      hide Decide;
    }
  }

  /** In step, ticks and replies leave a lone key's answers as they would be without them. */
  lemma {:induction false} SyncIsInvisible(source: Source, events: seq<Event>, limit: nat, interval: nat)
    requires 0 < interval && Lone(events) && InStep(events, interval)
    ensures var synced := Replay(NewShard(source), events, limit, interval);
            var alone := Replay(NewShard(source), Questions(events), limit, interval);
            synced.1 == alone.1 && Ahead(synced.0, alone.0)
  {
    if events != [] {
      var before := events[..|events| - 1];
      var e := events[|events| - 1];
      SyncIsInvisible(source, before, limit, interval);
      WindowReached(source, before, limit, interval);
      WindowReached(source, Questions(before), limit, interval);
      StepTogether(Replay(NewShard(source), before, limit, interval).0, Replay(NewShard(source), Questions(before), limit, interval).0,
                   e, limit, interval);
      ReplayMore(NewShard(source), Questions(before), if e.Asked? then [e] else [], limit, interval);
      hide React, Ahead;
    }
  }

  // ---------------------------------------------------------------- the windows answered for

  /** Every check is decided in the window in which it would be decided without syncing. */
  ghost predicate SameWindows(source: Source, events: seq<Event>, limit: nat, interval: nat)
    requires 0 < interval
  {
    events == [] ||
      (var before := events[..|events| - 1];
       var e := events[|events| - 1];
       && SameWindows(source, before, limit, interval)
       && var synced := Replay(NewShard(source), before, limit, interval).0;
       var alone := Replay(NewShard(source), Questions(before), limit, interval).0;
       e.Asked? && e.elapsed <= interval ==> RollTo(synced, e.bucket).bucket == RollTo(alone, e.bucket).bucket)
  }

  lemma {:induction false} QuestionsReachLess(events: seq<Event>, interval: nat)
    ensures Reached(Questions(events), interval) <= Reached(events, interval)
  {
    if events != [] {
      var e := events[|events| - 1];
      var asked := Questions(events[..|events| - 1]);
      QuestionsReachLess(events[..|events| - 1], interval);
      if e.Asked? {
        assert (asked + [e])[..|asked|] == asked;
      } else {
        assert asked + [] == asked;
      }
    }
  }

  /** Checks are decided in the windows they would be decided in without syncing exactly when they are in step. */
  lemma {:induction false} SameWindowsIffInStep(source: Source, events: seq<Event>, limit: nat, interval: nat)
    requires 0 < interval
    ensures SameWindows(source, events, limit, interval) <==> InStep(events, interval)
  {
    if events != [] {
      var before := events[..|events| - 1];
      SameWindowsIffInStep(source, before, limit, interval);
      WindowReached(source, before, limit, interval);
      WindowReached(source, Questions(before), limit, interval);
      QuestionsReachLess(before, interval);
      hide React, Replay;
    }
  }

  // ---------------------------------------------------------------- telling the difference

  function Copies(e: Event, k: nat): (r: seq<Event>)
    ensures |r| == k && forall i :: 0 <= i < k ==> r[i] == e
  {
    seq(k, _ => e)
  }

  lemma {:induction false} CopiesAsk(e: Event, k: nat)
    requires e.Asked?
    ensures Questions(Copies(e, k)) == Copies(e, k)
  {
    if k != 0 {
      CopiesAsk(e, k - 1);
      assert Copies(e, k)[..k - 1] == Copies(e, k - 1);
      assert Copies(e, k) == Copies(e, k - 1) + [e];
    }
  }

  /** The last moment of the latest window reached: nothing of the window before is in view. */
  ghost function Probe(events: seq<Event>, interval: nat): Event {
    Asked(Reached(events, interval), interval)
  }

  /** A run cut off after `n` events and continued by `k` checks in the window it has reached. */
  ghost function Continued(events: seq<Event>, n: nat, k: nat, interval: nat): seq<Event>
    requires n <= |events|
  {
    events[..n] + Copies(Probe(events[..n], interval), k)
  }

  ghost predicate SameAnswers(source: Source, events: seq<Event>, limit: nat, interval: nat)
    requires 0 < interval
  {
    Replay(NewShard(source), events, limit, interval).1 == Replay(NewShard(source), Questions(events), limit, interval).1
  }

  /** Whatever the limit, wherever the run is cut off and however often the key is checked then, syncing shows in no answer. */
  ghost predicate NeverShows(source: Source, events: seq<Event>, interval: nat)
    requires 0 < interval
  {
    forall n, k, limit :: 0 <= n <= |events| && 0 <= k && 0 <= limit <= U64_MAX ==>
      SameAnswers(source, Continued(events, n, k, interval), limit, interval)
  }

  lemma {:induction false} PrefixInStep(events: seq<Event>, n: nat, interval: nat)
    requires InStep(events, interval) && n <= |events|
    ensures InStep(events[..n], interval)
  {
    if n == |events| {
      assert events[..n] == events;
    } else {
      assert events[..|events| - 1][..n] == events[..n];
      PrefixInStep(events[..|events| - 1], n, interval);
    }
  }

  lemma {:induction false} ProbesKeepStep(events: seq<Event>, k: nat, interval: nat)
    requires InStep(events, interval) && Lone(events)
    ensures var all := events + Copies(Probe(events, interval), k);
            InStep(all, interval) && Lone(all) && Reached(all, interval) == Reached(events, interval)
  {
    var probe := Probe(events, interval);
    ReachedInRange(events, interval);
    if k == 0 {
      assert events + Copies(probe, 0) == events;
    } else {
      ProbesKeepStep(events, k - 1, interval);
      var all := events + Copies(probe, k);
      assert all[..|all| - 1] == events + Copies(probe, k - 1) && all[|all| - 1] == probe;
    }
  }

  lemma {:induction false} ReachedInRange(events: seq<Event>, interval: nat)
    requires Lone(events)
    ensures Reached(events, interval) < U64_MAX
  {
    if events != [] {
      ReachedInRange(events[..|events| - 1], interval);
      assert LoneEvent(events[|events| - 1]);
    }
  }

  lemma {:induction false} CountsWithin(source: Source, events: seq<Event>, limit: nat, interval: nat)
    requires 0 < interval && Lone(events)
    ensures var s := Replay(NewShard(source), events, limit, interval).0;
            s.ownCurrent + s.ownPrevious <= |events| && NoRemote(s)
  {
    if events != [] {
      CountsWithin(source, events[..|events| - 1], limit, interval);
      assert LoneEvent(events[|events| - 1]);
      hide Decide;
    }
  }

  lemma CheckCounts(s: Shard, bucket: nat, elapsed: nat, limit: nat, interval: nat)
    requires 0 < interval && elapsed <= interval && NoRemote(s) && limit <= U64_MAX
    requires var r := RollTo(s, bucket);
             r.ownCurrent < limit && (elapsed == interval || (r.ownCurrent == 0 && r.ownPrevious < limit))
    ensures var (t, d) := CheckShard(s, bucket, elapsed, limit, interval);
            d.allowed && t == RollTo(s, bucket).(ownCurrent := RollTo(s, bucket).ownCurrent + 1)
  {
    var r := RollTo(s, bucket);
    ScaleIsProduct(SatAdd(r.ownPrevious, 0), 0);
    ScaleStrict(r.ownCurrent, limit, interval);
    if r.ownCurrent == 0 && elapsed != interval {
      ScaleMonotoneUnit(r.ownPrevious, interval - elapsed, interval);
      ScaleStrict(r.ownPrevious, limit, interval);
    }
  }

  lemma CheckRefuses(s: Shard, bucket: nat, elapsed: nat, limit: nat, interval: nat)
    requires 0 < interval && elapsed <= interval && NoRemote(s) && limit <= U64_MAX
    requires RollTo(s, bucket).ownCurrent == limit
    ensures var (t, d) := CheckShard(s, bucket, elapsed, limit, interval);
            !d.allowed && t == RollTo(s, bucket)
  {
  }

  /** Checks at the end of a window are admitted until it holds `limit`. */
  lemma {:induction false} FillsUp(s: Shard, bucket: nat, k: nat, limit: nat, interval: nat)
    requires 0 < interval && s.bucket <= bucket < U64_MAX && NoRemote(s)
    requires RollTo(s, bucket).ownCurrent + k <= limit <= U64_MAX
    ensures var t := Replay(s, Copies(Asked(bucket, interval), k), limit, interval).0;
            t.bucket <= bucket && NoRemote(t)
            && RollTo(t, bucket) == RollTo(s, bucket).(ownCurrent := RollTo(s, bucket).ownCurrent + k)
  {
    if k != 0 {
      FillsUp(s, bucket, k - 1, limit, interval);
      assert Copies(Asked(bucket, interval), k)[..k - 1] == Copies(Asked(bucket, interval), k - 1);
      CheckCounts(Replay(s, Copies(Asked(bucket, interval), k - 1), limit, interval).0, bucket, interval, limit, interval);
      hide CheckShard;
    }
  }

  lemma LastProbe(s: Shard, bucket: nat, limit: nat, interval: nat)
    requires 0 < interval && 0 < limit <= U64_MAX && s.bucket <= bucket < U64_MAX && NoRemote(s)
    requires RollTo(s, bucket).ownCurrent <= 1
    ensures var answers := Replay(s, Copies(Asked(bucket, interval), limit), limit, interval).1;
            answers != [] && (answers[|answers| - 1].allowed <==> RollTo(s, bucket).ownCurrent == 0)
  {
    var probe := Asked(bucket, interval);
    FillsUp(s, bucket, limit - 1, limit, interval);
    assert Copies(probe, limit) == Copies(probe, limit - 1) + [probe];
    ReplayMore(s, Copies(probe, limit - 1), [probe], limit, interval);
    var t := Replay(s, Copies(probe, limit - 1), limit, interval).0;
    hide Replay;
    if RollTo(s, bucket).ownCurrent == 0 {
      CheckCounts(t, bucket, interval, limit, interval);
    } else {
      CheckRefuses(t, bucket, interval, limit, interval);
    }
    hide CheckShard;
  }

  lemma {:induction false} FirstOutOfStep(events: seq<Event>, interval: nat) returns (n: nat)
    requires !InStep(events, interval)
    ensures n < |events| && InStep(events[..n], interval) && !KeepsStep(events[..n], events[n], interval)
  {
    n := |events| - 1;
    if !InStep(events[..n], interval) {
      var m := FirstOutOfStep(events[..n], interval);
      assert events[..n][..m] == events[..m];
      n := m;
    }
  }

  /** The first check out of step is counted in a later window than it would be without syncing. */
  lemma OutOfStepIsCountedLater(source: Source, before: seq<Event>, e: Event, limit: nat, interval: nat)
    requires 0 < interval && Lone(before) && LoneEvent(e) && InStep(before, interval) && !KeepsStep(before, e, interval)
    requires |before| < limit <= U64_MAX
    ensures var bucket := Reached(before, interval);
            var s := React(Replay(NewShard(source), before, limit, interval).0, e, limit, interval).0;
            var t := React(Replay(NewShard(source), Questions(before), limit, interval).0, e, limit, interval).0;
            && s.bucket == bucket && t.bucket < bucket < U64_MAX && NoRemote(s) && NoRemote(t)
            && RollTo(s, bucket).ownCurrent == 1 && RollTo(t, bucket).ownCurrent == 0
  {
    var s := Replay(NewShard(source), before, limit, interval).0;
    var t := Replay(NewShard(source), Questions(before), limit, interval).0;
    SyncIsInvisible(source, before, limit, interval);
    WindowReached(source, before, limit, interval);
    WindowReached(source, Questions(before), limit, interval);
    CountsWithin(source, before, limit, interval);
    hide Replay;
    CheckCounts(s, e.bucket, e.elapsed, limit, interval);
    hide Decide;
  }

  lemma OutOfStepShows(source: Source, events: seq<Event>, n: nat, limit: nat, interval: nat)
    requires 0 < interval && Lone(events) && n < |events| && limit == n + 1 <= U64_MAX
    requires InStep(events[..n], interval) && !KeepsStep(events[..n], events[n], interval)
    ensures !SameAnswers(source, events[..n + 1] + Copies(Probe(events[..n + 1], interval), limit), limit, interval)
  {
    var before, e := events[..n], events[n];
    var cut := events[..n + 1];
    assert LoneEvent(e) && cut[..n] == before && cut == before + [e];
    OutOfStepIsCountedLater(source, before, e, limit, interval);
    ReplayMore(NewShard(source), before, [e], limit, interval);
    ReplayMore(NewShard(source), Questions(before), [e], limit, interval);
    assert Reached(cut, interval) == Reached(before, interval) && Questions(cut) == Questions(before) + [e];
    hide *;
    LastProbesShow(source, cut, limit, interval);
  }

  /** If syncing has moved a check into a later window, the checks that use that window up are answered differently. */
  lemma LastProbesShow(source: Source, cut: seq<Event>, limit: nat, interval: nat)
    requires 0 < interval && 0 < limit <= U64_MAX
    requires var bucket := Reached(cut, interval);
             var s := Replay(NewShard(source), cut, limit, interval).0;
             var t := Replay(NewShard(source), Questions(cut), limit, interval).0;
             && s.bucket == bucket && t.bucket < bucket < U64_MAX && NoRemote(s) && NoRemote(t)
             && RollTo(s, bucket).ownCurrent == 1 && RollTo(t, bucket).ownCurrent == 0
    ensures !SameAnswers(source, cut + Copies(Probe(cut, interval), limit), limit, interval)
  {
    var probes := Copies(Probe(cut, interval), limit);
    QuestionsInTwo(cut, probes);
    CopiesAsk(Probe(cut, interval), limit);
    ReplayInTwo(NewShard(source), cut, probes, limit, interval);
    ReplayInTwo(NewShard(source), Questions(cut), probes, limit, interval);
    var s, t := Replay(NewShard(source), cut, limit, interval), Replay(NewShard(source), Questions(cut), limit, interval);
    LastProbe(s.0, Reached(cut, interval), limit, interval);
    LastProbe(t.0, Reached(cut, interval), limit, interval);
    hide Replay, React, Reached, RollTo;
    var a, b := Replay(s.0, probes, limit, interval).1, Replay(t.0, probes, limit, interval).1;
    assert (s.1 + a)[|s.1 + a| - 1] == a[|a| - 1] && (t.1 + b)[|t.1 + b| - 1] == b[|b| - 1];
  }

  /**
   Syncing shows in no answer, however the run is cut off and continued, exactly when every check is in
   step.  (The converse needs a limit above the number of events, which a counter must be able to hold.)
   */
  lemma InvisibleIffInStep(source: Source, events: seq<Event>, interval: nat)
    requires 0 < interval && Lone(events)
    ensures InStep(events, interval) ==> NeverShows(source, events, interval)
    ensures |events| <= U64_MAX && NeverShows(source, events, interval) ==> InStep(events, interval)
  {
    if InStep(events, interval) {
      forall n, k, limit | 0 <= n <= |events| && 0 <= k && 0 <= limit <= U64_MAX
        ensures SameAnswers(source, Continued(events, n, k, interval), limit, interval)
      {
        PrefixInStep(events, n, interval);
        ProbesKeepStep(events[..n], k, interval);
        SyncIsInvisible(source, Continued(events, n, k, interval), limit, interval);
      }
    } else if |events| <= U64_MAX {
      var n := FirstOutOfStep(events, interval);
      OutOfStepShows(source, events, n, n + 1, interval);
      assert !SameAnswers(source, Continued(events, n + 1, n + 1, interval), n + 1, interval);
    }
  }

  /**
   A clock that steps back behind a tick is out of step, and it shows: a key that has used its window up
   is refused, but after a tick that saw the next window the same check is admitted.
   */
  lemma ClockStepChangesADecision(source: Source, bucket: nat, elapsed: nat, limit: nat, interval: nat)
    requires 0 < elapsed <= interval && 0 < limit <= U64_MAX && bucket + 1 < U64_MAX
    ensures var spent := Copies(Asked(bucket, interval), limit);
            var e := Asked(bucket, elapsed);
            var synced := Replay(NewShard(source), spent + [Ticked(bucket + 1)] + [e], limit, interval).1;
            var alone := Replay(NewShard(source), spent + [e], limit, interval).1;
            && Questions(spent + [Ticked(bucket + 1)] + [e]) == spent + [e]
            && synced != [] && alone != [] && synced[|synced| - 1].allowed && !alone[|alone| - 1].allowed
  {
    hide React, Questions, Replay, CheckShard;
    var newborn, spent, e := NewShard(source), Copies(Asked(bucket, interval), limit), Asked(bucket, elapsed);
    FillsUp(newborn, bucket, limit, limit, interval);
    ReplayMore(newborn, spent, [e], limit, interval);
    ReplayMore(newborn, spent, [Ticked(bucket + 1)], limit, interval);
    ReplayMore(newborn, spent + [Ticked(bucket + 1)], [e], limit, interval);
    OnlyTheTickGoes(spent, bucket, elapsed, limit, interval);
    SpentIsRefused(Replay(newborn, spent, limit, interval).0, bucket, elapsed, limit, interval);
  }

  lemma OnlyTheTickGoes(spent: seq<Event>, bucket: nat, elapsed: nat, limit: nat, interval: nat)
    requires spent == Copies(Asked(bucket, interval), limit)
    ensures Questions(spent + [Ticked(bucket + 1)] + [Asked(bucket, elapsed)]) == spent + [Asked(bucket, elapsed)]
  {
    CopiesAsk(Asked(bucket, interval), limit);
    QuestionsInTwo(spent, [Ticked(bucket + 1)]);
    QuestionsInTwo(spent + [Ticked(bucket + 1)], [Asked(bucket, elapsed)]);
    assert Questions([Ticked(bucket + 1)]) == [] && Questions([Asked(bucket, elapsed)]) == [Asked(bucket, elapsed)];
    hide Questions;
    assert spent + [] == spent;
  }

  /** A window used up refuses a check that it admits once a tick has moved it on. */
  lemma SpentIsRefused(s: Shard, bucket: nat, elapsed: nat, limit: nat, interval: nat)
    requires 0 < elapsed <= interval && 0 < limit <= U64_MAX && bucket + 1 < U64_MAX
    requires s.bucket <= bucket && NoRemote(s) && RollTo(s, bucket).ownCurrent == limit
    ensures var refused := React(s, Asked(bucket, elapsed), limit, interval).1;
            var ticked := React(s, Ticked(bucket + 1), limit, interval).0;
            var admitted := React(ticked, Asked(bucket, elapsed), limit, interval).1;
            |refused| == 1 && !refused[0].allowed && |admitted| == 1 && admitted[0].allowed
  {
    CheckRefuses(s, bucket, elapsed, limit, interval);
    RollTwice(s, bucket, bucket + 1);
    hide CheckShard;
    TickedIsAdmitted(RollTo(s, bucket + 1), bucket, elapsed, limit, interval);
  }

  lemma TickedIsAdmitted(s: Shard, bucket: nat, elapsed: nat, limit: nat, interval: nat)
    requires 0 < elapsed <= interval && 0 < limit <= U64_MAX
    requires s.bucket == bucket + 1 && s.ownCurrent == 0 && s.ownPrevious == limit && NoRemote(s)
    ensures CheckShard(s, bucket, elapsed, limit, interval).1.allowed
  {
    ScaleSplit(limit, interval - elapsed, elapsed);
    ScaleMonotone(1, limit, elapsed);
    assert Scale(1, elapsed) == elapsed;
  }
}
