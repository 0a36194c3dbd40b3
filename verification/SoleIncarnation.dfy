/**
 Syncing is invisible to a key that only one incarnation counts, as long as its checks keep step with
 its ticks; and how long the backend keeps what it was sent.
 */
module SoleIncarnation {
  import opened Prelude
  import opened Arithmetic
  import opened RateLimit
  import opened SharedCounters
  import opened Cluster
  import opened ClusterGuarantees
  import opened SyncSchedule

  /** What one step means to `source`, if anything. */
  ghost function EventsAt(c: Cluster, step: Step, source: Source): (r: seq<Event>)
    ensures |r| <= 1
  {
    match step
    case Check(s, bucket, elapsed) => if s == source then [Asked(bucket, elapsed)] else []
    case Send(s, bucket) => if s == source then [Ticked(bucket)] else []
    case Fold(index) =>
      if index < |c.replies| && c.replies[index].publish.source == source
      then [Heard(c.replies[index].publish, c.replies[index].totals)] else []
    case _ => []
  }

  /** The answer `source` gives in one step, if it is asked. */
  ghost function AnswersAt(c: Cluster, step: Step, source: Source, limit: nat, interval: nat): seq<Decision>
    requires 0 < interval
  {
    if step.Check? && step.source == source && source in c.shards && step.elapsed <= interval
    then [CheckShard(c.shards[source].shard, step.bucket, step.elapsed, limit, interval).1] else []
  }

  /** What `source` went through in the first `n` steps of an execution. */
  ghost function EventsOf(states: seq<Cluster>, steps: seq<Step>, n: nat, source: Source): seq<Event>
    requires |states| == |steps| + 1 && n <= |steps|
  {
    if n == 0 then []
    else EventsOf(states, steps, n - 1, source) + EventsAt(states[n - 1], steps[n - 1], source)
  }

  /** The answers `source` gave in the first `n` steps of an execution. */
  ghost function AnswersOf(states: seq<Cluster>, steps: seq<Step>, n: nat, source: Source, limit: nat, interval: nat): seq<Decision>
    requires |states| == |steps| + 1 && n <= |steps| && 0 < interval
  {
    if n == 0 then []
    else AnswersOf(states, steps, n - 1, source, limit, interval) + AnswersAt(states[n - 1], steps[n - 1], source, limit, interval)
  }

  /** One step changes a shard as its own events say, and a shard no event concerns not at all. */
  lemma StepProjects(c: Cluster, step: Step, source: Source, limit: nat, interval: nat)
    requires Enabled(c, step, interval) && 0 < interval && source in c.shards
    ensures var d := Next(c, step, limit, interval);
            var events := EventsAt(c, step, source);
            && source in d.shards
            && (d.shards[source].shard, AnswersAt(c, step, source, limit, interval))
                 == if events == [] then (c.shards[source].shard, []) else React(c.shards[source].shard, events[0], limit, interval)
  {
    hide CheckShard, RollTo, ApplyTotals, Read;
  }

  lemma StepOpens(c: Cluster, step: Step, source: Source, limit: nat, interval: nat)
    requires Enabled(c, step, interval) && 0 < interval && source !in c.shards
    ensures EventsAt(c, step, source) == [] && AnswersAt(c, step, source, limit, interval) == []
    ensures var d := Next(c, step, limit, interval); source in d.shards ==> d.shards[source].shard == NewShard(source)
  {
    hide CheckShard, RollTo, ApplyTotals, Read;
  }

  /** A shard in a cluster moves only by its own events. */
  lemma {:induction false} ProjectionReplays(states: seq<Cluster>, steps: seq<Step>, n: nat, source: Source, limit: nat, interval: nat)
    requires Execution(states, steps, limit, interval) && n <= |steps|
    ensures var events := EventsOf(states, steps, n, source);
            var answers := AnswersOf(states, steps, n, source, limit, interval);
            if source in states[n].shards then Replay(NewShard(source), events, limit, interval) == (states[n].shards[source].shard, answers)
            else events == [] && answers == []
  {
    hide *;
    if n == 0 {
      NothingYet(states, steps, source, limit, interval);
    } else {
      StepAt(states, steps, n - 1, limit, interval);
      var c := states[n - 1];
      OneMoreStep(states, steps, n, source, limit, interval);
      ProjectionReplays(states, steps, n - 1, source, limit, interval);
      if source in c.shards {
        StepProjects(c, steps[n - 1], source, limit, interval);
        ReplayMore(NewShard(source), EventsOf(states, steps, n - 1, source), EventsAt(c, steps[n - 1], source), limit, interval);
        var answers := AnswersOf(states, steps, n - 1, source, limit, interval);
        assert answers + [] == answers;
      } else {
        StepOpens(c, steps[n - 1], source, limit, interval);
        ReplayNothing(NewShard(source), limit, interval);
      }
    }
  }

  lemma NothingYet(states: seq<Cluster>, steps: seq<Step>, source: Source, limit: nat, interval: nat)
    requires Execution(states, steps, limit, interval)
    ensures |states| == |steps| + 1 && 0 < interval && source !in states[0].shards
    ensures EventsOf(states, steps, 0, source) == [] && AnswersOf(states, steps, 0, source, limit, interval) == []
  {
  }

  lemma StepAt(states: seq<Cluster>, steps: seq<Step>, i: nat, limit: nat, interval: nat)
    requires Execution(states, steps, limit, interval) && i < |steps|
    ensures |states| == |steps| + 1 && 0 < interval
    ensures Enabled(states[i], steps[i], interval) && states[i + 1] == Next(states[i], steps[i], limit, interval)
  {
  }

  lemma OneMoreStep(states: seq<Cluster>, steps: seq<Step>, n: nat, source: Source, limit: nat, interval: nat)
    requires |states| == |steps| + 1 && 0 < n <= |steps| && 0 < interval
    ensures EventsOf(states, steps, n, source) == EventsOf(states, steps, n - 1, source) + EventsAt(states[n - 1], steps[n - 1], source)
    ensures AnswersOf(states, steps, n, source, limit, interval)
         == AnswersOf(states, steps, n - 1, source, limit, interval) + AnswersAt(states[n - 1], steps[n - 1], source, limit, interval)
  {
  }

  // ---------------------------------------------------------------- syncing alone

  /**
   In every execution where no other incarnation of the key exists and each check is in step, each answer
   is the one a replica that never syncs would have given.
   */
  lemma SyncingNeverChangesADecision(states: seq<Cluster>, steps: seq<Step>, n: nat, source: Source, limit: nat, interval: nat)
    requires Execution(states, steps, limit, interval) && n <= |steps|
    requires source in states[n].shards && Alone(states[n], source, states[n].shards[source].key)
    requires InStep(EventsOf(states, steps, n, source), interval)
    ensures AnswersOf(states, steps, n, source, limit, interval)
         == Replay(NewShard(source), Questions(EventsOf(states, steps, n, source)), limit, interval).1
  {
    hide Inv, Next, React, InStep;
    ProjectionReplays(states, steps, n, source, limit, interval);
    AloneMeansLone(states, steps, n, source, states[n].shards[source].key, limit, interval);
    SyncIsInvisible(source, EventsOf(states, steps, n, source), limit, interval);
  }

  /** No incarnation but `source` counts `key`. */
  ghost predicate Alone(c: Cluster, source: Source, key: string) {
    forall s :: s in c.shards ==> (c.shards[s].key == key <==> s == source)
  }

  lemma {:induction false} AloneMeansLone(states: seq<Cluster>, steps: seq<Step>, n: nat, source: Source, key: string, limit: nat, interval: nat)
    requires Execution(states, steps, limit, interval) && n <= |steps| && Alone(states[n], source, key)
    ensures Lone(EventsOf(states, steps, n, source))
  {
    hide *;
    if n == 0 {
      NothingYet(states, steps, source, limit, interval);
      NothingIsLone();
    } else {
      StepAt(states, steps, n - 1, limit, interval);
      var c, step := states[n - 1], steps[n - 1];
      StepKeepsAlone(c, step, source, key, limit, interval);
      HeardAlone(states, steps, n - 1, source, key, limit, interval);
      ClockInRange(c, step, source, interval);
      AloneMeansLone(states, steps, n - 1, source, key, limit, interval);
      OneMoreStep(states, steps, n, source, limit, interval);
      OneMoreLone(EventsOf(states, steps, n - 1, source), EventsAt(c, step, source));
    }
  }

  lemma NothingIsLone()
    ensures Lone([])
  {
  }

  lemma OneMoreLone(before: seq<Event>, more: seq<Event>)
    requires |more| <= 1 && Lone(before)
    requires more != [] ==>
      match more[0]
      case Heard(p, totals) => SatSub(totals.current, p.ownCurrent) == 0 && SatSub(totals.previous, p.ownPrevious) == 0
      case Asked(bucket, _) => bucket < U64_MAX
      case Ticked(bucket) => bucket < U64_MAX
    ensures Lone(before + more)
  {
  }

  lemma StepKeepsAlone(c: Cluster, step: Step, source: Source, key: string, limit: nat, interval: nat)
    requires Enabled(c, step, interval) && 0 < interval && Alone(Next(c, step, limit, interval), source, key)
    ensures Alone(c, source, key)
  {
    hide Next, Enabled;
    StepKeepsIncarnations(c, step, limit, interval);
  }

  /** A reply a lone source hears reports no one else. */
  lemma HeardAlone(states: seq<Cluster>, steps: seq<Step>, n: nat, source: Source, key: string, limit: nat, interval: nat)
    requires Execution(states, steps, limit, interval) && n < |steps| && Alone(states[n], source, key)
    ensures var more := EventsAt(states[n], steps[n], source);
            more != [] && more[0].Heard? ==>
              && SatSub(more[0].totals.current, more[0].publish.ownCurrent) == 0
              && SatSub(more[0].totals.previous, more[0].publish.ownPrevious) == 0
  {
    hide Next, Inv;
    StepAt(states, steps, n, limit, interval);
    var more := EventsAt(states[n], steps[n], source);
    if more != [] && more[0].Heard? {
      ReplyOfALoneSource(states, steps, n, key, steps[n].index, limit, interval);
    }
  }

  lemma StepKeepsIncarnations(c: Cluster, step: Step, limit: nat, interval: nat)
    requires Enabled(c, step, interval) && 0 < interval
    ensures var d := Next(c, step, limit, interval);
            forall s :: s in c.shards ==> s in d.shards && d.shards[s].key == c.shards[s].key
  {
    hide CheckShard, RollTo, ApplyTotals, Read;
  }

  lemma ReplyOfALoneSource(states: seq<Cluster>, steps: seq<Step>, n: nat, key: string, index: nat, limit: nat, interval: nat)
    requires Execution(states, steps, limit, interval) && n <= |steps| && index < |states[n].replies|
    requires var source := states[n].replies[index].publish.source;
             source in states[n].shards && Alone(states[n], source, key)
    ensures var Reply(p, totals) := states[n].replies[index];
            SatSub(totals.current, p.ownCurrent) == 0 && SatSub(totals.previous, p.ownPrevious) == 0
  {
    ExecutionKeepsInv(states, steps, n, limit, interval);
    var c := states[n];
    var p := c.replies[index].publish;
    assert ReplyOk(c, c.replies[index]);
    CountNone(c.log, key, p.bucket, Except(p.source));
    CountNone(c.log, key, p.bucket - 1, Except(p.source));
  }

  lemma ClockInRange(c: Cluster, step: Step, source: Source, interval: nat)
    requires Enabled(c, step, interval)
    ensures var more := EventsAt(c, step, source);
            more != [] && !more[0].Heard? ==> more[0].bucket < U64_MAX
  {
  }

  // ---------------------------------------------------------------- expiry

  /** Whole seconds the backend keeps a window: two intervals, rounded up, at least two. */
  function TtlSecs(interval: nat): nat {
    var lifetime := Min(2 * interval, DURATION_MAX);
    Max(SatAdd(lifetime / NANOS_PER_SEC, if lifetime % NANOS_PER_SEC != 0 then 1 else 0), 2)
  }

  /**
   A field written while its window is current or previous is still there at every moment the window is
   in view, which ends two intervals after the window began.
   */
  lemma FieldOutlivesItsView(interval: nat, bucket: nat, writtenAt: nat, readAt: nat)
    requires 0 < interval && 2 * interval <= U64_MAX * NANOS_PER_SEC
    requires Position(writtenAt, interval).Some?
    requires Position(writtenAt, interval).value.0 == bucket || Position(writtenAt, interval).value.0 == bucket + 1
    requires writtenAt <= readAt < Scale(bucket + 2, interval)
    ensures readAt < writtenAt + TtlSecs(interval) * NANOS_PER_SEC
  {
    QuotientBounds(writtenAt, interval);
    ScaleMonotone(bucket, Position(writtenAt, interval).value.0, interval);
    assert Scale(bucket + 2, interval) == Scale(bucket, interval) + 2 * interval;
  }
}
