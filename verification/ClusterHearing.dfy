/**
 What replicas learn of each other (ratelimit/shared.rs with ratelimit/resp.rs): a published total that
 the backend still holds is in every later reading of its window, and a reading folded in time is what
 its replica then counts against the quota.
 */
module ClusterHearing {
  import opened Prelude
  import opened RateLimit
  import opened SharedCounters
  import opened Cluster
  import opened ClusterGuarantees

  /** What a view holds of the peers' usage of window `b`. */
  function PeersIn(s: Shard, b: int): nat {
    if b == s.bucket then s.remoteCurrent else if b == s.bucket - 1 then s.remotePrevious else 0
  }

  /** The total a snapshot carries for window `b`. */
  function OwnIn(p: Publish, b: int): nat {
    if b == p.bucket then p.ownCurrent else p.ownPrevious
  }

  /** The command at the head of the pipe that `step` executes belongs to `p` and is its `stage`. */
  ghost predicate Runs(c: Cluster, step: Step, p: Publish, stage: Stage) {
    && step.Execute? && Pipe(c, step.replica) != []
    && Pipe(c, step.replica)[0].publish == p && Pipe(c, step.replica)[0].stage == stage
  }

  /** Step `i` writes the totals of `p` for window `b`. */
  ghost predicate Writes(states: seq<Cluster>, steps: seq<Step>, i: nat, p: Publish, b: int) {
    && i < |steps| && i < |states|
    && ((b == p.bucket && Runs(states[i], steps[i], p, WriteCurrent)) || (b == p.bucket - 1 && Runs(states[i], steps[i], p, WritePrevious)))
  }

  /** Step `i` reads window `b` on behalf of `p`. */
  ghost predicate Reads(states: seq<Cluster>, steps: seq<Step>, i: nat, p: Publish, b: int) {
    && i < |steps| && i < |states|
    && ((b == p.bucket && Runs(states[i], steps[i], p, ReadCurrent)) || (b == p.bucket - 1 && Runs(states[i], steps[i], p, ReadPrevious)))
  }

  ghost predicate NoForget(steps: seq<Step>, i: int, j: int, key: string, b: int) {
    forall k :: 0 <= k < |steps| && i <= k < j && steps[k].Forget? ==> !(steps[k].key == key && steps[k].bucket == b)
  }

  ghost function Held(c: Cluster, key: string, b: int): Window {
    if 0 <= b then WindowOf(c, key, b) else map[]
  }

  lemma StepOf(states: seq<Cluster>, steps: seq<Step>, i: nat, limit: nat, interval: nat)
    requires Execution(states, steps, limit, interval) && i < |steps|
    ensures |states| == |steps| + 1 && 0 < interval && limit <= U64_MAX
    ensures Inv(states[i], limit) && Inv(states[i + 1], limit)
    ensures Enabled(states[i], steps[i], interval) && states[i + 1] == Next(states[i], steps[i], limit, interval)
  {
    ExecutionKeepsInv(states, steps, i, limit, interval);
    ExecutionKeepsInv(states, steps, i + 1, limit, interval);
    hide Next, Enabled, Inv;
  }

  // ---------------------------------------------------------------- folding

  /**
   What folding a reply does to a view: in the window of its snapshot both readings are taken over, less
   the snapshot's own totals; one window later the current reading becomes the previous; otherwise, and
   for every other view, nothing changes.
   */
  lemma FoldTakesIn(c: Cluster, index: nat, limit: nat, interval: nat)
    requires Inv(c, limit) && Enabled(c, Fold(index), interval) && 0 < interval
    ensures var Reply(p, t) := c.replies[index];
            var d := Next(c, Fold(index), limit, interval);
            var before, after := c.shards[p.source].shard, d.shards[p.source].shard;
            var current := if p.ownCurrent <= t.current then t.current - p.ownCurrent else 0;
            var previous := if p.ownPrevious <= t.previous then t.previous - p.ownPrevious else 0;
            && after.bucket == before.bucket && after.ownCurrent == before.ownCurrent && after.ownPrevious == before.ownPrevious
            && (before.bucket == p.bucket ==> after.remoteCurrent == current && after.remotePrevious == previous)
            && (before.bucket == p.bucket + 1 ==> after.remoteCurrent == before.remoteCurrent && after.remotePrevious == current)
            && (before.bucket != p.bucket && before.bucket != p.bucket + 1 ==> after == before)
            && forall s :: s in c.shards && s != p.source ==> s in d.shards && d.shards[s] == c.shards[s]
  {
    assert ShardOk(c.log, c.replies[index].publish.source, c.shards[c.replies[index].publish.source], limit);
    hide Count, WindowsOk, PipesOk, RepliesOk, LogOk, LimitOk;
  }

  ghost predicate FoldsFor(c: Cluster, step: Step, source: Source) {
    step.Fold? && step.index < |c.replies| && c.replies[step.index].publish.source == source
  }

  /** No step but a fold changes what a view holds of a window, as long as the window stays in view. */
  lemma StepKeepsPeers(c: Cluster, step: Step, source: Source, b: int, limit: nat, interval: nat)
    requires Inv(c, limit) && Enabled(c, step, interval) && 0 < interval && source in c.shards
    requires !FoldsFor(c, step, source)
    ensures var d := Next(c, step, limit, interval);
            && source in d.shards && d.shards[source].key == c.shards[source].key
            && c.shards[source].shard.bucket <= d.shards[source].shard.bucket
            && (d.shards[source].shard.bucket - 1 <= b ==> PeersIn(d.shards[source].shard, b) == PeersIn(c.shards[source].shard, b))
  {
    hide *;
    ViewInRange(c, source, limit);
    var s := c.shards[source].shard;
    if step.Check? && step.source == source {
      CheckedView(c, step.source, step.bucket, step.elapsed, limit, interval);
      CheckKeepsPeers(s, step.bucket, step.elapsed, limit, interval, b);
    } else if step.Send? && step.source == source {
      RollKeepsPeers(s, step.bucket, b);
      SentView(c, step.source, step.bucket, limit, interval);
    } else {
      ViewStays(c, step, source, limit, interval);
    }
  }

  lemma ViewInRange(c: Cluster, source: Source, limit: nat)
    requires Inv(c, limit) && source in c.shards
    ensures c.shards[source].shard.bucket < U64_MAX && c.shards[source].shard.source == source
  {
    hide Count;
    assert ShardOk(c.log, source, c.shards[source], limit);
  }

  lemma CheckedView(c: Cluster, source: Source, bucket: nat, elapsed: nat, limit: nat, interval: nat)
    requires Enabled(c, Check(source, bucket, elapsed), interval) && 0 < interval
    ensures source in c.shards && elapsed <= interval
    ensures var d := Next(c, Check(source, bucket, elapsed), limit, interval);
            source in d.shards && d.shards[source] ==
              c.shards[source].(shard := CheckShard(c.shards[source].shard, bucket, elapsed, limit, interval).0)
  {
    hide CheckShard;
  }

  lemma SentView(c: Cluster, source: Source, bucket: nat, limit: nat, interval: nat)
    requires Enabled(c, Send(source, bucket), interval) && 0 < interval
    ensures source in c.shards
    ensures var d := Next(c, Send(source, bucket), limit, interval);
            source in d.shards && d.shards[source] == c.shards[source].(shard := RollTo(c.shards[source].shard, bucket))
  {
    hide RollTo;
  }

  /** No other step touches a view. */
  lemma ViewStays(c: Cluster, step: Step, source: Source, limit: nat, interval: nat)
    requires Enabled(c, step, interval) && 0 < interval && source in c.shards
    requires !FoldsFor(c, step, source) && !((step.Check? || step.Send?) && step.source == source)
    ensures var d := Next(c, step, limit, interval); source in d.shards && d.shards[source] == c.shards[source]
  {
    hide CheckShard, RollTo, ApplyTotals, Read;
  }

  lemma {:induction false} PeersAreKept(states: seq<Cluster>, steps: seq<Step>, i: nat, j: nat, source: Source, b: int, limit: nat, interval: nat)
    requires Execution(states, steps, limit, interval) && i <= j <= |steps|
    requires source in states[i].shards
    requires forall k :: i <= k < j ==> !FoldsFor(states[k], steps[k], source)
    ensures source in states[j].shards && states[j].shards[source].key == states[i].shards[source].key
    ensures states[i].shards[source].shard.bucket <= states[j].shards[source].shard.bucket
    ensures states[j].shards[source].shard.bucket - 1 <= b ==>
              PeersIn(states[j].shards[source].shard, b) == PeersIn(states[i].shards[source].shard, b)
    decreases j - i
  {
    hide *;
    if i < j {
      PeersAreKept(states, steps, i, j - 1, source, b, limit, interval);
      StepOf(states, steps, j - 1, limit, interval);
      StepKeepsPeers(states[j - 1], steps[j - 1], source, b, limit, interval);
    }
  }

  // ---------------------------------------------------------------- deciding

  /**
   A check decides by the quota on what its replica counts: the requests it admitted itself and those it
   has heard of, in the current window and the one before.  The clock may have stepped back, and then the
   view's window stays.
   */
  lemma ChecksCountPeers(states: seq<Cluster>, steps: seq<Step>, i: nat, source: Source, bucket: nat, elapsed: nat, limit: nat, interval: nat)
    requires Execution(states, steps, limit, interval) && i < |steps| && steps[i] == Check(source, bucket, elapsed)
    ensures |states| == |steps| + 1 && source in states[i].shards && source in states[i + 1].shards && elapsed <= interval
    ensures var c := states[i];
            var s, key := c.shards[source].shard, c.shards[source].key;
            var window := if bucket < s.bucket then s.bucket else bucket;
            var current := Min(Count(c.log, key, window, Only(source)) + PeersIn(s, window), U64_MAX);
            var previous := Min(Count(c.log, key, window - 1, Only(source)) + PeersIn(s, window - 1), U64_MAX);
            && states[i + 1].shards[source].shard.bucket == window
            && states[i + 1].log ==
                 if previous * (interval - elapsed) + current * interval < limit * interval
                 then c.log + [Admission(key, source, window, PeersIn(s, window))] else c.log
  {
    hide *;
    StepOf(states, steps, i, limit, interval);
    CheckIs(states[i], source, bucket, elapsed, limit, interval);
  }

  lemma CheckIs(c: Cluster, source: Source, bucket: nat, elapsed: nat, limit: nat, interval: nat)
    requires Inv(c, limit) && Enabled(c, Check(source, bucket, elapsed), interval) && 0 < interval && limit <= U64_MAX
    ensures source in c.shards && elapsed <= interval
    ensures var d := Next(c, Check(source, bucket, elapsed), limit, interval);
            var s, key := c.shards[source].shard, c.shards[source].key;
            var window := if bucket < s.bucket then s.bucket else bucket;
            var current := Min(Count(c.log, key, window, Only(source)) + PeersIn(s, window), U64_MAX);
            var previous := Min(Count(c.log, key, window - 1, Only(source)) + PeersIn(s, window - 1), U64_MAX);
            && source in d.shards && d.shards[source].shard.bucket == window
            && d.log ==
                 if previous * (interval - elapsed) + current * interval < limit * interval
                 then c.log + [Admission(key, source, window, PeersIn(s, window))] else c.log
  {
    hide Count, Decide, Inv, ShardOk, RollTo, PeersIn;
    RolledCounts(c, source, bucket, limit);
    var r := RollTo(c.shards[source].shard, bucket);
    DecideIs(SatAdd(r.ownPrevious, r.remotePrevious), SatAdd(r.ownCurrent, r.remoteCurrent), elapsed, limit, interval, 0);
  }

  /** Rolling keeps what is in view: of the peers as it was heard, of its own requests as they were admitted. */
  lemma RolledCounts(c: Cluster, source: Source, bucket: nat, limit: nat)
    requires Inv(c, limit) && source in c.shards && bucket < U64_MAX
    ensures var s, key := c.shards[source].shard, c.shards[source].key;
            var window := if bucket < s.bucket then s.bucket else bucket;
            var r := RollTo(s, bucket);
            && r.bucket == window
            && r.ownCurrent == Count(c.log, key, window, Only(source)) && r.ownPrevious == Count(c.log, key, window - 1, Only(source))
            && r.remoteCurrent == PeersIn(s, window) && r.remotePrevious == PeersIn(s, window - 1)
  {
    hide Count;
    RollKeepsShard(c, source, bucket, limit);
    assert ShardOk(c.log, source, c.shards[source], limit);
  }

  lemma RollKeepsPeers(s: Shard, bucket: nat, b: int)
    requires s.bucket < U64_MAX
    ensures var r := RollTo(s, bucket);
            s.bucket <= r.bucket && (r.bucket - 1 <= b ==> PeersIn(r, b) == PeersIn(s, b))
  {
  }

  lemma CheckKeepsPeers(s: Shard, bucket: nat, elapsed: nat, limit: nat, interval: nat, b: int)
    requires s.bucket < U64_MAX && elapsed <= interval && 0 < interval
    ensures var r := CheckShard(s, bucket, elapsed, limit, interval).0;
            s.bucket <= r.bucket && (r.bucket - 1 <= b ==> PeersIn(r, b) == PeersIn(s, b))
  {
    RollKeepsPeers(s, bucket, b);
    hide RollTo, Decide;
  }

  // ---------------------------------------------------------------- the backend

  /** A write puts the snapshot's total, unless it is zero, into the window under its source. */
  lemma WriteTakesHold(states: seq<Cluster>, steps: seq<Step>, i: nat, p: Publish, b: nat, limit: nat, interval: nat)
    requires Execution(states, steps, limit, interval) && Writes(states, steps, i, p, b) && 0 < OwnIn(p, b)
    ensures i + 1 < |states|
    ensures var w := WindowOf(states[i + 1], p.key, b); p.source in w && w[p.source].total == OwnIn(p, b)
  {
    hide Execution, Inv, Count;
    StepOf(states, steps, i, limit, interval);
  }

  /** A field stays until its window is forgotten, and its total never falls. */
  lemma StepKeepsField(c: Cluster, step: Step, key: string, b: nat, source: Source, limit: nat, interval: nat)
    requires Inv(c, limit) && Enabled(c, step, interval) && 0 < interval
    requires source in WindowOf(c, key, b) && !(step.Forget? && step.key == key && step.bucket == b)
    ensures var w := WindowOf(Next(c, step, limit, interval), key, b);
            source in w && WindowOf(c, key, b)[source].total <= w[source].total
  {
    hide Count, CheckShard, ApplyTotals, Read, RollTo, ShardsOk, LogOk, LimitOk, RepliesOk, OpOk, NotNewer, WindowsOk;
    if step.Execute? {
      var op := Pipe(c, step.replica)[0];
      assert PipeOk(c, step.replica, c.pipes[step.replica]);
      if op.publish.source == source && op.publish.key == key {
        WriteIsNoLower(c, step.replica, op, key, b, source);
      }
    }
  }

  /** What a source writes is no lower than what the backend already holds for it. */
  lemma WriteIsNoLower(c: Cluster, replica: nat, op: Op, key: string, b: nat, source: Source)
    requires WindowsOk(c) && OpOk(c, replica, op) && NotNewer(c, replica, op.at)
    requires source in WindowOf(c, key, b) && op.publish.source == source && op.publish.key == key
    ensures b == op.publish.bucket ==> WindowOf(c, key, b)[source].total <= op.publish.ownCurrent
    ensures b == op.publish.bucket - 1 ==> WindowOf(c, key, b)[source].total <= op.publish.ownPrevious
  {
    OwnFieldBound(c, replica, op, b);
  }

  lemma {:induction false} FieldStands(states: seq<Cluster>, steps: seq<Step>, i: nat, j: nat, key: string, b: nat, source: Source, limit: nat, interval: nat)
    requires Execution(states, steps, limit, interval) && i <= j <= |steps| && NoForget(steps, i, j, key, b)
    requires source in WindowOf(states[i], key, b)
    ensures source in WindowOf(states[j], key, b)
    ensures WindowOf(states[i], key, b)[source].total <= WindowOf(states[j], key, b)[source].total
    decreases j - i
  {
    hide *;
    if i < j {
      NoForgetSplit(steps, i, j, key, b);
      FieldStands(states, steps, i, j - 1, key, b, source, limit, interval);
      StepOf(states, steps, j - 1, limit, interval);
      StepKeepsField(states[j - 1], steps[j - 1], key, b, source, limit, interval);
    }
  }

  lemma NoForgetSplit(steps: seq<Step>, i: nat, j: nat, key: string, b: int)
    requires i < j <= |steps| && NoForget(steps, i, j, key, b)
    ensures NoForget(steps, i, j - 1, key, b) && NoForget(steps, i + 1, j, key, b)
    ensures !(steps[j - 1].Forget? && steps[j - 1].key == key && steps[j - 1].bucket == b)
  {
  }

  /** Once written, a total is in the window, at its own value or a later one, as long as the window is not forgotten. */
  lemma WrittenStands(states: seq<Cluster>, steps: seq<Step>, i: nat, j: nat, p: Publish, b: nat, limit: nat, interval: nat)
    requires Execution(states, steps, limit, interval) && Writes(states, steps, i, p, b) && 0 < OwnIn(p, b)
    requires i < j <= |steps| && NoForget(steps, i, j, p.key, b)
    ensures p.source in WindowOf(states[j], p.key, b) && OwnIn(p, b) <= WindowOf(states[j], p.key, b)[p.source].total
  {
    hide *;
    WriteTakesHold(states, steps, i, p, b, limit, interval);
    NoForgetSplit(steps, i, j, p.key, b);
    FieldStands(states, steps, i + 1, j, p.key, b, p.source, limit, interval);
  }

  // ---------------------------------------------------------------- where a reply comes from

  /** The commands of one reconciliation that have run, in order: the last is the one before `stage`. */
  ghost predicate HasRun(states: seq<Cluster>, steps: seq<Step>, j: nat, p: Publish, stage: Stage, current: nat, at: (nat, nat, nat)) {
    && (!stage.WriteCurrent? ==> at.0 < j && Writes(states, steps, at.0, p, p.bucket))
    && (stage.WritePrevious? || stage.ReadPrevious? ==>
          && at.0 < at.1 < j && Reads(states, steps, at.1, p, p.bucket)
          && current == Min(Sum(Held(states[at.1], p.key, p.bucket)), U64_MAX))
    && (stage.ReadPrevious? ==> at.1 < at.2 < j && Writes(states, steps, at.2, p, p.bucket - 1))
  }

  /** An op is where its pipe had it, or its command before has just run, or it is new. */
  lemma StepBringsOp(c: Cluster, step: Step, replica: nat, op: Op, limit: nat, interval: nat)
    requires Enabled(c, step, interval) && 0 < interval && op in Pipe(Next(c, step, limit, interval), replica)
    ensures || op in Pipe(c, replica)
            || op.stage.WriteCurrent?
            || (step == Execute(replica) && Pipe(c, replica) != [] && Advances(c, Pipe(c, replica)[0], op))
  {
    hide CheckShard, ApplyTotals, RollTo, Sum;
  }

  /** `op` is what becomes of `head` when its command runs. */
  ghost predicate Advances(c: Cluster, head: Op, op: Op) {
    && head.publish == op.publish
    && match op.stage
       case WriteCurrent => false
       case ReadCurrent => head.stage.WriteCurrent?
       case WritePrevious => head.stage.ReadCurrent? && op.current == Min(Sum(Held(c, op.publish.key, op.publish.bucket)), U64_MAX)
       case ReadPrevious => head.stage.WritePrevious? && op.current == head.current
  }

  lemma {:induction false} OpTrace(states: seq<Cluster>, steps: seq<Step>, j: nat, replica: nat, op: Op, limit: nat, interval: nat)
    returns (at: (nat, nat, nat))
    requires Execution(states, steps, limit, interval) && j <= |steps| && op in Pipe(states[j], replica)
    ensures HasRun(states, steps, j, op.publish, op.stage, op.current, at)
  {
    hide *;
    at := (0, 0, 0);
    if j == 0 {
      NothingAtFirst(states, steps, replica, limit, interval);
    } else {
      StepOf(states, steps, j - 1, limit, interval);
      var c := states[j - 1];
      StepBringsOp(c, steps[j - 1], replica, op, limit, interval);
      if op in Pipe(c, replica) {
        at := OpTrace(states, steps, j - 1, replica, op, limit, interval);
        HasRunStill(states, steps, j - 1, op, at);
      } else if op.stage.WriteCurrent? {
        HasRunNothing(states, steps, j, op, at);
      } else {
        var head := Pipe(c, replica)[0];
        at := OpTrace(states, steps, j - 1, replica, head, limit, interval);
        at := HasRunOneMore(states, steps, j, replica, head, op, at);
      }
    }
  }

  lemma NothingAtFirst(states: seq<Cluster>, steps: seq<Step>, replica: nat, limit: nat, interval: nat)
    requires Execution(states, steps, limit, interval)
    ensures states[0].replies == [] && Pipe(states[0], replica) == []
  {
  }

  lemma HasRunNothing(states: seq<Cluster>, steps: seq<Step>, j: nat, op: Op, at: (nat, nat, nat))
    requires op.stage.WriteCurrent?
    ensures HasRun(states, steps, j, op.publish, op.stage, op.current, at)
  {
  }

  lemma HasRunStill(states: seq<Cluster>, steps: seq<Step>, j: nat, op: Op, at: (nat, nat, nat))
    requires HasRun(states, steps, j, op.publish, op.stage, op.current, at)
    ensures HasRun(states, steps, j + 1, op.publish, op.stage, op.current, at)
  {
  }

  lemma HasRunOneMore(states: seq<Cluster>, steps: seq<Step>, j: nat, replica: nat, head: Op, op: Op, before: (nat, nat, nat))
    returns (at: (nat, nat, nat))
    requires 0 < j <= |steps| && j <= |states| && steps[j - 1] == Execute(replica)
    requires Pipe(states[j - 1], replica) != [] && Pipe(states[j - 1], replica)[0] == head && Advances(states[j - 1], head, op)
    requires HasRun(states, steps, j - 1, head.publish, head.stage, head.current, before)
    ensures HasRun(states, steps, j, op.publish, op.stage, op.current, at)
  {
    hide Pipe, Held, Sum;
    at := if op.stage.ReadCurrent? then (j - 1, 0, 0)
          else if op.stage.WritePrevious? then (before.0, j - 1, 0)
          else (before.0, before.1, j - 1);
  }

  lemma StepBringsReply(c: Cluster, step: Step, reply: Reply, limit: nat, interval: nat)
    requires Enabled(c, step, interval) && 0 < interval && reply in Next(c, step, limit, interval).replies
    ensures || reply in c.replies
            || (&& Runs(c, step, reply.publish, ReadPrevious)
                && reply.totals.current == Pipe(c, step.replica)[0].current
                && reply.totals.previous == Min(Sum(Held(c, reply.publish.key, reply.publish.bucket - 1)), U64_MAX))
  {
    hide CheckShard, ApplyTotals, RollTo;
  }

  /**
   A reply reports what its own reconciliation read: the snapshot's total was written, the window was read,
   and then the same for the window before, in this order; each total is the sum of the fields there were
   when its window was read, as far as it fits 64 bits.
   */
  lemma {:induction false} RepliesAreReadings(states: seq<Cluster>, steps: seq<Step>, j: nat, reply: Reply, limit: nat, interval: nat)
    returns (w: nat, r: nat, w': nat, r': nat)
    requires Execution(states, steps, limit, interval) && j <= |steps| && reply in states[j].replies
    ensures w < r < w' < r' < j
    ensures var p := reply.publish;
            && Writes(states, steps, w, p, p.bucket) && Reads(states, steps, r, p, p.bucket)
            && Writes(states, steps, w', p, p.bucket - 1) && Reads(states, steps, r', p, p.bucket - 1)
            && reply.totals.current == Min(Sum(Held(states[r], p.key, p.bucket)), U64_MAX)
            && reply.totals.previous == Min(Sum(Held(states[r'], p.key, p.bucket - 1)), U64_MAX)
  {
    hide *;
    if j == 0 {
      NothingAtFirst(states, steps, 0, limit, interval);
    } else {
      StepOf(states, steps, j - 1, limit, interval);
      var c := states[j - 1];
      StepBringsReply(c, steps[j - 1], reply, limit, interval);
      if reply in c.replies {
        w, r, w', r' := RepliesAreReadings(states, steps, j - 1, reply, limit, interval);
      } else {
        r' := j - 1;
        var op := RunningOp(states, steps, r', reply.publish, ReadPrevious);
        var at := OpTrace(states, steps, r', steps[r'].replica, op, limit, interval);
        w, r, w' := HasRunAll(states, steps, r', op, at);
      }
    }
  }

  lemma RunningOp(states: seq<Cluster>, steps: seq<Step>, i: nat, p: Publish, stage: Stage) returns (op: Op)
    requires i < |steps| && i < |states| && Runs(states[i], steps[i], p, stage)
    ensures steps[i].Execute? && op in Pipe(states[i], steps[i].replica) && op == Pipe(states[i], steps[i].replica)[0]
    ensures op.publish == p && op.stage == stage
    ensures stage.ReadPrevious? ==> Reads(states, steps, i, p, p.bucket - 1)
  {
    op := Pipe(states[i], steps[i].replica)[0];
  }

  lemma HasRunAll(states: seq<Cluster>, steps: seq<Step>, j: nat, op: Op, at: (nat, nat, nat)) returns (w: nat, r: nat, w': nat)
    requires op.stage.ReadPrevious? && HasRun(states, steps, j, op.publish, op.stage, op.current, at)
    ensures w < r < w' < j && r < |states|
    ensures Writes(states, steps, w, op.publish, op.publish.bucket) && Reads(states, steps, r, op.publish, op.publish.bucket)
    ensures Writes(states, steps, w', op.publish, op.publish.bucket - 1)
    ensures op.current == Min(Sum(Held(states[r], op.publish.key, op.publish.bucket)), U64_MAX)
  {
    w, r, w' := at.0, at.1, at.2;
  }

  // ---------------------------------------------------------------- hearing of peers

  /** A reading, less one's own total, is at least what any other field holds, as far as both fit 64 bits. */
  lemma OthersAreRead(w: Window, source: Source, own: nat, peer: Source)
    requires own == 0 || (source in w && w[source].total == own)
    requires peer in w && peer != source
    ensures var total := Min(Sum(w), U64_MAX);
            var heard := if own <= total then total - own else 0;
            w[peer].total <= heard || U64_MAX <= own + heard
  {
    SumRemove(w, peer);
    if source in w {
      SumRemove(w - {peer}, source);
    }
  }

  /** When a replica reads a window, the field it wrote is there with the total written, or has been forgotten with its window. */
  lemma OwnFieldAtReading(states: seq<Cluster>, steps: seq<Step>, i: nat, p: Publish, b: nat, limit: nat, interval: nat)
    requires Execution(states, steps, limit, interval) && Reads(states, steps, i, p, b)
    ensures p.source in WindowOf(states[i], p.key, b) ==> WindowOf(states[i], p.key, b)[p.source].total == OwnIn(p, b)
  {
    hide Execution, Count;
    StepOf(states, steps, i, limit, interval);
    var c := states[i];
    var replica := steps[i].replica;
    assert PipeOk(c, replica, c.pipes[replica]);
    assert OpOk(c, replica, Pipe(c, replica)[0]);
  }

  /** At step `f` the replica folds a reply about `p` while its view is of `p`'s window, or of the next. */
  ghost predicate FoldsInTime(states: seq<Cluster>, steps: seq<Step>, f: nat, p: Publish, b: int) {
    && f < |steps| && f < |states| && steps[f].Fold? && steps[f].index < |states[f].replies|
    && states[f].replies[steps[f].index].publish == p
    && p.source in states[f].shards
    && var bucket := states[f].shards[p.source].shard.bucket;
       (b == p.bucket && (bucket == p.bucket || bucket == p.bucket + 1)) || (b == p.bucket - 1 && bucket == p.bucket)
  }

  /** No reply for `source` is folded after step `f` and before `j`. */
  ghost predicate LastFold(states: seq<Cluster>, steps: seq<Step>, f: nat, j: nat, source: Source) {
    forall k :: f < k < j && k < |steps| && k < |states| ==> !FoldsFor(states[k], steps[k], source)
  }

  lemma FoldInTime(states: seq<Cluster>, steps: seq<Step>, f: nat, p: Publish, b: nat, limit: nat, interval: nat) returns (reply: Reply)
    requires Execution(states, steps, limit, interval) && FoldsInTime(states, steps, f, p, b)
    ensures f < |steps| && |states| == |steps| + 1
    ensures reply in states[f].replies && reply.publish == p && (b == p.bucket || b == p.bucket - 1)
    ensures p.source in states[f + 1].shards
    ensures var total := if b == p.bucket then reply.totals.current else reply.totals.previous;
            PeersIn(states[f + 1].shards[p.source].shard, b) == if OwnIn(p, b) <= total then total - OwnIn(p, b) else 0
  {
    hide Execution, Inv, Next;
    StepOf(states, steps, f, limit, interval);
    reply := states[f].replies[steps[f].index];
    FoldTakesIn(states[f], steps[f].index, limit, interval);
    FoldKeepsSource(states[f], steps[f].index, limit, interval);
  }

  lemma FoldKeepsSource(c: Cluster, index: nat, limit: nat, interval: nat)
    requires Enabled(c, Fold(index), interval) && 0 < interval
    ensures c.replies[index].publish.source in Next(c, Fold(index), limit, interval).shards
  {
  }

  lemma HeldIs(c: Cluster, key: string, b: nat)
    ensures Held(c, key, b) == WindowOf(c, key, b)
  {
  }

  lemma NoFoldBetween(states: seq<Cluster>, steps: seq<Step>, f: nat, j: nat, source: Source, limit: nat, interval: nat)
    requires Execution(states, steps, limit, interval) && j <= |steps| && LastFold(states, steps, f, j, source)
    ensures |states| == |steps| + 1 && forall k :: f + 1 <= k < j ==> !FoldsFor(states[k], steps[k], source)
  {
    hide Next, Enabled;
  }

  /**
   Peers are heard.  When a reply is folded in time, and until the next one is, the view counts for that
   window what was read less what its own snapshot held, through the window and the one after it; the
   reading came after the snapshot was written.
   */
  lemma PeersAreHeard(states: seq<Cluster>, steps: seq<Step>, f: nat, j: nat, p: Publish, b: nat, limit: nat, interval: nat)
    returns (w: nat, r: nat)
    requires Execution(states, steps, limit, interval) && f < j <= |steps|
    requires FoldsInTime(states, steps, f, p, b) && LastFold(states, steps, f, j, p.source)
    ensures w < r < f && Writes(states, steps, w, p, b) && Reads(states, steps, r, p, b)
    ensures p.source in states[j].shards
    ensures states[j].shards[p.source].shard.bucket <= b + 1 ==>
              var total := Min(Sum(WindowOf(states[r], p.key, b)), U64_MAX);
              PeersIn(states[j].shards[p.source].shard, b) == if OwnIn(p, b) <= total then total - OwnIn(p, b) else 0
  {
    hide *;
    var reply := FoldInTime(states, steps, f, p, b, limit, interval);
    var w0, r0, w1, r1 := RepliesAreReadings(states, steps, f, reply, limit, interval);
    if b == p.bucket {
      w, r := w0, r0;
    } else {
      w, r := w1, r1;
    }
    HeldIs(states[r], p.key, b);
    NoFoldBetween(states, steps, f, j, p.source, limit, interval);
    PeersAreKept(states, steps, f + 1, j, p.source, b, limit, interval);
  }

  /**
   A published total reaches every peer that asks.  Once a source has written its total for a window, and
   while the window is not forgotten, another source's reading of it, folded in time, makes that source
   count at least as much, through the window and the one after, unless what it counts fills 64 bits.
   */
  lemma PublishedTotalIsHeard(states: seq<Cluster>, steps: seq<Step>, i: nat, q: Publish, f: nat, j: nat, p: Publish, b: nat, limit: nat, interval: nat)
    returns (w: nat, r: nat)
    requires Execution(states, steps, limit, interval) && f < j <= |steps|
    requires Writes(states, steps, i, q, b) && q.key == p.key && q.source != p.source
    requires FoldsInTime(states, steps, f, p, b) && LastFold(states, steps, f, j, p.source)
    ensures w < r < f && Writes(states, steps, w, p, b) && Reads(states, steps, r, p, b)
    ensures p.source in states[j].shards
    ensures i < r && NoForget(steps, Min(i, w), r, p.key, b) && states[j].shards[p.source].shard.bucket <= b + 1 ==>
              var heard := PeersIn(states[j].shards[p.source].shard, b);
              OwnIn(q, b) <= heard || U64_MAX <= OwnIn(p, b) + heard
  {
    hide *;
    w, r := PeersAreHeard(states, steps, f, j, p, b, limit, interval);
    if i < r && NoForget(steps, Min(i, w), r, p.key, b) && 0 < OwnIn(q, b) {
      BothStand(states, steps, i, q, w, r, p, b, limit, interval);
      OthersAreRead(WindowOf(states[r], p.key, b), p.source, OwnIn(p, b), q.source);
    }
  }

  lemma BothStand(states: seq<Cluster>, steps: seq<Step>, i: nat, q: Publish, w: nat, r: nat, p: Publish, b: nat, limit: nat, interval: nat)
    requires Execution(states, steps, limit, interval) && i < r && w < r && q.key == p.key
    requires Writes(states, steps, i, q, b) && 0 < OwnIn(q, b)
    requires Writes(states, steps, w, p, b) && Reads(states, steps, r, p, b)
    requires NoForget(steps, Min(i, w), r, p.key, b)
    ensures r < |states|
    ensures var held := WindowOf(states[r], p.key, b);
            && q.source in held && OwnIn(q, b) <= held[q.source].total
            && (OwnIn(p, b) == 0 || (p.source in held && held[p.source].total == OwnIn(p, b)))
  {
    hide Execution, Writes, OwnIn, WindowOf;
    WrittenStands(states, steps, i, r, q, b, limit, interval);
    if 0 < OwnIn(p, b) {
      WrittenStands(states, steps, w, r, p, b, limit, interval);
      OwnFieldAtReading(states, steps, r, p, b, limit, interval);
    }
  }

  // ---------------------------------------------------------------- exactness

  /**
   Once every source has published its admissions to a window, a reading of it, folded in time, is exact:
   the view counts what the others were admitted, neither more nor less.
   */
  lemma SettledReadingIsExact(states: seq<Cluster>, steps: seq<Step>, f: nat, j: nat, p: Publish, b: nat, limit: nat, interval: nat)
    returns (w: nat, r: nat)
    requires Execution(states, steps, limit, interval) && f < j <= |steps|
    requires FoldsInTime(states, steps, f, p, b) && LastFold(states, steps, f, j, p.source)
    ensures w < r < f && Writes(states, steps, w, p, b) && Reads(states, steps, r, p, b)
    ensures p.source in states[j].shards
    ensures Settled(states[r], p.key, b) && Count(states[r].log, p.key, b, Everyone) <= U64_MAX
            && states[j].shards[p.source].shard.bucket <= b + 1 ==>
              PeersIn(states[j].shards[p.source].shard, b) == Count(states[r].log, p.key, b, Except(p.source))
  {
    hide *;
    w, r := PeersAreHeard(states, steps, f, j, p, b, limit, interval);
    StepOf(states, steps, f, limit, interval);
    if Settled(states[r], p.key, b) && Count(states[r].log, p.key, b, Everyone) <= U64_MAX {
      BackendConserves(states, steps, r, p.key, b, limit, interval);
      OwnIsSettled(states, steps, r, p, b, limit, interval);
      CountSplit(states[r].log, p.key, b, p.source);
      FitsIs(Sum(WindowOf(states[r], p.key, b)));
    }
  }

  lemma FitsIs(n: nat)
    requires n <= U64_MAX
    ensures Min(n, U64_MAX) == n
  {
  }

  /** In a settled window a snapshot about to read it back holds all its source was admitted. */
  lemma OwnIsSettled(states: seq<Cluster>, steps: seq<Step>, r: nat, p: Publish, b: nat, limit: nat, interval: nat)
    requires Execution(states, steps, limit, interval) && Reads(states, steps, r, p, b) && Settled(states[r], p.key, b)
    ensures OwnIn(p, b) == Count(states[r].log, p.key, b, Only(p.source))
  {
    hide Execution, Inv;
    StepOf(states, steps, r, limit, interval);
    OwnFieldAtReading(states, steps, r, p, b, limit, interval);
    var c := states[r];
    var held := WindowOf(c, p.key, b);
    ReaderIsOk(c, steps[r], p, b, limit);
    if p.source in held {
      FieldCount(c, p.key, b, p.source, limit);
      CountCut(c.log, held[p.source].at, p.key, b, Only(p.source));
    } else {
      CountNone(c.log, p.key, b, Only(p.source));
    }
  }

  lemma FieldCount(c: Cluster, key: string, b: nat, source: Source, limit: nat)
    requires Inv(c, limit) && source in WindowOf(c, key, b)
    ensures var f := WindowOf(c, key, b)[source]; f.at <= |c.log| && f.total == Count(c.log[..f.at], key, b, Only(source))
  {
    assert WindowOk(c, key, b, WindowOf(c, key, b));
  }

  lemma ReaderIsOk(c: Cluster, step: Step, p: Publish, b: nat, limit: nat)
    requires Inv(c, limit)
    requires (b == p.bucket && Runs(c, step, p, ReadCurrent)) || (b == p.bucket - 1 && Runs(c, step, p, ReadPrevious))
    ensures OwnIn(p, b) <= Count(c.log, p.key, b, Only(p.source))
  {
    var op := Pipe(c, step.replica)[0];
    assert PipeOk(c, step.replica, c.pipes[step.replica]);
    assert OpOk(c, step.replica, op);
    CountPrefix(c.log, op.at, p.key, b, Only(p.source));
  }
}
