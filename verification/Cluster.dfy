/**
 The cluster-wide counting protocol (ratelimit/shared.rs with ratelimit/resp.rs): any number of
 replicas admit requests from their own view, publish absolute totals to a hash per window, and fold
 the sum they read back into their view.

 Every backend command is a step of its own.  Commands of one replica run in the order it issued
 them; they may be delayed, lost part-way, or have their reply lost.  Shards may be dropped and
 re-created, and the backend may forget a window, at any moment.
 */
module Cluster {
  import opened Prelude
  import opened RateLimit
  import opened SharedCounters

  /** One admitted request, with the peer usage its replica could see. */
  datatype Admission = Admission(key: string, source: Source, bucket: nat, seen: nat)

  /** A hash field: a total, and how much of the log had happened when it was snapshotted. */
  datatype Field = Field(total: nat, at: nat)

  datatype Stage = WriteCurrent | ReadCurrent | WritePrevious | ReadPrevious

  /** One key's commands on their way to the backend. */
  datatype Op = Op(publish: Publish, at: nat, stage: Stage, current: nat)

  datatype Reply = Reply(publish: Publish, totals: Totals)

  datatype Incarnation = Incarnation(replica: nat, key: string, shard: Shard)

  type Window = map<Source, Field>

  datatype Cluster = Cluster(
    log: seq<Admission>,
    shards: map<Source, Incarnation>,
    windows: map<(string, nat), Window>,
    pipes: map<nat, seq<Op>>,
    replies: seq<Reply>)

  // ---------------------------------------------------------------- counting

  datatype Who = Everyone | Only(source: Source) | Except(source: Source) | Among(sources: set<Source>)

  ghost predicate Covers(who: Who, source: Source) {
    match who
    case Everyone => true
    case Only(s) => source == s
    case Except(s) => source != s
    case Among(set_) => source in set_
  }

  /** The requests in the log that were counted into window `bucket` of `key` by the sources `who` covers. */
  ghost function Count(log: seq<Admission>, key: string, bucket: int, who: Who): nat {
    if log == [] then 0
    else
      var a := log[|log| - 1];
      Count(log[..|log| - 1], key, bucket, who)
      + if a.key == key && a.bucket == bucket && Covers(who, a.source) then 1 else 0
  }

  lemma CountPush(log: seq<Admission>, a: Admission, key: string, bucket: int, who: Who)
    ensures Count(log + [a], key, bucket, who)
         == Count(log, key, bucket, who) + if a.key == key && a.bucket == bucket && Covers(who, a.source) then 1 else 0
  {
    assert (log + [a])[..|log|] == log;
  }

  lemma {:induction false} CountPrefix(log: seq<Admission>, n: nat, key: string, bucket: int, who: Who)
    requires n <= |log|
    ensures Count(log[..n], key, bucket, who) <= Count(log, key, bucket, who)
  {
    if n < |log| {
      CountPrefix(log[..|log| - 1], n, key, bucket, who);
      assert log[..|log| - 1][..n] == log[..n];
    } else {
      assert log[..n] == log;
    }
  }

  lemma {:induction false} CountSplit(log: seq<Admission>, key: string, bucket: int, source: Source)
    ensures Count(log, key, bucket, Everyone) == Count(log, key, bucket, Only(source)) + Count(log, key, bucket, Except(source))
  {
    if log != [] {
      CountSplit(log[..|log| - 1], key, bucket, source);
    }
  }

  lemma {:induction false} CountAmong(log: seq<Admission>, key: string, bucket: int, sources: set<Source>, source: Source)
    requires source in sources
    ensures Count(log, key, bucket, Among(sources))
         == Count(log, key, bucket, Only(source)) + Count(log, key, bucket, Among(sources - {source}))
  {
    if log != [] {
      CountAmong(log[..|log| - 1], key, bucket, sources, source);
    }
  }

  lemma {:induction false} CountWider(log: seq<Admission>, key: string, bucket: int, narrow: Who, wide: Who)
    requires forall i :: 0 <= i < |log| && Covers(narrow, log[i].source) ==> Covers(wide, log[i].source)
    ensures Count(log, key, bucket, narrow) <= Count(log, key, bucket, wide)
  {
    if log != [] {
      CountWider(log[..|log| - 1], key, bucket, narrow, wide);
    }
  }

  lemma {:induction false} CountNone(log: seq<Admission>, key: string, bucket: int, who: Who)
    requires forall i :: 0 <= i < |log| && log[i].key == key && log[i].bucket == bucket ==> !Covers(who, log[i].source)
    ensures Count(log, key, bucket, who) == 0
  {
    if log != [] {
      CountNone(log[..|log| - 1], key, bucket, who);
    }
  }

  // ---------------------------------------------------------------- sums over a hash

  /** What reading a whole hash and adding it up gives. */
  ghost function Sum(w: Window): nat {
    if w == map[] then 0
    else
      var s :| s in w;
      w[s].total + Sum(w - {s})
  }

  lemma {:induction false} SumRemove(w: Window, s: Source)
    requires s in w
    ensures Sum(w) == w[s].total + Sum(w - {s})
    decreases w
  {
    var t :| t in w && Sum(w) == w[t].total + Sum(w - {t});
    if t != s {
      SumRemove(w - {t}, s);
      SumRemove(w - {s}, t);
      assert w - {t} - {s} == w - {s} - {t};
    }
  }

  /** Totals that each stay below what their source admitted add up to no more than all of them admitted. */
  lemma {:induction false} SumBound(w: Window, log: seq<Admission>, key: string, bucket: int)
    requires forall s :: s in w ==> w[s].total <= Count(log, key, bucket, Only(s))
    ensures Sum(w) <= Count(log, key, bucket, Among(w.Keys))
    decreases w
  {
    if w != map[] {
      var s :| s in w && Sum(w) == w[s].total + Sum(w - {s});
      SumBound(w - {s}, log, key, bucket);
      CountAmong(log, key, bucket, w.Keys, s);
      assert (w - {s}).Keys == w.Keys - {s};
    }
  }

  lemma {:induction false} SumExact(w: Window, log: seq<Admission>, key: string, bucket: int)
    requires forall s :: s in w ==> w[s].total == Count(log, key, bucket, Only(s))
    ensures Sum(w) == Count(log, key, bucket, Among(w.Keys))
    decreases w
  {
    if w != map[] {
      var s :| s in w && Sum(w) == w[s].total + Sum(w - {s});
      SumExact(w - {s}, log, key, bucket);
      CountAmong(log, key, bucket, w.Keys, s);
      assert (w - {s}).Keys == w.Keys - {s};
    } else {
      CountNone(log, key, bucket, Among(w.Keys));
    }
  }

  // ---------------------------------------------------------------- steps

  datatype Step =
    | Open(source: Source, replica: nat, key: string)
    | Check(source: Source, bucket: nat, elapsed: nat)
    | Send(source: Source, bucket: nat)
    | Execute(replica: nat)
    | Lose(replica: nat, index: nat)
    | Fold(index: nat)
    | Forget(key: string, bucket: nat)

  function WindowOf(c: Cluster, key: string, bucket: nat): Window {
    if (key, bucket) in c.windows then c.windows[(key, bucket)] else map[]
  }

  function Pipe(c: Cluster, replica: nat): seq<Op> {
    if replica in c.pipes then c.pipes[replica] else []
  }

  ghost predicate Enabled(c: Cluster, step: Step, interval: nat) {
    match step
    case Open(source, _, _) => source !in c.shards
    case Check(source, bucket, elapsed) => source in c.shards && bucket < U64_MAX && elapsed <= interval
    case Send(source, bucket) => source in c.shards && bucket < U64_MAX
    case Execute(replica) => Pipe(c, replica) != []
    case Lose(replica, index) => index < |Pipe(c, replica)|
    case Fold(index) => index < |c.replies| && c.replies[index].publish.source in c.shards
    case Forget(_, _) => true
  }

  function AfterCheck(c: Cluster, source: Source, bucket: nat, elapsed: nat, limit: nat, interval: nat): Cluster
    requires source in c.shards && elapsed <= interval && 0 < interval
  {
    var inc := c.shards[source];
    var (shard, d) := CheckShard(inc.shard, bucket, elapsed, limit, interval);
    c.(shards := c.shards[source := inc.(shard := shard)],
       log := if d.allowed then c.log + [Admission(inc.key, source, shard.bucket, shard.remoteCurrent)] else c.log)
  }

  function AfterSend(c: Cluster, source: Source, bucket: nat): Cluster
    requires source in c.shards
  {
    var inc := c.shards[source];
    var shard := RollTo(inc.shard, bucket);
    var op := Op(Snapshot(shard, inc.key), |c.log|, WriteCurrent, 0);
    c.(shards := c.shards[source := inc.(shard := shard)],
       pipes := c.pipes[inc.replica := Pipe(c, inc.replica) + [op]])
  }

  /** `HSET` of a non-zero total; a zero is not written. */
  function Write(c: Cluster, op: Op, bucket: int, total: nat): Cluster {
    if total == 0 || bucket < 0 then c
    else
      c.(windows := c.windows[(op.publish.key, bucket) :=
        WindowOf(c, op.publish.key, bucket)[op.publish.source := Field(total, op.at)]])
  }

  /** `HVALS`, added up with saturation. */
  ghost function Read(c: Cluster, op: Op, bucket: int): nat {
    if bucket < 0 then 0 else Min(Sum(WindowOf(c, op.publish.key, bucket)), U64_MAX)
  }

  /** The command at the head of a replica's pipe runs. */
  ghost function AfterExecute(c: Cluster, replica: nat): Cluster
    requires Pipe(c, replica) != []
  {
    var op := Pipe(c, replica)[0];
    var rest := Pipe(c, replica)[1..];
    var p := op.publish;
    match op.stage
    case WriteCurrent =>
      Write(c, op, p.bucket, p.ownCurrent).(pipes := c.pipes[replica := [op.(stage := ReadCurrent)] + rest])
    case ReadCurrent =>
      c.(pipes := c.pipes[replica := [op.(stage := WritePrevious, current := Read(c, op, p.bucket))] + rest])
    case WritePrevious =>
      Write(c, op, p.bucket - 1, p.ownPrevious).(pipes := c.pipes[replica := [op.(stage := ReadPrevious)] + rest])
    case ReadPrevious =>
      c.(pipes := c.pipes[replica := rest],
         replies := c.replies + [Reply(p, Totals(op.current, Read(c, op, p.bucket - 1)))])
  }

  function AfterFold(c: Cluster, index: nat): Cluster
    requires index < |c.replies| && c.replies[index].publish.source in c.shards
  {
    var Reply(p, totals) := c.replies[index];
    var inc := c.shards[p.source];
    c.(shards := c.shards[p.source := inc.(shard := ApplyTotals(inc.shard, p, totals))])
  }

  ghost function Next(c: Cluster, step: Step, limit: nat, interval: nat): Cluster
    requires Enabled(c, step, interval) && 0 < interval
  {
    match step
    case Open(source, replica, key) => c.(shards := c.shards[source := Incarnation(replica, key, NewShard(source))])
    case Check(source, bucket, elapsed) => AfterCheck(c, source, bucket, elapsed, limit, interval)
    case Send(source, bucket) => AfterSend(c, source, bucket)
    case Execute(replica) => AfterExecute(c, replica)
    case Lose(replica, index) =>
      var pipe := Pipe(c, replica);
      c.(pipes := c.pipes[replica := pipe[..index] + pipe[index + 1..]])
    case Fold(index) => AfterFold(c, index)
    case Forget(key, bucket) => c.(windows := c.windows - {(key, bucket)})
  }

  // ---------------------------------------------------------------- invariants

  /** A view holds its own admissions exactly, and never more of the others' than they made. */
  ghost predicate ShardOk(log: seq<Admission>, source: Source, inc: Incarnation, limit: nat) {
    var s := inc.shard;
    && s.source == source && s.bucket < U64_MAX
    && s.ownCurrent == Count(log, inc.key, s.bucket, Only(source)) <= limit
    && s.ownPrevious == Count(log, inc.key, s.bucket - 1, Only(source)) <= limit
    && s.remoteCurrent <= Count(log, inc.key, s.bucket, Except(source))
    && s.remotePrevious <= Count(log, inc.key, s.bucket - 1, Except(source))
  }

  ghost predicate ShardsOk(c: Cluster, limit: nat) {
    forall s :: s in c.shards ==> ShardOk(c.log, s, c.shards[s], limit)
  }

  ghost predicate LogOk(c: Cluster) {
    forall i :: 0 <= i < |c.log| ==>
      && c.log[i].source in c.shards
      && c.log[i].key == c.shards[c.log[i].source].key
      && c.log[i].bucket <= c.shards[c.log[i].source].shard.bucket
  }

  ghost predicate FieldOk(log: seq<Admission>, key: string, bucket: nat, source: Source, f: Field) {
    f.at <= |log| && f.total == Count(log[..f.at], key, bucket, Only(source))
  }

  ghost predicate WindowOk(c: Cluster, key: string, bucket: nat, w: Window) {
    forall s :: s in w ==> s in c.shards && c.shards[s].key == key && FieldOk(c.log, key, bucket, s, w[s])
  }

  ghost predicate WindowsOk(c: Cluster) {
    forall k :: k in c.windows ==> WindowOk(c, k.0, k.1, c.windows[k])
  }

  ghost predicate OpOk(c: Cluster, replica: nat, op: Op) {
    var p := op.publish;
    && p.source in c.shards && c.shards[p.source].replica == replica && c.shards[p.source].key == p.key
    && op.at <= |c.log|
    && p.ownCurrent == Count(c.log[..op.at], p.key, p.bucket, Only(p.source))
    && p.ownPrevious == Count(c.log[..op.at], p.key, p.bucket - 1, Only(p.source))
    && (op.stage.WritePrevious? || op.stage.ReadPrevious? ==>
          SatSub(op.current, p.ownCurrent) <= Count(c.log, p.key, p.bucket, Except(p.source)))
    && (op.stage.ReadCurrent? ==> Written(c, op, p.bucket, p.ownCurrent))
    && (op.stage.ReadPrevious? ==> Written(c, op, p.bucket - 1, p.ownPrevious))
  }

  /** The field an op has just written is either forgotten with its window or exactly what it wrote. */
  ghost predicate Written(c: Cluster, op: Op, bucket: int, total: nat) {
    0 <= bucket && op.publish.source in WindowOf(c, op.publish.key, bucket)
    ==> WindowOf(c, op.publish.key, bucket)[op.publish.source].total == total
  }

  ghost predicate WindowNotNewer(c: Cluster, replica: nat, at: nat, w: Window) {
    forall s :: s in w && s in c.shards && c.shards[s].replica == replica ==> w[s].at <= at
  }

  /** No field of a replica's source is newer than a snapshot still in that replica's pipe. */
  ghost predicate NotNewer(c: Cluster, replica: nat, at: nat) {
    forall k :: k in c.windows ==> WindowNotNewer(c, replica, at, c.windows[k])
  }

  ghost predicate PipeOk(c: Cluster, replica: nat, pipe: seq<Op>) {
    && (forall i :: 0 <= i < |pipe| ==> OpOk(c, replica, pipe[i]) && NotNewer(c, replica, pipe[i].at))
    && (forall i :: 0 < i < |pipe| ==> pipe[i].stage == WriteCurrent)
    && (forall i, j :: 0 <= i <= j < |pipe| ==> pipe[i].at <= pipe[j].at)
  }

  ghost predicate PipesOk(c: Cluster) {
    forall r :: r in c.pipes ==> PipeOk(c, r, c.pipes[r])
  }

  ghost predicate ReplyOk(c: Cluster, reply: Reply) {
    var Reply(p, t) := reply;
    && p.source in c.shards && c.shards[p.source].key == p.key
    && SatSub(t.current, p.ownCurrent) <= Count(c.log, p.key, p.bucket, Except(p.source))
    && SatSub(t.previous, p.ownPrevious) <= Count(c.log, p.key, p.bucket - 1, Except(p.source))
  }

  ghost predicate RepliesOk(c: Cluster) {
    forall i :: 0 <= i < |c.replies| ==> ReplyOk(c, c.replies[i])
  }

  /** Every admission was made with fewer than `limit` requests in view, its own among them. */
  ghost predicate LimitOk(log: seq<Admission>, limit: nat) {
    forall i :: 0 <= i < |log| ==> AdmittedWithin(log, i, limit)
  }

  ghost predicate AdmittedWithin(log: seq<Admission>, i: nat, limit: nat)
    requires i < |log|
  {
    var a := log[i];
    && Count(log[..i], a.key, a.bucket, Only(a.source)) + a.seen < limit
    && a.seen <= Count(log[..i], a.key, a.bucket, Except(a.source))
  }

  ghost predicate Inv(c: Cluster, limit: nat) {
    ShardsOk(c, limit) && LogOk(c) && LimitOk(c.log, limit) && WindowsOk(c) && PipesOk(c) && RepliesOk(c)
  }

  /** Later states only add to the log and to the incarnations. */
  ghost predicate Extends(c: Cluster, d: Cluster) {
    && c.log <= d.log
    && (forall s :: s in c.shards ==> s in d.shards && d.shards[s].key == c.shards[s].key && d.shards[s].replica == c.shards[s].replica)
  }

  lemma CountExtends(c: Cluster, d: Cluster, key: string, bucket: int, who: Who)
    requires Extends(c, d)
    ensures Count(c.log, key, bucket, who) <= Count(d.log, key, bucket, who)
  {
    CountPrefix(d.log, |c.log|, key, bucket, who);
    assert d.log[..|c.log|] == c.log;
  }

  lemma PrefixExtends(c: Cluster, d: Cluster, n: nat)
    requires Extends(c, d) && n <= |c.log|
    ensures d.log[..n] == c.log[..n]
  {
    assert d.log[..|c.log|] == c.log;
    assert d.log[..|c.log|][..n] == d.log[..n];
  }

  lemma WindowsExtend(c: Cluster, d: Cluster)
    requires Extends(c, d) && WindowsOk(c) && d.windows == c.windows
    ensures WindowsOk(d)
  {
    forall k, s | k in d.windows && s in d.windows[k]
      ensures FieldOk(d.log, k.0, k.1, s, d.windows[k][s]) && s in d.shards && d.shards[s].key == k.0
    {
      assert WindowOk(c, k.0, k.1, c.windows[k]);
      PrefixExtends(c, d, c.windows[k][s].at);
    }
  }

  lemma OpExtends(c: Cluster, d: Cluster, replica: nat, op: Op)
    requires Extends(c, d) && OpOk(c, replica, op) && d.windows == c.windows
    ensures OpOk(d, replica, op)
  {
    PrefixExtends(c, d, op.at);
    CountExtends(c, d, op.publish.key, op.publish.bucket, Except(op.publish.source));
  }

  lemma PipesExtend(c: Cluster, d: Cluster)
    requires Extends(c, d) && PipesOk(c) && WindowsOk(c) && d.pipes == c.pipes && d.windows == c.windows
    ensures PipesOk(d)
  {
    forall r, i | r in d.pipes && 0 <= i < |d.pipes[r]|
      ensures OpOk(d, r, d.pipes[r][i]) && NotNewer(d, r, d.pipes[r][i].at)
    {
      assert PipeOk(c, r, c.pipes[r]);
      OpExtends(c, d, r, c.pipes[r][i]);
      NotNewerExtends(c, d, r, c.pipes[r][i].at);
    }
    forall r | r in d.pipes
      ensures PipeOk(d, r, d.pipes[r])
    {
      assert PipeOk(c, r, c.pipes[r]);
    }
  }

  lemma NotNewerExtends(c: Cluster, d: Cluster, replica: nat, at: nat)
    requires Extends(c, d) && NotNewer(c, replica, at) && WindowsOk(c) && d.windows == c.windows
    ensures NotNewer(d, replica, at)
  {
    forall k | k in d.windows
      ensures WindowNotNewer(d, replica, at, d.windows[k])
    {
      assert WindowNotNewer(c, replica, at, c.windows[k]) && WindowOk(c, k.0, k.1, c.windows[k]);
    }
  }

  lemma RepliesExtend(c: Cluster, d: Cluster)
    requires Extends(c, d) && RepliesOk(c) && d.replies == c.replies
    ensures RepliesOk(d)
  {
    forall i | 0 <= i < |d.replies|
      ensures ReplyOk(d, d.replies[i])
    {
      var p := c.replies[i].publish;
      CountExtends(c, d, p.key, p.bucket, Except(p.source));
      CountExtends(c, d, p.key, p.bucket - 1, Except(p.source));
    }
  }

  /** Nothing a source has not reached yet is in the log. */
  lemma NothingAhead(c: Cluster, source: Source, bucket: int)
    requires LogOk(c) && source in c.shards && c.shards[source].shard.bucket < bucket
    ensures Count(c.log, c.shards[source].key, bucket, Only(source)) == 0
  {
    CountNone(c.log, c.shards[source].key, bucket, Only(source));
  }

  lemma RollKeepsShard(c: Cluster, source: Source, bucket: nat, limit: nat)
    requires LogOk(c) && source in c.shards && ShardOk(c.log, source, c.shards[source], limit) && bucket < U64_MAX
    ensures ShardOk(c.log, source, c.shards[source].(shard := RollTo(c.shards[source].shard, bucket)), limit)
  {
    var b := c.shards[source].shard.bucket;
    if b < bucket {
      NothingAhead(c, source, bucket);
      if b + 1 < bucket {
        NothingAhead(c, source, bucket - 1);
      }
    }
  }

  lemma OthersKeep(c: Cluster, d: Cluster, source: Source, limit: nat)
    requires ShardsOk(c, limit) && Extends(c, d)
    requires d.log == c.log || (exists a :: d.log == c.log + [a] && a.source == source)
    requires d.shards.Keys == c.shards.Keys && forall s :: s in c.shards && s != source ==> d.shards[s] == c.shards[s]
    requires source in d.shards && ShardOk(d.log, source, d.shards[source], limit)
    ensures ShardsOk(d, limit)
  {
    forall s | s in d.shards && s != source
      ensures ShardOk(d.log, s, d.shards[s], limit)
    {
      var inc := c.shards[s];
      CountExtends(c, d, inc.key, inc.shard.bucket, Except(s));
      CountExtends(c, d, inc.key, inc.shard.bucket - 1, Except(s));
      if a :| d.log == c.log + [a] && a.source == source {
        CountPush(c.log, a, inc.key, inc.shard.bucket, Only(s));
        CountPush(c.log, a, inc.key, inc.shard.bucket - 1, Only(s));
      }
    }
  }

  lemma OpenKeepsInv(c: Cluster, source: Source, replica: nat, key: string, limit: nat, interval: nat)
    requires Inv(c, limit) && source !in c.shards && 0 < interval
    ensures Inv(Next(c, Open(source, replica, key), limit, interval), limit)
  {
    var d := Next(c, Open(source, replica, key), limit, interval);
    CountNone(d.log, key, 0, Only(source));
    CountNone(d.log, key, -1, Only(source));
    WindowsExtend(c, d);
    PipesExtend(c, d);
    RepliesExtend(c, d);
  }

  /** An admission keeps the view exact: the one request is in the log and in the replica's own count. */
  lemma AdmitKeepsShard(log: seq<Admission>, source: Source, inc: Incarnation, elapsed: nat, limit: nat, interval: nat)
    requires ShardOk(log, source, inc, limit) && elapsed <= interval && 0 < interval && limit <= U64_MAX
    requires Decide(SatAdd(inc.shard.ownPrevious, inc.shard.remotePrevious), SatAdd(inc.shard.ownCurrent, inc.shard.remoteCurrent),
                    elapsed, limit, interval).allowed
    ensures inc.shard.ownCurrent + inc.shard.remoteCurrent < limit
    ensures var a := Admission(inc.key, source, inc.shard.bucket, inc.shard.remoteCurrent);
            var shard := inc.shard.(ownCurrent := SatAdd(inc.shard.ownCurrent, 1));
            ShardOk(log + [a], source, inc.(shard := shard), limit)
  {
    var s := inc.shard;
    AdmissionBounds(SatAdd(s.ownPrevious, s.remotePrevious), SatAdd(s.ownCurrent, s.remoteCurrent), elapsed, limit, interval);
    hide Decide;
    var a := Admission(inc.key, source, s.bucket, s.remoteCurrent);
    CountPush(log, a, inc.key, s.bucket, Only(source));
    CountPush(log, a, inc.key, s.bucket, Except(source));
    CountPush(log, a, inc.key, s.bucket - 1, Only(source));
    CountPush(log, a, inc.key, s.bucket - 1, Except(source));
  }

  lemma CheckKeepsShard(c: Cluster, source: Source, bucket: nat, elapsed: nat, limit: nat, interval: nat)
    requires Inv(c, limit) && Enabled(c, Check(source, bucket, elapsed), interval) && 0 < interval && limit <= U64_MAX
    ensures var d := AfterCheck(c, source, bucket, elapsed, limit, interval);
            && ShardOk(d.log, source, d.shards[source], limit)
            && Extends(c, d) && LogOk(d) && LimitOk(d.log, limit)
            && (d.log == c.log || exists a :: d.log == c.log + [a] && a.source == source)
  {
    hide Decide, Count, WindowsOk, PipesOk, RepliesOk;
    RollKeepsShard(c, source, bucket, limit);
    var inc := c.shards[source].(shard := RollTo(c.shards[source].shard, bucket));
    if CheckShard(c.shards[source].shard, bucket, elapsed, limit, interval).1.allowed {
      AdmitKeepsShard(c.log, source, inc, elapsed, limit, interval);
      LimitGrows(c.log, Admission(inc.key, source, inc.shard.bucket, inc.shard.remoteCurrent), limit);
    }
  }

  lemma LimitGrows(log: seq<Admission>, a: Admission, limit: nat)
    requires LimitOk(log, limit)
    requires Count(log, a.key, a.bucket, Only(a.source)) + a.seen < limit
    requires a.seen <= Count(log, a.key, a.bucket, Except(a.source))
    ensures LimitOk(log + [a], limit)
  {
    forall i | 0 <= i < |log| + 1
      ensures AdmittedWithin(log + [a], i, limit)
    {
      assert (log + [a])[..i] == log[..i];
      assert log[..|log|] == log;
      assert i < |log| ==> AdmittedWithin(log, i, limit);
    }
  }

  lemma CheckKeepsInv(c: Cluster, source: Source, bucket: nat, elapsed: nat, limit: nat, interval: nat)
    requires Inv(c, limit) && Enabled(c, Check(source, bucket, elapsed), interval) && 0 < interval && limit <= U64_MAX
    ensures Inv(AfterCheck(c, source, bucket, elapsed, limit, interval), limit)
  {
    hide CheckShard;
    var d := AfterCheck(c, source, bucket, elapsed, limit, interval);
    CheckKeepsShard(c, source, bucket, elapsed, limit, interval);
    OthersKeep(c, d, source, limit);
    WindowsExtend(c, d);
    PipesExtend(c, d);
    RepliesExtend(c, d);
  }

  /** Replacing one replica's pipe by a good one keeps every pipe good. */
  lemma SetPipe(c: Cluster, replica: nat, pipe: seq<Op>)
    requires PipesOk(c) && PipeOk(c, replica, pipe)
    ensures PipesOk(c.(pipes := c.pipes[replica := pipe]))
  {
    var d := c.(pipes := c.pipes[replica := pipe]);
    forall r | r in d.pipes
      ensures PipeOk(d, r, d.pipes[r])
    {
      assert PipeOk(c, r, d.pipes[r]);
      PipeFrame(c, d, r, d.pipes[r]);
    }
  }

  lemma PipeFrame(c: Cluster, d: Cluster, replica: nat, pipe: seq<Op>)
    requires PipeOk(c, replica, pipe)
    requires d.log == c.log && d.shards == c.shards && d.windows == c.windows
    ensures PipeOk(d, replica, pipe)
  {
    forall i | 0 <= i < |pipe|
      ensures OpOk(d, replica, pipe[i]) && NotNewer(d, replica, pipe[i].at)
    {
      assert OpOk(c, replica, pipe[i]) && NotNewer(c, replica, pipe[i].at);
      forall k | k in d.windows
        ensures WindowNotNewer(d, replica, pipe[i].at, d.windows[k])
      {
        assert WindowNotNewer(c, replica, pipe[i].at, c.windows[k]);
      }
    }
  }

  lemma WindowsFrame(c: Cluster, d: Cluster)
    requires WindowsOk(c)
    requires d.log == c.log && d.shards == c.shards && d.windows == c.windows
    ensures WindowsOk(d)
  {
    forall k | k in d.windows
      ensures WindowOk(d, k.0, k.1, d.windows[k])
    {
      assert WindowOk(c, k.0, k.1, c.windows[k]);
    }
  }

  lemma RepliesFrame(c: Cluster, d: Cluster)
    requires RepliesOk(c) && d.log == c.log && d.shards == c.shards && d.replies == c.replies
    ensures RepliesOk(d)
  {
    forall i | 0 <= i < |d.replies|
      ensures ReplyOk(d, d.replies[i])
    {
      assert ReplyOk(c, c.replies[i]);
    }
  }

  lemma ReplaceShard(c: Cluster, source: Source, inc: Incarnation, limit: nat)
    requires Inv(c, limit) && source in c.shards && ShardOk(c.log, source, inc, limit)
    requires inc.key == c.shards[source].key && inc.replica == c.shards[source].replica
    requires c.shards[source].shard.bucket <= inc.shard.bucket
    ensures Inv(c.(shards := c.shards[source := inc]), limit)
  {
    hide ShardOk, WindowOk, PipeOk, ReplyOk;
    var d := c.(shards := c.shards[source := inc]);
    OthersKeep(c, d, source, limit);
    WindowsExtend(c, d);
    PipesExtend(c, d);
    RepliesExtend(c, d);
  }

  lemma SendKeepsInv(c: Cluster, source: Source, bucket: nat, limit: nat, interval: nat)
    requires Inv(c, limit) && Enabled(c, Send(source, bucket), interval) && 0 < interval
    ensures Inv(AfterSend(c, source, bucket), limit)
  {
    var inc := c.shards[source].(shard := RollTo(c.shards[source].shard, bucket));
    var d := c.(shards := c.shards[source := inc]);
    RollKeepsShard(c, source, bucket, limit);
    ReplaceShard(c, source, inc, limit);
    SnapshotIsOk(d, source, limit);
    hide ShardOk, WindowOk, OpOk, NotNewer, PipeOk, ReplyOk;
    var op := Op(Snapshot(inc.shard, inc.key), |c.log|, WriteCurrent, 0);
    PipeGrows(d, inc.replica, op);
    SetPipe(d, inc.replica, Pipe(d, inc.replica) + [op]);
    var e := AfterSend(c, source, bucket);
    WindowsFrame(d, e);
    RepliesFrame(d, e);
  }

  lemma SnapshotIsOk(c: Cluster, source: Source, limit: nat)
    requires Inv(c, limit) && source in c.shards
    ensures var inc := c.shards[source];
            var op := Op(Snapshot(inc.shard, inc.key), |c.log|, WriteCurrent, 0);
            OpOk(c, inc.replica, op) && NotNewer(c, inc.replica, op.at)
  {
    assert ShardOk(c.log, source, c.shards[source], limit);
    assert c.log[..|c.log|] == c.log;
    forall k | k in c.windows
      ensures WindowNotNewer(c, c.shards[source].replica, |c.log|, c.windows[k])
    {
      assert WindowOk(c, k.0, k.1, c.windows[k]);
    }
  }

  lemma PipeGrows(c: Cluster, replica: nat, op: Op)
    requires PipesOk(c) && OpOk(c, replica, op) && NotNewer(c, replica, op.at)
    requires op.at == |c.log| && op.stage == WriteCurrent
    ensures PipeOk(c, replica, Pipe(c, replica) + [op])
  {
    var pipe := Pipe(c, replica);
    if replica in c.pipes {
      assert PipeOk(c, replica, pipe);
      assert forall i :: 0 <= i < |pipe| ==> OpOk(c, replica, pipe[i]);
    }
  }

  lemma LoseKeepsInv(c: Cluster, replica: nat, index: nat, limit: nat, interval: nat)
    requires Inv(c, limit) && Enabled(c, Lose(replica, index), interval) && 0 < interval
    ensures Inv(Next(c, Lose(replica, index), limit, interval), limit)
  {
    var pipe := Pipe(c, replica);
    var shorter := pipe[..index] + pipe[index + 1..];
    assert PipeOk(c, replica, pipe);
    assert forall i :: 0 <= i < |shorter| ==> shorter[i] == pipe[if i < index then i else i + 1];
    SetPipe(c, replica, shorter);
    var d := Next(c, Lose(replica, index), limit, interval);
    WindowsFrame(c, d);
    RepliesFrame(c, d);
  }

  lemma ForgetKeepsInv(c: Cluster, key: string, bucket: nat, limit: nat, interval: nat)
    requires Inv(c, limit) && 0 < interval
    ensures Inv(Next(c, Forget(key, bucket), limit, interval), limit)
  {
    var d := Next(c, Forget(key, bucket), limit, interval);
    forall k | k in d.windows
      ensures WindowOk(d, k.0, k.1, d.windows[k])
    {
      assert WindowOk(c, k.0, k.1, c.windows[k]);
    }
    forall r | r in d.pipes
      ensures PipeOk(d, r, d.pipes[r])
    {
      ForgetKeepsPipe(c, key, bucket, r, c.pipes[r]);
    }
    RepliesFrame(c, d);
  }

  lemma ForgetKeepsPipe(c: Cluster, key: string, bucket: nat, replica: nat, pipe: seq<Op>)
    requires PipeOk(c, replica, pipe)
    ensures PipeOk(c.(windows := c.windows - {(key, bucket)}), replica, pipe)
  {
    var d := c.(windows := c.windows - {(key, bucket)});
    forall i | 0 <= i < |pipe|
      ensures OpOk(d, replica, pipe[i]) && NotNewer(d, replica, pipe[i].at)
    {
      assert OpOk(c, replica, pipe[i]) && NotNewer(c, replica, pipe[i].at);
      forall k | k in d.windows
        ensures WindowNotNewer(d, replica, pipe[i].at, d.windows[k])
      {
        assert WindowNotNewer(c, replica, pipe[i].at, c.windows[k]);
      }
    }
  }

  /** Whatever a replica folds in, now or much later, overstates no one: the totals less its own are at most the others'. */
  lemma FoldKeepsInv(c: Cluster, index: nat, limit: nat, interval: nat)
    requires Inv(c, limit) && Enabled(c, Fold(index), interval)
    ensures Inv(AfterFold(c, index), limit)
  {
    var Reply(p, totals) := c.replies[index];
    var inc := c.shards[p.source];
    FoldKeepsShard(c, index, limit);
    ReplaceShard(c, p.source, inc.(shard := ApplyTotals(inc.shard, p, totals)), limit);
  }

  lemma FoldKeepsShard(c: Cluster, index: nat, limit: nat)
    requires Inv(c, limit) && index < |c.replies| && c.replies[index].publish.source in c.shards
    ensures var Reply(p, totals) := c.replies[index];
            var inc := c.shards[p.source];
            ShardOk(c.log, p.source, inc.(shard := ApplyTotals(inc.shard, p, totals)), limit)
  {
    var p := c.replies[index].publish;
    assert ReplyOk(c, c.replies[index]) && ShardOk(c.log, p.source, c.shards[p.source], limit);
  }

  // ---------------------------------------------------------------- the backend's commands

  /** What the backend holds for a source is no more than its snapshot in the pipe says. */
  lemma OwnFieldBound(c: Cluster, replica: nat, op: Op, bucket: nat)
    requires WindowsOk(c) && OpOk(c, replica, op) && NotNewer(c, replica, op.at)
    ensures var p := op.publish;
            var w := WindowOf(c, p.key, bucket);
            p.source in w ==> w[p.source].total <= Count(c.log[..op.at], p.key, bucket, Only(p.source))
  {
    var p := op.publish;
    var w := WindowOf(c, p.key, bucket);
    if p.source in w {
      assert WindowOk(c, p.key, bucket, w) && WindowNotNewer(c, replica, op.at, w);
      var before := c.log[..op.at];
      assert before[..w[p.source].at] == c.log[..w[p.source].at];
      CountPrefix(before, w[p.source].at, p.key, bucket, Only(p.source));
    }
  }

  /** The fields of everyone else add up to no more than everyone else admitted. */
  lemma OtherFieldsBound(c: Cluster, key: string, bucket: nat, source: Source)
    requires WindowsOk(c)
    ensures Sum(WindowOf(c, key, bucket) - {source}) <= Count(c.log, key, bucket, Except(source))
  {
    var w := WindowOf(c, key, bucket);
    var others := w - {source};
    assert (key, bucket) in c.windows ==> WindowOk(c, key, bucket, w);
    forall s | s in others
      ensures others[s].total <= Count(c.log, key, bucket, Only(s))
    {
      CountPrefix(c.log, w[s].at, key, bucket, Only(s));
    }
    SumBound(others, c.log, key, bucket);
    CountWider(c.log, key, bucket, Among(others.Keys), Except(source));
  }

  /** A total read back, less what its reader had snapshotted, never overstates the others. */
  lemma ReadBound(c: Cluster, replica: nat, op: Op, bucket: nat, total: nat)
    requires WindowsOk(c) && OpOk(c, replica, op) && NotNewer(c, replica, op.at)
    requires total == Count(c.log[..op.at], op.publish.key, bucket, Only(op.publish.source))
    ensures SatSub(Read(c, op, bucket), total) <= Count(c.log, op.publish.key, bucket, Except(op.publish.source))
  {
    hide OpOk, NotNewer, WindowsOk, Count, Sum;
    var source := op.publish.source;
    var w := WindowOf(c, op.publish.key, bucket);
    OwnFieldBound(c, replica, op, bucket);
    OtherFieldsBound(c, op.publish.key, bucket, source);
    if source in w {
      SumRemove(w, source);
    } else {
      assert w - {source} == w;
    }
  }

  lemma WriteKeepsWindows(c: Cluster, replica: nat, op: Op, bucket: int, total: nat)
    requires WindowsOk(c) && OpOk(c, replica, op)
    requires total == Count(c.log[..op.at], op.publish.key, bucket, Only(op.publish.source))
    ensures WindowsOk(Write(c, op, bucket, total))
  {
    var d := Write(c, op, bucket, total);
    forall k | k in d.windows
      ensures WindowOk(d, k.0, k.1, d.windows[k])
    {
      assert k in c.windows ==> WindowOk(c, k.0, k.1, c.windows[k]);
    }
  }

  /** A write touches only the writer's field, so it disturbs no op of another source and is not newer than any of its own. */
  lemma WriteKeepsOp(c: Cluster, replica: nat, op: Op, bucket: int, total: nat, other: nat, q: Op)
    requires OpOk(c, replica, op) && OpOk(c, other, q) && NotNewer(c, other, q.at)
    requires other == replica ==> op.at <= q.at && (q == op || q.stage == WriteCurrent) && op.stage != ReadCurrent && op.stage != ReadPrevious
    ensures OpOk(Write(c, op, bucket, total), other, q) && NotNewer(Write(c, op, bucket, total), other, q.at)
  {
    hide Count;
    var d := Write(c, op, bucket, total);
    forall k | k in d.windows
      ensures WindowNotNewer(d, other, q.at, d.windows[k])
    {
      assert k in c.windows ==> WindowNotNewer(c, other, q.at, c.windows[k]);
    }
  }

  lemma WriteKeepsPipes(c: Cluster, replica: nat, bucket: int, total: nat)
    requires WindowsOk(c) && PipesOk(c) && Pipe(c, replica) != []
    requires var op := Pipe(c, replica)[0]; op.stage == WriteCurrent || op.stage == WritePrevious
    ensures PipesOk(Write(c, Pipe(c, replica)[0], bucket, total))
  {
    var op := Pipe(c, replica)[0];
    var d := Write(c, op, bucket, total);
    assert PipeOk(c, replica, c.pipes[replica]);
    forall r | r in d.pipes
      ensures PipeOk(d, r, d.pipes[r])
    {
      var pipe := c.pipes[r];
      assert PipeOk(c, r, pipe);
      forall i | 0 <= i < |pipe|
        ensures OpOk(d, r, pipe[i]) && NotNewer(d, r, pipe[i].at)
      {
        WriteKeepsOp(c, replica, op, bucket, total, r, pipe[i]);
      }
    }
  }

  /** The head of a pipe moves on to its next command. */
  lemma AdvanceHead(c: Cluster, replica: nat, head: Op)
    requires PipesOk(c) && Pipe(c, replica) != [] && OpOk(c, replica, head)
    requires head.at == Pipe(c, replica)[0].at
    ensures PipesOk(c.(pipes := c.pipes[replica := [head] + Pipe(c, replica)[1..]]))
  {
    var pipe := Pipe(c, replica);
    assert PipeOk(c, replica, pipe);
    var next := [head] + pipe[1..];
    assert forall i :: 1 <= i < |next| ==> next[i] == pipe[i];
    assert NotNewer(c, replica, pipe[0].at);
    SetPipe(c, replica, next);
  }

  lemma WriteStepKeepsInv(c: Cluster, replica: nat, limit: nat)
    requires Inv(c, limit) && Pipe(c, replica) != []
    requires Pipe(c, replica)[0].stage == WriteCurrent || Pipe(c, replica)[0].stage == WritePrevious
    ensures Inv(AfterExecute(c, replica), limit)
  {
    hide ShardOk, WindowOk, ReplyOk, WindowNotNewer, Count, LimitOk, Written, Sum;
    var op := Pipe(c, replica)[0];
    var p := op.publish;
    var bucket := if op.stage == WriteCurrent then p.bucket else p.bucket - 1;
    var total := if op.stage == WriteCurrent then p.ownCurrent else p.ownPrevious;
    assert PipeOk(c, replica, c.pipes[replica]);
    assert OpOk(c, replica, op) && NotNewer(c, replica, op.at);
    var d := Write(c, op, bucket, total);
    WriteKeepsWindows(c, replica, op, bucket, total);
    WriteKeepsPipes(c, replica, bucket, total);
    HeadAfterWrite(c, replica, op, limit);
    WriteFrame(c, op, bucket, total);
    hide OpOk, NotNewer, PipeOk, Write;
    AdvanceHead(d, replica, op.(stage := if op.stage == WriteCurrent then ReadCurrent else ReadPrevious));
    var e := AfterExecute(c, replica);
    WindowsFrame(d, e);
    RepliesFrame(c, e);
  }

  lemma WriteFrame(c: Cluster, op: Op, bucket: int, total: nat)
    ensures Write(c, op, bucket, total) == c.(windows := Write(c, op, bucket, total).windows)
  {
  }

  lemma HeadAfterWrite(c: Cluster, replica: nat, op: Op, limit: nat)
    requires WindowsOk(c) && OpOk(c, replica, op) && NotNewer(c, replica, op.at)
    requires op.stage == WriteCurrent || op.stage == WritePrevious
    ensures var p := op.publish;
            var d := if op.stage == WriteCurrent then Write(c, op, p.bucket, p.ownCurrent) else Write(c, op, p.bucket - 1, p.ownPrevious);
            OpOk(d, replica, op.(stage := if op.stage == WriteCurrent then ReadCurrent else ReadPrevious))
  {
    var p := op.publish;
    if op.stage == WriteCurrent && p.ownCurrent == 0 {
      OwnFieldBound(c, replica, op, p.bucket);
    } else if op.stage == WritePrevious && p.ownPrevious == 0 && 0 < p.bucket {
      OwnFieldBound(c, replica, op, p.bucket - 1);
    }
  }

  lemma ReadStepKeepsInv(c: Cluster, replica: nat, limit: nat)
    requires Inv(c, limit) && Pipe(c, replica) != []
    requires Pipe(c, replica)[0].stage == ReadCurrent || Pipe(c, replica)[0].stage == ReadPrevious
    ensures Inv(AfterExecute(c, replica), limit)
  {
    hide ShardOk, WindowOk, WindowNotNewer, Sum;
    var pipe := Pipe(c, replica);
    var op := pipe[0];
    var p := op.publish;
    assert PipeOk(c, replica, pipe);
    assert OpOk(c, replica, op) && NotNewer(c, replica, op.at);
    var d := AfterExecute(c, replica);
    if op.stage == ReadCurrent {
      ReadBound(c, replica, op, p.bucket, p.ownCurrent);
      AdvanceHead(c, replica, op.(stage := WritePrevious, current := Read(c, op, p.bucket)));
      RepliesFrame(c, d);
    } else {
      if 0 < p.bucket {
        ReadBound(c, replica, op, p.bucket - 1, p.ownPrevious);
      }
      assert ReplyOk(c, Reply(p, Totals(op.current, Read(c, op, p.bucket - 1))));
      FinishHead(c, replica, Reply(p, Totals(op.current, Read(c, op, p.bucket - 1))));
    }
    WindowsFrame(c, d);
  }

  lemma FinishHead(c: Cluster, replica: nat, reply: Reply)
    requires PipesOk(c) && RepliesOk(c) && Pipe(c, replica) != [] && ReplyOk(c, reply)
    ensures var d := c.(pipes := c.pipes[replica := Pipe(c, replica)[1..]], replies := c.replies + [reply]);
            PipesOk(d) && RepliesOk(d)
  {
    var pipe := Pipe(c, replica);
    assert PipeOk(c, replica, pipe);
    assert forall i :: 0 <= i < |pipe[1..]| ==> pipe[1..][i] == pipe[i + 1];
    SetPipe(c, replica, pipe[1..]);
    hide OpOk, NotNewer;
    var e := c.(pipes := c.pipes[replica := pipe[1..]]);
    var d := e.(replies := c.replies + [reply]);
    forall r | r in d.pipes
      ensures PipeOk(d, r, d.pipes[r])
    {
      PipeFrame(e, d, r, e.pipes[r]);
    }
    forall i | 0 <= i < |d.replies|
      ensures ReplyOk(d, d.replies[i])
    {
      assert i < |c.replies| ==> ReplyOk(c, c.replies[i]);
    }
  }
}
