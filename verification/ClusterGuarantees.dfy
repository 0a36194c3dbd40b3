/** What the counting protocol guarantees in every execution, whatever the interleaving. */
module ClusterGuarantees {
  import opened Prelude
  import opened Arithmetic
  import opened RateLimit
  import opened SharedCounters
  import opened Cluster

  const EMPTY: Cluster := Cluster([], map[], map[], map[], [])

  ghost predicate Execution(states: seq<Cluster>, steps: seq<Step>, limit: nat, interval: nat) {
    && 0 < interval && limit <= U64_MAX
    && |states| == |steps| + 1
    && states[0] == EMPTY
    && forall i :: 0 <= i < |steps| ==>
         Enabled(states[i], steps[i], interval) && states[i + 1] == Next(states[i], steps[i], limit, interval)
  }

  lemma StepKeepsInv(c: Cluster, step: Step, limit: nat, interval: nat)
    requires Inv(c, limit) && Enabled(c, step, interval) && 0 < interval && limit <= U64_MAX
    ensures Inv(Next(c, step, limit, interval), limit)
  {
    hide Inv;
    match step
    case Open(source, replica, key) => OpenKeepsInv(c, source, replica, key, limit, interval);
    case Check(source, bucket, elapsed) => CheckKeepsInv(c, source, bucket, elapsed, limit, interval);
    case Send(source, bucket) => SendKeepsInv(c, source, bucket, limit, interval);
    case Execute(replica) =>
      if Pipe(c, replica)[0].stage == WriteCurrent || Pipe(c, replica)[0].stage == WritePrevious {
        WriteStepKeepsInv(c, replica, limit);
      } else {
        ReadStepKeepsInv(c, replica, limit);
      }
    case Lose(replica, index) => LoseKeepsInv(c, replica, index, limit, interval);
    case Fold(index) => FoldKeepsInv(c, index, limit, interval);
    case Forget(key, bucket) => ForgetKeepsInv(c, key, bucket, limit, interval);
  }

  lemma {:induction false} ExecutionKeepsInv(states: seq<Cluster>, steps: seq<Step>, i: nat, limit: nat, interval: nat)
    requires Execution(states, steps, limit, interval) && i < |states|
    ensures Inv(states[i], limit)
  {
    if i != 0 {
      ExecutionKeepsInv(states, steps, i - 1, limit, interval);
      StepKeepsInv(states[i - 1], steps[i - 1], limit, interval);
    }
  }

  // ---------------------------------------------------------------- one-sided error

  /**
   In every reachable state a view of a window, brought forward to any later window, counts its own
   requests exactly and in all no more requests than the cluster counted.
   */
  lemma ViewNeverOverstates(states: seq<Cluster>, steps: seq<Step>, i: nat, source: Source, bucket: nat, limit: nat, interval: nat)
    requires Execution(states, steps, limit, interval) && i < |states|
    requires source in states[i].shards && bucket < U64_MAX
    ensures var c := states[i];
            var key := c.shards[source].key;
            var s := RollTo(c.shards[source].shard, bucket);
            && s.ownCurrent == Count(c.log, key, s.bucket, Only(source))
            && s.ownPrevious == Count(c.log, key, s.bucket - 1, Only(source))
            && s.ownCurrent + s.remoteCurrent <= Count(c.log, key, s.bucket, Everyone)
            && s.ownPrevious + s.remotePrevious <= Count(c.log, key, s.bucket - 1, Everyone)
  {
    ExecutionKeepsInv(states, steps, i, limit, interval);
    var c := states[i];
    RollKeepsShard(c, source, bucket, limit);
    var s := RollTo(c.shards[source].shard, bucket);
    CountSplit(c.log, c.shards[source].key, s.bucket, source);
    CountSplit(c.log, c.shards[source].key, s.bucket - 1, source);
  }

  /** A replica never refuses a request that the quota applied to the true cluster counts would admit. */
  lemma RefusalIsJustified(states: seq<Cluster>, steps: seq<Step>, i: nat, source: Source, bucket: nat, elapsed: nat, limit: nat, interval: nat)
    requires Execution(states, steps, limit, interval) && i < |states|
    requires Enabled(states[i], Check(source, bucket, elapsed), interval)
    ensures var c := states[i];
            var key := c.shards[source].key;
            var window := RollTo(c.shards[source].shard, bucket).bucket;
            !CheckShard(c.shards[source].shard, bucket, elapsed, limit, interval).1.allowed ==>
              !Decide(Count(c.log, key, window - 1, Everyone), Count(c.log, key, window, Everyone), elapsed, limit, interval).allowed
  {
    ViewNeverOverstates(states, steps, i, source, bucket, limit, interval);
    var c := states[i];
    var key := c.shards[source].key;
    var s := RollTo(c.shards[source].shard, bucket);
    DecideMonotone(SatAdd(s.ownPrevious, s.remotePrevious), SatAdd(s.ownCurrent, s.remoteCurrent),
                   Count(c.log, key, s.bucket - 1, Everyone), Count(c.log, key, s.bucket, Everyone), elapsed, limit, interval);
  }

  // ---------------------------------------------------------------- conservation

  /** Every source that was admitted into the window has published since its last admission, and the backend still has it. */
  ghost predicate Settled(c: Cluster, key: string, bucket: nat) {
    forall i :: 0 <= i < |c.log| && c.log[i].key == key && c.log[i].bucket == bucket ==>
      c.log[i].source in WindowOf(c, key, bucket) && i < WindowOf(c, key, bucket)[c.log[i].source].at
  }

  /** The backend never holds more than was admitted, and holds exactly that just when everyone has published. */
  lemma BackendConserves(states: seq<Cluster>, steps: seq<Step>, i: nat, key: string, bucket: nat, limit: nat, interval: nat)
    requires Execution(states, steps, limit, interval) && i < |states|
    ensures var c := states[i];
            && Sum(WindowOf(c, key, bucket)) <= Count(c.log, key, bucket, Everyone)
            && (Settled(c, key, bucket) <==> Sum(WindowOf(c, key, bucket)) == Count(c.log, key, bucket, Everyone))
  {
    ExecutionKeepsInv(states, steps, i, limit, interval);
    var c := states[i];
    var w := WindowOf(c, key, bucket);
    assert w != map[] ==> WindowOk(c, key, bucket, w);
    forall s | s in w
      ensures w[s].total <= Count(c.log, key, bucket, Only(s))
    {
      CountPrefix(c.log, w[s].at, key, bucket, Only(s));
    }
    SumBound(w, c.log, key, bucket);
    CountWider(c.log, key, bucket, Among(w.Keys), Everyone);
    if Settled(c, key, bucket) {
      SettledSum(c, key, bucket, limit);
    } else {
      UnsettledSum(c, key, bucket, limit);
    }
  }

  /** An admission not yet published is missing from the backend. */
  lemma UnsettledSum(c: Cluster, key: string, bucket: nat, limit: nat)
    requires Inv(c, limit) && !Settled(c, key, bucket)
    ensures Sum(WindowOf(c, key, bucket)) < Count(c.log, key, bucket, Everyone)
  {
    var w := WindowOf(c, key, bucket);
    var i :| 0 <= i < |c.log| && c.log[i].key == key && c.log[i].bucket == bucket && !(c.log[i].source in w && i < w[c.log[i].source].at);
    var source := c.log[i].source;
    assert w != map[] ==> WindowOk(c, key, bucket, w);
    var n := if source in w then w[source].at else 0;
    hide *;
    OtherFieldsSum(c, w, key, bucket, source);
    OneFieldOfSum(c, w, key, bucket, source, n);
    CountSplit(c.log, key, bucket, source);
    CountMissing(c.log, n, i, key, bucket, source);
  }

  lemma OneFieldOfSum(c: Cluster, w: Window, key: string, bucket: nat, source: Source, n: nat)
    requires w != map[] ==> WindowOk(c, key, bucket, w)
    requires n == if source in w then w[source].at else 0
    ensures n <= |c.log| && Sum(w) == Sum(w - {source}) + Count(c.log[..n], key, bucket, Only(source))
  {
    if source in w {
      assert FieldOk(c.log, key, bucket, source, w[source]);
      SumRemove(w, source);
    } else {
      assert w - {source} == w;
    }
  }

  /** The fields of all but one source add up to no more than all the others were admitted. */
  lemma OtherFieldsSum(c: Cluster, w: Window, key: string, bucket: nat, source: Source)
    requires w != map[] ==> WindowOk(c, key, bucket, w)
    ensures Sum(w - {source}) <= Count(c.log, key, bucket, Except(source))
  {
    var others := w - {source};
    forall s | s in others
      ensures others[s].total <= Count(c.log, key, bucket, Only(s))
    {
      assert FieldOk(c.log, key, bucket, s, w[s]);
      CountPrefix(c.log, w[s].at, key, bucket, Only(s));
    }
    SumBound(others, c.log, key, bucket);
    CountWider(c.log, key, bucket, Among(others.Keys), Except(source));
  }

  /** What an earlier part of the log counts for a source is less than all, if an admission of its own comes later. */
  lemma {:induction false} CountMissing(log: seq<Admission>, n: nat, i: nat, key: string, bucket: int, source: Source)
    requires n <= i < |log| && log[i].key == key && log[i].bucket == bucket && log[i].source == source
    ensures Count(log[..n], key, bucket, Only(source)) < Count(log, key, bucket, Only(source))
  {
    var last := |log| - 1;
    CountPrefix(log[..last], n, key, bucket, Only(source));
    assert log[..last][..n] == log[..n];
    if i < last {
      CountMissing(log[..last], n, i, key, bucket, source);
    }
  }

  lemma SettledSum(c: Cluster, key: string, bucket: nat, limit: nat)
    requires Inv(c, limit) && Settled(c, key, bucket)
    ensures Sum(WindowOf(c, key, bucket)) == Count(c.log, key, bucket, Everyone)
  {
    var w := WindowOf(c, key, bucket);
    assert w != map[] ==> WindowOk(c, key, bucket, w);
    forall s | s in w
      ensures w[s].total == Count(c.log, key, bucket, Only(s))
    {
      CountCut(c.log, w[s].at, key, bucket, Only(s));
    }
    SumExact(w, c.log, key, bucket);
    CountSame(c.log, key, bucket, Among(w.Keys), Everyone);
  }

  /** Cutting the log where nothing counted follows loses nothing. */
  lemma {:induction false} CountCut(log: seq<Admission>, n: nat, key: string, bucket: int, who: Who)
    requires n <= |log|
    requires forall i :: n <= i < |log| && log[i].key == key && log[i].bucket == bucket ==> !Covers(who, log[i].source)
    ensures Count(log[..n], key, bucket, who) == Count(log, key, bucket, who)
  {
    if n < |log| {
      CountCut(log[..|log| - 1], n, key, bucket, who);
      assert log[..|log| - 1][..n] == log[..n];
    } else {
      assert log[..n] == log;
    }
  }

  lemma {:induction false} CountSame(log: seq<Admission>, key: string, bucket: int, who: Who, other: Who)
    requires forall i :: 0 <= i < |log| && log[i].key == key && log[i].bucket == bucket ==>
               (Covers(who, log[i].source) <==> Covers(other, log[i].source))
    ensures Count(log, key, bucket, who) == Count(log, key, bucket, other)
  {
    if log != [] {
      CountSame(log[..|log| - 1], key, bucket, who, other);
    }
  }

  /**
   When a replica reads a window it has just written, the hash holds exactly the total it then subtracts,
   unless the backend has forgotten the field in between.  So what is read, less that total, is the other
   fields' sum exactly unless a non-zero own field is gone while others are there, or the reading
   saturates; then it falls short.
   */
  lemma OwnTotalIsReadBack(states: seq<Cluster>, steps: seq<Step>, i: nat, replica: nat, limit: nat, interval: nat)
    requires Execution(states, steps, limit, interval) && i < |states|
    requires Pipe(states[i], replica) != []
    requires var op := Pipe(states[i], replica)[0];
             && (op.stage == ReadCurrent || (op.stage == ReadPrevious && 0 < op.publish.bucket))
    ensures var c := states[i];
            var op := Pipe(c, replica)[0];
            var p := op.publish;
            var bucket := if op.stage == ReadCurrent then p.bucket else p.bucket - 1;
            var own := if op.stage == ReadCurrent then p.ownCurrent else p.ownPrevious;
            var w := WindowOf(c, p.key, bucket);
            var others := SatSub(Read(c, op, bucket), own);
            && (own == 0 || p.source in w ==> Sum(w) == own + Sum(w - {p.source}))
            && (others == Sum(w - {p.source}) <==> (own == 0 || p.source in w || Sum(w) == 0) && Sum(w) <= U64_MAX)
            && others <= Sum(w - {p.source})
  {
    ExecutionKeepsInv(states, steps, i, limit, interval);
    var c := states[i];
    var op := Pipe(c, replica)[0];
    assert PipeOk(c, replica, c.pipes[replica]);
    assert OpOk(c, replica, op);
    var p := op.publish;
    SnapshotFits(c.log[..op.at], c.log, p.key, p.bucket, p.source, limit);
    SnapshotFits(c.log[..op.at], c.log, p.key, p.bucket - 1, p.source, limit);
    hide Execution, Inv, PipeOk, WindowOf, Count;
    LessOneField(WindowOf(c, p.key, if op.stage == ReadCurrent then p.bucket else p.bucket - 1), p.source,
                 if op.stage == ReadCurrent then p.ownCurrent else p.ownPrevious);
  }

  /** A snapshot never holds more than the limit, and so fits its word. */
  lemma SnapshotFits(part: seq<Admission>, log: seq<Admission>, key: string, bucket: int, source: Source, limit: nat)
    requires LimitOk(log, limit) && part <= log
    ensures Count(part, key, bucket, Only(source)) <= limit
  {
    assert part == log[..|part|];
    CountPrefix(log, |part|, key, bucket, Only(source));
    OnlyWithinLimit(log, key, bucket, source, limit);
  }

  lemma LessOneField(w: Window, source: Source, own: nat)
    requires (source in w ==> w[source].total == own) && own <= U64_MAX
    ensures own == 0 || source in w ==> Sum(w) == own + Sum(w - {source})
    ensures SatSub(Min(Sum(w), U64_MAX), own) == Sum(w - {source})
      <==> (own == 0 || source in w || Sum(w) == 0) && Sum(w) <= U64_MAX
    ensures SatSub(Min(Sum(w), U64_MAX), own) <= Sum(w - {source})
  {
    if source in w {
      SumRemove(w, source);
    } else {
      assert w - {source} == w;
    }
  }

  // ---------------------------------------------------------------- overshoot

  /** The peer usage the replica behind the latest admission into a window had not seen. */
  ghost function Unseen(log: seq<Admission>, key: string, bucket: nat): int {
    if log == [] then 0
    else
      var n := |log| - 1;
      var a := log[n];
      if a.key == key && a.bucket == bucket then Count(log[..n], key, bucket, Except(a.source)) - a.seen
      else Unseen(log[..n], key, bucket)
  }

  lemma LimitPrefix(log: seq<Admission>, limit: nat)
    requires LimitOk(log, limit) && log != []
    ensures LimitOk(log[..|log| - 1], limit)
  {
    var shorter := log[..|log| - 1];
    forall i | 0 <= i < |shorter|
      ensures AdmittedWithin(shorter, i, limit)
    {
      assert shorter[..i] == log[..i] && AdmittedWithin(log, i, limit);
    }
  }

  lemma {:induction false} LogWithinUnseen(log: seq<Admission>, key: string, bucket: nat, limit: nat)
    requires LimitOk(log, limit)
    ensures 0 <= Unseen(log, key, bucket)
    ensures Count(log, key, bucket, Everyone) <= limit + Unseen(log, key, bucket)
  {
    if log != [] {
      var n := |log| - 1;
      LimitPrefix(log, limit);
      LogWithinUnseen(log[..n], key, bucket, limit);
      assert AdmittedWithin(log, n, limit);
      CountSplit(log[..n], key, bucket, log[n].source);
    }
  }

  /** The cluster overshoots a window by at most what the latest admitting replica had not yet heard of. */
  lemma OvershootIsUnseenUsage(states: seq<Cluster>, steps: seq<Step>, i: nat, key: string, bucket: nat, limit: nat, interval: nat)
    requires Execution(states, steps, limit, interval) && i < |states|
    ensures Count(states[i].log, key, bucket, Everyone) <= limit + Unseen(states[i].log, key, bucket)
  {
    ExecutionKeepsInv(states, steps, i, limit, interval);
    LogWithinUnseen(states[i].log, key, bucket, limit);
  }

  ghost function Incarnations(c: Cluster, key: string): set<Source> {
    set s | s in c.shards && c.shards[s].key == key
  }

  lemma {:induction false} OnlyWithinLimit(log: seq<Admission>, key: string, bucket: int, source: Source, limit: nat)
    requires LimitOk(log, limit)
    ensures Count(log, key, bucket, Only(source)) <= limit
  {
    if log != [] {
      LimitPrefix(log, limit);
      OnlyWithinLimit(log[..|log| - 1], key, bucket, source, limit);
      assert AdmittedWithin(log, |log| - 1, limit);
    }
  }

  lemma {:induction false} AmongWithinLimit(log: seq<Admission>, key: string, bucket: nat, sources: set<Source>, limit: nat)
    requires LimitOk(log, limit)
    ensures Count(log, key, bucket, Among(sources)) <= Scale(|sources|, limit)
  {
    if sources == {} {
      CountNone(log, key, bucket, Among(sources));
    } else {
      var s :| s in sources;
      CountAmong(log, key, bucket, sources, s);
      OnlyWithinLimit(log, key, bucket, s, limit);
      AmongWithinLimit(log, key, bucket, sources - {s}, limit);
    }
  }

  /** No window ever admits more than the limit once per incarnation of the key. */
  lemma OvershootIsPerIncarnation(states: seq<Cluster>, steps: seq<Step>, i: nat, key: string, bucket: nat, limit: nat, interval: nat)
    requires Execution(states, steps, limit, interval) && i < |states|
    ensures Count(states[i].log, key, bucket, Everyone) <= |Incarnations(states[i], key)| * limit
  {
    ExecutionKeepsInv(states, steps, i, limit, interval);
    var c := states[i];
    var sources := Incarnations(c, key);
    CountSame(c.log, key, bucket, Among(sources), Everyone);
    AmongWithinLimit(c.log, key, bucket, sources, limit);
    ScaleIsProduct(|sources|, limit);
  }
}
