/** One replica's side of cluster-wide counting (ratelimit/shared.rs). */
module SharedCounters {
  import opened Prelude
  import opened Arithmetic
  import opened RateLimit

  /** A key incarnation on one replica.  The program draws a random UUID; the model takes fresh numbers. */
  type Source = nat

  datatype Shard = Shard(
    source: Source,
    bucket: nat,
    ownCurrent: nat, ownPrevious: nat,
    remoteCurrent: nat, remotePrevious: nat)

  datatype Publish = Publish(source: Source, key: string, bucket: nat, ownCurrent: nat, ownPrevious: nat)

  datatype Totals = Totals(current: nat, previous: nat)

  datatype Entry = Entry(key: string, source: Source)

  /** The epoch-aligned window of a wall-clock reading, and the nanoseconds into it. */
  function Position(now: int, interval: nat): Option<(nat, nat)> {
    if now < 0 || interval == 0 then None
    else
      var bucket := Quotient(now, interval);
      QuotientBounds(now, interval);
      if bucket > U64_MAX then None else Some((bucket, now - Scale(bucket, interval)))
  }

  /** A clock reading counts whole seconds in 63 bits, so an interval of a second or more keeps the index well inside 64. */
  lemma PositionInRange(now: int, interval: nat)
    requires now < 0x8000_0000_0000_0000 * NANOS_PER_SEC && NANOS_PER_SEC <= interval
    ensures 0 <= now <==> Position(now, interval).Some?
    ensures 0 <= now ==>
      var (bucket, elapsed) := Position(now, interval).value;
      bucket < U64_MAX && elapsed < interval && now == Scale(bucket, interval) + elapsed
  {
    if 0 <= now {
      var q := Quotient(now, interval);
      QuotientBounds(now, interval);
      ScaleMonotoneUnit(q, NANOS_PER_SEC, interval);
      ScaleIsProduct(q, NANOS_PER_SEC);
    }
  }

  function NewShard(source: Source): Shard {
    Shard(source, 0, 0, 0, 0, 0)
  }

  function RollTo(s: Shard, bucket: nat): Shard {
    if bucket <= s.bucket then s
    else if bucket == SatAdd(s.bucket, 1) then
      s.(bucket := bucket, ownPrevious := s.ownCurrent, remotePrevious := s.remoteCurrent, ownCurrent := 0, remoteCurrent := 0)
    else
      s.(bucket := bucket, ownPrevious := 0, remotePrevious := 0, ownCurrent := 0, remoteCurrent := 0)
  }

  /** Rolling twice is rolling once to the later bucket, so a stray roll in between changes nothing. */
  lemma RollTwice(s: Shard, b0: nat, b1: nat)
    requires s.bucket < U64_MAX && b0 < U64_MAX
    ensures RollTo(RollTo(s, b0), b1) == RollTo(s, Max(b0, b1))
  {
  }

  function CheckShard(s: Shard, bucket: nat, elapsed: nat, limit: nat, interval: nat): (Shard, Decision)
    requires elapsed <= interval && 0 < interval
  {
    var r := RollTo(s, bucket);
    var previous := SatAdd(r.ownPrevious, r.remotePrevious);
    var current := SatAdd(r.ownCurrent, r.remoteCurrent);
    var d := Decide(previous, current, elapsed, limit, interval);
    (if d.allowed then r.(ownCurrent := SatAdd(r.ownCurrent, 1)) else r, d)
  }

  function Snapshot(s: Shard, key: string): Publish {
    Publish(s.source, key, s.bucket, s.ownCurrent, s.ownPrevious)
  }

  function ApplyTotals(s: Shard, p: Publish, t: Totals): Shard {
    if s.source != p.source then s
    else if s.bucket == SatAdd(p.bucket, 1) then
      s.(remotePrevious := SatSub(t.current, p.ownCurrent))
    else if s.bucket != p.bucket then s
    else
      s.(remoteCurrent := SatSub(t.current, p.ownCurrent), remotePrevious := SatSub(t.previous, p.ownPrevious))
  }

  // ---------------------------------------------------------------- the replica

  /** Every shard a batch names, brought up to `bucket`. */
  function RollAll(shards: map<Source, Shard>, entries: seq<Entry>, bucket: nat): (r: map<Source, Shard>)
    requires forall i :: 0 <= i < |entries| ==> entries[i].source in shards
    ensures r.Keys == shards.Keys
    ensures forall i :: 0 <= i < |entries| ==> bucket <= r[entries[i].source].bucket
  {
    if entries == [] then shards
    else
      var n := |entries| - 1;
      var before := RollAll(shards, entries[..n], bucket);
      before[entries[n].source := RollTo(before[entries[n].source], bucket)]
  }

  /** What a tick sends: each named shard's totals under its own incarnation. */
  function SnapshotAll(shards: map<Source, Shard>, entries: seq<Entry>, prefix: string): (r: seq<Publish>)
    requires forall i :: 0 <= i < |entries| ==> entries[i].source in shards
    ensures |r| == |entries|
    ensures forall i :: 0 <= i < |r| ==> r[i] == Snapshot(shards[entries[i].source], prefix + entries[i].key)
  {
    seq(|entries|, i requires 0 <= i < |entries| => Snapshot(shards[entries[i].source], prefix + entries[i].key))
  }

  function ApplyAll(shards: map<Source, Shard>, publishes: seq<Publish>, entries: seq<Entry>, totals: seq<Totals>): (r: map<Source, Shard>)
    requires |publishes| == |entries| == |totals|
    requires forall i :: 0 <= i < |entries| ==> entries[i].source in shards
    ensures r.Keys == shards.Keys
  {
    if publishes == [] then shards
    else
      var n := |publishes| - 1;
      var before := ApplyAll(shards, publishes[..n], entries[..n], totals[..n]);
      before[entries[n].source := ApplyTotals(before[entries[n].source], publishes[n], totals[n])]
  }

  /** A batch rolls the shards it names and no other. */
  lemma {:induction false} NamedAreRolled(shards: map<Source, Shard>, entries: seq<Entry>, bucket: nat, source: Source)
    requires forall i :: 0 <= i < |entries| ==> entries[i].source in shards
    requires source in shards
    ensures RollAll(shards, entries, bucket)[source] ==
      if exists i :: 0 <= i < |entries| && entries[i].source == source then RollTo(shards[source], bucket) else shards[source]
  {
    if entries != [] {
      var n := |entries| - 1;
      NamedAreRolled(shards, entries[..n], bucket, source);
      assert forall i :: 0 <= i < n ==> entries[..n][i] == entries[i];
      assert entries[n].source == source || forall i :: 0 <= i < n && entries[i].source == source ==> entries[..n][i].source == source;
    }
  }

  /** A reply is folded entry by entry: each shard takes in the totals for its own line, and shards without a line stay. */
  lemma {:induction false} EachTakesItsOwn(shards: map<Source, Shard>, publishes: seq<Publish>, entries: seq<Entry>, totals: seq<Totals>, source: Source)
    requires |publishes| == |entries| == |totals|
    requires forall i :: 0 <= i < |entries| ==> entries[i].source in shards
    requires forall i, j :: 0 <= i < j < |entries| ==> entries[i].source != entries[j].source
    requires source in shards
    ensures forall i :: 0 <= i < |entries| && entries[i].source == source ==>
              ApplyAll(shards, publishes, entries, totals)[source] == ApplyTotals(shards[source], publishes[i], totals[i])
    ensures (forall i :: 0 <= i < |entries| ==> entries[i].source != source) ==>
              ApplyAll(shards, publishes, entries, totals)[source] == shards[source]
  {
    hide ApplyTotals;
    if publishes != [] {
      var n := |publishes| - 1;
      EachTakesItsOwn(shards, publishes[..n], entries[..n], totals[..n], source);
      assert forall i :: 0 <= i < n ==> entries[..n][i] == entries[i] && publishes[..n][i] == publishes[i] && totals[..n][i] == totals[i];
    }
  }

  /** The keys one tick visits and the keys it leaves for later, the pass being refilled once it is empty. */
  function Take(pass: seq<Entry>, stored: seq<Entry>, batch: nat): (seq<Entry>, seq<Entry>) {
    var full := if pass == [] then stored else pass;
    var keep := SatSub(|full|, batch);
    (full[keep..], full[..keep])
  }

  datatype BackendReply = Answered(totals: seq<Totals>) | Unavailable | TimedOut | Unreadable

  /** What becomes of a tick: the clock cannot be read, its batch is reconciled, or its keys are returned. */
  datatype Tick = Idle | Published | Failed

  function NextPass(pass: seq<Entry>, stored: seq<Entry>, batch: nat, tick: Tick): seq<Entry> {
    var (taken, rest) := Take(pass, stored, batch);
    match tick
    case Idle => pass
    case Published => rest
    case Failed => rest + taken
  }

  function TickOf(clock: Option<(nat, nat)>, taken: seq<Entry>, reply: BackendReply): Tick {
    if clock.None? then Idle
    else if taken == [] || (reply.Answered? && |reply.totals| == |taken|) then Published
    else Failed
  }

  /** What other threads do to a replica while a tick waits for the backend. */
  datatype Request = Asks(key: string, now: int, source: Source) | Evicts(key: string)

  function ShardsAfter(shards: map<Source, Shard>, live: map<string, Source>, r: Request, limit: nat, interval: nat): map<Source, Shard>
    requires forall key :: key in live ==> live[key] in shards
  {
    if r.Evicts? || Position(r.now, interval).None? then shards
    else
      var (bucket, elapsed) := Position(r.now, interval).value;
      QuotientBounds(r.now, interval);
      var incarnation := if r.key in live then live[r.key] else r.source;
      var shard := if r.key in live then shards[live[r.key]] else NewShard(r.source);
      shards[incarnation := CheckShard(shard, bucket, elapsed, limit, interval).0]
  }

  function LiveAfter(live: map<string, Source>, r: Request, interval: nat): map<string, Source> {
    match r
    case Evicts(key) => live - {key}
    case Asks(key, now, source) =>
      if Position(now, interval).None? then live else live[key := if key in live then live[key] else source]
  }

  /** The shards and the store after requests one after another. */
  function Served(shards: map<Source, Shard>, live: map<string, Source>, requests: seq<Request>, limit: nat, interval: nat)
    : (r: (map<Source, Shard>, map<string, Source>))
    requires forall key :: key in live ==> live[key] in shards
    ensures shards.Keys <= r.0.Keys && forall key :: key in r.1 ==> r.1[key] in r.0
  {
    if requests == [] then (shards, live)
    else
      var n := |requests| - 1;
      var (s, l) := Served(shards, live, requests[..n], limit, interval);
      (ShardsAfter(s, l, requests[n], limit, interval), LiveAfter(l, requests[n], interval))
  }

  /** Every request that may create a shard brings an id no shard has yet. */
  ghost predicate BringFreshIds(shards: map<Source, Shard>, live: map<string, Source>, requests: seq<Request>, limit: nat, interval: nat)
    requires forall key :: key in live ==> live[key] in shards
  {
    requests == [] ||
      (var n := |requests| - 1;
       && BringFreshIds(shards, live, requests[..n], limit, interval)
       && (requests[n].Asks? ==> requests[n].source !in Served(shards, live, requests[..n], limit, interval).0))
  }

  class Counters {
    /** Shard storage.  An evicted key's shard stays reachable from a batch in flight. */
    var shards: map<Source, Shard>
    /** Which shard counts each key the store holds. */
    var live: map<string, Source>
    /** What the current walk over the store has left to publish; batches come off the back. */
    var pass: seq<Entry>
    const prefix: string
    const interval: nat
    const limit: nat
    const batch: nat

    ghost predicate Valid()
      reads this
    {
      && (forall key :: key in live ==> live[key] in shards)
      && (forall i :: 0 <= i < |pass| ==> pass[i].source in shards)
    }

    /** The store's keys in some order, as a pass is refilled from them. */
    ghost predicate Walks(stored: seq<Entry>)
      reads this
    {
      && (forall i :: 0 <= i < |stored| ==> stored[i].key in live && live[stored[i].key] == stored[i].source)
      && (forall i, j :: 0 <= i < j < |stored| ==> stored[i].key != stored[j].key)
      && (forall key :: key in live ==> exists i :: 0 <= i < |stored| && stored[i].key == key)
    }

    constructor (prefix: string, interval: nat, limit: nat, batch: nat)
      ensures Valid() && shards == map[] && live == map[] && pass == []
      ensures this.prefix == prefix && this.interval == interval && this.limit == limit && this.batch == batch
    {
      this.prefix, this.interval, this.limit, this.batch := prefix, interval, limit, batch;
      shards, live, pass := map[], map[], [];
    }

    /** Decide from the view held now; `source` names a fresh incarnation should the key not be tracked. */
    method CheckAt(key: string, now: int, source: Source) returns (decision: Decision)
      requires Valid() && source !in shards
      modifies this`shards, this`live
      ensures Valid()
      ensures Position(now, interval).None? ==>
        shards == old(shards) && live == old(live) && decision == Decision(true, limit, SatSub(limit, 1), 0)
      ensures Position(now, interval).Some? ==>
        var (bucket, elapsed) := Position(now, interval).value;
        var incarnation := if key in old(live) then old(live[key]) else source;
        var shard := if key in old(live) then old(shards[live[key]]) else NewShard(source);
        && elapsed <= interval && 0 < interval
        && live == old(live)[key := incarnation]
        && shards == old(shards)[incarnation := CheckShard(shard, bucket, elapsed, limit, interval).0]
        && decision == CheckShard(shard, bucket, elapsed, limit, interval).1
    {
      var position := Position(now, interval);
      if position.None? {
        return Decision(true, limit, SatSub(limit, 1), 0);
      }
      var (bucket, elapsed) := position.value;
      QuotientBounds(now, interval);
      if key !in live {
        live := live[key := source];
        shards := shards[source := NewShard(source)];
      }
      var shard := RollTo(shards[live[key]], bucket);
      var previous := SatAdd(shard.ownPrevious, shard.remotePrevious);
      var current := SatAdd(shard.ownCurrent, shard.remoteCurrent);
      decision := Decide(previous, current, elapsed, limit, interval);
      if decision.allowed {
        shard := shard.(ownCurrent := SatAdd(shard.ownCurrent, 1));
      }
      shards := shards[live[key] := shard];
    }

    /** The store may drop any key at any time; its shard lives on for whoever still holds it. */
    method Evict(key: string)
      requires Valid()
      modifies this`live
      ensures Valid() && live == old(live) - {key}
    {
      live := live - {key};
    }

    /** Snapshot the next batch, rolling each shard it names up to the tick's window. */
    method Pending(now: int, stored: seq<Entry>) returns (publishes: seq<Publish>, entries: seq<Entry>)
      requires Valid() && Walks(stored)
      modifies this`shards, this`pass
      ensures Valid() && |publishes| == |entries|
      ensures forall i :: 0 <= i < |entries| ==> entries[i].source in shards
      ensures Position(now, interval).None? ==> shards == old(shards) && pass == old(pass) && entries == []
      ensures Position(now, interval).Some? ==>
        var bucket := Position(now, interval).value.0;
        && (entries, pass) == Take(old(pass), stored, batch)
        && (forall i :: 0 <= i < |entries| ==> entries[i].source in old(shards))
        && shards == RollAll(old(shards), entries, bucket)
        && publishes == SnapshotAll(shards, entries, prefix)
    {
      var position := Position(now, interval);
      if position.None? {
        return [], [];
      }
      var bucket := position.value.0;
      if pass == [] {
        pass := stored;
      }
      var keep := SatSub(|pass|, batch);
      entries := pass[keep..];
      pass := pass[..keep];
      publishes := SnapshotEach(entries, bucket);
    }

    method SnapshotEach(entries: seq<Entry>, bucket: nat) returns (publishes: seq<Publish>)
      requires forall i :: 0 <= i < |entries| ==> entries[i].source in shards
      modifies this`shards
      ensures shards == RollAll(old(shards), entries, bucket)
      ensures publishes == SnapshotAll(shards, entries, prefix)
    {
      publishes := [];
      for i := 0 to |entries|
        invariant shards == RollAll(old(shards), entries[..i], bucket)
        invariant publishes == SnapshotAll(shards, entries[..i], prefix)
      {
        var shard := RollTo(shards[entries[i].source], bucket);
        assert entries[..i + 1][..i] == entries[..i];
        assert forall j :: 0 <= j < i ==> bucket <= shards[entries[..i][j].source].bucket;
        shards := shards[entries[i].source := shard];
        publishes := publishes + [Snapshot(shard, prefix + entries[i].key)];
      }
      assert entries[..|entries|] == entries;
    }

    /** Fold reconciled totals back in; a misaligned reply is ignored. */
    method Apply(publishes: seq<Publish>, entries: seq<Entry>, totals: seq<Totals>)
      requires Valid() && |publishes| == |entries|
      requires forall i :: 0 <= i < |entries| ==> entries[i].source in shards
      modifies this`shards
      ensures Valid()
      ensures shards == if |publishes| == |totals| then ApplyAll(old(shards), publishes, entries, totals) else old(shards)
    {
      if |publishes| != |totals| {
        return;
      }
      ghost var was := shards;
      for i := 0 to |publishes|
        invariant shards == ApplyAll(was, publishes[..i], entries[..i], totals[..i])
      {
        assert publishes[..i + 1][..i] == publishes[..i] && entries[..i + 1][..i] == entries[..i];
        assert totals[..i + 1][..i] == totals[..i];
        var source := entries[i].source;
        shards := shards[source := ApplyTotals(shards[source], publishes[i], totals[i])];
      }
      assert publishes[..|publishes|] == publishes && entries[..|entries|] == entries && totals[..|totals|] == totals;
    }

    /** Requests served by other threads; none of them touches the pass. */
    method Serve(requests: seq<Request>)
      requires Valid() && BringFreshIds(shards, live, requests, limit, interval)
      modifies this`shards, this`live
      ensures Valid()
      ensures (shards, live) == Served(old(shards), old(live), requests, limit, interval)
    {
      for i := 0 to |requests|
        invariant Valid() && (shards, live) == Served(old(shards), old(live), requests[..i], limit, interval)
      {
        assert requests[..i + 1][..i] == requests[..i];
        IdsStayFresh(old(shards), old(live), requests, i, limit, interval);
        match requests[i]
        case Asks(key, now, source) =>
          var decision := CheckAt(key, now, source);
        case Evicts(key) =>
          Evict(key);
      }
      assert requests[..|requests|] == requests;
    }

    /**
     One tick.  While it waits for the backend, requests are served and keys evicted.  `ok` tells a caller
     syncing several limiters whether the backend is worth asking again.
     */
    method SyncOnce(now: int, stored: seq<Entry>, during: seq<Request>, reply: BackendReply) returns (ok: bool)
      requires Valid() && Walks(stored)
      requires Position(now, interval).Some? ==>
        var taken := Take(pass, stored, batch).0;
        (forall i :: 0 <= i < |taken| ==> taken[i].source in shards)
        && BringFreshIds(RollAll(shards, taken, Position(now, interval).value.0), live, during, limit, interval)
      modifies this`shards, this`live, this`pass
      ensures Valid()
      ensures pass == NextPass(old(pass), stored, batch, TickOf(Position(now, interval), Take(old(pass), stored, batch).0, reply))
      ensures Position(now, interval).None? ==> ok && shards == old(shards) && live == old(live)
      ensures Position(now, interval).Some? ==>
        var taken := Take(old(pass), stored, batch).0;
        && (forall i :: 0 <= i < |taken| ==> taken[i].source in old(shards))
        && var rolled := RollAll(old(shards), taken, Position(now, interval).value.0);
        if taken == [] then ok && shards == rolled && live == old(live)
        else
          var (served, store) := Served(rolled, old(live), during, limit, interval);
          && live == store
          && if reply.Answered? && |reply.totals| == |taken|
             then ok && shards == ApplyAll(served, SnapshotAll(rolled, taken, prefix), taken, reply.totals)
             else ok == !(reply.Unavailable? || reply.TimedOut?) && shards == served
    {
      hide RollAll, SnapshotAll, ApplyAll, Served, BringFreshIds;
      var publishes, entries := Pending(now, stored);
      if publishes == [] {
        return true;
      }
      Serve(during);
      if reply.Answered? && |reply.totals| == |publishes| {
        Apply(publishes, entries, reply.totals);
        ok := true;
      } else {
        pass := pass + entries;
        ok := !(reply.Unavailable? || reply.TimedOut?);
      }
    }
  }

  lemma {:induction false} IdsStayFresh(shards: map<Source, Shard>, live: map<string, Source>, requests: seq<Request>, i: nat, limit: nat, interval: nat)
    requires forall key :: key in live ==> live[key] in shards
    requires BringFreshIds(shards, live, requests, limit, interval) && i < |requests|
    ensures requests[i].Asks? ==> requests[i].source !in Served(shards, live, requests[..i], limit, interval).0
    decreases |requests|
  {
    hide Served;
    if i < |requests| - 1 {
      IdsStayFresh(shards, live, requests[..|requests| - 1], i, limit, interval);
      assert requests[..|requests| - 1][..i] == requests[..i];
    }
  }

  // ---------------------------------------------------------------- passes

  /**
   Ticks over one pass, from the pass as it was refilled: what the successful ones published, and the
   keys not yet visited.  Ticks after the pass is spent belong to the next one.
   */
  ghost function RunPass(pass: seq<Entry>, outcomes: seq<bool>, batch: nat): (seq<Entry>, seq<Entry>) {
    if outcomes == [] then ([], pass)
    else
      var (published, left) := RunPass(pass, outcomes[..|outcomes| - 1], batch);
      if left == [] then (published, left)
      else
        var (taken, rest) := Take(left, [], batch);
        if outcomes[|outcomes| - 1] then (published + taken, rest) else (published, rest + taken)
  }

  ghost function Successes(outcomes: seq<bool>): nat {
    if outcomes == [] then 0
    else Successes(outcomes[..|outcomes| - 1]) + if outcomes[|outcomes| - 1] then 1 else 0
  }

  /** Failed ticks lose nothing: what is published and what is left are always the whole pass. */
  lemma {:induction false} PassConserves(pass: seq<Entry>, outcomes: seq<bool>, batch: nat)
    ensures var (published, left) := RunPass(pass, outcomes, batch);
            multiset(published) + multiset(left) == multiset(pass)
  {
    if outcomes != [] {
      var n := |outcomes| - 1;
      PassConserves(pass, outcomes[..n], batch);
      var (published, left) := RunPass(pass, outcomes[..n], batch);
      if left != [] {
        var (taken, rest) := Take(left, [], batch);
        assert left == rest + taken;
      }
    }
  }

  /** Each successful tick takes one batch off the pass, a failed one nothing. */
  lemma {:induction false} PassShrinks(pass: seq<Entry>, outcomes: seq<bool>, batch: nat)
    ensures |RunPass(pass, outcomes, batch).1| == SatSub(|pass|, Scale(Successes(outcomes), batch))
  {
    if outcomes != [] {
      PassShrinks(pass, outcomes[..|outcomes| - 1], batch);
    }
  }

  /** Every key of a pass is published exactly once, by `ceil(n / batch)` successful ticks and no fewer. */
  lemma PassCoversEveryKeyOnce(pass: seq<Entry>, outcomes: seq<bool>, batch: nat)
    requires 0 < batch
    ensures var (published, left) := RunPass(pass, outcomes, batch);
            && (Successes(outcomes) >= CeilQuotient(|pass|, batch) <==> left == [])
            && (left == [] ==> multiset(published) == multiset(pass))
  {
    PassConserves(pass, outcomes, batch);
    PassShrinks(pass, outcomes, batch);
    CeilQuotientIsCeiling(|pass|, batch, Successes(outcomes));
  }

  // ---------------------------------------------------------------- passes tick by tick

  /** The pass as it stands before each tick of a run of ticks. */
  ghost predicate Ticks(passes: seq<seq<Entry>>, stores: seq<seq<Entry>>, ticks: seq<Tick>, batch: nat) {
    && |passes| == |ticks| + 1 && |stores| == |ticks|
    && forall i :: 0 <= i < |ticks| ==> passes[i + 1] == NextPass(passes[i], stores[i], batch, ticks[i])
  }

  ghost function Sent(passes: seq<seq<Entry>>, stores: seq<seq<Entry>>, ticks: seq<Tick>, batch: nat, n: nat): seq<Entry>
    requires Ticks(passes, stores, ticks, batch) && n <= |ticks|
  {
    if n == 0 then []
    else
      Sent(passes, stores, ticks, batch, n - 1)
      + if ticks[n - 1].Published? then Take(passes[n - 1], stores[n - 1], batch).0 else []
  }

  ghost function Outcomes(ticks: seq<Tick>): (r: seq<bool>)
    ensures |r| == |ticks| && forall i :: 0 <= i < |r| ==> r[i] == ticks[i].Published?
  {
    seq(|ticks|, i requires 0 <= i < |ticks| => ticks[i].Published?)
  }

  /** The pass that the first of these ticks works on: the one under way, or a new walk of the store. */
  ghost function Begun(passes: seq<seq<Entry>>, stores: seq<seq<Entry>>): seq<Entry>
    requires passes != [] && stores != []
  {
    if passes[0] == [] then stores[0] else passes[0]
  }

  /** Ticks follow the pass they began, until it is spent. */
  lemma {:induction false} TicksFollowThePass(passes: seq<seq<Entry>>, stores: seq<seq<Entry>>, ticks: seq<Tick>, batch: nat, n: nat)
    requires Ticks(passes, stores, ticks, batch) && 0 < n <= |ticks|
    requires passes[0] != [] || !ticks[0].Idle?
    requires forall i :: 0 < i < n ==> passes[i] != []
    ensures RunPass(Begun(passes, stores), Outcomes(ticks[..n]), batch) == (Sent(passes, stores, ticks, batch, n), passes[n])
  {
    hide RunPass, Take, Sent, NextPass;
    var p := Begun(passes, stores);
    var left := if n == 1 then p else passes[n - 1];
    assert passes[n] == NextPass(passes[n - 1], stores[n - 1], batch, ticks[n - 1]);
    if n == 1 {
      NothingRun(p, batch);
      assert Outcomes(ticks[..0]) == [];
      NothingSent(passes, stores, ticks, batch);
    } else {
      TicksFollowThePass(passes, stores, ticks, batch, n - 1);
    }
    assert Outcomes(ticks[..n])[..n - 1] == Outcomes(ticks[..n - 1]);
    OneMoreTick(passes[n - 1], stores[n - 1], batch, ticks[n - 1], left);
    RunPassNext(p, Outcomes(ticks[..n]), batch);
    SentNext(passes, stores, ticks, batch, n);
  }

  lemma NothingRun(pass: seq<Entry>, batch: nat)
    ensures RunPass(pass, [], batch) == ([], pass)
  {
  }

  lemma RunPassNext(pass: seq<Entry>, outcomes: seq<bool>, batch: nat)
    requires outcomes != []
    ensures var (published, left) := RunPass(pass, outcomes[..|outcomes| - 1], batch);
            var (taken, rest) := Take(left, [], batch);
            RunPass(pass, outcomes, batch) == if outcomes[|outcomes| - 1] then (published + taken, rest) else (published, left)
  {
    var (published, left) := RunPass(pass, outcomes[..|outcomes| - 1], batch);
    var (taken, rest) := Take(left, [], batch);
    assert left == rest + taken && (left == [] ==> published + taken == published);
  }

  lemma NothingSent(passes: seq<seq<Entry>>, stores: seq<seq<Entry>>, ticks: seq<Tick>, batch: nat)
    requires Ticks(passes, stores, ticks, batch)
    ensures Sent(passes, stores, ticks, batch, 0) == []
  {
  }

  lemma SentNext(passes: seq<seq<Entry>>, stores: seq<seq<Entry>>, ticks: seq<Tick>, batch: nat, n: nat)
    requires Ticks(passes, stores, ticks, batch) && 0 < n <= |ticks|
    ensures var before := Sent(passes, stores, ticks, batch, n - 1);
            Sent(passes, stores, ticks, batch, n) ==
              if ticks[n - 1].Published? then before + Take(passes[n - 1], stores[n - 1], batch).0 else before
  {
    var before := Sent(passes, stores, ticks, batch, n - 1);
    assert before + [] == before;
  }

  /** A tick takes from what is left of its pass, or leaves it as it is. */
  lemma OneMoreTick(pass: seq<Entry>, stored: seq<Entry>, batch: nat, tick: Tick, left: seq<Entry>)
    requires left == if pass == [] then stored else pass
    requires pass != [] || !tick.Idle?
    ensures Take(pass, stored, batch) == Take(left, [], batch)
    ensures NextPass(pass, stored, batch, tick) == if tick.Published? then Take(left, [], batch).1 else left
  {
    var (taken, rest) := Take(left, [], batch);
    assert left == rest + taken;
  }

  /** So once enough ticks have succeeded, and no sooner, every key of the pass has been published exactly once. */
  lemma TicksCoverEveryKeyOnce(passes: seq<seq<Entry>>, stores: seq<seq<Entry>>, ticks: seq<Tick>, batch: nat, n: nat)
    requires Ticks(passes, stores, ticks, batch) && 0 < n <= |ticks| && 0 < batch
    requires passes[0] != [] || !ticks[0].Idle?
    requires forall i :: 0 < i < n ==> passes[i] != []
    ensures var p := Begun(passes, stores);
            && (passes[n] == [] <==> CeilQuotient(|p|, batch) <= Successes(Outcomes(ticks[..n])))
            && (passes[n] == [] ==> multiset(Sent(passes, stores, ticks, batch, n)) == multiset(p))
  {
    TicksFollowThePass(passes, stores, ticks, batch, n);
    hide RunPass, Sent, Ticks;
    PassCoversEveryKeyOnce(Begun(passes, stores), Outcomes(ticks[..n]), batch);
  }
}
