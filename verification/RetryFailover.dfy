/** Retrying a failed upstream attempt (retry.rs) and failing over between resolved addresses (proxy.rs). */
module RetryFailover {
  import opened Arithmetic
  import opened Prelude
  import opened Text

  type Addr = nat

  datatype Failure = Connect | Transport

  datatype Policy = Policy(attempts: nat, onConnect: bool, onTransport: bool, nonIdempotent: bool)

  const IDEMPOTENT: seq<string> := ["GET", "HEAD", "OPTIONS", "TRACE", "PUT", "DELETE"]

  predicate IsIdempotent(method_: string) {
    exists i :: 0 <= i < |IDEMPOTENT| && LowerAscii(IDEMPOTENT[i]) == LowerAscii(method_)
  }

  predicate ShouldRetry(p: Policy, failure: Failure, made: nat, method_: string, replayable: bool) {
    && made < p.attempts && replayable
    && match failure
       case Connect => p.onConnect
       case Transport => p.onTransport && (p.nonIdempotent || IsIdempotent(method_))
  }

  /** The proxy library's mark on an error: retry if the connection was a reused one, or decided. */
  datatype Retry = ReusedOnly | Decided(yes: bool)

  function DecideReuse(r: Retry, reused: bool): Retry {
    if r.ReusedOnly? then Decided(reused) else r
  }

  // ---------------------------------------------------------------- one request

  datatype Ctx = Ctx(
    method_: string, policy: Option<Policy>,
    dnsStart: Option<nat>, dnsCandidates: nat, dnsFailovers: nat, dnsAttempts: nat, attempts: nat)

  /** Which of `n` addresses the `attempt`th dial takes. */
  function Dialled(start: nat, attempt: nat, n: nat): nat
    requires 0 < n
  {
    (start + attempt) % (USIZE_MAX + 1) % n
  }

  /** Choose where to dial; `next` is what the shared rotation counter would give a new request. */
  function Peer(c: Ctx, addrs: seq<Addr>, next: nat): (Ctx, Option<Addr>) {
    var start := if c.dnsStart.Some? then c.dnsStart.value else next;
    var d := c.(dnsStart := Some(start), dnsCandidates := |addrs|);
    (d, if addrs == [] then None else Some(addrs[Dialled(start, c.dnsAttempts, |addrs|)]))
  }

  predicate FailsOver(c: Ctx, replayable: bool) {
    replayable && SatAdd(c.dnsFailovers, 1) < c.dnsCandidates
  }

  predicate PolicyRetries(c: Ctx, failure: Failure, replayable: bool) {
    c.policy.Some? && ShouldRetry(c.policy.value, failure, c.attempts, c.method_, replayable)
  }

  function FailToConnect(c: Ctx, replayable: bool, e: Retry): (Ctx, Retry) {
    if FailsOver(c, replayable) then
      (c.(dnsFailovers := SatAdd(c.dnsFailovers, 1), dnsAttempts := Increment(c.dnsAttempts)), Decided(true))
    else if PolicyRetries(c, Connect, replayable) then
      (c.(attempts := Increment(c.attempts), dnsAttempts := Increment(c.dnsAttempts)), Decided(true))
    else (c, e)
  }

  function ErrorWhileProxy(c: Ctx, clientReused: bool, replayable: bool, e: Retry): (Ctx, Retry) {
    var decided := DecideReuse(e, clientReused && replayable);
    if c.policy.None? || !decided.yes then (c, decided)
    else if PolicyRetries(c, Transport, replayable) then (c.(attempts := Increment(c.attempts)), decided)
    else (c, Decided(false))
  }

  class Request {
    const method_: string
    const policy: Option<Policy>
    var dnsStart: Option<nat>
    var dnsCandidates: nat
    var dnsFailovers: nat
    var dnsAttempts: nat
    var attempts: nat

    constructor (method_: string, policy: Option<Policy>)
      ensures View() == Ctx(method_, policy, None, 0, 0, 0, 0)
    {
      this.method_, this.policy := method_, policy;
      dnsStart, dnsCandidates, dnsFailovers, dnsAttempts, attempts := None, 0, 0, 0, 0;
    }

    ghost function View(): Ctx
      reads this
    {
      Ctx(method_, policy, dnsStart, dnsCandidates, dnsFailovers, dnsAttempts, attempts)
    }

    method UpstreamPeer(addrs: seq<Addr>, next: nat) returns (addr: Option<Addr>)
      modifies this
      ensures (View(), addr) == Peer(old(View()), addrs, next)
    {
      if dnsStart.None? {
        dnsStart := Some(next);
      }
      dnsCandidates := |addrs|;
      if addrs == [] {
        return None;
      }
      addr := Some(addrs[Dialled(dnsStart.value, dnsAttempts, |addrs|)]);
    }

    method ConnectFailed(replayable: bool, e: Retry) returns (r: Retry)
      modifies this
      ensures (View(), r) == FailToConnect(old(View()), replayable, e)
    {
      if replayable && SatAdd(dnsFailovers, 1) < dnsCandidates {
        dnsFailovers := SatAdd(dnsFailovers, 1);
        dnsAttempts := Increment(dnsAttempts);
        return Decided(true);
      }
      if policy.None? {
        return e;
      }
      if ShouldRetry(policy.value, Connect, attempts, method_, replayable) {
        attempts := Increment(attempts);
        dnsAttempts := Increment(dnsAttempts);
        return Decided(true);
      }
      r := e;
    }

    method ProxyFailed(clientReused: bool, replayable: bool, e: Retry) returns (r: Retry)
      modifies this
      ensures (View(), r) == ErrorWhileProxy(old(View()), clientReused, replayable, e)
    {
      r := DecideReuse(e, clientReused && replayable);
      if policy.None? || !r.yes {
        return;
      }
      if ShouldRetry(policy.value, Transport, attempts, method_, replayable) {
        attempts := Increment(attempts);
      } else {
        r := Decided(false);
      }
    }
  }

  // ---------------------------------------------------------------- what a failure leads to

  /**
   On a route with a policy, an attempt that broke on an established connection is made again only if
   the library would, the policy covers it, a retry is left, the body can be sent again, and repeating
   the method is safe or the route says so.
   */
  lemma TransportRetriesAreSafe(c: Ctx, clientReused: bool, replayable: bool, e: Retry)
    requires c.policy.Some?
    ensures var p := c.policy.value;
            ErrorWhileProxy(c, clientReused, replayable, e).1 == Decided(true) <==>
              && (e == Decided(true) || (e.ReusedOnly? && clientReused))
              && p.onTransport && c.attempts < p.attempts && replayable
              && (p.nonIdempotent || LowerAscii(c.method_) in {"get", "head", "options", "trace", "put", "delete"})
    ensures ErrorWhileProxy(c, clientReused, replayable, e).0.dnsAttempts == c.dnsAttempts
  {
    IdempotentIs(c.method_);
    hide IsIdempotent;
  }

  /** The methods that are safe to repeat (section 9.2.2 of RFC 9110), in any case of their letters. */
  lemma IdempotentIs(method_: string)
    ensures IsIdempotent(method_) <==> LowerAscii(method_) in {"get", "head", "options", "trace", "put", "delete"}
  {
    assert LowerAscii("GET") == "get" && LowerAscii("HEAD") == "head" && LowerAscii("OPTIONS") == "options";
    assert LowerAscii("TRACE") == "trace" && LowerAscii("PUT") == "put" && LowerAscii("DELETE") == "delete";
    assert IDEMPOTENT[0] == "GET" && IDEMPOTENT[1] == "HEAD" && IDEMPOTENT[2] == "OPTIONS";
    assert IDEMPOTENT[3] == "TRACE" && IDEMPOTENT[4] == "PUT" && IDEMPOTENT[5] == "DELETE";
  }

  /**
   A failure to connect is tried again while the body can be sent again and the answer has an address not
   dialled yet; then as the policy allows for connecting, whatever the method; and where the error says so.
   A failover does not count against the policy, and either way the next dial moves on.
   */
  lemma ConnectRetriesIff(c: Ctx, replayable: bool, e: Retry)
    requires c.dnsCandidates <= USIZE_MAX
    ensures var (d, r) := FailToConnect(c, replayable, e);
            var failsOver := replayable && c.dnsFailovers + 1 < c.dnsCandidates;
            var allowed := c.policy.Some? && c.policy.value.onConnect && c.attempts < c.policy.value.attempts && replayable;
            && (r == Decided(true) <==> failsOver || allowed || e == Decided(true))
            && (if failsOver then d.dnsFailovers == c.dnsFailovers + 1 && d.attempts == c.attempts
                else if allowed then d.dnsFailovers == c.dnsFailovers && d.attempts == Min(c.attempts + 1, U32_MAX)
                else d == c && r == e)
            && (failsOver || allowed ==> d.dnsAttempts == Min(c.dnsAttempts + 1, U32_MAX))
  {
  }

  // ---------------------------------------------------------------- runs

  datatype Failed = ToConnect(replayable: bool, e: Retry) | Broken(clientReused: bool, replayable: bool, e: Retry)

  /** One attempt: the addresses resolved for it and how it failed. */
  datatype Attempt = Attempt(addrs: seq<Addr>, failed: Failed)

  /** The request after an attempt, and whether another is made. */
  function After(c: Ctx, a: Attempt, next: nat): (Ctx, bool) {
    var d := Peer(c, a.addrs, next).0;
    var (t, r) := match a.failed
      case ToConnect(replayable, e) => FailToConnect(d, replayable, e)
      case Broken(clientReused, replayable, e) => ErrorWhileProxy(d, clientReused, replayable, e);
    (t, r == Decided(true))
  }

  /** The state of a request after its first `n` attempts. */
  function Reached(c: Ctx, tried: seq<Attempt>, next: nat, n: nat): Ctx
    requires n <= |tried|
  {
    if n == 0 then c else After(Reached(c, tried, next, n - 1), tried[n - 1], next).0
  }

  ghost predicate Fresh(c: Ctx) {
    c.dnsStart.None? && c.dnsCandidates == 0 && c.dnsFailovers == 0 && c.dnsAttempts == 0 && c.attempts == 0
  }

  /** These attempts follow one another: each before the last was answered with a retry. */
  ghost predicate Follows(c: Ctx, tried: seq<Attempt>, next: nat) {
    && (forall i :: 0 <= i < |tried| ==> tried[i].addrs != [])
    && (forall i :: 0 <= i < |tried| - 1 ==> After(Reached(c, tried, next, i), tried[i], next).1)
  }

  /** A connect error is not marked for retry before the gateway looks at it. */
  ghost predicate ConnectErrorsUnmarked(tried: seq<Attempt>) {
    forall i :: 0 <= i < |tried| && tried[i].failed.ToConnect? ==> tried[i].failed.e != Decided(true)
  }

  ghost predicate AnswersWithin(tried: seq<Attempt>, most: nat) {
    forall i :: 0 <= i < |tried| ==> |tried[i].addrs| <= most
  }

  /** A retry uses up a failover or one of the policy's attempts, and leaves everything else as it was. */
  lemma RetryUsesOneUp(c: Ctx, a: Attempt, next: nat)
    requires c.policy.Some? && c.policy.value.attempts <= U32_MAX && 0 < |a.addrs| <= USIZE_MAX
    requires After(c, a, next).1 && (a.failed.ToConnect? ==> a.failed.e != Decided(true))
    ensures var d := After(c, a, next).0;
            && d.policy == c.policy && d.method_ == c.method_
            && ((d.dnsFailovers == c.dnsFailovers + 1 <= |a.addrs| - 1 && d.attempts == c.attempts)
                || (d.dnsFailovers == c.dnsFailovers && d.attempts == c.attempts + 1 <= c.policy.value.attempts))
  {
    hide Dialled, IsIdempotent;
  }

  /** Every retry so far used up a failover or one of the policy's attempts. */
  lemma {:induction false} RetriesAreCounted(c: Ctx, tried: seq<Attempt>, next: nat, n: nat, most: nat)
    requires Fresh(c) && c.policy.Some? && c.policy.value.attempts <= U32_MAX
    requires Follows(c, tried, next) && ConnectErrorsUnmarked(tried) && AnswersWithin(tried, most) && 0 < most <= USIZE_MAX
    requires n < |tried|
    ensures var r := Reached(c, tried, next, n);
            && r.policy == c.policy && r.method_ == c.method_
            && r.dnsFailovers <= most - 1 && r.attempts <= c.policy.value.attempts
            && r.dnsFailovers + r.attempts == n
  {
    hide Reached, After, Follows, ConnectErrorsUnmarked, AnswersWithin;
    if n == 0 {
      ReachedNone(c, tried, next);
    } else {
      AttemptAt(c, tried, next, n - 1, most);
      ReachedNext(c, tried, next, n);
      RetriesAreCounted(c, tried, next, n - 1, most);
      RetryUsesOneUp(Reached(c, tried, next, n - 1), tried[n - 1], next);
    }
  }

  /**
   A request on a route with a policy is attempted at most once for each address of its largest DNS
   answer and once more for each retry the policy allows, however connect and transport failures mix.
   */
  lemma RetriesAreBounded(c: Ctx, tried: seq<Attempt>, next: nat, most: nat)
    requires Fresh(c) && c.policy.Some? && c.policy.value.attempts <= U32_MAX
    requires Follows(c, tried, next) && ConnectErrorsUnmarked(tried) && AnswersWithin(tried, most) && 0 < most <= USIZE_MAX
    ensures |tried| <= most + c.policy.value.attempts
  {
    if tried != [] {
      RetriesAreCounted(c, tried, next, |tried| - 1, most);
    }
  }

  // ---------------------------------------------------------------- without a policy

  /** An attempt the library itself sends again: it broke on a connection that had been used before, or was marked. */
  predicate LibraryRetries(f: Failed) {
    f.Broken? && DecideReuse(f.e, f.clientReused && f.replayable) == Decided(true)
  }

  /** How many of the first `n` attempts broke on an established connection. */
  ghost function BrokenIn(tried: seq<Attempt>, n: nat): nat
    requires n <= |tried|
  {
    if n == 0 then 0 else BrokenIn(tried, n - 1) + if tried[n - 1].failed.Broken? then 1 else 0
  }

  ghost predicate BreaksAreTheLibrarys(tried: seq<Attempt>, n: nat) {
    forall i :: 0 <= i < n && i < |tried| && tried[i].failed.Broken? ==> LibraryRetries(tried[i].failed)
  }

  lemma RetryWithoutPolicy(c: Ctx, a: Attempt, next: nat)
    requires c.policy.None? && 0 < |a.addrs| <= USIZE_MAX
    requires After(c, a, next).1 && (a.failed.ToConnect? ==> a.failed.e != Decided(true))
    ensures var d := After(c, a, next).0;
            && d.policy.None? && d.attempts == c.attempts
            && if a.failed.ToConnect? then d.dnsFailovers == c.dnsFailovers + 1 <= |a.addrs| - 1 && d.dnsAttempts == Increment(c.dnsAttempts)
               else LibraryRetries(a.failed) && d.dnsFailovers == c.dnsFailovers && d.dnsAttempts == c.dnsAttempts
  {
    hide Dialled;
  }

  /**
   On a route without a policy a connect failure is retried only to fail over, so at most once for each
   further address; a broken connection is retried only where the library would, and moves no counter;
   the policy's count of attempts never moves.
   */
  lemma {:induction false} WithoutPolicyOnlyFailovers(c: Ctx, tried: seq<Attempt>, next: nat, n: nat, most: nat)
    requires Fresh(c) && c.policy.None?
    requires Follows(c, tried, next) && ConnectErrorsUnmarked(tried) && AnswersWithin(tried, most) && 0 < most <= USIZE_MAX
    requires n < |tried|
    ensures var r := Reached(c, tried, next, n);
            && r.policy.None? && r.attempts == 0
            && r.dnsFailovers <= most - 1 && r.dnsFailovers + BrokenIn(tried, n) == n
            && r.dnsAttempts == Min(r.dnsFailovers, U32_MAX)
    ensures BreaksAreTheLibrarys(tried, n)
  {
    hide Reached, After, LibraryRetries, Follows, ConnectErrorsUnmarked, AnswersWithin;
    if n == 0 {
      ReachedNone(c, tried, next);
    } else {
      AttemptAt(c, tried, next, n - 1, most);
      ReachedNext(c, tried, next, n);
      WithoutPolicyOnlyFailovers(c, tried, next, n - 1, most);
      RetryWithoutPolicy(Reached(c, tried, next, n - 1), tried[n - 1], next);
    }
  }

  lemma ReachedNone(c: Ctx, tried: seq<Attempt>, next: nat)
    ensures Reached(c, tried, next, 0) == c
  {
  }

  lemma ReachedNext(c: Ctx, tried: seq<Attempt>, next: nat, n: nat)
    requires 0 < n <= |tried|
    ensures Reached(c, tried, next, n) == After(Reached(c, tried, next, n - 1), tried[n - 1], next).0
  {
    hide After;
  }

  lemma AttemptAt(c: Ctx, tried: seq<Attempt>, next: nat, i: nat, most: nat)
    requires Follows(c, tried, next) && ConnectErrorsUnmarked(tried) && AnswersWithin(tried, most) && i + 1 < |tried|
    ensures After(Reached(c, tried, next, i), tried[i], next).1
    ensures 0 < |tried[i].addrs| <= most && (tried[i].failed.ToConnect? ==> tried[i].failed.e != Decided(true))
  {
    hide After, Reached;
  }

  /** So where the library retries nothing, such a request is attempted at most once for each address. */
  lemma WithoutPolicyBounded(c: Ctx, tried: seq<Attempt>, next: nat, most: nat)
    requires Fresh(c) && c.policy.None?
    requires Follows(c, tried, next) && ConnectErrorsUnmarked(tried) && AnswersWithin(tried, most) && 0 < most <= USIZE_MAX
    ensures |tried| <= most + if tried == [] then 0 else BrokenIn(tried, |tried| - 1)
    ensures LibraryRetriesNone(tried) ==> |tried| <= most
  {
    hide *;
    if tried != [] {
      WithoutPolicyOnlyFailovers(c, tried, next, |tried| - 1, most);
      if LibraryRetriesNone(tried) {
        NoneBroken(tried, |tried| - 1);
      }
    }
  }

  ghost predicate LibraryRetriesNone(tried: seq<Attempt>) {
    forall i :: 0 <= i < |tried| ==> !LibraryRetries(tried[i].failed)
  }

  lemma {:induction false} NoneBroken(tried: seq<Attempt>, n: nat)
    requires n <= |tried| && BreaksAreTheLibrarys(tried, n) && LibraryRetriesNone(tried)
    ensures BrokenIn(tried, n) == 0
  {
    if n != 0 {
      NoneBroken(tried, n - 1);
    }
  }

  // ---------------------------------------------------------------- failing over

  /** The same answer every time, and every attempt so far failed to connect before any of the body was lost. */
  ghost predicate OnlyConnectFailures(tried: seq<Attempt>, addrs: seq<Addr>) {
    forall i :: 0 <= i < |tried| ==> tried[i].addrs == addrs && tried[i].failed.ToConnect? && tried[i].failed.replayable
  }

  lemma {:induction false} FailoverCounts(c: Ctx, tried: seq<Attempt>, next: nat, addrs: seq<Addr>, n: nat)
    requires Fresh(c) && OnlyConnectFailures(tried, addrs) && n <= |tried| && n < |addrs| <= USIZE_MAX
    ensures var r := Reached(c, tried, next, n);
            && r.dnsFailovers == n && r.dnsAttempts == Min(n, U32_MAX) && r.attempts == 0
            && (0 < n ==> r.dnsStart == Some(next))
            && (r.dnsStart.Some? ==> r.dnsStart == Some(next))
    ensures 0 < n ==> After(Reached(c, tried, next, n - 1), tried[n - 1], next).1
  {
    if n != 0 {
      FailoverCounts(c, tried, next, addrs, n - 1);
    }
  }

  /** With or without a policy, connecting is tried once for every address of the answer, in rotation. */
  lemma EveryAddressIsTried(c: Ctx, tried: seq<Attempt>, next: nat, addrs: seq<Addr>, k: nat)
    requires Fresh(c) && OnlyConnectFailures(tried, addrs) && k < |tried| && k < |addrs| <= USIZE_MAX
    ensures Peer(Reached(c, tried, next, k), addrs, next).1 == Some(addrs[Dialled(next, Min(k, U32_MAX), |addrs|)])
    ensures k + 1 < |addrs| ==> After(Reached(c, tried, next, k), tried[k], next).1
  {
    FailoverCounts(c, tried, next, addrs, k);
    if k + 1 < |addrs| {
      FailoverCounts(c, tried, next, addrs, k + 1);
    }
  }

  /** What the `k`th of a run of connect attempts dials. */
  function Rotation(start: nat, k: nat, n: nat): nat
    requires 0 < n
  {
    Dialled(start, Min(k, U32_MAX), n)
  }

  ghost predicate AllDistinct(start: nat, n: nat)
    requires 0 < n
  {
    forall i, j :: 0 <= i < j < n ==> Rotation(start, i, n) != Rotation(start, j, n)
  }

  const WRAP: nat := USIZE_MAX + 1

  lemma BeforeWrap(start: nat, k: nat, n: nat)
    requires 0 < n && k <= U32_MAX && start + k < WRAP
    ensures Rotation(start, k, n) == (start + k) % n
  {
  }

  lemma AfterWrap(start: nat, k: nat, n: nat)
    requires 0 < n && k <= U32_MAX && start < WRAP <= start + k
    ensures Rotation(start, k, n) == (start + k - WRAP) % n
  {
  }

  /** The rotation never meets an address twice in a full turn if the counter does not wrap, or wraps evenly. */
  lemma RotationIsDistinct(start: nat, n: nat)
    requires 0 < n <= U32_MAX + 1 && start < WRAP
    requires start + n <= WRAP || WRAP % n == 0
    ensures AllDistinct(start, n)
  {
    forall i: nat, j: nat | i < j < n
      ensures Rotation(start, i, n) != Rotation(start, j, n)
    {
      if Rotation(start, i, n) == Rotation(start, j, n) {
        PlainRotation(start, i, n);
        PlainRotation(start, j, n);
        SameRemainder(start + i, start + j, n);
      }
    }
  }

  lemma PlainRotation(start: nat, k: nat, n: nat)
    requires k < n <= U32_MAX + 1 && start < WRAP
    requires start + n <= WRAP || WRAP % n == 0
    ensures Rotation(start, k, n) == (start + k) % n
  {
    if start + k < WRAP {
      BeforeWrap(start, k, n);
    } else {
      AfterWrap(start, k, n);
      WholeTurns(start + k, WRAP, n);
    }
  }

  /** A wrap inside the turn that is not even sends two attempts to the same address. */
  lemma UnevenWrapRepeats(start: nat, n: nat) returns (i: nat, j: nat)
    requires 0 < n <= U32_MAX + 1 && start < WRAP
    requires WRAP < start + n && WRAP % n != 0
    ensures i < j < n && Rotation(start, i, n) == Rotation(start, j, n)
  {
    var last := WRAP - 1 - start;
    var e := (WRAP - 1) % n;
    if e == n - 1 {
      FullTurnNext(WRAP - 1, n);
    }
    var a := if e <= last then 0 else e - last;
    i, j := last - (e - a), last + 1 + a;
    StepBack(WRAP - 1, e - a, n);
    BeforeWrap(start, i, n);
    AfterWrap(start, j, n);
    assert start + i == WRAP - 1 - (e - a) && start + j - WRAP == a;
    RemainderIs(a, 0, a, n);
  }

  /**
   The first `n` connect attempts dial `n` different places in the answer exactly when the attempt
   counter can count them and the rotation does not wrap unevenly within them.
   */
  lemma FirstTurnIsDistinctIff(start: nat, n: nat)
    requires 0 < n && start < WRAP
    ensures AllDistinct(start, n) <==> n <= U32_MAX + 1 && (start + n <= WRAP || WRAP % n == 0)
  {
    if n > U32_MAX + 1 {
      assert Rotation(start, U32_MAX, n) == Rotation(start, U32_MAX + 1, n);
    } else if start + n <= WRAP || WRAP % n == 0 {
      RotationIsDistinct(start, n);
    } else {
      var i, j := UnevenWrapRepeats(start, n);
    }
  }
}
