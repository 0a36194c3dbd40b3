/**
 The quota arithmetic that every limiter shares (ratelimit/mod.rs, `decide`).

 Times are nanoseconds.  The fraction of the current window that has passed is kept as the exact
 pair `elapsed / interval` where the program divides two floats.
 */
module RateLimit {
  import opened Prelude
  import opened Arithmetic

  const NANOS_PER_SEC: nat := 1_000_000_000
  /** The longest representable duration, which a saturating multiplication stops at. */
  const DURATION_MAX: nat := 0x1_0000_0000_0000_0000 * NANOS_PER_SEC - 1

  datatype Decision = Decision(allowed: bool, limit: nat, remaining: nat, retryAfterSecs: nat)

  /** `interval` times the sliding estimate: the previous window weighted by the part still in view. */
  function Estimate(previous: nat, current: nat, elapsed: nat, interval: nat): nat
    requires elapsed <= interval
  {
    Scale(previous, interval - elapsed) + Scale(current, interval)
  }

  function Decide(previous: nat, current: nat, elapsed: nat, limit: nat, interval: nat): Decision
    requires elapsed <= interval && 0 < interval
  {
    var estimate := Estimate(previous, current, elapsed, interval);
    var quota := Scale(limit, interval);
    if estimate >= quota then
      Decision(false, limit, 0, Max(CeilQuotient(interval - elapsed, NANOS_PER_SEC), 1))
    else
      Decision(true, limit, Quotient(SatSub(quota - estimate, interval), interval), 0)
  }

  /**
   The whole answer in plain arithmetic.  Admission is the weighted count falling short of the limit.  A
   refusal names the least whole number of seconds, at least one, that covers the rest of the window.  An
   admission names the most further requests for which the count, this request included, stays within
   the limit.
   */
  lemma DecideIs(previous: nat, current: nat, elapsed: nat, limit: nat, interval: nat, n: nat)
    requires elapsed <= interval && 0 < interval
    ensures var d := Decide(previous, current, elapsed, limit, interval);
            var used := previous * (interval - elapsed) + current * interval;
            && d.limit == limit
            && (d.allowed <==> used < limit * interval)
            && (!d.allowed ==>
                  && d.remaining == 0
                  && 1 <= d.retryAfterSecs && interval - elapsed <= d.retryAfterSecs * 1_000_000_000
                  && (1 <= n && interval - elapsed <= n * 1_000_000_000 ==> d.retryAfterSecs <= n))
            && (d.allowed ==>
                  && d.retryAfterSecs == 0
                  && (d.remaining == 0 || used + (d.remaining + 1) * interval <= limit * interval)
                  && (used + (n + 1) * interval <= limit * interval ==> n <= d.remaining))
  {
    ScaleIsProduct(previous, interval - elapsed);
    ScaleIsProduct(current, interval);
    ScaleIsProduct(limit, interval);
    var d := Decide(previous, current, elapsed, limit, interval);
    if d.allowed {
      RemainderIsGreatest(Scale(limit, interval) - Estimate(previous, current, elapsed, interval), interval, n);
    } else {
      WaitIsLeast(interval - elapsed, n);
    }
  }

  lemma RemainderIsGreatest(room: nat, interval: nat, n: nat)
    requires 0 < interval
    ensures var r := Quotient(SatSub(room, interval), interval);
            && (r == 0 || (r + 1) * interval <= room)
            && ((n + 1) * interval <= room ==> n <= r)
  {
    var r := Quotient(SatSub(room, interval), interval);
    QuotientBounds(SatSub(room, interval), interval);
    ScaleIsProduct(r + 1, interval);
    ScaleIsProduct(n + 1, interval);
    if r < n {
      ScaleMonotone(r + 1, n, interval);
    }
  }

  lemma WaitIsLeast(rest: nat, n: nat)
    ensures var wait := Max(CeilQuotient(rest, NANOS_PER_SEC), 1);
            && rest <= wait * 1_000_000_000
            && (1 <= n && rest <= n * 1_000_000_000 ==> wait <= n)
  {
    var wait := Max(CeilQuotient(rest, NANOS_PER_SEC), 1);
    CeilQuotientIsCeiling(rest, NANOS_PER_SEC, wait);
    CeilQuotientIsCeiling(rest, NANOS_PER_SEC, n);
    ScaleIsProduct(wait, NANOS_PER_SEC);
    ScaleIsProduct(n, NANOS_PER_SEC);
  }

  /** Fewer requests counted can only turn a refusal into an admission, never the reverse. */
  lemma DecideMonotone(p0: nat, c0: nat, p1: nat, c1: nat, elapsed: nat, limit: nat, interval: nat)
    requires elapsed <= interval && 0 < interval
    requires p0 <= p1 && c0 <= c1
    ensures Decide(p1, c1, elapsed, limit, interval).allowed ==> Decide(p0, c0, elapsed, limit, interval).allowed
  {
    ScaleMonotone(p0, p1, interval - elapsed);
    ScaleMonotone(c0, c1, interval);
  }

  /**
   The `remaining` told to the client is kept: that many further requests at the same instant are all
   admitted, and at most one beyond them is.
   */
  lemma RemainingIsKept(previous: nat, current: nat, elapsed: nat, limit: nat, interval: nat, n: nat)
    requires elapsed <= interval && 0 < interval
    requires Decide(previous, current, elapsed, limit, interval).allowed
    ensures var r := Decide(previous, current, elapsed, limit, interval).remaining;
            && (n <= r ==> Decide(previous, current + n, elapsed, limit, interval).allowed)
            && (n >= r + 2 ==> !Decide(previous, current + n, elapsed, limit, interval).allowed)
  {
    var r := Decide(previous, current, elapsed, limit, interval).remaining;
    QuotientBounds(SatSub(Scale(limit, interval) - Estimate(previous, current, elapsed, interval), interval), interval);
    ScaleSum(current, n, interval);
    if n <= r {
      ScaleMonotone(n, r, interval);
    } else if n >= r + 2 {
      ScaleMonotone(r + 2, n, interval);
    }
  }

  /**
   What one admission proves: the window holds fewer than `limit`, and with this request the two
   windows together exceed the limit by at most the part of the previous one that has aged out.
   */
  lemma AdmissionBounds(previous: nat, current: nat, elapsed: nat, limit: nat, interval: nat)
    requires elapsed <= interval && 0 < interval
    requires Decide(previous, current, elapsed, limit, interval).allowed
    ensures current < limit
    ensures previous + current + 1 <= limit + CeilQuotient(Scale(previous, elapsed), interval)
  {
    ScaleStrict(current, limit, interval);
    var aged := CeilQuotient(Scale(previous, elapsed), interval);
    CeilQuotientBounds(Scale(previous, elapsed), interval);
    ScaleSplit(previous, interval - elapsed, elapsed);
    ScaleSum(previous, current, interval);
    ScaleSum(limit, aged, interval);
    ScaleStrict(previous + current, limit + aged, interval);
  }
}
