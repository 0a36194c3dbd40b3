/** How many failure reports open the circuit: exactly, over all runs (breaker.rs, `record_failure_at`). */
module CircuitThreshold {
  import opened CircuitBreaker

  // ---------------------------------------------------------------- building runs

  lemma Extend(c: Config, states: seq<System>, events: seq<Event>, e: Event)
    requires Run(c, states, events) && Enabled(states[|events|], e)
    ensures Run(c, states + [Next(c, states[|events|], e)], events + [e])
  {
    var ss, es := states + [Next(c, states[|events|], e)], events + [e];
    forall i | 0 <= i < |es|
      ensures Leads(c, ss[i], es[i], ss[i + 1])
    {
      assert i < |events| ==> Leads(c, states[i], events[i], states[i + 1]);
    }
    hide Next, Leads;
  }

  lemma {:induction false} CountPrefix(events: seq<Event>, more: seq<Event>, outcome: Outcome, m: nat, n: nat)
    requires m <= n <= |events|
    ensures Count(events + more, outcome, m, n) == Count(events, outcome, m, n)
    decreases n - m
  {
    if m < n {
      CountPrefix(events, more, outcome, m, n - 1);
    }
  }

  /** A run on an orderly clock, closed throughout, with this many failure reports and no success. */
  ghost predicate Built(c: Config, states: seq<System>, events: seq<Event>, failed: nat) {
    && Run(c, states, events) && Monotone(states[0].breaker.windowStarted, events)
    && Throughout(states, Closed, 0, |events|)
    && Count(events, Failure, 0, |events|) == failed && Count(events, Success, 0, |events|) == 0
  }

  lemma BuildOn(c: Config, states: seq<System>, events: seq<Event>, failed: nat, e: Event)
    requires Built(c, states, events, failed) && Enabled(states[|events|], e)
    requires states[0].breaker.windowStarted <= e.at && (events != [] ==> events[|events| - 1].at <= e.at)
    requires e.Reports? ==> e.outcome == Failure
    requires Next(c, states[|events|], e).breaker.state.Closed?
    ensures Built(c, states + [Next(c, states[|events|], e)], events + [e], failed + if e.Reports? then 1 else 0)
  {
    Extend(c, states, events, e);
    CountPrefix(events, [e], Failure, 0, |events|);
    CountPrefix(events, [e], Success, 0, |events|);
    hide Run, Next;
  }

  /** A closed circuit with `asked` requests admitted at `at` and none reported. */
  lemma {:induction false} Admit(c: Config, start: nat, at: nat, asked: nat) returns (states: seq<System>, events: seq<Event>)
    requires Loaded(c) && start <= at
    ensures Built(c, states, events, 0) && |events| == asked
    ensures states[0].breaker == New(start) && states[|events|] == System(New(start), asked)
    ensures forall i :: 0 <= i < |events| ==> events[i].at == at
  {
    if asked == 0 {
      states, events := [System(New(start), 0)], [];
      assert Throughout(states, Closed, 0, 0);
    } else {
      states, events := Admit(c, start, at, asked - 1);
      BuildOn(c, states, events, 0, Asks(at));
      states, events := states + [Next(c, states[|events|], Asks(at))], events + [Asks(at)];
      hide Built, Run;
    }
  }

  /** `k` more failures at one instant, too few to open the circuit. */
  lemma {:induction false} Fail(c: Config, states: seq<System>, events: seq<Event>, failed: nat, at: nat, k: nat)
    returns (ss: seq<System>, es: seq<Event>)
    requires Built(c, states, events, failed) && events != [] && k <= states[|events|].outstanding
    requires states[0].breaker.windowStarted <= at && events[|events| - 1].at <= at
    requires var b := states[|events|].breaker;
             if at <= b.windowStarted + c.window then b.failures + k < c.failures else k < c.failures
    ensures Built(c, ss, es, failed + k) && es != [] && es[0] == events[0] && ss[0] == states[0]
    ensures es[|es| - 1].at == if k == 0 then events[|events| - 1].at else at
    ensures forall i :: 0 <= i < |es| ==> if i < |events| then es[i] == events[i] else es[i].at == at
    ensures |events| <= |es|
    ensures ss[|es|].outstanding == states[|events|].outstanding - k
    ensures var b := states[|events|].breaker;
            ss[|es|].breaker ==
              if k == 0 then b
              else if at <= b.windowStarted + c.window then b.(failures := b.failures + k)
              else b.(windowStarted := at, failures := k)
  {
    if k == 0 {
      ss, es := states, events;
    } else {
      ss, es := Fail(c, states, events, failed, at, k - 1);
      assert states[|events|].breaker.state == Closed && Loaded(c);
      assert ss[|es|].breaker.state == Closed;
      BuildOn(c, ss, es, failed + k - 1, Reports(Failure, at));
      hide Built;
      ss, es := ss + [Next(c, ss[|es|], Reports(Failure, at))], es + [Reports(Failure, at)];
    }
  }

  // ---------------------------------------------------------------- the threshold

  ghost predicate OpensBetween(states: seq<System>, m: nat, n: nat) {
    exists i :: m < i <= n && i < |states| && states[i].breaker.state.Open?
  }

  /** From `m` to `n` a circuit closed at `m` saw `many` failure reports or more, any two within `window`, and no success. */
  ghost predicate Burst(c: Config, states: seq<System>, events: seq<Event>, m: nat, n: nat, many: nat) {
    && m < n <= |events| && |states| == |events| + 1
    && states[m].breaker.state.Closed?
    && Together(c, events, m, n)
    && Count(events, Success, m, n) == 0 && many <= Count(events, Failure, m, n)
  }

  /** In every run, that many failure reports within `window` with no success between open a closed circuit. */
  ghost predicate Forces(c: Config, many: nat) {
    forall states, events, m, n :: Run(c, states, events) && Burst(c, states, events, m, n, many) ==> OpensBetween(states, m, n)
  }

  function Threshold(c: Config): int {
    if c.window == 0 then c.failures else 2 * c.failures - 1
  }

  /** Within one instant the window starts afresh before the first failure counted or not at all. */
  lemma {:induction false} CountAtOneInstant(c: Config, states: seq<System>, events: seq<Event>, m: nat, n: nat)
    requires Run(c, states, events) && m <= n <= |events| && c.window == 0
    requires Throughout(states, Closed, m, n) && Count(events, Success, m, n) == 0 && Together(c, events, m, n)
    ensures Count(events, Failure, m, n) <= states[n].breaker.failures
    ensures forall i :: m <= i < n && IsFailure(events[i]) ==> events[i].at <= states[n].breaker.windowStarted
    ensures 0 < Count(events, Failure, m, n) ==> exists i :: m <= i < n && IsFailure(events[i])
    decreases n - m
  {
    if m < n {
      CountAtOneInstant(c, states, events, m, n - 1);
      RunKeepsInv(c, states, events, n - 1);
      assert Leads(c, states[n - 1], events[n - 1], states[n]);
      assert states[n - 1].breaker.state == Closed && states[n].breaker.state == Closed;
      hide Run;
      if IsFailure(events[n - 1]) && 0 < Count(events, Failure, m, n - 1) {
        var i :| m <= i < n - 1 && IsFailure(events[i]);
        assert events[n - 1].at <= events[i].at;
      }
    }
  }

  lemma EnoughForces(c: Config, many: nat)
    requires Loaded(c) && Threshold(c) <= many
    ensures Forces(c, many)
  {
    forall states, events, m: nat, n: nat | Run(c, states, events) && Burst(c, states, events, m, n, many)
      ensures OpensBetween(states, m, n)
    {
      if !Throughout(states, Closed, m, n) {
        var i := FirstNotClosed(c, states, events, m, n);
      } else if c.window == 0 {
        CountAtOneInstant(c, states, events, m, n);
        RunKeepsInv(c, states, events, n);
      } else {
        var i := BurstOpens(c, states, events, m, n);
      }
    }
  }

  /**
   Fewer may not: `failures` less one reports at the last instant of a window, and as many more just after
   it, leave the circuit closed in a run that begins with the requests they report on and whose clock
   readings arrive in order.
   */
  lemma FewerMayNotOpen(c: Config) returns (states: seq<System>, events: seq<Event>)
    requires Loaded(c)
    ensures Run(c, states, events) && Monotone(states[0].breaker.windowStarted, events)
    ensures Burst(c, states, events, 0, |events|, Threshold(c) - 1)
    ensures Throughout(states, Closed, 0, |events|)
  {
    var k := c.failures - 1;
    states, events := Admit(c, 0, c.window, 2 * k + 1);
    states, events := Fail(c, states, events, 0, c.window, k);
    if c.window != 0 {
      states, events := Fail(c, states, events, k, c.window + 1, k);
    }
  }

  /**
   The number of failure reports within `window`, with no success between, that is sure to open a closed
   circuit is `2 * failures - 1`, and no smaller; only for an empty window is it `failures`.
   */
  lemma ThresholdIsExact(c: Config, many: nat)
    requires Loaded(c)
    ensures Forces(c, many) <==> Threshold(c) <= many
  {
    if Threshold(c) <= many {
      EnoughForces(c, many);
    } else {
      var states, events := FewerMayNotOpen(c);
      assert Burst(c, states, events, 0, |events|, many);
      assert !OpensBetween(states, 0, |events|);
    }
  }

  /** So `failures` within `window` opens the circuit in every run only where one failure does, or the window is empty. */
  lemma FailuresWithinWindowOpenIff(c: Config)
    requires Loaded(c)
    ensures Forces(c, c.failures) <==> c.failures == 1 || c.window == 0
  {
    ThresholdIsExact(c, c.failures);
  }
}
