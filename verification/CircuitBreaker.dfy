/** The circuit breaker (breaker.rs) and the requests that drive it (proxy.rs). */
module CircuitBreaker {
  import opened Prelude

  datatype State = Closed | Open | HalfOpen

  /** Instants and durations are nanoseconds from a common origin. */
  datatype Config = Config(failures: nat, window: nat, cooldown: nat, successesToClose: nat, maxTrials: nat)

  /** What the configuration loader checks, and the width of the counters. */
  ghost predicate Loaded(c: Config) {
    0 < c.failures <= U32_MAX && 0 < c.successesToClose <= U32_MAX && 0 < c.maxTrials <= U32_MAX
  }

  datatype Inner = Inner(
    state: State, failures: nat, windowStarted: nat, openedAt: nat, trialSuccesses: nat, trialsInFlight: nat)

  function New(now: nat): Inner {
    Inner(Closed, 0, now, now, 0, 0)
  }

  // ---------------------------------------------------------------- what each call does

  function Allow(c: Config, b: Inner, now: nat): (Inner, bool) {
    match b.state
    case Closed => (b, true)
    case Open =>
      if SatSub(now, b.openedAt) < c.cooldown then (b, false)
      else (b.(state := HalfOpen, trialSuccesses := 0, trialsInFlight := 1), true)
    case HalfOpen =>
      if b.trialsInFlight >= c.maxTrials then (b, false) else (b.(trialsInFlight := Increment(b.trialsInFlight)), true)
  }

  function Succeeded(c: Config, b: Inner): Inner {
    match b.state
    case Closed => b.(failures := 0)
    case Open => b
    case HalfOpen =>
      var successes := Increment(b.trialSuccesses);
      if successes >= c.successesToClose then b.(state := Closed, failures := 0, trialSuccesses := 0, trialsInFlight := 0)
      else b.(trialSuccesses := successes, trialsInFlight := SatSub(b.trialsInFlight, 1))
  }

  function Failed(c: Config, b: Inner, now: nat): Inner {
    match b.state
    case Closed =>
      var expired := SatSub(now, b.windowStarted) > c.window;
      var failures := Increment(if expired then 0 else b.failures);
      var counted := b.(windowStarted := if expired then now else b.windowStarted, failures := failures);
      if failures >= c.failures then counted.(state := Open, openedAt := now) else counted
    case Open => b
    case HalfOpen => b.(state := Open, openedAt := now, trialSuccesses := 0, trialsInFlight := 0)
  }

  function Cancelled(b: Inner): Inner {
    if b.state.HalfOpen? then b.(trialsInFlight := SatSub(b.trialsInFlight, 1)) else b
  }

  class Breaker {
    const config: Config
    var state: State
    var failures: nat
    var windowStarted: nat
    var openedAt: nat
    var trialSuccesses: nat
    var trialsInFlight: nat

    constructor (config: Config, now: nat)
      ensures this.config == config && View() == New(now)
    {
      this.config := config;
      state, failures, windowStarted, openedAt, trialSuccesses, trialsInFlight := Closed, 0, now, now, 0, 0;
    }

    ghost function View(): Inner
      reads this
    {
      Inner(state, failures, windowStarted, openedAt, trialSuccesses, trialsInFlight)
    }

    method AllowAt(now: nat) returns (allowed: bool)
      modifies this
      ensures (View(), allowed) == Allow(config, old(View()), now)
    {
      match state
      case Closed =>
        return true;
      case Open =>
        if SatSub(now, openedAt) < config.cooldown {
          return false;
        }
        state, trialSuccesses, trialsInFlight := HalfOpen, 0, 1;
        return true;
      case HalfOpen =>
        if trialsInFlight >= config.maxTrials {
          return false;
        }
        trialsInFlight := Increment(trialsInFlight);
        return true;
    }

    method RecordSuccess()
      modifies this
      ensures View() == Succeeded(config, old(View()))
    {
      match state
      case Closed =>
        failures := 0;
      case HalfOpen =>
        trialsInFlight := SatSub(trialsInFlight, 1);
        trialSuccesses := Increment(trialSuccesses);
        if trialSuccesses >= config.successesToClose {
          state, failures, trialSuccesses, trialsInFlight := Closed, 0, 0, 0;
        }
      case Open =>
    }

    method RecordFailureAt(now: nat)
      modifies this
      ensures View() == Failed(config, old(View()), now)
    {
      match state
      case Closed =>
        if SatSub(now, windowStarted) > config.window {
          windowStarted, failures := now, 0;
        }
        failures := Increment(failures);
        if failures >= config.failures {
          state, openedAt := Open, now;
        }
      case HalfOpen =>
        state, openedAt, trialSuccesses, trialsInFlight := Open, now, 0, 0;
      case Open =>
    }

    method Cancel()
      modifies this
      ensures View() == Cancelled(old(View()))
    {
      if state.HalfOpen? {
        trialsInFlight := SatSub(trialsInFlight, 1);
      }
    }
  }

  // ---------------------------------------------------------------- runs

  /** How a request ended: with an upstream failure, without one, or without an upstream outcome. */
  datatype Outcome = Failure | Success | NoOutcome

  /** A request asks to be sent, or an admitted one reports.  A report does not say which request it is for. */
  datatype Event = Asks(at: nat) | Reports(outcome: Outcome, at: nat)

  /** `outstanding` counts the admitted requests that have not reported. */
  datatype System = System(breaker: Inner, outstanding: nat)

  ghost predicate Enabled(s: System, e: Event) {
    e.Reports? ==> 0 < s.outstanding
  }

  function Next(c: Config, s: System, e: Event): System
    requires e.Reports? ==> 0 < s.outstanding
  {
    match e
    case Asks(now) =>
      var (b, allowed) := Allow(c, s.breaker, now);
      System(b, s.outstanding + if allowed then 1 else 0)
    case Reports(Failure, now) => System(Failed(c, s.breaker, now), s.outstanding - 1)
    case Reports(Success, _) => System(Succeeded(c, s.breaker), s.outstanding - 1)
    case Reports(NoOutcome, _) => System(Cancelled(s.breaker), s.outstanding - 1)
  }

  /**
   A run of the breaker from its creation.  The clock is read before the lock is taken, so the readings
   need not reach the breaker in order.
   */
  ghost predicate Run(c: Config, states: seq<System>, events: seq<Event>) {
    && Loaded(c)
    && |states| == |events| + 1
    && states[0].outstanding == 0
    && states[0].breaker == New(states[0].breaker.windowStarted)
    && (forall i :: 0 <= i < |events| ==> Leads(c, states[i], events[i], states[i + 1]))
  }

  /** The clock readings of a run begun at `start` do arrive in order. */
  ghost predicate Monotone(start: nat, events: seq<Event>) {
    && (forall i :: 0 <= i < |events| ==> start <= events[i].at)
    && (forall i, j :: 0 <= i <= j < |events| ==> events[i].at <= events[j].at)
  }

  ghost predicate Leads(c: Config, s: System, e: Event, t: System) {
    Enabled(s, e) && t == Next(c, s, e)
  }

  lemma LeadsAt(c: Config, states: seq<System>, events: seq<Event>, i: nat)
    requires Run(c, states, events) && i < |events|
    ensures |states| == |events| + 1 && Leads(c, states[i], events[i], states[i + 1])
  {
  }

  lemma Shape(c: Config, states: seq<System>, events: seq<Event>)
    requires Run(c, states, events)
    ensures Loaded(c) && |states| == |events| + 1 && states[0].breaker == New(states[0].breaker.windowStarted)
  {
  }

  ghost predicate Admitted(c: Config, s: System, e: Event) {
    e.Asks? && Allow(c, s.breaker, e.at).1
  }

  // ---------------------------------------------------------------- the breaker never wedges

  /** Trials out are admitted requests that have not reported, and there are none outside half-open. */
  ghost predicate Inv(c: Config, s: System) {
    var b := s.breaker;
    && b.trialsInFlight <= c.maxTrials && b.trialsInFlight <= s.outstanding
    && (!b.state.HalfOpen? ==> b.trialsInFlight == 0)
    && (b.state.Closed? ==> b.failures < c.failures)
    && (b.state.HalfOpen? ==> b.trialSuccesses < c.successesToClose)
  }

  lemma StepKeepsInv(c: Config, s: System, e: Event)
    requires Loaded(c) && Inv(c, s) && Enabled(s, e)
    ensures Inv(c, Next(c, s, e))
  {
  }

  lemma {:induction false} RunKeepsInv(c: Config, states: seq<System>, events: seq<Event>, n: nat)
    requires Run(c, states, events) && n < |states|
    ensures Inv(c, states[n])
  {
    if n != 0 {
      RunKeepsInv(c, states, events, n - 1);
      assert Leads(c, states[n - 1], events[n - 1], states[n]);
      StepKeepsInv(c, states[n - 1], events[n - 1]);
    }
  }

  /**
   In every reachable state the trial count is bounded by the trial limit and by the admitted requests
   still out, is zero outside half-open, and a closed circuit has room for another failure.
   */
  lemma TrialsAreOutstanding(c: Config, states: seq<System>, events: seq<Event>, n: nat)
    requires Run(c, states, events) && n < |states|
    ensures var s := states[n];
            && s.breaker.trialsInFlight <= Min(c.maxTrials, s.outstanding)
            && (!s.breaker.state.HalfOpen? ==> s.breaker.trialsInFlight == 0)
            && (s.breaker.state.Closed? ==> s.breaker.failures < c.failures)
  {
    RunKeepsInv(c, states, events, n);
  }

  /** Once every admitted request has reported and any cooldown is over, the next request is admitted, whatever happened before. */
  lemma NeverWedged(c: Config, states: seq<System>, events: seq<Event>, n: nat, now: nat)
    requires Run(c, states, events) && n < |states| && states[n].outstanding == 0
    requires states[n].breaker.state.Open? ==> states[n].breaker.openedAt + c.cooldown <= now
    ensures Admitted(c, states[n], Asks(now))
  {
    RunKeepsInv(c, states, events, n);
  }

  // ---------------------------------------------------------------- what is admitted

  /**
   A request is admitted while the circuit is closed, once the cooldown of an open one is over, and while
   a half-open one has fewer trials out than it may; a half-open circuit then has one more.
   */
  lemma AdmittedIff(c: Config, states: seq<System>, events: seq<Event>, n: nat, now: nat)
    requires Run(c, states, events) && n < |states|
    ensures var b := states[n].breaker;
            Admitted(c, states[n], Asks(now)) <==>
              || b.state.Closed?
              || (b.state.Open? && (b.openedAt + c.cooldown <= now || c.cooldown == 0))
              || (b.state.HalfOpen? && b.trialsInFlight < c.maxTrials)
    ensures var b, after := states[n].breaker, Next(c, states[n], Asks(now)).breaker;
            if !Admitted(c, states[n], Asks(now)) || b.state.Closed? then after == b
            else
              && after.state.HalfOpen? && after.openedAt == b.openedAt
              && (b.state.Open? ==> after.trialsInFlight == 1 && after.trialSuccesses == 0)
              && (b.state.HalfOpen? ==> after == b.(trialsInFlight := b.trialsInFlight + 1))
  {
    RunKeepsInv(c, states, events, n);
    Shape(c, states, events);
  }

  ghost predicate OnlyAsks(events: seq<Event>, m: nat, n: nat) {
    forall i :: m <= i < n && i < |events| ==> events[i].Asks?
  }

  lemma OneMoreAsk(events: seq<Event>, m: nat, n: nat)
    requires m < n <= |events| && OnlyAsks(events, m, n)
    ensures OnlyAsks(events, m, n - 1) && events[n - 1].Asks?
  {
  }

  /** After the cooldown an open circuit lets through as many trials as it may have out, and then no more until one reports. */
  lemma {:induction false} TrialsAreLetThrough(c: Config, states: seq<System>, events: seq<Event>, m: nat, n: nat)
    requires Run(c, states, events) && m < n <= |events| && OnlyAsks(events, m, n)
    requires states[m].breaker.state.Open? && states[m].breaker.openedAt + c.cooldown <= events[m].at
    ensures |states| == |events| + 1 && events[n - 1].Asks?
    ensures Admitted(c, states[n - 1], events[n - 1]) <==> n - m <= c.maxTrials
    ensures states[n].breaker.state.HalfOpen? && states[n].breaker.trialsInFlight == Min(n - m, c.maxTrials)
  {
    hide *;
    Shape(c, states, events);
    OneMoreAsk(events, m, n);
    if m < n - 1 {
      TrialsAreLetThrough(c, states, events, m, n - 1);
    }
    LeadsAt(c, states, events, n - 1);
    AskIs(c, states[n - 1], events[n - 1], states[n], if n - 1 == m then 0 else Min(n - 1 - m, c.maxTrials));
    LeastIs(n - m, c.maxTrials);
    LeastIs(n - 1 - m, c.maxTrials);
    LoadedIs(c);
  }

  lemma LoadedIs(c: Config)
    requires Loaded(c)
    ensures 1 <= c.maxTrials
  {
  }

  lemma LeastIs(x: int, y: int)
    ensures Min(x, y) == if x <= y then x else y
  {
  }

  lemma AskIs(c: Config, s: System, e: Event, t: System, trials: nat)
    requires Loaded(c) && e.Asks? && Leads(c, s, e, t)
    requires (s.breaker.state.Open? && s.breaker.openedAt + c.cooldown <= e.at && trials == 0)
      || (s.breaker.state.HalfOpen? && s.breaker.trialsInFlight == trials)
    ensures t.breaker.state.HalfOpen?
    ensures Admitted(c, s, e) <==> s.breaker.state.Open? || trials < c.maxTrials
    ensures t.breaker.trialsInFlight == if Admitted(c, s, e) then trials + 1 else trials
  {
  }

  // ---------------------------------------------------------------- what a report changes

  /**
   Each report, by what it is and what the circuit is when it comes.  A failure opens a half-open circuit
   at once, and a closed one when it is one failure too many since the window began; opening starts the
   cooldown.  A success closes a half-open circuit when enough trials have succeeded and has a closed one
   forget its failures.  A report without an outcome only frees a trial, and none touches an open circuit.
   */
  lemma ReportsChange(c: Config, states: seq<System>, events: seq<Event>, n: nat)
    requires Run(c, states, events) && n < |events| && events[n].Reports?
    ensures |states| == |events| + 1
    ensures var b, after, e := states[n].breaker, states[n + 1].breaker, events[n];
            && (b.state.Open? ==> after == b)
            && (b.state.HalfOpen? ==>
                  match e.outcome
                  case Failure => after.state.Open? && after.openedAt == e.at && after.trialSuccesses == 0 && after.trialsInFlight == 0
                  case Success =>
                    if b.trialSuccesses + 1 == c.successesToClose
                    then after.state.Closed? && after.failures == 0 && after.trialSuccesses == 0 && after.trialsInFlight == 0
                    else after.state.HalfOpen? && after.trialSuccesses == b.trialSuccesses + 1 && after.trialsInFlight == OneLess(b.trialsInFlight)
                  case NoOutcome => after == b.(trialsInFlight := OneLess(b.trialsInFlight)))
            && (b.state.Closed? ==>
                  match e.outcome
                  case Failure =>
                    var late := b.windowStarted + c.window < e.at;
                    var counted := if late then 1 else b.failures + 1;
                    && after.failures == counted && after.windowStarted == (if late then e.at else b.windowStarted)
                    && (if counted == c.failures then after.state.Open? && after.openedAt == e.at else after.state.Closed?)
                  case Success => after == b.(failures := 0)
                  case NoOutcome => after == b)
  {
    RunKeepsInv(c, states, events, n);
    Shape(c, states, events);
    LeadsAt(c, states, events, n);
    hide Run;
  }

  function OneLess(n: nat): nat {
    if n == 0 then 0 else n - 1
  }

  // ---------------------------------------------------------------- opening for cause

  /** Reports of one kind among the events from `m` up to `n`. */
  ghost function Count(events: seq<Event>, outcome: Outcome, m: nat, n: nat): nat
    requires m <= n <= |events|
    decreases n - m
  {
    if m == n then 0
    else Count(events, outcome, m, n - 1) + if events[n - 1].Reports? && events[n - 1].outcome == outcome then 1 else 0
  }

  ghost predicate IsFailure(e: Event) {
    e.Reports? && e.outcome == Failure
  }

  ghost predicate Throughout(states: seq<System>, state: State, m: nat, n: nat) {
    forall i :: m <= i <= n && i < |states| ==> states[i].breaker.state == state
  }

  /** Failure reports between `m` and `n` are not later than the window begun at `start`. */
  ghost predicate FailuresBy(c: Config, events: seq<Event>, m: nat, n: nat, start: nat) {
    forall i :: m <= i < n && i < |events| && IsFailure(events[i]) ==> events[i].at <= start + c.window
  }

  ghost predicate FailuresFrom(events: seq<Event>, m: nat, n: nat, start: nat) {
    forall i :: m <= i < n && i < |events| && IsFailure(events[i]) ==> start <= events[i].at
  }

  /** Any two failure reports between `m` and `n` are at most `window` apart. */
  ghost predicate Together(c: Config, events: seq<Event>, m: nat, n: nat) {
    forall i, j :: m <= i < n && m <= j < n && i < |events| && j < |events| && IsFailure(events[i]) && IsFailure(events[j]) ==>
      events[j].at <= events[i].at + c.window
  }

  ghost predicate Counted(c: Config, states: seq<System>, events: seq<Event>, m: nat, n: nat)
    requires m <= n < |states| && |states| == |events| + 1
  {
    && Throughout(states, Closed, m, n)
    && Count(events, Failure, m, n) == states[n].breaker.failures
    && Count(events, Success, m, n) == 0
    && FailuresBy(c, events, m, n, states[n].breaker.windowStarted)
    && (Monotone(states[0].breaker.windowStarted, events) ==> FailuresFrom(events, m, n, states[n].breaker.windowStarted))
  }

  lemma {:induction false} WindowStartedBefore(c: Config, states: seq<System>, events: seq<Event>, n: nat)
    requires Run(c, states, events) && n < |states| && Monotone(states[0].breaker.windowStarted, events)
    ensures n < |events| ==> states[n].breaker.windowStarted <= events[n].at
    ensures 0 < n ==> states[n].breaker.windowStarted <= events[n - 1].at
  {
    if n != 0 {
      WindowStartedBefore(c, states, events, n - 1);
      assert Leads(c, states[n - 1], events[n - 1], states[n]);
    }
  }

  /** The failures a closed circuit counts are real reports, uninterrupted by a success, in one window. */
  lemma {:induction false} WhatIsCounted(c: Config, states: seq<System>, events: seq<Event>, n: nat) returns (m: nat)
    requires Run(c, states, events) && n < |states| && states[n].breaker.state.Closed?
    ensures m <= n && Counted(c, states, events, m, n)
  {
    hide Run, Monotone;
    Shape(c, states, events);
    m := n;
    if n != 0 {
      LeadsAt(c, states, events, n - 1);
      var before, e := states[n - 1], events[n - 1];
      if Monotone(states[0].breaker.windowStarted, events) {
        WindowStartedBefore(c, states, events, n - 1);
      }
      if before.breaker.state.Closed? && !(e.Reports? && e.outcome == Success) {
        if IsFailure(e) && SatSub(e.at, before.breaker.windowStarted) > c.window {
          m := n - 1;
          assert Count(events, Failure, n - 1, n) == Count(events, Failure, n - 1, n - 1) + 1;
          assert Count(events, Success, n - 1, n) == Count(events, Success, n - 1, n - 1);
        } else {
          m := WhatIsCounted(c, states, events, n - 1);
        }
      } else {
        RunKeepsInv(c, states, events, n - 1);
      }
    }
  }

  /**
   A circuit opens from closed only for cause: exactly `failures` failure reports, none of them before the
   last success or the last closing, the last of them the report at hand; and, if the clock readings
   arrive in order, all within one window.
   */
  lemma OpensForCause(c: Config, states: seq<System>, events: seq<Event>, n: nat) returns (m: nat)
    requires Run(c, states, events) && n < |events|
    requires states[n].breaker.state.Closed? && states[n + 1].breaker.state.Open?
    ensures m <= n && Throughout(states, Closed, m, n)
    ensures Count(events, Failure, m, n + 1) == c.failures && Count(events, Success, m, n + 1) == 0
    ensures events[n] == Reports(Failure, events[n].at)
    ensures Monotone(states[0].breaker.windowStarted, events) ==> Together(c, events, m, n + 1)
  {
    assert Leads(c, states[n], events[n], states[n + 1]);
    RunKeepsInv(c, states, events, n);
    if Monotone(states[0].breaker.windowStarted, events) {
      WindowStartedBefore(c, states, events, n);
    }
    hide Run, Monotone;
    if SatSub(events[n].at, states[n].breaker.windowStarted) > c.window {
      m := n;
      assert Count(events, Failure, n, n) == 0;
      assert Count(events, Success, n, n) == 0;
    } else {
      m := WhatIsCounted(c, states, events, n);
    }
  }

  // ---------------------------------------------------------------- how many failures open it

  /** The window was started by a failure report at step `m` or since. */
  ghost predicate Restarted(events: seq<Event>, m: nat, n: nat, start: nat) {
    exists r :: m <= r < n && r < |events| && IsFailure(events[r]) && events[r].at == start
  }

  /** The count while the circuit stays closed and nothing succeeds: the window starts afresh at most once. */
  lemma {:induction false} CountWhileClosed(c: Config, states: seq<System>, events: seq<Event>, m: nat, n: nat)
    requires Run(c, states, events) && m <= n <= |events|
    requires Throughout(states, Closed, m, n) && Count(events, Success, m, n) == 0 && Together(c, events, m, n)
    ensures var counted := Count(events, Failure, m, n);
            || (states[n].breaker.windowStarted == states[m].breaker.windowStarted
                && counted + states[m].breaker.failures == states[n].breaker.failures)
            || (Restarted(events, m, n, states[n].breaker.windowStarted)
                && counted <= c.failures - 1 + states[n].breaker.failures)
    decreases n - m
  {
    if m < n {
      CountWhileClosed(c, states, events, m, n - 1);
      RunKeepsInv(c, states, events, n - 1);
      var s, e, t := states[n - 1], events[n - 1], states[n];
      assert Leads(c, s, e, t);
      assert s.breaker.state == Closed && t.breaker.state == Closed;
      if IsFailure(e) && SatSub(e.at, s.breaker.windowStarted) > c.window {
        assert Restarted(events, m, n, e.at);
      }
    }
  }

  /**
   Twice `failures` less one failure reports, any two at most `window` apart and with no success between
   them, always open a closed circuit, in whatever order the clock readings arrive.
   */
  lemma BurstOpens(c: Config, states: seq<System>, events: seq<Event>, m: nat, n: nat) returns (i: nat)
    requires Run(c, states, events) && m < n <= |events| && states[m].breaker.state.Closed?
    requires Count(events, Success, m, n) == 0 && 2 * c.failures - 1 <= Count(events, Failure, m, n)
    requires Together(c, events, m, n)
    ensures m < i <= n && states[i].breaker.state.Open?
  {
    if Throughout(states, Closed, m, n) {
      CountWhileClosed(c, states, events, m, n);
      RunKeepsInv(c, states, events, n);
      i := n;
    } else {
      i := FirstNotClosed(c, states, events, m, n);
    }
  }

  lemma {:induction false} FirstNotClosed(c: Config, states: seq<System>, events: seq<Event>, m: nat, n: nat) returns (i: nat)
    requires Run(c, states, events) && m < n <= |events| && states[m].breaker.state.Closed? && !Throughout(states, Closed, m, n)
    ensures m < i <= n && states[i].breaker.state.Open?
    decreases n - m
  {
    assert Leads(c, states[m], events[m], states[m + 1]);
    i := m + 1;
    if states[m + 1].breaker.state.Closed? {
      i := FirstNotClosed(c, states, events, m + 1, n);
    }
  }

  // ---------------------------------------------------------------- cooling down

  /** A request admitted with the cooldown over, as its own clock reading has it. */
  ghost predicate CooledDown(c: Config, states: seq<System>, events: seq<Event>, n: nat, j: nat)
    requires n < |events| && j < |events| && j < |states|
  {
    Admitted(c, states[j], events[j]) && c.cooldown <= SatSub(events[j].at, events[n].at)
  }

  /** Since it opened at step `n`, the circuit has stayed open, or a request found the cooldown over. */
  lemma {:induction false} OpenUntilCooledDown(c: Config, states: seq<System>, events: seq<Event>, n: nat, k: nat)
    requires Run(c, states, events) && n < k < |states|
    requires !states[n].breaker.state.Open? && states[n + 1].breaker.state.Open?
    ensures (states[k].breaker.state.Open? && states[k].breaker.openedAt == events[n].at)
         || (exists j :: n < j < k && CooledDown(c, states, events, n, j))
  {
    assert Leads(c, states[n], events[n], states[n + 1]);
    if n + 1 < k {
      OpenUntilCooledDown(c, states, events, n, k - 1);
      assert Leads(c, states[k - 1], events[k - 1], states[k]);
      if states[k - 1].breaker.state.Open? && states[k - 1].breaker.openedAt == events[n].at && !states[k].breaker.state.Open? {
        assert CooledDown(c, states, events, n, k - 1);
      }
    }
  }

  /**
   After any opening, no request is admitted before one whose own clock reading has the cooldown over; so
   if the readings arrive in order, none is admitted until it is.
   */
  lemma NoAdmissionDuringCooldown(c: Config, states: seq<System>, events: seq<Event>, n: nat, k: nat) returns (j: nat)
    requires Run(c, states, events) && n < k < |events|
    requires !states[n].breaker.state.Open? && states[n + 1].breaker.state.Open?
    requires Admitted(c, states[k], events[k])
    ensures n < j <= k && CooledDown(c, states, events, n, j)
    ensures Monotone(states[0].breaker.windowStarted, events) ==> events[n].at + c.cooldown <= events[k].at
  {
    OpenUntilCooledDown(c, states, events, n, k);
    if states[k].breaker.state.Open? && states[k].breaker.openedAt == events[n].at {
      j := k;
    } else {
      j :| n < j < k && CooledDown(c, states, events, n, j);
    }
  }

  // ---------------------------------------------------------------- closing

  /** The successes a half-open circuit counts were all reported since the cooldown, with no failure among them. */
  lemma {:induction false} WhatTrialsShowed(c: Config, states: seq<System>, events: seq<Event>, n: nat) returns (m: nat)
    requires Run(c, states, events) && n < |states| && states[n].breaker.state.HalfOpen?
    ensures m < n && states[m].breaker.state.Open? && Admitted(c, states[m], events[m])
    ensures Throughout(states, HalfOpen, m + 1, n)
    ensures Count(events, Success, m + 1, n) == states[n].breaker.trialSuccesses && Count(events, Failure, m + 1, n) == 0
  {
    m := n - 1;
    assert Leads(c, states[n - 1], events[n - 1], states[n]);
    RunKeepsInv(c, states, events, n - 1);
    if states[n - 1].breaker.state.HalfOpen? {
      m := WhatTrialsShowed(c, states, events, n - 1);
    }
  }

  /**
   A circuit closes only after `successes_to_close` success reports since a request was admitted at the
   end of a cooldown, half-open throughout and with no failure among them.
   */
  lemma ClosesForCause(c: Config, states: seq<System>, events: seq<Event>, n: nat) returns (m: nat)
    requires Run(c, states, events) && n < |events|
    requires !states[n].breaker.state.Closed? && states[n + 1].breaker.state.Closed?
    ensures m < n && states[m].breaker.state.Open? && Admitted(c, states[m], events[m]) && Throughout(states, HalfOpen, m + 1, n)
    ensures Count(events, Success, m + 1, n + 1) == c.successesToClose && Count(events, Failure, m + 1, n + 1) == 0
  {
    assert Leads(c, states[n], events[n], states[n + 1]);
    RunKeepsInv(c, states, events, n);
    m := WhatTrialsShowed(c, states, events, n);
  }
}
