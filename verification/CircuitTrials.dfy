/**
 The breaker driven by requests with identities (breaker.rs, proxy.rs).  Reports reach the breaker without
 them, so a request admitted before the circuit opened may be credited to a later half-open period; this
 module says when that can happen and how much of a closing it can account for.
 */
module CircuitTrials {
  import opened CircuitBreaker

  type Id = nat

  datatype Act = Ask(id: Id, at: nat) | Report(id: Id, outcome: Outcome, at: nat)

  /** `out` are the admitted requests that have not reported, `seen` all that have asked. */
  datatype Named = Named(breaker: Inner, out: set<Id>, seen: set<Id>)

  ghost predicate CanAct(s: Named, a: Act) {
    match a
    case Ask(id, _) => id !in s.seen
    case Report(id, _, _) => id in s.out
  }

  function After(c: Config, s: Named, a: Act): Named {
    match a
    case Ask(id, now) =>
      var (b, allowed) := Allow(c, s.breaker, now);
      Named(b, if allowed then s.out + {id} else s.out, s.seen + {id})
    case Report(id, Failure, now) => Named(Failed(c, s.breaker, now), s.out - {id}, s.seen)
    case Report(id, Success, _) => Named(Succeeded(c, s.breaker), s.out - {id}, s.seen)
    case Report(id, NoOutcome, _) => Named(Cancelled(s.breaker), s.out - {id}, s.seen)
  }

  ghost predicate ActLeads(c: Config, s: Named, a: Act, t: Named) {
    CanAct(s, a) && t == After(c, s, a)
  }

  ghost predicate NamedRun(c: Config, states: seq<Named>, acts: seq<Act>) {
    && Loaded(c)
    && |states| == |acts| + 1
    && states[0] == Named(New(states[0].breaker.windowStarted), {}, {})
    && (forall i :: 0 <= i < |acts| ==> ActLeads(c, states[i], acts[i], states[i + 1]))
  }

  lemma OneMoreState(c: Config, states: seq<Named>, acts: seq<Act>)
    requires NamedRun(c, states, acts)
    ensures |states| == |acts| + 1
  {
  }

  // ---------------------------------------------------------------- what the breaker sees of it

  function Erased(a: Act): Event {
    match a
    case Ask(_, at) => Asks(at)
    case Report(_, outcome, at) => Reports(outcome, at)
  }

  ghost function ErasedActs(acts: seq<Act>): (r: seq<Event>)
    ensures |r| == |acts| && forall i :: 0 <= i < |r| ==> r[i] == Erased(acts[i])
  {
    seq(|acts|, i requires 0 <= i < |acts| => Erased(acts[i]))
  }

  ghost function ErasedStates(states: seq<Named>): (r: seq<System>)
    ensures |r| == |states| && forall i :: 0 <= i < |r| ==> r[i] == System(states[i].breaker, |states[i].out|)
  {
    seq(|states|, i requires 0 <= i < |states| => System(states[i].breaker, |states[i].out|))
  }

  lemma {:induction false} OutWasSeen(c: Config, states: seq<Named>, acts: seq<Act>, n: nat)
    requires NamedRun(c, states, acts) && n < |states|
    ensures states[n].out <= states[n].seen
  {
    if n != 0 {
      OutWasSeen(c, states, acts, n - 1);
      assert ActLeads(c, states[n - 1], acts[n - 1], states[n]);
    }
  }

  lemma ErasedStep(c: Config, s: Named, a: Act)
    requires CanAct(s, a) && s.out <= s.seen
    ensures Leads(c, System(s.breaker, |s.out|), Erased(a), System(After(c, s, a).breaker, |After(c, s, a).out|))
  {
    if a.Report? {
      assert |s.out - {a.id}| == |s.out| - 1;
    }
  }

  /** Without the identities it is a run of the breaker, so everything proved of those holds of it. */
  lemma ErasesToRun(c: Config, states: seq<Named>, acts: seq<Act>)
    requires NamedRun(c, states, acts)
    ensures Run(c, ErasedStates(states), ErasedActs(acts))
  {
    forall i | 0 <= i < |acts|
      ensures Leads(c, ErasedStates(states)[i], ErasedActs(acts)[i], ErasedStates(states)[i + 1])
    {
      OutWasSeen(c, states, acts, i);
      assert ActLeads(c, states[i], acts[i], states[i + 1]);
      ErasedStep(c, states[i], acts[i]);
    }
  }

  // ---------------------------------------------------------------- trials

  /** At step `m` the cooldown is over and a request is admitted as the first trial. */
  ghost predicate HalfOpens(c: Config, states: seq<Named>, acts: seq<Act>, m: nat) {
    && m < |acts| && |states| == |acts| + 1
    && states[m].breaker.state.Open? && acts[m].Ask? && Allow(c, states[m].breaker, acts[m].at).1
  }

  /** Half-open from `m` on, and still at `n`. */
  ghost predicate HalfOpenSince(states: seq<Named>, m: nat, n: nat) {
    forall i :: m < i <= n && i < |states| ==> states[i].breaker.state.HalfOpen?
  }

  /** The request was admitted as a trial, at step `m` or since. */
  ghost predicate IsTrial(c: Config, states: seq<Named>, acts: seq<Act>, m: nat, n: nat, id: Id) {
    exists j :: m <= j < n && j < |acts| && j < |states| && acts[j] == Ask(id, acts[j].at) && Allow(c, states[j].breaker, acts[j].at).1
  }

  /** Whoever reports from `m` to `n` and was not out at `m` is a trial. */
  ghost predicate OthersAreTrials(c: Config, states: seq<Named>, acts: seq<Act>, m: nat, n: nat)
    requires m <= n < |acts| && m < |states|
  {
    forall j :: m <= j <= n && acts[j].Report? && acts[j].id !in states[m].out ==> IsTrial(c, states, acts, m, j, acts[j].id)
  }

  /** Success reports between `m` and `n` by requests in `who`, or by any others. */
  ghost function SuccessesOf(acts: seq<Act>, who: set<Id>, among: bool, m: nat, n: nat): nat
    requires m <= n <= |acts|
    decreases n - m
  {
    if m == n then 0
    else
      var a := acts[n - 1];
      SuccessesOf(acts, who, among, m, n - 1) + if a.Report? && a.outcome == Success && ((a.id in who) == among) then 1 else 0
  }

  lemma {:induction false} SuccessesAdd(acts: seq<Act>, who: set<Id>, m: nat, n: nat)
    requires m <= n <= |acts|
    ensures Count(ErasedActs(acts), Success, m, n) == SuccessesOf(acts, who, true, m, n) + SuccessesOf(acts, who, false, m, n)
    decreases n - m
  {
    if m < n {
      SuccessesAdd(acts, who, m, n - 1);
    }
  }

  /** A request reports only once, so those out at `m` account for no more reports than there are. */
  lemma {:induction false} LateReportsAreFew(c: Config, states: seq<Named>, acts: seq<Act>, m: nat, n: nat)
    requires NamedRun(c, states, acts) && m <= n <= |acts|
    ensures SuccessesOf(acts, states[m].out, true, m, n) + |states[n].out * states[m].out| <= |states[m].out|
    ensures states[m].out <= states[n].seen
    decreases n - m
  {
    if m == n {
      assert states[m].out * states[m].out == states[m].out;
      OutWasSeen(c, states, acts, m);
    } else {
      LateReportsAreFew(c, states, acts, m, n - 1);
      assert ActLeads(c, states[n - 1], acts[n - 1], states[n]);
      hide NamedRun;
      OneFewerOut(c, states[n - 1], acts[n - 1], states[m].out);
    }
  }

  lemma OneFewerOut(c: Config, s: Named, a: Act, who: set<Id>)
    requires CanAct(s, a) && who <= s.seen
    ensures var t := After(c, s, a);
            who <= t.seen && |t.out * who| == |s.out * who| - if a.Report? && a.id in who then 1 else 0
  {
    var t := After(c, s, a);
    hide Allow, Failed, Succeeded, Cancelled;
    if a.Ask? {
      assert t.out * who == s.out * who;
    } else {
      assert t.out * who == s.out * who - {a.id};
    }
  }

  /** Whoever is out at `n` was out at `m` or is a trial, and not both. */
  lemma {:induction false} OldOrTrial(c: Config, states: seq<Named>, acts: seq<Act>, m: nat, n: nat, id: Id)
    requires NamedRun(c, states, acts) && m <= n <= |acts|
    ensures id in states[n].out && id !in states[m].out ==> IsTrial(c, states, acts, m, n, id)
    ensures id in states[m].out ==> !IsTrial(c, states, acts, m, n, id) && id in states[n].seen
    decreases n - m
  {
    if m == n {
      OutWasSeen(c, states, acts, m);
    } else {
      OldOrTrial(c, states, acts, m, n - 1, id);
      assert ActLeads(c, states[n - 1], acts[n - 1], states[n]);
      if id in states[n].out && id !in states[n - 1].out {
        assert acts[n - 1] == Ask(id, acts[n - 1].at);
      }
    }
  }

  /**
   Requests that were already out when the circuit went half-open can stand in for no more successes
   than there are of them: all the others a closing rests on were reported by trials.
   */
  lemma ClosingRestsOnTrials(c: Config, states: seq<Named>, acts: seq<Act>, n: nat) returns (m: nat)
    requires NamedRun(c, states, acts) && n < |acts|
    requires !states[n].breaker.state.Closed? && states[n + 1].breaker.state.Closed?
    ensures m < n && HalfOpens(c, states, acts, m) && HalfOpenSince(states, m, n)
    ensures c.successesToClose <= SuccessesOf(acts, states[m].out, false, m, n + 1) + |states[m].out|
    ensures OthersAreTrials(c, states, acts, m, n)
  {
    hide *;
    OneMoreState(c, states, acts);
    m := ErasedClosing(c, states, acts, n);
    SuccessesAdd(acts, states[m].out, m, n + 1);
    LateReportsAreFew(c, states, acts, m, n + 1);
    WhoReports(c, states, acts, m, n);
  }

  lemma WhoReports(c: Config, states: seq<Named>, acts: seq<Act>, m: nat, n: nat)
    requires NamedRun(c, states, acts) && m <= n < |acts|
    ensures OthersAreTrials(c, states, acts, m, n)
  {
    forall j | m <= j <= n && acts[j].Report? && acts[j].id !in states[m].out
      ensures IsTrial(c, states, acts, m, j, acts[j].id)
    {
      assert ActLeads(c, states[j], acts[j], states[j + 1]);
      OldOrTrial(c, states, acts, m, j, acts[j].id);
    }
  }

  lemma ErasedClosing(c: Config, states: seq<Named>, acts: seq<Act>, n: nat) returns (m: nat)
    requires NamedRun(c, states, acts) && n < |acts|
    requires !states[n].breaker.state.Closed? && states[n + 1].breaker.state.Closed?
    ensures m < n && HalfOpens(c, states, acts, m) && HalfOpenSince(states, m, n)
    ensures c.successesToClose <= Count(ErasedActs(acts), Success, m, n + 1)
  {
    var ss, ee := ErasedStates(states), ErasedActs(acts);
    hide *;
    OneMoreState(c, states, acts);
    assert ss[n].breaker == states[n].breaker && ss[n + 1].breaker == states[n + 1].breaker;
    ErasesToRun(c, states, acts);
    m := ClosesForCause(c, ss, ee, n);
    ErasedOpening(c, states, acts, m);
    ErasedHalfOpen(states, m, n);
    OneMoreCounted(ee, m, n + 1);
  }

  lemma ErasedOpening(c: Config, states: seq<Named>, acts: seq<Act>, m: nat)
    requires |states| == |acts| + 1 && m < |acts|
    requires ErasedStates(states)[m].breaker.state.Open? && Admitted(c, ErasedStates(states)[m], ErasedActs(acts)[m])
    ensures HalfOpens(c, states, acts, m)
  {
  }

  lemma ErasedHalfOpen(states: seq<Named>, m: nat, n: nat)
    requires Throughout(ErasedStates(states), HalfOpen, m + 1, n)
    ensures HalfOpenSince(states, m, n)
  {
    assert forall i :: 0 <= i < |states| ==> ErasedStates(states)[i].breaker == states[i].breaker;
  }

  lemma {:induction false} OneMoreCounted(events: seq<Event>, m: nat, n: nat)
    requires m < n <= |events|
    ensures Count(events, Success, m + 1, n) <= Count(events, Success, m, n)
    decreases n - m
  {
    if m + 1 < n {
      OneMoreCounted(events, m, n - 1);
    }
  }

  // ---------------------------------------------------------------- when only trials count

  /** The run goes on from its first `k` steps. */
  ghost predicate GoesOn(c: Config, states: seq<Named>, acts: seq<Act>, ss: seq<Named>, aa: seq<Act>) {
    NamedRun(c, ss, aa) && states <= ss && acts <= aa
  }

  /** However the run goes on, every success counted in the half-open period begun at `m` is reported by a trial. */
  ghost predicate OnlyTrialsCount(c: Config, states: seq<Named>, acts: seq<Act>, m: nat) {
    forall ss: seq<Named>, aa: seq<Act>, n: nat :: GoesOn(c, states, acts, ss, aa) && m < n < |aa| && HalfOpenSince(ss, m, n) && IsSuccess(aa[n]) ==>
      IsTrial(c, ss, aa, m, n, aa[n].id)
  }

  ghost predicate IsSuccess(a: Act) {
    a.Report? && a.outcome == Success
  }

  lemma Extend(c: Config, states: seq<Named>, acts: seq<Act>, a: Act)
    requires NamedRun(c, states, acts) && CanAct(states[|acts|], a)
    ensures GoesOn(c, states, acts, states + [After(c, states[|acts|], a)], acts + [a])
  {
    var ss, aa := states + [After(c, states[|acts|], a)], acts + [a];
    forall i | 0 <= i < |aa|
      ensures ActLeads(c, ss[i], aa[i], ss[i + 1])
    {
      assert i < |acts| ==> ActLeads(c, states[i], acts[i], states[i + 1]);
    }
    hide After, ActLeads;
  }

  /** Only trials count, in every continuation, exactly when nothing was outstanding as the circuit went half-open. */
  lemma OnlyTrialsCountIff(c: Config, states: seq<Named>, acts: seq<Act>, m: nat)
    requires NamedRun(c, states, acts) && |acts| == m + 1 && HalfOpens(c, states, acts, m)
    ensures OnlyTrialsCount(c, states, acts, m) <==> states[m].out == {}
  {
    if states[m].out == {} {
      forall ss: seq<Named>, aa: seq<Act>, n: nat | GoesOn(c, states, acts, ss, aa) && m < n < |aa| && HalfOpenSince(ss, m, n) && IsSuccess(aa[n])
        ensures IsTrial(c, ss, aa, m, n, aa[n].id)
      {
        assert ss[m] == states[m] && ActLeads(c, ss[n], aa[n], ss[n + 1]);
        OldOrTrial(c, ss, aa, m, n, aa[n].id);
      }
    } else {
      var ss, aa, id := OldSuccessCounts(c, states, acts, m);
      assert !IsTrial(c, ss, aa, m, m + 1, id);
    }
  }

  lemma OldSuccessCounts(c: Config, states: seq<Named>, acts: seq<Act>, m: nat)
    returns (ss: seq<Named>, aa: seq<Act>, id: Id)
    requires NamedRun(c, states, acts) && |acts| == m + 1 && HalfOpens(c, states, acts, m) && states[m].out != {}
    ensures GoesOn(c, states, acts, ss, aa) && |aa| == m + 2 && HalfOpenSince(ss, m, m + 1)
    ensures IsSuccess(aa[m + 1]) && aa[m + 1].id == id && !IsTrial(c, ss, aa, m, m + 1, id)
  {
    assert ActLeads(c, states[m], acts[m], states[m + 1]);
    id :| id in states[m].out;
    var a := Report(id, Success, acts[m].at);
    Extend(c, states, acts, a);
    ss, aa := states + [After(c, states[m + 1], a)], acts + [a];
    assert ss[m] == states[m];
    OldOrTrial(c, ss, aa, m, m + 1, id);
  }

  // ---------------------------------------------------------------- closing without a trial's success

  /** The circuit closes at step `n`, half-open since `m`, and no trial has reported success. */
  ghost predicate ClosesWithoutTrials(c: Config, ss: seq<Named>, aa: seq<Act>, m: nat, n: nat) {
    && m < n < |aa| && |ss| == |aa| + 1
    && HalfOpenSince(ss, m, n) && ss[n + 1].breaker.state.Closed?
    && forall j :: m < j <= n && IsSuccess(aa[j]) ==> !IsTrial(c, ss, aa, m, j, aa[j].id)
  }

  ghost predicate MayCloseWithoutTrials(c: Config, states: seq<Named>, acts: seq<Act>, m: nat) {
    exists ss: seq<Named>, aa: seq<Act>, n: nat :: GoesOn(c, states, acts, ss, aa) && ClosesWithoutTrials(c, ss, aa, m, n)
  }

  lemma {:induction false} NoTrialSuccesses(c: Config, ss: seq<Named>, aa: seq<Act>, m: nat, n: nat)
    requires NamedRun(c, ss, aa) && HalfOpens(c, ss, aa, m) && m < n <= |aa|
    requires forall j :: m < j < n && IsSuccess(aa[j]) ==> !IsTrial(c, ss, aa, m, j, aa[j].id)
    ensures SuccessesOf(aa, ss[m].out, false, m, n) == 0
    decreases n
  {
    if n == m + 1 {
      assert SuccessesOf(aa, ss[m].out, false, m, m) == 0;
    } else {
      NoTrialSuccesses(c, ss, aa, m, n - 1);
      assert ActLeads(c, ss[n - 1], aa[n - 1], ss[n]);
      if IsSuccess(aa[n - 1]) {
        OldOrTrial(c, ss, aa, m, n - 1, aa[n - 1].id);
      }
    }
  }

  /** `k` successes reported one after another by requests that were out before the circuit went half-open. */
  lemma {:induction false} ReportLate(c: Config, states: seq<Named>, acts: seq<Act>, m: nat, k: nat)
    returns (ss: seq<Named>, aa: seq<Act>)
    requires NamedRun(c, states, acts) && |acts| == m + 1 && HalfOpens(c, states, acts, m)
    requires k <= c.successesToClose <= |states[m].out|
    ensures GoesOn(c, states, acts, ss, aa) && |aa| == m + 1 + k
    ensures forall j :: m < j < |aa| ==> IsSuccess(aa[j]) && aa[j].id in states[m].out && aa[j].at == acts[m].at
    ensures if k < c.successesToClose
      then ss[|aa|].breaker.state == HalfOpen && ss[|aa|].breaker.trialSuccesses == k
      else ss[|aa|].breaker.state == Closed
    ensures HalfOpenSince(ss, m, m + k)
    ensures acts[m].id in ss[|aa|].out && |ss[|aa|].out * states[m].out| == |states[m].out| - k
  {
    OutWasSeen(c, states, acts, m);
    if k == 0 {
      assert ActLeads(c, states[m], acts[m], states[m + 1]);
      ss, aa := states, acts;
      assert states[m + 1].out * states[m].out == states[m].out;
    } else {
      assert Loaded(c) && acts[m].id !in states[m].out by {
        assert ActLeads(c, states[m], acts[m], states[m + 1]);
      }
      ss, aa := ReportLate(c, states, acts, m, k - 1);
      var last := ss[|aa|];
      var left := last.out * states[m].out;
      assert left != {};
      var id :| id in left;
      var a := Report(id, Success, acts[m].at);
      LateStep(c, last, states[m].out, id, acts[m].at);
      assert |ss| == |aa| + 1;
      Extend(c, ss, aa, a);
      hide NamedRun, HalfOpens, After;
      assert |left - {id}| == |left| - 1;
      ss, aa := ss + [After(c, last, a)], aa + [a];
    }
  }

  lemma LateStep(c: Config, s: Named, old_: set<Id>, id: Id, at: nat)
    requires Loaded(c) && s.breaker.state.HalfOpen? && id in s.out * old_
    ensures var t := After(c, s, Report(id, Success, at));
            && CanAct(s, Report(id, Success, at))
            && t.out == s.out - {id} && t.out * old_ == s.out * old_ - {id}
            && (if s.breaker.trialSuccesses + 1 < c.successesToClose
                then t.breaker.state == HalfOpen && t.breaker.trialSuccesses == s.breaker.trialSuccesses + 1
                else t.breaker.state == Closed)
  {
  }

  /**
   A half-open circuit may close without a single success of a trial exactly when at least
   `successes_to_close` requests were outstanding as it went half-open.
   */
  lemma MayCloseWithoutTrialsIff(c: Config, states: seq<Named>, acts: seq<Act>, m: nat)
    requires NamedRun(c, states, acts) && |acts| == m + 1 && HalfOpens(c, states, acts, m)
    ensures MayCloseWithoutTrials(c, states, acts, m) <==> c.successesToClose <= |states[m].out|
  {
    if c.successesToClose <= |states[m].out| {
      var ss, aa := ClosesOnLateReports(c, states, acts, m);
    }
    if MayCloseWithoutTrials(c, states, acts, m) {
      var ss: seq<Named>, aa: seq<Act>, n: nat :| GoesOn(c, states, acts, ss, aa) && ClosesWithoutTrials(c, ss, aa, m, n);
      LateReportsSuffice(c, ss, aa, m, n);
      assert ss[m] == states[m];
    }
  }

  lemma ClosesOnLateReports(c: Config, states: seq<Named>, acts: seq<Act>, m: nat) returns (ss: seq<Named>, aa: seq<Act>)
    requires NamedRun(c, states, acts) && |acts| == m + 1 && HalfOpens(c, states, acts, m)
    requires c.successesToClose <= |states[m].out|
    ensures GoesOn(c, states, acts, ss, aa) && ClosesWithoutTrials(c, ss, aa, m, |aa| - 1)
    ensures acts[m].id in ss[|aa|].out
    ensures Monotone(0, ErasedActs(acts)) ==> Monotone(0, ErasedActs(aa))
  {
    ss, aa := ReportLate(c, states, acts, m, c.successesToClose);
    assert ss[m] == states[m] && Loaded(c);
    forall j | m < j < |aa|
      ensures !IsTrial(c, ss, aa, m, j, aa[j].id)
    {
      OldOrTrial(c, ss, aa, m, j, aa[j].id);
    }
  }

  lemma LateReportsSuffice(c: Config, ss: seq<Named>, aa: seq<Act>, m: nat, n: nat)
    requires NamedRun(c, ss, aa) && HalfOpens(c, ss, aa, m) && ClosesWithoutTrials(c, ss, aa, m, n)
    ensures c.successesToClose <= |ss[m].out|
  {
    var k := ClosingRestsOnTrials(c, ss, aa, n);
    SameOpening(ss, m, k, n);
    NoTrialSuccesses(c, ss, aa, m, n + 1);
  }

  lemma SameOpening(ss: seq<Named>, m: nat, k: nat, n: nat)
    requires m < n < |ss| && k < n && ss[m].breaker.state.Open? && ss[k].breaker.state.Open?
    requires HalfOpenSince(ss, m, n) && HalfOpenSince(ss, k, n)
    ensures k == m
  {
  }

  // ---------------------------------------------------------------- it happens, for every configuration

  /** Requests `0` to `k` admitted at the start, and the first `failed` of them reported as failures. */
  ghost predicate Tripping(c: Config, states: seq<Named>, acts: seq<Act>, k: nat, failed: nat) {
    && NamedRun(c, states, acts) && failed <= k
    && states[0].breaker.windowStarted == 0 && (forall i :: 0 <= i < |acts| ==> acts[i].at == 0)
    && (forall id: Id :: id in states[|acts|].seen <==> id < k)
    && (forall id: Id :: id in states[|acts|].out <==> failed <= id < k)
    && |states[|acts|].out| == k - failed
    && states[|acts|].breaker ==
         if failed < c.failures then New(0).(failures := failed) else New(0).(failures := failed, state := Open)
  }

  lemma AdmitOne(c: Config, states: seq<Named>, acts: seq<Act>, k: nat)
    requires Tripping(c, states, acts, k, 0)
    ensures Tripping(c, states + [After(c, states[|acts|], Ask(k, 0))], acts + [Ask(k, 0)], k + 1, 0)
  {
    Extend(c, states, acts, Ask(k, 0));
    hide NamedRun, ActLeads, CanAct;
    var s := states[|acts|];
    var t := After(c, s, Ask(k, 0));
    assert t == Named(s.breaker, s.out + {k}, s.seen + {k});
    hide After, Allow;
  }

  lemma NothingAsked(c: Config)
    requires Loaded(c)
    ensures Tripping(c, [Named(New(0), {}, {})], [], 0, 0)
  {
  }

  lemma {:induction false} AdmitFirst(c: Config, k: nat) returns (states: seq<Named>, acts: seq<Act>)
    requires Loaded(c)
    ensures Tripping(c, states, acts, k, 0)
  {
    if k == 0 {
      states, acts := [Named(New(0), {}, {})], [];
      NothingAsked(c);
    } else {
      states, acts := AdmitFirst(c, k - 1);
      AdmitOne(c, states, acts, k - 1);
      states, acts := states + [After(c, states[|acts|], Ask(k - 1, 0))], acts + [Ask(k - 1, 0)];
      hide Tripping;
    }
  }

  lemma {:induction false} FailFirst(c: Config, k: nat, failed: nat) returns (states: seq<Named>, acts: seq<Act>)
    requires Loaded(c) && failed <= c.failures && failed <= k
    ensures Tripping(c, states, acts, k, failed)
  {
    if failed == 0 {
      states, acts := AdmitFirst(c, k);
    } else {
      states, acts := FailFirst(c, k, failed - 1);
      var a := Report(failed - 1, Failure, 0);
      Extend(c, states, acts, a);
      states, acts := states + [After(c, states[|acts|], a)], acts + [a];
    }
  }

  /**
   For every configuration there is a run, on an orderly clock, in which requests admitted while the
   circuit was closed close it again, after it opened, while the only trial is still out.
   */
  lemma LateReportsMayClose(c: Config) returns (states: seq<Named>, acts: seq<Act>, m: nat)
    requires Loaded(c)
    ensures NamedRun(c, states, acts) && m < |acts| && HalfOpens(c, states, acts, m)
    ensures ClosesWithoutTrials(c, states, acts, m, |acts| - 1) && acts[m].id in states[|acts|].out
    ensures Monotone(states[0].breaker.windowStarted, ErasedActs(acts))
  {
    var k := c.failures + c.successesToClose;
    states, acts := FailFirst(c, k, c.failures);
    m := |acts|;
    var trial := Ask(k, c.cooldown);
    Extend(c, states, acts, trial);
    states, acts := states + [After(c, states[m], trial)], acts + [trial];
    var ss, aa := ClosesOnLateReports(c, states, acts, m);
    assert ss[m] == states[m] && aa[m] == acts[m];
    states, acts := ss, aa;
  }
}
