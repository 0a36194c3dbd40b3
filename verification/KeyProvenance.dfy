/** Where a key handed out after a successful refresh comes from (auth/jwks.rs, `key_for` and `refresh`). */
module KeyProvenance {
  import opened Prelude
  import opened KeyRefresh

  /** At step `i` the task finds, on looking again, that the set is fresh. */
  ghost predicate LooksFresh(states: seq<System>, steps: seq<Step>, i: nat, t: Task)
    requires i < |steps| && i < |states|
  {
    steps[i] == LookAgain(t) && Fresh(states[i].shared.inner, states[i].now)
  }

  /** At step `i` a leader announces that its refresh succeeded. */
  ghost predicate Announces(s: System, step: Step) {
    step.Send? && step.task in s.tasks && s.tasks[step.task].Sending? && s.tasks[step.task].outcome == Refreshed
  }

  lemma StepSucceeds(s: System, step: Step, policy: Policy, t: Task)
    requires Enabled(s, step)
    requires var n := Next(s, step, policy); t in n.tasks && n.tasks[t].Succeeded?
    requires t in s.tasks ==> !s.tasks[t].Succeeded?
    ensures t in s.tasks
    ensures || (step == LookAgain(t) && Fresh(s.shared.inner, s.now))
            || (step == Send(t) && Announces(s, step))
            || (step == Receive(t) && s.tasks[t].Waiting? && s.tasks[t].on in s.shared.sent && s.shared.sent[s.tasks[t].on] == Some(Refreshed))
  {
    hide StaleKey, KeyIn, Announced, Installed, Interrupted;
  }

  lemma StepAnnounces(s: System, step: Step, policy: Policy, channel: Channel)
    requires Enabled(s, step) && channel in s.shared.sent
    ensures var n := Next(s, step, policy);
            channel in n.shared.sent &&
            (n.shared.sent[channel] == Some(Refreshed) && s.shared.sent[channel] != Some(Refreshed) ==> Announces(s, step))
  {
    hide StaleKey, KeyIn;
  }

  lemma StepSettles(s: System, step: Step, policy: Policy, u: Task, outcome: Outcome)
    requires Enabled(s, step)
    requires var n := Next(s, step, policy); u in n.tasks && HoldsOutcome(n.tasks[u], outcome)
    ensures step == Ending(u, outcome) || (u in s.tasks && HoldsOutcome(s.tasks[u], outcome))
  {
    hide StaleKey, KeyIn, Announced, Installed, Interrupted;
  }

  /** A leader whose fetch has ended and whose outcome is not yet announced. */
  predicate HoldsOutcome(pc: Pc, outcome: Outcome) {
    (pc.Settling? || pc.Sending?) && pc.outcome == outcome
  }

  /** The step that ends a leader's fetch with this outcome. */
  function Ending(u: Task, outcome: Outcome): Step {
    if outcome == Refreshed then Install(u) else FetchFails(u)
  }

  lemma StepBeginsWait(s: System, step: Step, policy: Policy, t: Task)
    requires FlightInv(s) && Enabled(s, step)
    requires var n := Next(s, step, policy); t in n.tasks && n.tasks[t].Waiting? && (t in s.tasks ==> s.tasks[t] != n.tasks[t])
    ensures var n := Next(s, step, policy);
            t in s.tasks && n.tasks[t].on in n.shared.sent && n.shared.sent[n.tasks[t].on].None?
  {
    WaiterStartsServed(s, step, policy, t);
    SlotSenderStaysUnused(s, step, policy);
    hide StaleKey, KeyIn, Fresh, FlightInv;
  }

  /** What a leader announces is how its own fetch ended: a set installed, or a failure. */
  lemma {:induction false} OutcomeWhence(states: seq<System>, steps: seq<Step>, j: nat, u: Task, outcome: Outcome, policy: Policy) returns (k: nat)
    requires Execution(states, steps, policy) && j < |states| && u in states[j].tasks && HoldsOutcome(states[j].tasks[u], outcome)
    ensures k < j && k < |steps| && steps[k] == Ending(u, outcome)
  {
    hide Next, Enabled, Ending;
    k := j - 1;
    StepAt(states, steps, j - 1, policy);
    StepSettles(states[j - 1], steps[j - 1], policy, u, outcome);
    if steps[j - 1] != Ending(u, outcome) {
      k := OutcomeWhence(states, steps, j - 1, u, outcome, policy);
    }
  }

  lemma {:induction false} WaitingSince(states: seq<System>, steps: seq<Step>, j: nat, t: Task, policy: Policy) returns (w: nat)
    requires Execution(states, steps, policy) && j < |states| && t in states[j].tasks && states[j].tasks[t].Waiting?
    ensures 0 < w <= j && t in states[w - 1].tasks
    ensures states[j].tasks[t].on in states[w].shared.sent && states[w].shared.sent[states[j].tasks[t].on].None?
  {
    hide Next, Enabled;
    w := j;
    StepAt(states, steps, j - 1, policy);
    ExecutionKeepsFlight(states, steps, j - 1, policy);
    if t in states[j - 1].tasks && states[j - 1].tasks[t] == states[j].tasks[t] {
      w := WaitingSince(states, steps, j - 1, t, policy);
    } else {
      StepBeginsWait(states[j - 1], steps[j - 1], policy, t);
    }
  }

  lemma {:induction false} AnnouncedBetween(states: seq<System>, steps: seq<Step>, w: nat, j: nat, channel: Channel, policy: Policy) returns (i: nat)
    requires Execution(states, steps, policy) && w <= j < |states|
    requires channel in states[w].shared.sent && states[w].shared.sent[channel].None?
    ensures channel in states[j].shared.sent
    ensures states[j].shared.sent[channel] == Some(Refreshed) ==> w <= i < j && i < |steps| && Announces(states[i], steps[i])
    decreases j - w
  {
    hide Next, Enabled, Announces;
    i := w;
    if w < j {
      i := AnnouncedBetween(states, steps, w, j - 1, channel, policy);
      StepAt(states, steps, j - 1, policy);
      StepAnnounces(states[j - 1], steps[j - 1], policy, channel);
      if states[j - 1].shared.sent[channel] != Some(Refreshed) {
        i := j - 1;
      }
    }
  }

  lemma {:induction false} TaskStays(states: seq<System>, steps: seq<Step>, i: nat, j: nat, t: Task, policy: Policy)
    requires Execution(states, steps, policy) && i <= j < |states| && t in states[i].tasks
    ensures t in states[j].tasks && states[i].installs <= states[j].installs
    decreases j - i
  {
    if i < j {
      TaskStays(states, steps, i, j - 1, t, policy);
      StepAt(states, steps, j - 1, policy);
      hide Execution, StaleKey, KeyIn, Announced, Installed, Interrupted;
    }
  }

  lemma {:induction false} RefreshedWhence(states: seq<System>, steps: seq<Step>, j: nat, t: Task, policy: Policy) returns (i: nat)
    requires Execution(states, steps, policy) && j < |states| && t in states[j].tasks && states[j].tasks[t].Succeeded?
    ensures i < j && i < |steps| && t in states[i].tasks && (LooksFresh(states, steps, i, t) || Announces(states[i], steps[i]))
  {
    hide Next, Enabled;
    i := j - 1;
    StepAt(states, steps, j - 1, policy);
    var s := states[j - 1];
    if t in s.tasks && s.tasks[t].Succeeded? {
      i := RefreshedWhence(states, steps, j - 1, t, policy);
    } else {
      StepSucceeds(s, steps[j - 1], policy, t);
      if steps[j - 1] == Receive(t) {
        var w := WaitingSince(states, steps, j - 1, t, policy);
        i := AnnouncedBetween(states, steps, w, j - 1, s.tasks[t].on, policy);
        TaskStays(states, steps, w - 1, i, t, policy);
      }
    }
  }

  /**
   A key handed out after a successful refresh belongs to a set that was fresh when its own task looked
   again, or to the set installed by a refresh that ended during its call, or to a later set.
   */
  lemma AfterRefreshWhence(states: seq<System>, steps: seq<Step>, j: nat, t: Task, policy: Policy) returns (i: nat, k: nat)
    requires Execution(states, steps, policy) && j < |steps| && steps[j] == Answer(t) && states[j].tasks[t].Succeeded?
    ensures i < j && t in states[i].tasks && k <= i && |states| == |steps| + 1
    ensures (k == i && LooksFresh(states, steps, i, t)) || (Announces(states[i], steps[i]) && steps[k] == Install(steps[i].task))
    ensures states[k + 1].installs <= states[j].installs
    ensures ServesFrom(states[j], states[j + 1], |states[k + 1].installs|)
  {
    hide Next, LooksFresh;
    StepAt(states, steps, j, policy);
    i := RefreshedWhence(states, steps, j, t, policy);
    k := i;
    if !LooksFresh(states, steps, i, t) {
      k := OutcomeWhence(states, steps, i, steps[i].task, Refreshed, policy);
    }
    InstallsGrow(states, steps, k + 1, j, policy);
    ExecutionKeepsKeys(states, steps, j, policy);
    assert LatestIsCached(states[j]);
    AnswerServes(states[j], t, policy, |states[k + 1].installs|);
  }

  /** A step hands out no key, or one key of a set no older than the `least`th installed. */
  ghost predicate ServesFrom(before: System, after: System, least: nat) {
    after.served == before.served ||
      (&& |after.served| == |before.served| + 1 && before.served <= after.served
       && var e := after.served[|before.served|];
       && e.how == AfterRefresh && 0 < e.generation && least <= e.generation <= |before.installs|
       && var set_ := before.installs[e.generation - 1];
       && e.kid in set_.keys && e.key == set_.keys[e.kid])
  }

  lemma AnswerServes(s: System, t: Task, policy: Policy, least: nat)
    requires LatestIsCached(s) && Enabled(s, Answer(t)) && s.tasks[t].Succeeded? && least <= |s.installs|
    ensures ServesFrom(s, Next(s, Answer(t), policy), least)
  {
  }

  lemma {:induction false} InstallsGrow(states: seq<System>, steps: seq<Step>, i: nat, j: nat, policy: Policy)
    requires Execution(states, steps, policy) && i <= j < |states|
    ensures states[i].installs <= states[j].installs
    decreases j - i
  {
    if i < j {
      InstallsGrow(states, steps, i, j - 1, policy);
      StepAt(states, steps, j - 1, policy);
      hide Execution, StaleKey, KeyIn, Announced, Installed, Interrupted;
    }
  }
}
