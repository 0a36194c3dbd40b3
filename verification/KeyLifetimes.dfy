/** How long a fetched key set is used, and exactly what each caller gets (auth/jwks.rs). */
module KeyLifetimes {
  import opened Prelude
  import opened KeyRefresh
  import opened KeyProvenance

  /** At step `i` a set fetched with this lifetime is installed as the `generation`th. */
  ghost predicate InstallsAt(states: seq<System>, steps: seq<Step>, i: nat, generation: nat, keys: map<Kid, Key>, ttl: nat) {
    && i < |steps| && i < |states| && steps[i].Install? && steps[i].task in states[i].tasks
    && states[i].tasks[steps[i].task].Installing?
    && states[i].tasks[steps[i].task].keys == keys && states[i].tasks[steps[i].task].ttl == ttl
    && |states[i].installs| + 1 == generation
  }

  /** When the set installed at `at` for `ttl` stops being fresh: a lifetime that ends beyond all time is none. */
  function EndOf(at: nat, ttl: nat): nat {
    if at + ttl <= INSTANT_MAX then at + ttl else at
  }

  lemma StepInstalls(s: System, step: Step, policy: Policy)
    requires Enabled(s, step)
    ensures var n := Next(s, step, policy);
            if step.Install? then
              && s.tasks[step.task].Installing?
              && n.installs == s.installs + [Cached(s.tasks[step.task].keys, EndOf(s.now, s.tasks[step.task].ttl))]
            else n.installs == s.installs
    ensures Next(s, step, policy).now == s.now + if step.Elapse? then step.nanos else 0
  {
    hide StaleKey, KeyIn, Announced, Interrupted, Fresh, Joined, Taken;
  }

  lemma {:induction false} TimePasses(states: seq<System>, steps: seq<Step>, i: nat, j: nat, policy: Policy)
    requires Execution(states, steps, policy) && i <= j <= |steps|
    ensures |states| == |steps| + 1 && states[i].now <= states[j].now
    decreases j - i
  {
    hide *;
    if i < j {
      TimePasses(states, steps, i, j - 1, policy);
      StepAt(states, steps, j - 1, policy);
      StepInstalls(states[j - 1], steps[j - 1], policy);
    } else {
      Shape(states, steps, policy);
    }
  }

  lemma Shape(states: seq<System>, steps: seq<Step>, policy: Policy)
    requires Execution(states, steps, policy)
    ensures |states| == |steps| + 1 && states[0].installs == [] && states[0].tasks == map[]
  {
  }

  /** Every set was installed by some step, and is fresh until its lifetime from then is over. */
  lemma {:induction false} InstalledBy(states: seq<System>, steps: seq<Step>, j: nat, generation: nat, policy: Policy) returns (i: nat)
    requires Execution(states, steps, policy) && j <= |steps| && 0 < generation <= |states[j].installs|
    ensures i < j && i < |states|
    ensures var set_ := states[j].installs[generation - 1];
            exists ttl: nat :: InstallsAt(states, steps, i, generation, set_.keys, ttl) && set_.expiresAt == EndOf(states[i].now, ttl)
  {
    hide *;
    Shape(states, steps, policy);
    i := j - 1;
    StepAt(states, steps, j - 1, policy);
    StepInstalls(states[j - 1], steps[j - 1], policy);
    if generation <= |states[j - 1].installs| {
      i := InstalledBy(states, steps, j - 1, generation, policy);
      assert states[j].installs[generation - 1] == states[j - 1].installs[generation - 1];
    } else {
      InstallingNow(states, steps, j - 1, policy);
    }
  }

  lemma InstallingNow(states: seq<System>, steps: seq<Step>, i: nat, policy: Policy)
    requires i < |steps| && i < |states| && Enabled(states[i], steps[i]) && steps[i].Install?
    ensures var pc := states[i].tasks[steps[i].task];
            pc.Installing? && InstallsAt(states, steps, i, |states[i].installs| + 1, pc.keys, pc.ttl)
  {
  }

  lemma StepFetches(s: System, step: Step, policy: Policy, t: Task)
    requires Enabled(s, step)
    requires var n := Next(s, step, policy); t in n.tasks && n.tasks[t].Installing?
    ensures var n := Next(s, step, policy);
            || (t in s.tasks && s.tasks[t] == n.tasks[t])
            || (step.FetchOk? && step.task == t && n.tasks[t].keys == step.keys && n.tasks[t].ttl == KeySetTtl(step.maxAge, policy.minTtl))
  {
    hide StaleKey, KeyIn, Announced, Installed, Interrupted, Fresh, Joined, Taken, KeySetTtl;
  }

  /** A set about to be installed was fetched by the same task, with the lifetime its endpoint's answer allows. */
  lemma {:induction false} FetchedBefore(states: seq<System>, steps: seq<Step>, j: nat, t: Task, policy: Policy) returns (f: nat)
    requires Execution(states, steps, policy) && j <= |steps| && t in states[j].tasks && states[j].tasks[t].Installing?
    ensures f < j && steps[f].FetchOk? && steps[f].task == t
    ensures states[j].tasks[t].keys == steps[f].keys && states[j].tasks[t].ttl == KeySetTtl(steps[f].maxAge, policy.minTtl)
  {
    hide *;
    Shape(states, steps, policy);
    f := j - 1;
    StepAt(states, steps, j - 1, policy);
    StepFetches(states[j - 1], steps[j - 1], policy, t);
    if t in states[j - 1].tasks && states[j - 1].tasks[t] == states[j].tasks[t] {
      f := FetchedBefore(states, steps, j - 1, t, policy);
    }
  }

  /**
   A set lasts as long as its endpoint and its operator allow, from the moment it was installed.  For every
   set there is the fetch it came from and the step that installed it; the lifetime is the endpoint's,
   brought between the operator's minimum and a day or that minimum; and the set is fresh at exactly the
   moments before its end, at none if the end is beyond all time.
   */
  lemma SetsLastTheirLifetime(states: seq<System>, steps: seq<Step>, j: nat, generation: nat, policy: Policy, moment: nat)
    returns (f: nat, i: nat, ttl: nat)
    requires Execution(states, steps, policy) && j <= |steps| && 0 < generation <= |states[j].installs|
    ensures f < i < j && i < |states|
    ensures steps[f].FetchOk? && steps[i] == Install(steps[f].task)
    ensures var asked := if steps[f].maxAge.Some? then steps[f].maxAge.value else policy.minTtl;
            var most := if 86_400_000_000_000 < policy.minTtl then policy.minTtl else 86_400_000_000_000;
            ttl == if asked < policy.minTtl then policy.minTtl else if most < asked then most else asked
    ensures |states[i].installs| + 1 == generation
    ensures var set_, at := states[j].installs[generation - 1], states[i].now;
            && set_.keys == steps[f].keys && at <= states[j].now
            && (at <= moment ==> (Fresh(Some(set_), moment) <==> at + ttl <= INSTANT_MAX && moment < at + ttl))
            && set_.expiresAt == if at + ttl <= INSTANT_MAX then at + ttl else at
  {
    hide *;
    Shape(states, steps, policy);
    i := InstalledBy(states, steps, j, generation, policy);
    var set_ := states[j].installs[generation - 1];
    ttl :| InstallsAt(states, steps, i, generation, set_.keys, ttl) && set_.expiresAt == EndOf(states[i].now, ttl);
    InstallerIs(states, steps, i, generation, set_.keys, ttl);
    f := FetchedBefore(states, steps, i, steps[i].task, policy);
    TtlIsClamped(steps[f].maxAge, policy.minTtl);
    TimePasses(states, steps, i, j, policy);
    FreshIs(set_, moment, states[i].now, ttl);
  }

  lemma InstallerIs(states: seq<System>, steps: seq<Step>, i: nat, generation: nat, keys: map<Kid, Key>, ttl: nat)
    requires InstallsAt(states, steps, i, generation, keys, ttl)
    ensures i < |steps| && i < |states| && steps[i].Install? && |states[i].installs| + 1 == generation
    ensures var t := steps[i].task;
            steps[i] == Install(t) && t in states[i].tasks && states[i].tasks[t].Installing?
            && states[i].tasks[t].keys == keys && states[i].tasks[t].ttl == ttl
  {
  }

  lemma FreshIs(set_: Cached, moment: nat, at: nat, ttl: nat)
    requires set_.expiresAt == EndOf(at, ttl)
    ensures at <= moment ==> (Fresh(Some(set_), moment) <==> at + ttl <= INSTANT_MAX && moment < at + ttl)
    ensures set_.expiresAt == if at + ttl <= INSTANT_MAX then at + ttl else at
  {
  }

  // ---------------------------------------------------------------- how long a key is served

  /**
   A key is served as fresh only before the lifetime of its set is over, and so within a day of its
   install, or the operator's minimum if that is longer.  It is served after a failed refresh only within
   the operator's bound from then.
   */
  lemma ServedWithinItsLifetime(states: seq<System>, steps: seq<Step>, j: nat, k: nat, policy: Policy) returns (i: nat, ttl: nat)
    requires Execution(states, steps, policy) && j <= |steps| && k < |states[j].served|
    ensures var e := states[j].served[k]; i < j && i < |states| && steps[i].Install? && |states[i].installs| + 1 == e.generation
    ensures ttl <= Max(86_400_000_000_000, policy.minTtl)
    ensures var e, at := states[j].served[k], states[i].now;
            && (e.how == WhileFresh ==> e.at < at + ttl)
            && (e.how == WhileStale ==> e.at < at + ttl + policy.staleIfError && 0 < policy.staleIfError)
  {
    hide *;
    Shape(states, steps, policy);
    var e := states[j].served[k];
    ServedFromTheLatestSet(states, steps, j, k, policy);
    var f;
    f, i, ttl := SetsLastTheirLifetime(states, steps, j, e.generation, policy, 0);
    AtMost(ttl, policy.minTtl);
  }

  lemma AtMost(ttl: nat, minTtl: nat)
    requires ttl <= 86_400_000_000_000 || ttl <= minTtl
    ensures ttl <= Max(86_400_000_000_000, minTtl)
  {
  }

  // ---------------------------------------------------------------- what each caller gets

  /** The state after `s` with one more key served. */
  ghost predicate ServesKey(s: System, n: System, kid: Kid, how: How) {
    && s.installs != [] && kid in s.installs[|s.installs| - 1].keys
    && n.served == s.served + [Served(kid, s.installs[|s.installs| - 1].keys[kid], |s.installs|, s.now, how)]
  }

  ghost predicate Has(s: System, kid: Kid) {
    s.installs != [] && kid in s.installs[|s.installs| - 1].keys
  }

  /**
   While the latest set is fresh a call is answered from it, the key if it is there and nothing if not, and
   starts no refresh; otherwise it goes on to refresh, and looks once more before it does.
   */
  lemma LooksAreExact(states: seq<System>, steps: seq<Step>, j: nat, t: Task, policy: Policy)
    requires Execution(states, steps, policy) && j < |steps|
    ensures |states| == |steps| + 1
    ensures var s, n := states[j], states[j + 1];
            var fresh_ := s.installs != [] && s.now < s.installs[|s.installs| - 1].expiresAt;
            && (steps[j] == Look(t) ==>
                  && t in s.tasks && s.tasks[t].Starting? && t in n.tasks
                  && var kid := s.tasks[t].kid;
                     if fresh_ then n.tasks[t] == Done && (if Has(s, kid) then ServesKey(s, n, kid, WhileFresh) else n.served == s.served)
                     else n.tasks[t] == Refreshing(kid) && n.served == s.served)
            && (steps[j] == LookAgain(t) ==>
                  && t in s.tasks && s.tasks[t].Refreshing? && t in n.tasks && n.served == s.served
                  && n.tasks[t] == if fresh_ then Succeeded(s.tasks[t].kid) else Joining(s.tasks[t].kid))
  {
    hide *;
    StepAt(states, steps, j, policy);
    ExecutionKeepsKeys(states, steps, j, policy);
    LatestIs(states[j], policy);
    if steps[j] == Look(t) || steps[j] == LookAgain(t) {
      LookIs(states[j], t, steps[j], policy);
    }
  }

  lemma LatestIs(s: System, policy: Policy)
    requires KeyInv(s, policy)
    ensures LatestIsCached(s)
  {
  }

  lemma LookIs(s: System, t: Task, step: Step, policy: Policy)
    requires LatestIsCached(s) && (step == Look(t) || step == LookAgain(t)) && Enabled(s, step)
    ensures var n := Next(s, step, policy);
            var fresh_ := s.installs != [] && s.now < s.installs[|s.installs| - 1].expiresAt;
            && (step == Look(t) ==>
                  && t in s.tasks && s.tasks[t].Starting? && t in n.tasks
                  && var kid := s.tasks[t].kid;
                     if fresh_ then n.tasks[t] == Done && (if Has(s, kid) then ServesKey(s, n, kid, WhileFresh) else n.served == s.served)
                     else n.tasks[t] == Refreshing(kid) && n.served == s.served)
            && (step == LookAgain(t) ==>
                  && t in s.tasks && s.tasks[t].Refreshing? && t in n.tasks && n.served == s.served
                  && n.tasks[t] == if fresh_ then Succeeded(s.tasks[t].kid) else Joining(s.tasks[t].kid))
  {
  }

  /**
   A call that had to refresh gets the latest set's key if the refresh succeeded.  If it failed it gets the
   key only under an operator's bound that is not over, and never a key that set does not hold.
   */
  lemma AnswersAreExact(states: seq<System>, steps: seq<Step>, j: nat, t: Task, policy: Policy)
    requires Execution(states, steps, policy) && j < |steps| && steps[j] == Answer(t)
    ensures |states| == |steps| + 1 && t in states[j].tasks && (states[j].tasks[t].Succeeded? || states[j].tasks[t].Erred?)
    ensures var s, n := states[j], states[j + 1];
            var kid := s.tasks[t].kid;
            if s.tasks[t].Succeeded? then
              if Has(s, kid) then ServesKey(s, n, kid, AfterRefresh) else n.served == s.served
            else if && Has(s, kid) && 0 < policy.staleIfError
                    && s.installs[|s.installs| - 1].expiresAt + policy.staleIfError <= INSTANT_MAX
                    && s.now < s.installs[|s.installs| - 1].expiresAt + policy.staleIfError
            then ServesKey(s, n, kid, WhileStale)
            else n.served == s.served
  {
    hide *;
    StepAt(states, steps, j, policy);
    ExecutionKeepsKeys(states, steps, j, policy);
    LatestIs(states[j], policy);
    AnswerIs(states[j], t, policy);
  }

  lemma AnswerIs(s: System, t: Task, policy: Policy)
    requires LatestIsCached(s) && Enabled(s, Answer(t))
    ensures t in s.tasks && (s.tasks[t].Succeeded? || s.tasks[t].Erred?)
    ensures var n := Next(s, Answer(t), policy);
            var kid := s.tasks[t].kid;
            if s.tasks[t].Succeeded? then
              if Has(s, kid) then ServesKey(s, n, kid, AfterRefresh) else n.served == s.served
            else if && Has(s, kid) && 0 < policy.staleIfError
                    && s.installs[|s.installs| - 1].expiresAt + policy.staleIfError <= INSTANT_MAX
                    && s.now < s.installs[|s.installs| - 1].expiresAt + policy.staleIfError
            then ServesKey(s, n, kid, WhileStale)
            else n.served == s.served
  {
  }

  lemma OthersServeNothing(s: System, step: Step, policy: Policy)
    requires Enabled(s, step) && !step.Look? && !step.Answer?
    ensures Next(s, step, policy).served == s.served
  {
    hide StaleKey, KeyIn, Announced, Interrupted, Fresh, Joined, Taken, Installed;
  }

  /**
   No refresh while a set lasts: a call that looks before the lifetime of the latest set is over, with no
   other set installed in between, is answered at once.
   */
  lemma NoRefreshWhileItLasts(states: seq<System>, steps: seq<Step>, i: nat, keys: map<Kid, Key>, ttl: nat, j: nat, t: Task, policy: Policy)
    requires Execution(states, steps, policy) && i < j < |steps| && InstallsAt(states, steps, i, |states[i].installs| + 1, keys, ttl)
    requires NoInstall(steps, i + 1, j) && steps[j] == Look(t)
    requires states[i].now + ttl <= INSTANT_MAX && states[j].now < states[i].now + ttl
    ensures |states| == |steps| + 1 && t in states[j].tasks && states[j].tasks[t].Starting?
    ensures t in states[j + 1].tasks && states[j + 1].tasks[t] == Done
    ensures var kid := states[j].tasks[t].kid;
            states[j + 1].served ==
              if kid in keys then states[j].served + [Served(kid, keys[kid], |states[i].installs| + 1, states[j].now, WhileFresh)]
              else states[j].served
  {
    hide *;
    StepAt(states, steps, i, policy);
    InstallerIs(states, steps, i, |states[i].installs| + 1, keys, ttl);
    StepInstalls(states[i], steps[i], policy);
    InstallsStay(states, steps, i + 1, j, policy);
    EndIs(states[i].now, ttl);
    LooksAreExact(states, steps, j, t, policy);
    HasIs(states[j], states[j].tasks[t].kid);
    ServesKeyIs(states[j], states[j + 1], states[j].tasks[t].kid, WhileFresh);
  }

  lemma EndIs(at: nat, ttl: nat)
    requires at + ttl <= INSTANT_MAX
    ensures EndOf(at, ttl) == at + ttl
  {
  }

  lemma HasIs(s: System, kid: Kid)
    ensures Has(s, kid) <==> s.installs != [] && kid in s.installs[|s.installs| - 1].keys
  {
  }

  lemma ServesKeyIs(s: System, n: System, kid: Kid, how: How)
    requires ServesKey(s, n, kid, how)  || !Has(s, kid)
    ensures Has(s, kid) ==> n.served == s.served + [Served(kid, s.installs[|s.installs| - 1].keys[kid], |s.installs|, s.now, how)]
  {
  }

  lemma {:induction false} InstallsStay(states: seq<System>, steps: seq<Step>, i: nat, j: nat, policy: Policy)
    requires Execution(states, steps, policy) && i <= j <= |steps| && NoInstall(steps, i, j)
    ensures |states| == |steps| + 1 && states[j].installs == states[i].installs
    decreases j - i
  {
    hide *;
    Shape(states, steps, policy);
    if i < j {
      NoInstallBefore(steps, i, j);
      InstallsStay(states, steps, i, j - 1, policy);
      StepAt(states, steps, j - 1, policy);
      NotAnInstall(steps, i, j);
      StepInstalls(states[j - 1], steps[j - 1], policy);
    }
  }

  lemma NotAnInstall(steps: seq<Step>, i: nat, j: nat)
    requires i < j <= |steps| && NoInstall(steps, i, j)
    ensures !steps[j - 1].Install?
  {
  }

  // ---------------------------------------------------------------- sharing an outcome

  /** A message is sent once: what a channel has said it goes on saying. */
  lemma MessagesStay(s: System, step: Step, policy: Policy, channel: Channel)
    requires FlightInv(s) && Enabled(s, step) && channel in s.shared.sent && s.shared.sent[channel].Some?
    ensures var n := Next(s, step, policy); channel in n.shared.sent && n.shared.sent[channel] == s.shared.sent[channel]
  {
    hide StaleKey, KeyIn, Fresh, WaitersServed, OneLeader;
  }

  lemma {:induction false} MessagesLast(states: seq<System>, steps: seq<Step>, i: nat, j: nat, channel: Channel, policy: Policy)
    requires Execution(states, steps, policy) && i <= j <= |steps|
    requires channel in states[i].shared.sent && states[i].shared.sent[channel].Some?
    ensures |states| == |steps| + 1 && channel in states[j].shared.sent && states[j].shared.sent[channel] == states[i].shared.sent[channel]
    decreases j - i
  {
    hide *;
    Shape(states, steps, policy);
    if i < j {
      MessagesLast(states, steps, i, j - 1, channel, policy);
      StepAt(states, steps, j - 1, policy);
      ExecutionKeepsFlight(states, steps, j - 1, policy);
      MessagesStay(states[j - 1], steps[j - 1], policy, channel);
    }
  }

  /**
   Waiters share their leader's outcome: a task that waited on the channel a leader announced on goes on as
   that leader does, with the key if the fetch was installed and with the failure if it failed.
   */
  lemma WaitersShareTheOutcome(states: seq<System>, steps: seq<Step>, i: nat, u: Task, j: nat, t: Task, policy: Policy) returns (k: nat)
    requires Execution(states, steps, policy) && i < j < |steps| && steps[i] == Send(u) && steps[j] == Receive(t)
    requires states[i].tasks[u].taken == Some(states[j].tasks[t].on)
    ensures |states| == |steps| + 1 && u in states[i].tasks && states[i].tasks[u].Sending? && t in states[j].tasks && states[j].tasks[t].Waiting?
    ensures u in states[i + 1].tasks && t in states[j + 1].tasks
    ensures k < i && (steps[k] == Install(u) || steps[k] == FetchFails(u))
    ensures if steps[k] == Install(u)
            then states[i + 1].tasks[u] == Succeeded(states[i].tasks[u].kid) && states[j + 1].tasks[t] == Succeeded(states[j].tasks[t].kid)
            else states[i + 1].tasks[u] == Erred(states[i].tasks[u].kid) && states[j + 1].tasks[t] == Erred(states[j].tasks[t].kid)
  {
    hide *;
    StepAt(states, steps, i, policy);
    StepAt(states, steps, j, policy);
    SendIs(states[i], u, policy);
    ReceiveIs(states[j], t, policy);
    MessagesLast(states, steps, i + 1, j, states[j].tasks[t].on, policy);
    k := OutcomeWhence(states, steps, i, u, states[i].tasks[u].outcome, policy);
    EndingIs(u, states[i].tasks[u].outcome);
  }

  lemma SendIs(s: System, u: Task, policy: Policy)
    requires Enabled(s, Send(u))
    ensures u in s.tasks && s.tasks[u].Sending? && HoldsOutcome(s.tasks[u], s.tasks[u].outcome)
    ensures var n := Next(s, Send(u), policy);
            && u in n.tasks && n.tasks[u] == (if s.tasks[u].outcome == Refreshed then Succeeded(s.tasks[u].kid) else Erred(s.tasks[u].kid))
            && (s.tasks[u].taken.Some? ==>
                  s.tasks[u].taken.value in n.shared.sent && n.shared.sent[s.tasks[u].taken.value] == Some(s.tasks[u].outcome))
  {
  }

  lemma ReceiveIs(s: System, t: Task, policy: Policy)
    requires Enabled(s, Receive(t))
    ensures t in s.tasks && s.tasks[t].Waiting? && s.tasks[t].on in s.shared.sent
    ensures var n := Next(s, Receive(t), policy);
            t in n.tasks && n.tasks[t] == if s.shared.sent[s.tasks[t].on] == Some(Refreshed) then Succeeded(s.tasks[t].kid) else Erred(s.tasks[t].kid)
  {
  }

  lemma EndingIs(u: Task, outcome: Outcome)
    ensures if outcome == Refreshed then Ending(u, outcome) == Install(u) else Ending(u, outcome) == FetchFails(u)
  {
  }
}
