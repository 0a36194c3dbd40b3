/**
 Signing keys cached with a single refresh in flight (auth/jwks.rs).

 Requests are tasks with a program counter.  A task may be overtaken by any other between two of its
 steps, and may be cancelled at every point where the program awaits; a cancelled leader's guard then
 runs.
 */
module KeyRefresh {
  import opened Prelude

  type Kid = string
  type Key = seq<char>
  type Channel = nat
  type Task = nat

  /** The last representable moment, in nanoseconds. */
  const INSTANT_MAX: nat := 0x8000_0000_0000_0000 * 1_000_000_000
  const MAX_KEY_TTL: nat := 24 * 60 * 60 * 1_000_000_000

  datatype Cached = Cached(keys: map<Kid, Key>, expiresAt: nat)

  datatype Outcome = Refreshed | Failed

  /** What the tasks share: the cached set, the in-flight slot and the one-shot broadcasts. */
  datatype Shared = Shared(inner: Option<Cached>, slot: Option<Channel>, sent: map<Channel, Option<Outcome>>)

  /** The operator's settings: the shortest lifetime of a key set, and how long it may be used after a failed refresh. */
  datatype Policy = Policy(minTtl: nat, staleIfError: nat)

  datatype Role = Wait(on: Channel) | Lead(with: Channel)

  // ---------------------------------------------------------------- the cache's own steps

  function KeySetTtl(maxAge: Option<nat>, minTtl: nat): nat {
    var asked := if maxAge.Some? then maxAge.value else minTtl;
    Max(Min(asked, Max(MAX_KEY_TTL, minTtl)), minTtl)
  }

  /**
   The endpoint's own lifetime is honoured between the operator's minimum and a day, or the minimum if that
   is more; outside this range the nearer end is taken, and without one the minimum.
   */
  lemma TtlIsClamped(maxAge: Option<nat>, minTtl: nat)
    ensures var day := 86_400_000_000_000;
            var most := if day < minTtl then minTtl else day;
            var asked := if maxAge.Some? then maxAge.value else minTtl;
            KeySetTtl(maxAge, minTtl) == if asked < minTtl then minTtl else if most < asked then most else asked
  {
  }

  predicate Fresh(inner: Option<Cached>, now: nat) {
    inner.Some? && now < inner.value.expiresAt
  }

  function Joined(sh: Shared, channel: Channel): (Shared, Role) {
    if sh.slot.Some? then (sh, Wait(sh.slot.value))
    else (sh.(slot := Some(channel), sent := sh.sent[channel := None]), Lead(channel))
  }

  function Installed(sh: Shared, keys: map<Kid, Key>, ttl: nat, now: nat): Shared {
    sh.(inner := Some(Cached(keys, if now + ttl <= INSTANT_MAX then now + ttl else now)))
  }

  function Taken(sh: Shared): (Shared, Option<Channel>) {
    (sh.(slot := None), sh.slot)
  }

  function Announced(sh: Shared, channel: Option<Channel>, outcome: Outcome): Shared {
    if channel.Some? then sh.(sent := sh.sent[channel.value := Some(outcome)]) else sh
  }

  /** The guard of a leader that never reached the end: whatever sender is in the slot is told of the failure. */
  function Interrupted(sh: Shared): Shared {
    Announced(Taken(sh).0, Taken(sh).1, Failed)
  }

  /** The key if the set may be used: still fresh, or after a failed refresh within the operator's bound. */
  function StaleKey(inner: Option<Cached>, kid: Kid, now: nat, staleIfError: nat): Option<Key> {
    if staleIfError == 0 || inner.None? then None
    else if kid !in inner.value.keys then None
    else
      var until := inner.value.expiresAt + staleIfError;
      if until <= INSTANT_MAX && now < until then Some(inner.value.keys[kid]) else None
  }

  function KeyIn(inner: Option<Cached>, kid: Kid): Option<Key> {
    if inner.Some? && kid in inner.value.keys then Some(inner.value.keys[kid]) else None
  }

  class CertCache {
    var inner: Option<Cached>
    var inflight: Option<Channel>
    var sent: map<Channel, Option<Outcome>>
    const minTtl: nat
    const staleIfError: nat

    function View(): Shared
      reads this
    {
      Shared(inner, inflight, sent)
    }

    constructor (minTtl: nat, staleIfError: nat)
      ensures View() == Shared(None, None, map[])
      ensures this.minTtl == minTtl && this.staleIfError == staleIfError
    {
      inner, inflight, sent := None, None, map[];
      this.minTtl, this.staleIfError := minTtl, staleIfError;
    }

    /** Under the slot's lock: subscribe to the refresh in flight, or become its leader. */
    method Join(channel: Channel) returns (role: Role)
      modifies this`inflight, this`sent
      ensures (View(), role) == Joined(old(View()), channel)
    {
      if inflight.Some? {
        role := Wait(inflight.value);
      } else {
        inflight := Some(channel);
        sent := sent[channel := None];
        role := Lead(channel);
      }
    }

    method Install(keys: map<Kid, Key>, maxAge: Option<nat>, now: nat)
      modifies this`inner
      ensures View() == Installed(old(View()), keys, KeySetTtl(maxAge, minTtl), now)
    {
      var ttl := KeySetTtl(maxAge, minTtl);
      inner := Some(Cached(keys, if now + ttl <= INSTANT_MAX then now + ttl else now));
    }

    /** Under the slot's lock: the leader disarms its guard and takes the sender out. */
    method Take() returns (channel: Option<Channel>)
      modifies this`inflight
      ensures (View(), channel) == Taken(old(View()))
    {
      channel := inflight;
      inflight := None;
    }

    method Announce(channel: Option<Channel>, outcome: Outcome)
      modifies this`sent
      ensures View() == Announced(old(View()), channel, outcome)
    {
      if channel.Some? {
        sent := sent[channel.value := Some(outcome)];
      }
    }

    /** The guard's drop. */
    method Interrupt()
      modifies this`inflight, this`sent
      ensures View() == Interrupted(old(View()))
    {
      var channel := Take();
      Announce(channel, Failed);
    }
  }

  // ---------------------------------------------------------------- tasks

  datatype Pc =
    | Starting(kid: Kid)
    | Refreshing(kid: Kid)
    | Joining(kid: Kid)
    | Waiting(kid: Kid, on: Channel)
    | Fetching(kid: Kid, with: Channel)
    | Installing(kid: Kid, with: Channel, keys: map<Kid, Key>, ttl: nat)
    | Settling(kid: Kid, with: Channel, outcome: Outcome)
    | Sending(kid: Kid, taken: Option<Channel>, outcome: Outcome)
    | Succeeded(kid: Kid)
    | Erred(kid: Kid)
    | Done

  datatype How = WhileFresh | AfterRefresh | WhileStale

  /** A key handed to a caller, and how many sets had been installed by then. */
  datatype Served = Served(kid: Kid, key: Key, generation: nat, at: nat, how: How)

  datatype System = System(
    now: nat,
    shared: Shared,
    tasks: map<Task, Pc>,
    installs: seq<Cached>,
    served: seq<Served>)

  datatype Step =
    | Elapse(nanos: nat)
    | Call(task: Task, kid: Kid)
    | Look(task: Task)
    | LookAgain(task: Task)
    | Join(task: Task, channel: Channel)
    | FetchOk(task: Task, keys: map<Kid, Key>, maxAge: Option<nat>)
    | FetchFails(task: Task)
    | Install(task: Task)
    | Settle(task: Task)
    | Send(task: Task)
    | Receive(task: Task)
    | Abandoned(task: Task)
    | Answer(task: Task)
    | Cancel(task: Task)

  /** A leader whose guard would still fire. */
  predicate Armed(pc: Pc) {
    pc.Fetching? || pc.Installing? || pc.Settling?
  }

  /** Where the program awaits, and so where a task can be dropped. */
  predicate AtAwait(pc: Pc) {
    !pc.Joining? && !pc.Settling? && !pc.Sending? && !pc.Done?
  }

  /** The channel's sender still exists: in the slot, or in the hands of a task about to send. */
  ghost predicate SenderAlive(s: System, channel: Channel) {
    s.shared.slot == Some(channel) || exists t :: t in s.tasks && s.tasks[t].Sending? && s.tasks[t].taken == Some(channel)
  }

  ghost predicate Enabled(s: System, step: Step) {
    match step
    case Elapse(_) => true
    case Call(t, _) => t !in s.tasks
    case Look(t) => t in s.tasks && s.tasks[t].Starting?
    case LookAgain(t) => t in s.tasks && s.tasks[t].Refreshing?
    case Join(t, channel) => t in s.tasks && s.tasks[t].Joining? && channel !in s.shared.sent
    case FetchOk(t, keys, _) => t in s.tasks && s.tasks[t].Fetching? && keys != map[]
    case FetchFails(t) => t in s.tasks && s.tasks[t].Fetching?
    case Install(t) => t in s.tasks && s.tasks[t].Installing?
    case Settle(t) => t in s.tasks && s.tasks[t].Settling?
    case Send(t) => t in s.tasks && s.tasks[t].Sending?
    case Receive(t) =>
      t in s.tasks && s.tasks[t].Waiting? && s.tasks[t].on in s.shared.sent && s.shared.sent[s.tasks[t].on].Some?
    case Abandoned(t) =>
      t in s.tasks && s.tasks[t].Waiting? && s.tasks[t].on in s.shared.sent && s.shared.sent[s.tasks[t].on].None?
      && !SenderAlive(s, s.tasks[t].on)
    case Answer(t) => t in s.tasks && (s.tasks[t].Succeeded? || s.tasks[t].Erred?)
    case Cancel(t) => t in s.tasks && AtAwait(s.tasks[t])
  }

  function Goto(s: System, t: Task, pc: Pc): System {
    s.(tasks := s.tasks[t := pc])
  }

  function Serve(s: System, t: Task, kid: Kid, key: Option<Key>, how: How): System {
    Goto(s, t, Done).(served := if key.Some? then s.served + [Served(kid, key.value, |s.installs|, s.now, how)] else s.served)
  }

  ghost function Next(s: System, step: Step, policy: Policy): System
    requires Enabled(s, step)
  {
    match step
    case Elapse(nanos) => s.(now := s.now + nanos)
    case Call(t, kid) => Goto(s, t, Starting(kid))
    case Look(t) =>
      var kid := s.tasks[t].kid;
      if Fresh(s.shared.inner, s.now) then Serve(s, t, kid, KeyIn(s.shared.inner, kid), WhileFresh)
      else Goto(s, t, Refreshing(kid))
    case LookAgain(t) =>
      Goto(s, t, if Fresh(s.shared.inner, s.now) then Succeeded(s.tasks[t].kid) else Joining(s.tasks[t].kid))
    case Join(t, channel) =>
      var kid := s.tasks[t].kid;
      var (sh, role) := Joined(s.shared, channel);
      Goto(s, t, if role.Wait? then Waiting(kid, role.on) else Fetching(kid, role.with)).(shared := sh)
    case FetchOk(t, keys, maxAge) =>
      Goto(s, t, Installing(s.tasks[t].kid, s.tasks[t].with, keys, KeySetTtl(maxAge, policy.minTtl)))
    case FetchFails(t) => Goto(s, t, Settling(s.tasks[t].kid, s.tasks[t].with, Failed))
    case Install(t) =>
      var Installing(kid, channel, keys, ttl) := s.tasks[t];
      var sh := Installed(s.shared, keys, ttl, s.now);
      Goto(s, t, Settling(kid, channel, Refreshed)).(shared := sh, installs := s.installs + [sh.inner.value])
    case Settle(t) =>
      var (sh, taken) := Taken(s.shared);
      Goto(s, t, Sending(s.tasks[t].kid, taken, s.tasks[t].outcome)).(shared := sh)
    case Send(t) =>
      var Sending(kid, taken, outcome) := s.tasks[t];
      Goto(s, t, if outcome == Refreshed then Succeeded(kid) else Erred(kid)).(shared := Announced(s.shared, taken, outcome))
    case Receive(t) =>
      var kid := s.tasks[t].kid;
      Goto(s, t, if s.shared.sent[s.tasks[t].on] == Some(Refreshed) then Succeeded(kid) else Erred(kid))
    case Abandoned(t) => Goto(s, t, Refreshing(s.tasks[t].kid))
    case Answer(t) =>
      var kid := s.tasks[t].kid;
      if s.tasks[t].Succeeded? then Serve(s, t, kid, KeyIn(s.shared.inner, kid), AfterRefresh)
      else Serve(s, t, kid, StaleKey(s.shared.inner, kid, s.now, policy.staleIfError), WhileStale)
    case Cancel(t) =>
      Goto(s, t, Done).(shared := if Armed(s.tasks[t]) then Interrupted(s.shared) else s.shared)
  }

  const INITIAL: System := System(0, Shared(None, None, map[]), map[], [], [])

  ghost predicate Execution(states: seq<System>, steps: seq<Step>, policy: Policy) {
    && |states| == |steps| + 1
    && states[0] == INITIAL
    && forall i :: 0 <= i < |steps| ==> Enabled(states[i], steps[i]) && states[i + 1] == Next(states[i], steps[i], policy)
  }

  // ---------------------------------------------------------------- single flight

  /** The slot is occupied exactly while one armed leader exists, and holds that leader's sender. */
  ghost predicate OneLeader(s: System) {
    && (forall t :: t in s.tasks && Armed(s.tasks[t]) ==> s.shared.slot == Some(s.tasks[t].with))
    && (forall t, u :: t in s.tasks && u in s.tasks && t != u ==> !Armed(s.tasks[t]) || !Armed(s.tasks[u]))
    && (s.shared.slot.Some? ==> exists t :: t in s.tasks && Armed(s.tasks[t]))
  }

  /** A sender in the slot or in a task's hands has not been used, and no two tasks hold the same one. */
  ghost predicate SendersUnused(s: System) {
    && (s.shared.slot.Some? ==> s.shared.slot.value in s.shared.sent && s.shared.sent[s.shared.slot.value].None?)
    && (forall t :: t in s.tasks && s.tasks[t].Sending? ==>
          && s.tasks[t].taken.Some?
          && s.tasks[t].taken != s.shared.slot
          && s.tasks[t].taken.value in s.shared.sent && s.shared.sent[s.tasks[t].taken.value].None?)
    && (forall t, u :: t in s.tasks && u in s.tasks && t != u && s.tasks[t].Sending? && s.tasks[u].Sending? ==>
          s.tasks[t].taken != s.tasks[u].taken)
  }

  /** Every waiter has its answer, or a sender that will give it one. */
  ghost predicate WaitersServed(s: System) {
    forall t :: t in s.tasks && s.tasks[t].Waiting? ==>
      && s.tasks[t].on in s.shared.sent
      && (s.shared.sent[s.tasks[t].on].Some? || SenderAlive(s, s.tasks[t].on))
  }

  ghost predicate FlightInv(s: System) {
    OneLeader(s) && SendersUnused(s) && WaitersServed(s)
  }

  lemma LeaderKeepsSlot(s: System, step: Step, policy: Policy, t: Task)
    requires OneLeader(s) && Enabled(s, step)
    requires var n := Next(s, step, policy); t in n.tasks && Armed(n.tasks[t])
    ensures var n := Next(s, step, policy); n.shared.slot == Some(n.tasks[t].with)
  {
    hide StaleKey, KeyIn, Fresh;
  }

  lemma LeaderStaysAlone(s: System, step: Step, policy: Policy, t: Task, u: Task)
    requires OneLeader(s) && Enabled(s, step) && t != u
    requires var n := Next(s, step, policy); t in n.tasks && u in n.tasks && Armed(n.tasks[t])
    ensures !Armed(Next(s, step, policy).tasks[u])
  {
    hide StaleKey, KeyIn, Fresh;
  }

  lemma SlotKeepsLeader(s: System, step: Step, policy: Policy) returns (t: Task)
    requires OneLeader(s) && Enabled(s, step) && Next(s, step, policy).shared.slot.Some?
    ensures var n := Next(s, step, policy); t in n.tasks && Armed(n.tasks[t])
  {
    hide StaleKey, KeyIn, Fresh;
    if s.shared.slot.Some? {
      t :| t in s.tasks && Armed(s.tasks[t]);
    } else {
      t := step.task;
    }
  }

  lemma StepKeepsLeader(s: System, step: Step, policy: Policy)
    requires OneLeader(s) && Enabled(s, step)
    ensures OneLeader(Next(s, step, policy))
  {
    hide Next, Enabled;
    var n := Next(s, step, policy);
    forall t, u | t in n.tasks && Armed(n.tasks[t])
      ensures n.shared.slot == Some(n.tasks[t].with)
      ensures u in n.tasks && t != u ==> !Armed(n.tasks[u])
    {
      LeaderKeepsSlot(s, step, policy, t);
      if u in n.tasks && t != u {
        LeaderStaysAlone(s, step, policy, t, u);
      }
    }
    if n.shared.slot.Some? {
      var t := SlotKeepsLeader(s, step, policy);
    }
  }

  lemma SlotSenderStaysUnused(s: System, step: Step, policy: Policy)
    requires FlightInv(s) && Enabled(s, step)
    ensures var n := Next(s, step, policy).shared;
            n.slot.Some? ==> n.slot.value in n.sent && n.sent[n.slot.value].None?
  {
    hide StaleKey, KeyIn, Fresh, WaitersServed;
  }

  lemma TakenSenderStaysUnused(s: System, step: Step, policy: Policy, t: Task)
    requires FlightInv(s) && Enabled(s, step)
    requires var n := Next(s, step, policy); t in n.tasks && n.tasks[t].Sending?
    ensures var n := Next(s, step, policy);
            var taken := n.tasks[t].taken;
            taken.Some? && taken != n.shared.slot && taken.value in n.shared.sent && n.shared.sent[taken.value].None?
  {
    hide StaleKey, KeyIn, Fresh, WaitersServed;
  }

  lemma TakenSendersStayApart(s: System, step: Step, policy: Policy, t: Task, u: Task)
    requires FlightInv(s) && Enabled(s, step) && t != u
    requires var n := Next(s, step, policy);
             t in n.tasks && u in n.tasks && n.tasks[t].Sending? && n.tasks[u].Sending?
    ensures var n := Next(s, step, policy); n.tasks[t].taken != n.tasks[u].taken
  {
    hide StaleKey, KeyIn, Fresh, WaitersServed;
  }

  lemma StepKeepsSenders(s: System, step: Step, policy: Policy)
    requires FlightInv(s) && Enabled(s, step)
    ensures SendersUnused(Next(s, step, policy))
  {
    hide Next, Enabled, FlightInv;
    var n := Next(s, step, policy);
    SlotSenderStaysUnused(s, step, policy);
    forall t | t in n.tasks && n.tasks[t].Sending?
      ensures n.tasks[t].taken.Some? && n.tasks[t].taken != n.shared.slot
      ensures n.tasks[t].taken.value in n.shared.sent && n.shared.sent[n.tasks[t].taken.value].None?
    {
      TakenSenderStaysUnused(s, step, policy, t);
    }
    forall t, u | t in n.tasks && u in n.tasks && t != u && n.tasks[t].Sending? && n.tasks[u].Sending?
      ensures n.tasks[t].taken != n.tasks[u].taken
    {
      TakenSendersStayApart(s, step, policy, t, u);
    }
  }

  /** A step that leaves a waiter waiting keeps its message, or moves its sender on, or uses it. */
  lemma WaiterStaysServed(s: System, step: Step, policy: Policy, t: Task)
    requires FlightInv(s) && Enabled(s, step) && t in s.tasks && s.tasks[t].Waiting?
    ensures var n := Next(s, step, policy);
            var on := s.tasks[t].on;
            on in n.shared.sent && (n.shared.sent[on].Some? || SenderAlive(n, on))
  {
    hide StaleKey, KeyIn, Fresh;
    var n, on := Next(s, step, policy), s.tasks[t].on;
    if s.shared.sent[on].None? {
      if s.shared.slot == Some(on) {
        assert step.Settle? ==> n.tasks[step.task].taken == Some(on);
      } else {
        var u :| u in s.tasks && s.tasks[u].Sending? && s.tasks[u].taken == Some(on);
        assert u in n.tasks;
      }
    }
  }

  /** A task begins to wait by finding a sender in the slot. */
  lemma WaiterStartsServed(s: System, step: Step, policy: Policy, t: Task)
    requires FlightInv(s) && Enabled(s, step)
    requires var n := Next(s, step, policy);
             t in n.tasks && n.tasks[t].Waiting? && (t in s.tasks ==> s.tasks[t] != n.tasks[t])
    ensures var n := Next(s, step, policy);
            n.shared.slot == Some(n.tasks[t].on) && n.tasks[t].on in n.shared.sent
  {
    hide StaleKey, KeyIn, Fresh, WaitersServed;
  }

  lemma StepKeepsWaiters(s: System, step: Step, policy: Policy)
    requires FlightInv(s) && Enabled(s, step)
    ensures WaitersServed(Next(s, step, policy))
  {
    hide Next, Enabled, FlightInv, SenderAlive;
    var n := Next(s, step, policy);
    forall t | t in n.tasks && n.tasks[t].Waiting?
      ensures n.tasks[t].on in n.shared.sent
      ensures n.shared.sent[n.tasks[t].on].Some? || SenderAlive(n, n.tasks[t].on)
    {
      if t in s.tasks && s.tasks[t] == n.tasks[t] {
        WaiterStaysServed(s, step, policy, t);
      } else {
        WaiterStartsServed(s, step, policy, t);
        assert SenderAlive(n, n.tasks[t].on) by {
          InTheSlot(n, n.tasks[t].on);
        }
      }
    }
  }

  lemma InTheSlot(s: System, channel: Channel)
    requires s.shared.slot == Some(channel)
    ensures SenderAlive(s, channel)
  {
  }

  lemma {:induction false} ExecutionKeepsFlight(states: seq<System>, steps: seq<Step>, i: nat, policy: Policy)
    requires Execution(states, steps, policy) && i < |states|
    ensures FlightInv(states[i])
  {
    if i != 0 {
      ExecutionKeepsFlight(states, steps, i - 1, policy);
      StepKeepsLeader(states[i - 1], steps[i - 1], policy);
      StepKeepsSenders(states[i - 1], steps[i - 1], policy);
      StepKeepsWaiters(states[i - 1], steps[i - 1], policy);
      hide FlightInv, Next;
    }
  }

  /**
   In every reachable state the slot is occupied exactly when one leader is armed, that leader's own
   sender is in it, and so at most one fetch runs at a time.
   */
  lemma SingleFlight(states: seq<System>, steps: seq<Step>, i: nat, t: Task, u: Task, policy: Policy)
    requires Execution(states, steps, policy) && i < |states|
    requires t in states[i].tasks && Armed(states[i].tasks[t])
    ensures states[i].shared.slot == Some(states[i].tasks[t].with)
    ensures u in states[i].tasks && Armed(states[i].tasks[u]) ==> u == t
  {
    ExecutionKeepsFlight(states, steps, i, policy);
  }

  lemma IdleSlotMeansNoLeader(states: seq<System>, steps: seq<Step>, i: nat, policy: Policy)
    requires Execution(states, steps, policy) && i < |states|
    ensures states[i].shared.slot.None? <==> forall t :: t in states[i].tasks ==> !Armed(states[i].tasks[t])
  {
    ExecutionKeepsFlight(states, steps, i, policy);
  }

  /**
   However leaders are cancelled, no waiter is stranded: its channel always has a sender or a message,
   so a receive never finds it closed, and once no task holds a sender every waiter has its answer.
   */
  lemma NoWaiterIsStranded(states: seq<System>, steps: seq<Step>, i: nat, t: Task, policy: Policy)
    requires Execution(states, steps, policy) && i < |states|
    requires t in states[i].tasks && states[i].tasks[t].Waiting?
    ensures !Enabled(states[i], Abandoned(t))
    ensures (forall u :: u in states[i].tasks ==> !Armed(states[i].tasks[u]) && !states[i].tasks[u].Sending?)
      ==> Enabled(states[i], Receive(t))
  {
    ExecutionKeepsFlight(states, steps, i, policy);
    IdleSlotMeansNoLeader(states, steps, i, policy);
  }

  /** A cancelled leader frees the slot and fails its own waiters; no other refresh is disturbed. */
  lemma CancelDisturbsOnlyItsOwn(states: seq<System>, steps: seq<Step>, i: nat, t: Task, policy: Policy)
    requires Execution(states, steps, policy) && i < |states|
    requires Enabled(states[i], Cancel(t)) && Armed(states[i].tasks[t])
    ensures var s := states[i];
            var n := Next(s, Cancel(t), policy);
            && n.shared.slot == None && n.shared.inner == s.shared.inner
            && n.shared.sent == s.shared.sent[s.tasks[t].with := Some(Failed)]
            && s.tasks[t].with in s.shared.sent && s.shared.sent[s.tasks[t].with].None?
            && forall u :: u in s.tasks && s.tasks[u].Sending? ==> s.tasks[u].taken != Some(s.tasks[t].with)
  {
    ExecutionKeepsFlight(states, steps, i, policy);
  }

  // ---------------------------------------------------------------- which keys are served

  ghost predicate ServedOk(s: System, e: Served, policy: Policy) {
    && 0 < e.generation <= |s.installs| && e.at <= s.now
    && var set_ := s.installs[e.generation - 1];
    && e.kid in set_.keys && set_.keys[e.kid] == e.key
    && (e.how == WhileFresh ==> e.at < set_.expiresAt)
    && (e.how == WhileStale ==> 0 < policy.staleIfError && e.at < set_.expiresAt + policy.staleIfError)
  }

  ghost predicate LatestIsCached(s: System) {
    s.shared.inner == if s.installs == [] then None else Some(s.installs[|s.installs| - 1])
  }

  ghost predicate KeyInv(s: System, policy: Policy) {
    && LatestIsCached(s)
    && (forall i :: 0 <= i < |s.served| ==> ServedOk(s, s.served[i], policy))
    && (forall i, j :: 0 <= i <= j < |s.served| ==> s.served[i].generation <= s.served[j].generation)
  }

  /** A step either serves nothing or serves one key, from the latest set and by the rules. */
  lemma StepServes(s: System, step: Step, policy: Policy)
    requires LatestIsCached(s) && Enabled(s, step)
    ensures var n := Next(s, step, policy);
            && LatestIsCached(n) && s.installs <= n.installs && s.now <= n.now
            && (n.served == s.served ||
                exists e :: n.served == s.served + [e] && e.generation == |s.installs| && ServedOk(n, e, policy))
  {
    var n := Next(s, step, policy);
    if n.served != s.served {
      var e := n.served[|s.served|];
      assert n.served == s.served + [e] && e.generation == |s.installs| && ServedOk(n, e, policy);
    }
  }

  lemma StepKeepsKeys(s: System, step: Step, policy: Policy)
    requires KeyInv(s, policy) && Enabled(s, step)
    ensures KeyInv(Next(s, step, policy), policy)
  {
    StepServes(s, step, policy);
    hide Next, Enabled;
    var n := Next(s, step, policy);
    forall i | 0 <= i < |s.served|
      ensures ServedOk(n, s.served[i], policy)
    {
      assert ServedOk(s, s.served[i], policy);
    }
  }

  lemma {:induction false} ExecutionKeepsKeys(states: seq<System>, steps: seq<Step>, i: nat, policy: Policy)
    requires Execution(states, steps, policy) && i < |states|
    ensures KeyInv(states[i], policy)
  {
    if i != 0 {
      ExecutionKeepsKeys(states, steps, i - 1, policy);
      StepKeepsKeys(states[i - 1], steps[i - 1], policy);
      hide KeyInv, Next;
    }
  }

  /**
   Every key ever served belonged to the set installed most recently at that moment, sets are never
   gone back to, and a key served after a failed refresh is within the operator's bound of that set's
   original expiry.
   */
  lemma ServedFromTheLatestSet(states: seq<System>, steps: seq<Step>, i: nat, k: nat, policy: Policy)
    requires Execution(states, steps, policy) && i < |states| && k < |states[i].served|
    ensures var s := states[i];
            var e := s.served[k];
            && 0 < e.generation <= |s.installs|
            && (k + 1 < |s.served| ==> e.generation <= s.served[k + 1].generation)
            && var latest := s.installs[e.generation - 1];
            && e.kid in latest.keys && e.key == latest.keys[e.kid]
            && (e.how == WhileFresh ==> e.at < latest.expiresAt)
            && (e.how == WhileStale ==> 0 < policy.staleIfError && e.at < latest.expiresAt + policy.staleIfError)
  {
    ExecutionKeepsKeys(states, steps, i, policy);
    assert ServedOk(states[i], states[i].served[k], policy);
  }

  ghost predicate NoInstall(steps: seq<Step>, i: nat, j: nat)
    requires i <= j <= |steps|
  {
    forall k :: i <= k < j ==> !steps[k].Install?
  }

  /** Failures, cancellations and waiting never touch the cached set: neither its keys nor its expiry move. */
  lemma {:induction false} OnlyAnInstallMovesTheExpiry(states: seq<System>, steps: seq<Step>, i: nat, j: nat, policy: Policy)
    requires Execution(states, steps, policy) && i <= j <= |steps| && NoInstall(steps, i, j)
    ensures states[j].shared.inner == states[i].shared.inner
  {
    if i < j {
      OnlyAnInstallMovesTheExpiry(states, steps, i, j - 1, policy);
      assert states[j] == Next(states[j - 1], steps[j - 1], policy);
    }
  }

  /** A key the latest set does not hold is served to no one until another set is installed, however refreshes fail. */
  lemma {:induction false} RotatedKeyStaysRefused(states: seq<System>, steps: seq<Step>, i: nat, j: nat, kid: Kid, policy: Policy)
    requires Execution(states, steps, policy) && i <= j <= |steps| && NoInstall(steps, i, j)
    requires KeyIn(states[i].shared.inner, kid).None?
    ensures states[i].served <= states[j].served
    ensures forall k :: |states[i].served| <= k < |states[j].served| ==> states[j].served[k].kid != kid
  {
    hide *;
    if i < j {
      StepAt(states, steps, j - 1, policy);
      NoInstallBefore(steps, i, j);
      RotatedKeyStaysRefused(states, steps, i, j - 1, kid, policy);
      OnlyAnInstallMovesTheExpiry(states, steps, i, j - 1, policy);
      ServesNothingFor(states[j - 1], steps[j - 1], kid, policy);
    }
  }

  lemma StepAt(states: seq<System>, steps: seq<Step>, i: nat, policy: Policy)
    requires Execution(states, steps, policy) && i < |steps|
    ensures |states| == |steps| + 1
    ensures Enabled(states[i], steps[i]) && states[i + 1] == Next(states[i], steps[i], policy)
  {
    hide Next, Enabled;
  }

  lemma NoInstallBefore(steps: seq<Step>, i: nat, j: nat)
    requires i < j <= |steps| && NoInstall(steps, i, j)
    ensures NoInstall(steps, i, j - 1)
  {
  }

  lemma ServesNothingFor(s: System, step: Step, kid: Kid, policy: Policy)
    requires Enabled(s, step) && KeyIn(s.shared.inner, kid).None?
    ensures var n := Next(s, step, policy);
            s.served <= n.served && forall k :: |s.served| <= k < |n.served| ==> n.served[k].kid != kid
  {
  }
}
