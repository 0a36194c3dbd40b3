/** The in-memory response cache: fill accounting, stored bodies, chunked reads (cache/storage.rs). */
module CacheFill {
  import opened Prelude

  type Key = string

  datatype Entry = Entry(internal: Bytes, header: Bytes, body: Bytes)

  /** Bookkeeping per entry on a 64-bit target: the key hash and the entry itself. */
  const OVERHEAD: nat := 16 + 80

  function Weight(e: Entry): nat {
    Min(SatAdd(SatAdd(SatAdd(|e.body|, |e.internal|), |e.header|), OVERHEAD), U32_MAX)
  }

  // ---------------------------------------------------------------- one fill

  /** Where a fill is: open, refused by the budget and about to be abandoned, about to publish, or over. */
  datatype Phase = Open | Refused | Publishing | Over

  datatype Fill = Fill(key: Key, internal: Bytes, header: Bytes, body: Bytes, tooLarge: bool, phase: Phase)

  datatype Limits = Limits(maxObject: nat, maxFill: nat)

  /** Atomic subtraction on a machine word, which wraps. */
  function Release(filling: nat, n: nat): nat {
    if n <= filling then filling - n else (filling - n) % (USIZE_MAX + 1)
  }

  function Reserves(l: Limits, filling: nat, n: nat): bool {
    filling + n <= USIZE_MAX && filling + n <= l.maxFill
  }

  function Abandon(filling: nat, f: Fill): (nat, Fill) {
    (Release(filling, |f.body|), f.(tooLarge := true, body := [], phase := Open))
  }

  /** `write_body` up to its first change of the shared counter. */
  function Offer(l: Limits, filling: nat, f: Fill, data: Bytes): (nat, Fill) {
    if f.tooLarge then (filling, f)
    else if SatAdd(|f.body|, |data|) > l.maxObject then Abandon(filling, f)
    else if Reserves(l, filling, |data|) then (filling + |data|, f.(body := f.body + data))
    else (filling, f.(phase := Refused))
  }

  class MemoryStorage {
    const limits: Limits
    var filling: nat
    var entries: map<Key, Entry>

    constructor (maxObject: nat, maxFill: nat)
      ensures limits == Limits(maxObject, maxFill) && filling == 0 && entries == map[]
    {
      limits, filling, entries := Limits(maxObject, maxFill), 0, map[];
    }

    method Reserve(bytes: nat) returns (ok: bool)
      modifies this`filling
      ensures ok == Reserves(limits, old(filling), bytes)
      ensures filling == old(filling) + if ok then bytes else 0
    {
      ok := false;
      if filling + bytes <= USIZE_MAX && filling + bytes <= limits.maxFill {
        filling, ok := filling + bytes, true;
      }
    }

    method Give(bytes: nat)
      modifies this`filling
      ensures filling == Release(old(filling), bytes)
    {
      if bytes > 0 {
        filling := Release(filling, bytes);
      }
    }

    /** Metadata is replaced, the body is kept. */
    method UpdateMeta(key: Key, internal: Bytes, header: Bytes) returns (found: bool)
      modifies this`entries
      ensures found == (key in old(entries))
      ensures entries == if found then old(entries)[key := Entry(internal, header, old(entries)[key].body)] else old(entries)
    {
      found := key in entries;
      if found {
        var existing := entries[key];
        entries := entries[key := Entry(internal, header, existing.body)];
      }
    }

    method Purge(key: Key) returns (purged: bool)
      modifies this`entries
      ensures purged == (key in old(entries)) && entries == old(entries) - {key}
    {
      purged := key in entries;
      entries := entries - {key};
    }
  }

  class Miss {
    const storage: MemoryStorage
    const key: Key
    const internal: Bytes
    const header: Bytes
    var body: Bytes
    var tooLarge: bool

    constructor (storage: MemoryStorage, key: Key, internal: Bytes, header: Bytes)
      ensures View() == Fill(key, internal, header, [], false, Open) && this.storage == storage
    {
      this.storage, this.key, this.internal, this.header := storage, key, internal, header;
      body, tooLarge := [], false;
    }

    ghost function View(): Fill
      reads this
    {
      Fill(key, internal, header, body, tooLarge, Open)
    }

    method AbandonIt()
      modifies this`body, this`tooLarge, storage`filling
      ensures (storage.filling, View()) == Abandon(old(storage.filling), old(View()))
    {
      tooLarge := true;
      storage.Give(|body|);
      body := [];
    }

    /** A write that does not fit, in this object or in the budget of all fills, abandons the fill. */
    method WriteBody(data: Bytes)
      modifies this`body, this`tooLarge, storage`filling
      ensures var (filling, f) := Offer(storage.limits, old(storage.filling), old(View()), data);
              (storage.filling, View()) == if f.phase.Refused? then Abandon(filling, f) else (filling, f)
    {
      if tooLarge {
        return;
      }
      if SatAdd(|body|, |data|) > storage.limits.maxObject {
        AbandonIt();
        return;
      }
      var ok := storage.Reserve(|data|);
      if !ok {
        AbandonIt();
        return;
      }
      body := body + data;
    }

    /** Publish the body whole, or nothing; the budget gets the body's share back either way. */
    method Finish() returns (size: Option<nat>)
      modifies this`body, storage`filling, storage`entries
      ensures old(tooLarge) ==> size.None? && View() == old(View()) && storage.filling == old(storage.filling) && storage.entries == old(storage.entries)
      ensures !old(tooLarge) ==>
        && View() == old(View()).(body := []) && storage.filling == Release(old(storage.filling), |old(body)|)
        && storage.entries == old(storage.entries)[key := Entry(internal, header, old(body))]
        && size == Some(Weight(Entry(internal, header, old(body))))
    {
      if tooLarge {
        return None;
      }
      var whole := body;
      body := [];
      storage.Give(|whole|);
      var entry := Entry(internal, header, whole);
      size := Some(Weight(entry));
      storage.entries := storage.entries[key := entry];
    }

    method Drop()
      modifies storage`filling
      ensures storage.filling == Release(old(storage.filling), |body|)
    {
      storage.Give(|body|);
    }
  }

  // ---------------------------------------------------------------- many fills at once

  /** A stored entry read by `update_meta` before it writes the entry back with new metadata. */
  datatype Update = Update(key: Key, body: Bytes)

  /** `fed` is everything each fill was given, `finished` the fills that were published. */
  datatype System = System(
    filling: nat,
    entries: map<Key, Entry>,
    fills: seq<Fill>,
    updates: map<nat, Update>,
    fed: seq<Bytes>,
    finished: set<nat>)

  const EMPTY: System := System(0, map[], [], map[], [], {})

  /** Each step changes the shared state at most once, so any two fills interleave between steps. */
  datatype Step =
    | Start(key: Key, internal: Bytes, header: Bytes)
    | Write(fill: nat, data: Bytes)
    | GiveUp(fill: nat)
    | Finish(fill: nat)
    | Publish(fill: nat)
    | Drop(fill: nat)
    | ReadForUpdate(id: nat, key: Key)
    | WriteUpdate(id: nat, internal: Bytes, header: Bytes)
    | Remove(key: Key)

  ghost predicate Enabled(s: System, step: Step) {
    match step
    case Write(i, _) => i < |s.fills| && i < |s.fed| && s.fills[i].phase.Open?
    case GiveUp(i) => i < |s.fills| && s.fills[i].phase.Refused?
    case Finish(i) => i < |s.fills| && s.fills[i].phase.Open?
    case Publish(i) => i < |s.fills| && s.fills[i].phase.Publishing?
    case Drop(i) => i < |s.fills| && s.fills[i].phase.Open?
    case ReadForUpdate(id, key) => id !in s.updates && key in s.entries
    case WriteUpdate(id, _, _) => id in s.updates
    case _ => true
  }

  ghost function Next(s: System, step: Step, l: Limits): System
    requires Enabled(s, step)
  {
    match step
    case Start(key, internal, header) => s.(fills := s.fills + [Fill(key, internal, header, [], false, Open)], fed := s.fed + [[]])
    case Write(i, data) =>
      var (filling, f) := Offer(l, s.filling, s.fills[i], data);
      s.(filling := filling, fills := s.fills[i := f], fed := s.fed[i := s.fed[i] + data])
    case GiveUp(i) =>
      var (filling, f) := Abandon(s.filling, s.fills[i]);
      s.(filling := filling, fills := s.fills[i := f])
    case Finish(i) =>
      var f := s.fills[i];
      if f.tooLarge then s.(filling := Release(s.filling, |f.body|), fills := s.fills[i := f.(body := [], phase := Over)])
      else s.(filling := Release(s.filling, |f.body|), fills := s.fills[i := f.(phase := Publishing)])
    case Publish(i) =>
      var f := s.fills[i];
      s.(entries := s.entries[f.key := Entry(f.internal, f.header, f.body)],
         fills := s.fills[i := f.(body := [], phase := Over)], finished := s.finished + {i})
    case Drop(i) =>
      var f := s.fills[i];
      s.(filling := Release(s.filling, |f.body|), fills := s.fills[i := f.(body := [], phase := Over)])
    case ReadForUpdate(id, key) => s.(updates := s.updates[id := Update(key, s.entries[key].body)])
    case WriteUpdate(id, internal, header) =>
      var u := s.updates[id];
      s.(entries := s.entries[u.key := Entry(internal, header, u.body)], updates := s.updates - {id})
    case Remove(key) => s.(entries := s.entries - {key})
  }

  // ---------------------------------------------------------------- conservation

  /** What a fill holds of the budget. */
  function Held(f: Fill): nat {
    if f.phase.Open? || f.phase.Refused? then |f.body| else 0
  }

  function TotalHeld(fills: seq<Fill>): nat {
    if fills == [] then 0 else TotalHeld(fills[..|fills| - 1]) + Held(fills[|fills| - 1])
  }

  lemma {:induction false} TotalAfter(fills: seq<Fill>, i: nat, f: Fill)
    requires i < |fills|
    ensures TotalHeld(fills[i := f]) == TotalHeld(fills) - Held(fills[i]) + Held(f)
  {
    var n := |fills| - 1;
    if i == n {
      assert fills[i := f][..n] == fills[..n];
    } else {
      TotalAfter(fills[..n], i, f);
      assert fills[i := f][..n] == fills[..n][i := f];
    }
  }

  lemma {:induction false} HeldIsWithinTotal(fills: seq<Fill>, i: nat)
    requires i < |fills|
    ensures Held(fills[i]) <= TotalHeld(fills)
  {
    if i < |fills| - 1 {
      HeldIsWithinTotal(fills[..|fills| - 1], i);
    }
  }

  /** `filling` is the sum of what unfinished fills hold, and neither bound is exceeded. */
  ghost predicate Budget(s: System, l: Limits) {
    && s.filling == TotalHeld(s.fills)
    && s.filling <= l.maxFill
    && forall i :: 0 <= i < |s.fills| ==> FillOk(s.fills[i], l)
  }

  ghost predicate FillOk(f: Fill, l: Limits) {
    && |f.body| <= l.maxObject
    && (f.tooLarge ==> f.body == [] && !f.phase.Refused? && !f.phase.Publishing?)
    && (f.phase.Over? ==> f.body == [])
  }

  /** A body is stored under a key only if one finished fill for that key was given exactly these bytes. */
  ghost predicate Whole(s: System, key: Key, body: Bytes) {
    exists i :: i in s.finished && i < |s.fills| && i < |s.fed| && s.fills[i].key == key && s.fed[i] == body
  }

  ghost predicate Bodies(s: System) {
    && |s.fed| == |s.fills|
    && (forall i :: 0 <= i < |s.fills| ==> FedOk(s, i))
    && (forall i :: i in s.finished ==> i < |s.fills| && s.fills[i].phase.Over? && !s.fills[i].tooLarge)
    && (forall key :: key in s.entries ==> Whole(s, key, s.entries[key].body))
    && (forall id :: id in s.updates ==> Whole(s, s.updates[id].key, s.updates[id].body))
  }

  ghost predicate FedOk(s: System, i: nat)
    requires i < |s.fills| && |s.fed| == |s.fills|
  {
    var f := s.fills[i];
    (f.phase.Open? && !f.tooLarge) || f.phase.Publishing? ==> f.body == s.fed[i]
  }

  ghost predicate Inv(s: System, l: Limits) {
    Budget(s, l) && Bodies(s)
  }

  /** What a step does to the fill it concerns. */
  lemma BudgetAfter(s: System, t: System, i: nat, f: Fill, l: Limits)
    requires Budget(s, l) && i < |s.fills| && t.fills == s.fills[i := f] && FillOk(f, l)
    requires t.filling == s.filling - Held(s.fills[i]) + Held(f) && t.filling <= l.maxFill
    ensures Budget(t, l)
  {
    TotalAfter(s.fills, i, f);
    hide FillOk, Held;
  }

  lemma StepKeepsBudget(s: System, step: Step, l: Limits)
    requires Inv(s, l) && Enabled(s, step)
    ensures Budget(Next(s, step, l), l)
  {
    var t := Next(s, step, l);
    if step.Start? {
      assert t.fills[..|s.fills|] == s.fills;
    } else if step.Write? || step.GiveUp? || step.Finish? || step.Publish? || step.Drop? {
      var i := step.fill;
      HeldIsWithinTotal(s.fills, i);
      hide TotalHeld, Bodies;
      assert FillOk(s.fills[i], l);
      BudgetAfter(s, t, i, t.fills[i], l);
    }
  }

  /** A finished fill is never touched again, so what it stands for stays. */
  lemma WholeStays(s: System, step: Step, l: Limits, key: Key, body: Bytes)
    requires Inv(s, l) && Enabled(s, step) && Whole(s, key, body)
    ensures Whole(Next(s, step, l), key, body)
  {
    hide TotalHeld, Release, Offer, Abandon, FedOk;
    var t := Next(s, step, l);
    var i :| i in s.finished && i < |s.fills| && i < |s.fed| && s.fills[i].key == key && s.fed[i] == body;
    assert i in t.finished && t.fills[i].key == key && t.fed[i] == body;
  }

  lemma StepKeepsFed(s: System, step: Step, l: Limits, i: nat)
    requires Inv(s, l) && Enabled(s, step) && i < |Next(s, step, l).fills|
    ensures var t := Next(s, step, l); |t.fed| == |t.fills| && FedOk(t, i)
  {
    hide TotalHeld, Release, Whole;
    if i < |s.fills| {
      assert FedOk(s, i);
    }
  }

  lemma PublishIsWhole(s: System, i: nat, l: Limits)
    requires Inv(s, l) && Enabled(s, Publish(i))
    ensures Whole(Next(s, Publish(i), l), s.fills[i].key, s.fills[i].body)
  {
    hide TotalHeld;
    var t := Next(s, Publish(i), l);
    assert FedOk(s, i);
    assert i in t.finished && t.fills[i].key == s.fills[i].key && t.fed[i] == s.fills[i].body;
  }

  lemma StepKeepsBodies(s: System, step: Step, l: Limits)
    requires Inv(s, l) && Enabled(s, step)
    ensures Bodies(Next(s, step, l))
  {
    hide TotalHeld, Release, Whole, FedOk;
    var t := Next(s, step, l);
    forall key, body | Whole(s, key, body)
      ensures Whole(t, key, body)
    {
      WholeStays(s, step, l, key, body);
    }
    if step.Publish? {
      PublishIsWhole(s, step.fill, l);
      assert FillOk(s.fills[step.fill], l);
    }
    forall i | 0 <= i < |t.fills|
      ensures |t.fed| == |t.fills| && FedOk(t, i)
    {
      StepKeepsFed(s, step, l, i);
    }
  }

  ghost predicate Execution(states: seq<System>, steps: seq<Step>, l: Limits) {
    && |states| == |steps| + 1
    && states[0] == EMPTY
    && forall i :: 0 <= i < |steps| ==> Leads(states[i], steps[i], states[i + 1], l)
  }

  ghost predicate Leads(s: System, step: Step, t: System, l: Limits) {
    Enabled(s, step) && t == Next(s, step, l)
  }

  lemma {:induction false} ExecutionKeepsInv(states: seq<System>, steps: seq<Step>, n: nat, l: Limits)
    requires Execution(states, steps, l) && n < |states|
    ensures Inv(states[n], l)
  {
    if n != 0 {
      ExecutionKeepsInv(states, steps, n - 1, l);
      assert Leads(states[n - 1], steps[n - 1], states[n], l);
      StepKeepsBudget(states[n - 1], steps[n - 1], l);
      StepKeepsBodies(states[n - 1], steps[n - 1], l);
      hide Budget, Bodies, Next;
    }
  }

  /**
   In every reachable state the counter is exactly what unfinished fills hold, within the budget, and
   each buffer is within the object limit; so with no unfinished fill the counter is zero.
   */
  lemma FillingIsWhatFillsHold(states: seq<System>, steps: seq<Step>, n: nat, l: Limits)
    requires Execution(states, steps, l) && n < |states|
    ensures var s := states[n];
            && s.filling == TotalHeld(s.fills) <= l.maxFill
            && (forall i :: 0 <= i < |s.fills| ==> |s.fills[i].body| <= l.maxObject)
            && ((forall i :: 0 <= i < |s.fills| ==> s.fills[i].phase.Over?) ==> s.filling == 0)
  {
    ExecutionKeepsInv(states, steps, n, l);
    if forall i :: 0 <= i < |states[n].fills| ==> states[n].fills[i].phase.Over? {
      NothingHeld(states[n].fills);
    }
  }

  lemma {:induction false} NothingHeld(fills: seq<Fill>)
    requires forall i :: 0 <= i < |fills| ==> fills[i].phase.Over?
    ensures TotalHeld(fills) == 0
  {
    if fills != [] {
      NothingHeld(fills[..|fills| - 1]);
    }
  }

  /** The counter never wraps: whatever a step gives back, it was holding. */
  lemma ReleaseNeverWraps(states: seq<System>, steps: seq<Step>, n: nat, i: nat, l: Limits)
    requires Execution(states, steps, l) && n < |states| && i < |states[n].fills|
    requires states[n].fills[i].phase.Open? || states[n].fills[i].phase.Refused?
    ensures Release(states[n].filling, |states[n].fills[i].body|) + |states[n].fills[i].body| == states[n].filling
  {
    ExecutionKeepsInv(states, steps, n, l);
    HeldIsWithinTotal(states[n].fills, i);
  }

  /**
   Every stored body is everything one published fill for that key was given, from first byte to last;
   nothing abandoned, dropped or cut short is ever stored, also when metadata is updated meanwhile.
   */
  lemma StoredBodiesAreWhole(states: seq<System>, steps: seq<Step>, n: nat, key: Key, l: Limits)
    requires Execution(states, steps, l) && n < |states| && key in states[n].entries
    ensures Whole(states[n], key, states[n].entries[key].body)
    ensures |states[n].entries[key].body| <= l.maxObject
    decreases n
  {
    ExecutionKeepsInv(states, steps, n, l);
    StoredBodiesFit(states, steps, n, l);
  }

  /** Bodies stored or held by an update were within the object limit when they were published. */
  ghost predicate AllFit(s: System, l: Limits) {
    && (forall key :: key in s.entries ==> |s.entries[key].body| <= l.maxObject)
    && (forall id :: id in s.updates ==> |s.updates[id].body| <= l.maxObject)
  }

  lemma {:induction false} StoredBodiesFit(states: seq<System>, steps: seq<Step>, n: nat, l: Limits)
    requires Execution(states, steps, l) && n < |states|
    ensures AllFit(states[n], l)
  {
    if n != 0 {
      StoredBodiesFit(states, steps, n - 1, l);
      ExecutionKeepsInv(states, steps, n - 1, l);
      LeadsAt(states, steps, n - 1, l);
      hide Execution, Inv, AllFit;
      StepKeepsFit(states[n - 1], steps[n - 1], l);
    }
  }

  lemma StepKeepsFit(s: System, step: Step, l: Limits)
    requires Inv(s, l) && AllFit(s, l) && Enabled(s, step)
    ensures AllFit(Next(s, step, l), l)
  {
    hide Bodies, TotalHeld, Release, Offer, Abandon;
    if step.Publish? {
      assert FillOk(s.fills[step.fill], l);
    }
  }

  lemma LeadsAt(states: seq<System>, steps: seq<Step>, i: nat, l: Limits)
    requires Execution(states, steps, l) && i < |steps|
    ensures Leads(states[i], steps[i], states[i + 1], l)
  {
  }

  /** A fill that was once abandoned stores nothing: it never becomes one of the published fills. */
  lemma {:induction false} AbandonedIsNeverStored(states: seq<System>, steps: seq<Step>, m: nat, n: nat, i: nat, l: Limits)
    requires Execution(states, steps, l) && m <= n < |states| && i < |states[m].fills| && states[m].fills[i].tooLarge
    ensures i < |states[n].fills| && states[n].fills[i].tooLarge && i !in states[n].finished
    decreases n - m
  {
    ExecutionKeepsInv(states, steps, n, l);
    if m < n {
      AbandonedIsNeverStored(states, steps, m, n - 1, i, l);
      ExecutionKeepsInv(states, steps, n - 1, l);
      LeadsAt(states, steps, n - 1, l);
      hide Execution, Bodies, Budget;
      StaysAbandoned(states[n - 1], steps[n - 1], i, l);
    }
  }

  lemma StaysAbandoned(s: System, step: Step, i: nat, l: Limits)
    requires Inv(s, l) && Enabled(s, step) && i < |s.fills| && s.fills[i].tooLarge && i !in s.finished
    ensures var t := Next(s, step, l); i < |t.fills| && t.fills[i].tooLarge && i !in t.finished
  {
    assert FillOk(s.fills[i], l);
    hide Bodies, TotalHeld;
  }

  // ---------------------------------------------------------------- what is kept

  /** A write fits: the object stays within its limit and all fills together within theirs, and both within a word. */
  ghost predicate Fits(s: System, i: nat, data: Bytes, l: Limits)
    requires i < |s.fills|
  {
    && Min(|s.fills[i].body| + |data|, U64_MAX) <= l.maxObject
    && TotalHeld(s.fills) + |data| <= l.maxFill && TotalHeld(s.fills) + |data| <= USIZE_MAX
  }

  /**
   A write that fits is kept, byte for byte, at the end of what was written before.  One that does not
   is lost with all of it: at once where the object is too large, and once the fill gives up where all
   fills together are.
   */
  lemma WritesAreKeptIffTheyFit(states: seq<System>, steps: seq<Step>, n: nat, i: nat, data: Bytes, l: Limits)
    requires Execution(states, steps, l) && n < |steps| && steps[n] == Write(i, data)
    ensures |states| == |steps| + 1 && i < |states[n].fills| && i < |states[n + 1].fills| && states[n].fills[i].phase.Open?
    ensures var s, t := states[n], states[n + 1];
            var f, g := s.fills[i], t.fills[i];
            if f.tooLarge then g == f && t.filling == s.filling
            else if Fits(s, i, data, l) then g == f.(body := f.body + data) && t.filling == s.filling + |data|
            else if Min(|f.body| + |data|, U64_MAX) <= l.maxObject then g == f.(phase := Refused) && t.filling == s.filling
            else g == f.(tooLarge := true, body := []) && t.filling + |f.body| == s.filling
  {
    ExecutionKeepsInv(states, steps, n, l);
    LeadsAt(states, steps, n, l);
    hide Execution, Bodies;
    HeldIsWithinTotal(states[n].fills, i);
    hide TotalHeld;
  }

  /** A refused fill gives everything back and stores nothing. */
  lemma RefusedIsAbandoned(states: seq<System>, steps: seq<Step>, n: nat, i: nat, l: Limits)
    requires Execution(states, steps, l) && n < |steps| && steps[n] == GiveUp(i)
    ensures |states| == |steps| + 1 && i < |states[n].fills| && i < |states[n + 1].fills|
    ensures var f := states[n].fills[i];
            && states[n + 1].fills[i] == f.(tooLarge := true, body := [], phase := Open)
            && states[n + 1].filling + |f.body| == states[n].filling
  {
    ExecutionKeepsInv(states, steps, n, l);
    LeadsAt(states, steps, n, l);
    hide Execution, Bodies;
    HeldIsWithinTotal(states[n].fills, i);
    hide TotalHeld;
  }

  lemma StepSpoils(s: System, step: Step, i: nat, l: Limits)
    requires Inv(s, l) && Enabled(s, step) && i < |Next(s, step, l).fills|
    requires Spoiled(Next(s, step, l).fills[i])
    ensures (i < |s.fills| && Spoiled(s.fills[i])) || (step.Write? && step.fill == i && i < |s.fills| && !Fits(s, i, step.data, l))
  {
    hide TotalHeld, Bodies, Release;
  }

  ghost predicate Spoiled(f: Fill) {
    f.tooLarge || f.phase.Refused?
  }

  /** A fill is abandoned only for cause: some write to it did not fit. */
  lemma {:induction false} AbandonedForCause(states: seq<System>, steps: seq<Step>, n: nat, i: nat, l: Limits) returns (m: nat)
    requires Execution(states, steps, l) && n < |states| && i < |states[n].fills| && Spoiled(states[n].fills[i])
    ensures m < n && m < |steps| && steps[m].Write? && steps[m].fill == i
    ensures i < |states[m].fills| && !Fits(states[m], i, steps[m].data, l)
  {
    hide *;
    if n == 0 {
      NoFillsAtFirst(states, steps, l);
    } else {
      StepOf(states, steps, n - 1, l);
      StepSpoils(states[n - 1], steps[n - 1], i, l);
      m := n - 1;
      if i < |states[n - 1].fills| && Spoiled(states[n - 1].fills[i]) {
        m := AbandonedForCause(states, steps, n - 1, i, l);
      }
    }
  }

  lemma NoFillsAtFirst(states: seq<System>, steps: seq<Step>, l: Limits)
    requires Execution(states, steps, l)
    ensures states[0].fills == []
  {
  }

  lemma StepOf(states: seq<System>, steps: seq<Step>, n: nat, l: Limits)
    requires Execution(states, steps, l) && n < |states| - 1
    ensures n < |steps| && Inv(states[n], l) && Enabled(states[n], steps[n]) && states[n + 1] == Next(states[n], steps[n], l)
  {
    ExecutionKeepsInv(states, steps, n, l);
    LeadsAt(states, steps, n, l);
    hide Inv, Next, Enabled;
  }

  /** Publishing stores under the fill's key everything it was given, with its metadata, and touches no other key. */
  lemma PublishedIsStored(states: seq<System>, steps: seq<Step>, n: nat, i: nat, l: Limits)
    requires Execution(states, steps, l) && n < |steps| && steps[n] == Publish(i)
    ensures |states| == |steps| + 1 && i < |states[n].fills| && i < |states[n].fed|
    ensures var f := states[n].fills[i];
            states[n + 1].entries == states[n].entries[f.key := Entry(f.internal, f.header, states[n].fed[i])]
  {
    ExecutionKeepsInv(states, steps, n, l);
    LeadsAt(states, steps, n, l);
    hide Execution, Budget;
    assert FedOk(states[n], i);
  }

  /** What an entry weighs: its bytes and 96 more, as far as 32 bits count. */
  lemma WeightIs(e: Entry)
    ensures var n := |e.body| + |e.internal| + |e.header| + 96;
            Weight(e) == if n <= 0xFFFF_FFFF then n else 0xFFFF_FFFF
  {
  }

  // ---------------------------------------------------------------- reading a stored body

  const READ_CHUNK: nat := 32 * 1024

  /** Hands a stored body out piece by piece. */
  class Hit {
    const body: Bytes
    var read: nat
    var end: nat

    constructor (body: Bytes)
      ensures this.body == body && read == 0 && end == |body|
    {
      this.body, read, end := body, 0, |body|;
    }

    ghost predicate Valid()
      reads this
    {
      read <= |body| && end <= |body| <= USIZE_MAX
    }

    /** The bytes still to be read. */
    ghost function Left(): Bytes
      requires Valid()
      reads this
    {
      if read <= end then body[read..end] else []
    }

    method ReadBody() returns (chunk: Option<Bytes>)
      requires Valid()
      modifies this`read
      ensures Valid()
      ensures if old(Left()) == [] then chunk == None && Left() == []
              else chunk.Some? && 0 < |chunk.value| <= READ_CHUNK && old(Left()) == chunk.value + Left()
                   && (|chunk.value| < READ_CHUNK ==> Left() == [])
    {
      if read >= end {
        return None;
      }
      var stop := Min(end, SatAdd(read, READ_CHUNK));
      chunk := Some(body[read..stop]);
      read := stop;
    }

    /** Clamped rather than rejected: what is left is the part of the range the body has. */
    method Seek(start: nat, upTo: Option<nat>)
      requires Valid()
      modifies this`read, this`end
      ensures Valid()
      ensures Left() == Range(body, start, upTo)
    {
      var len := |body|;
      read := Min(start, len);
      end := Max(Min(if upTo.Some? then upTo.value else len, len), read);
    }
  }

  /** The bytes of `body` at positions from `start` on, up to `upTo`. */
  function Range(body: Bytes, start: nat, upTo: Option<nat>): (r: Bytes)
    ensures forall i :: 0 <= i < |r| ==> start + i < |body| && r[i] == body[start + i] && (upTo.Some? ==> start + i < upTo.value)
    ensures forall j :: start <= j < |body| && (upTo.Some? ==> j < upTo.value) ==> j - start < |r| && r[j - start] == body[j]
  {
    var stop := if upTo.Some? then Min(upTo.value, |body|) else |body|;
    if start < stop then body[start..stop] else []
  }

  /** Reading to the end hands back exactly what was left, in order, in full chunks but for the last. */
  method Drain(hit: Hit) returns (chunks: seq<Bytes>)
    requires hit.Valid()
    modifies hit`read
    ensures hit.Valid() && hit.Left() == []
    ensures Concat(chunks) == old(hit.Left())
    ensures Chunked(chunks, true)
  {
    hide Concat, Chunked;
    chunks := [];
    ConcatNone(hit.Left());
    NoChunks();
    while true
      invariant hit.Valid() && Concat(chunks) + hit.Left() == old(hit.Left())
      invariant Chunked(chunks, hit.Left() == [])
      decreases |hit.Left()|
    {
      ghost var left := hit.Left();
      var chunk := hit.ReadBody();
      if chunk.None? {
        break;
      }
      ConcatMore(chunks, chunk.value, hit.Left());
      ChunkedMore(chunks, chunk.value, hit.Left() == []);
      chunks := chunks + [chunk.value];
    }
    assert Concat(chunks) + [] == Concat(chunks);
  }

  /** Chunks are full, but for the last of them once there is nothing more. */
  ghost predicate Chunked(chunks: seq<Bytes>, ended: bool) {
    forall i :: 0 <= i < |chunks| ==> 0 < |chunks[i]| <= READ_CHUNK && (|chunks[i]| < READ_CHUNK ==> ended && i + 1 == |chunks|)
  }

  lemma NoChunks()
    ensures Chunked([], false) && Chunked([], true)
  {
  }

  lemma ChunkedMore(chunks: seq<Bytes>, chunk: Bytes, ended: bool)
    requires Chunked(chunks, false) && 0 < |chunk| <= READ_CHUNK && (|chunk| < READ_CHUNK ==> ended)
    ensures Chunked(chunks + [chunk], ended)
  {
  }

  lemma ConcatNone(left: Bytes)
    ensures Concat([]) + left == left
  {
  }

  lemma ConcatMore(chunks: seq<Bytes>, chunk: Bytes, left: Bytes)
    ensures Concat(chunks + [chunk]) + left == Concat(chunks) + (chunk + left)
  {
    assert (chunks + [chunk])[..|chunks|] == chunks;
    assert Concat(chunks) + chunk + left == Concat(chunks) + (chunk + left);
  }

  function Concat(chunks: seq<Bytes>): Bytes {
    if chunks == [] then [] else Concat(chunks[..|chunks| - 1]) + chunks[|chunks| - 1]
  }
}
