/**
 Link slots filled and cleared by any number of vcpus. A slot that is not empty holds a unit that has
 not been dropped since, unless the vcpu that dropped it has yet to clear that slot.
 */
module LinkSlots {
  import opened Options

  /** One compiled unit: the address it stands for and a number no other unit has. */
  datatype Id = Id(key: nat, serial: nat)

  /** What a vcpu is in the middle of. */
  datatype Phase =
    | Idle
    | Snapped(since: nat)
    | Resolved(since: nat, id: Id)
    | Linked(since: nat, id: Id)
    | Fetched(id: Id)
    | Dropping
    | Clearing(left: set<nat>)

  /** A vcpu, with its private probe and the epoch the probe was last in step with. */
  datatype Vcpu = Vcpu(phase: Phase, fast: map<nat, Id>, fastEpoch: nat)

  datatype System = System(cache: map<nat, Id>, created: set<Id>, dropped: set<Id>, epoch: nat,
                           slots: map<nat, Option<Id>>, vcpus: map<nat, Vcpu>)

  /**
   A direct edge takes `Snapshot`, `Resolve`, `Publish` and `Seed`; an indirect one `Snapshot`, then `ProbeHit`, or
   `Resolve` and `Remember`, then `Publish`; the outer loop `Fetch` and `Remember`. Any of them may stop half way.
   */
  datatype Action =
    | Install(id: Id)
    | AddSlot(slot: nat)
    | Sync(v: nat)
    | Drop(v: nat, keys: set<nat>)
    | BeginClear(v: nat)
    | ClearSlot(v: nat, slot: nat)
    | EndClear(v: nat)
    | Snapshot(v: nat)
    | Resolve(v: nat, key: nat)
    | ProbeHit(v: nat, key: nat)
    | Publish(v: nat, slot: nat)
    | Seed(v: nat)
    | Fetch(v: nat, key: nat)
    | Remember(v: nat)
    | Leave(v: nat)

  function SetPhase(s: System, v: nat, phase: Phase): System
    requires v in s.vcpus
  {
    s.(vcpus := s.vcpus[v := s.vcpus[v].(phase := phase)])
  }

  /** The units ever made for keys that are being dropped. */
  function Doomed(s: System, keys: set<nat>): set<Id> {
    set id | id in s.created && id.key in keys
  }

  predicate Enabled(s: System, a: Action) {
    match a
    case Install(id) => id !in s.created
    case AddSlot(n) => n !in s.slots
    case Sync(v) => v in s.vcpus && s.vcpus[v].phase.Idle?
    case Drop(v, keys) =>
      v in s.vcpus && (s.vcpus[v].phase.Idle? || s.vcpus[v].phase.Dropping?) && keys <= s.cache.Keys && keys != {}
    case BeginClear(v) => v in s.vcpus && s.vcpus[v].phase.Dropping?
    case ClearSlot(v, n) => v in s.vcpus && s.vcpus[v].phase.Clearing? && n in s.vcpus[v].phase.left && n in s.slots
    case EndClear(v) => v in s.vcpus && s.vcpus[v].phase.Clearing? && s.vcpus[v].phase.left == {}
    case Snapshot(v) => v in s.vcpus && s.vcpus[v].phase.Idle?
    case Resolve(v, key) => v in s.vcpus && s.vcpus[v].phase.Snapped? && key in s.cache
    case ProbeHit(v, key) => v in s.vcpus && s.vcpus[v].phase.Snapped? && key in s.vcpus[v].fast
    case Publish(v, n) => v in s.vcpus && s.vcpus[v].phase.Resolved? && n in s.slots
    case Seed(v) => v in s.vcpus && s.vcpus[v].phase.Linked?
    case Fetch(v, key) => v in s.vcpus && s.vcpus[v].phase.Idle? && key in s.cache
    case Remember(v) => v in s.vcpus && (s.vcpus[v].phase.Resolved? || s.vcpus[v].phase.Fetched?)
    case Leave(v) =>
      v in s.vcpus && !s.vcpus[v].phase.Dropping? && !s.vcpus[v].phase.Clearing?
  }

  function Next(s: System, a: Action): System
    requires Enabled(s, a)
  {
    match a
    case Install(id) => s.(cache := s.cache[id.key := id], created := s.created + {id})
    case AddSlot(n) => s.(slots := s.slots[n := None])
    case Sync(v) =>
      if s.vcpus[v].fastEpoch == s.epoch then s
      else s.(vcpus := s.vcpus[v := Vcpu(Idle, map[], s.epoch)])
    case Drop(v, keys) =>
      SetPhase(s.(cache := s.cache - keys, dropped := s.dropped + Doomed(s, keys), epoch := s.epoch + 1), v, Dropping)
    case BeginClear(v) => SetPhase(s, v, Clearing(s.slots.Keys))
    case ClearSlot(v, n) =>
      SetPhase(s.(slots := s.slots[n := None]), v, Clearing(s.vcpus[v].phase.left - {n}))
    case EndClear(v) => SetPhase(s, v, Idle)
    case Snapshot(v) => SetPhase(s, v, Snapped(s.epoch))
    case Resolve(v, key) => SetPhase(s, v, Resolved(s.vcpus[v].phase.since, s.cache[key]))
    case ProbeHit(v, key) => SetPhase(s, v, Resolved(s.vcpus[v].phase.since, s.vcpus[v].fast[key]))
    case Publish(v, n) =>
      var me := s.vcpus[v].phase;
      if me.since == s.epoch then
        SetPhase(s.(slots := s.slots[n := Some(me.id)]), v, Linked(me.since, me.id))
      else SetPhase(s, v, Idle)
    case Seed(v) =>
      var me := s.vcpus[v];
      s.(vcpus := s.vcpus[v := Vcpu(Idle, me.fast[me.phase.id.key := me.phase.id], me.fastEpoch)])
    case Fetch(v, key) => SetPhase(s, v, Fetched(s.cache[key]))
    case Remember(v) =>
      var me := s.vcpus[v];
      s.(vcpus := s.vcpus[v := me.(fast := me.fast[me.phase.id.key := me.phase.id])])
    case Leave(v) => SetPhase(s, v, Idle)
  }

  // ---- The invariant ----

  /** Vcpu `c` still has slot `n` to clear. */
  predicate WillClear(c: Vcpu, n: nat) {
    c.phase.Dropping? || (c.phase.Clearing? && n in c.phase.left)
  }

  ghost predicate SomeoneWillClear(s: System, n: nat) {
    exists w :: w in s.vcpus && WillClear(s.vcpus[w], n)
  }

  ghost predicate VcpuOk(c: Vcpu, s: System) {
    && c.fastEpoch <= s.epoch
    && (c.fastEpoch == s.epoch ==> forall k | k in c.fast :: c.fast[k] !in s.dropped)
    && (forall k | k in c.fast :: c.fast[k] in s.created)
    && (c.phase.Fetched? ==>
          c.phase.id in s.created && (c.fastEpoch == s.epoch ==> c.phase.id !in s.dropped))
    && (c.phase.Snapped? ==> c.fastEpoch <= c.phase.since <= s.epoch)
    && (c.phase.Resolved? || c.phase.Linked? ==>
          && c.fastEpoch <= c.phase.since <= s.epoch && c.phase.id in s.created
          && (c.phase.since == s.epoch ==> c.phase.id !in s.dropped))
  }

  ghost predicate SlotOk(s: System, n: nat)
    requires n in s.slots
  {
    s.slots[n].Some? ==>
      s.slots[n].value in s.created && (s.slots[n].value in s.dropped ==> SomeoneWillClear(s, n))
  }

  ghost predicate Safe(s: System) {
    && s.dropped <= s.created
    && (forall k | k in s.cache :: s.cache[k].key == k && s.cache[k] in s.created && s.cache[k] !in s.dropped)
    && (forall v | v in s.vcpus :: VcpuOk(s.vcpus[v], s))
    && (forall n | n in s.slots :: SlotOk(s, n))
  }

  /** A probe hit that fills a slot is taken only while the probe is in step with the snapshot. */
  predicate ProbeInStep(s: System, a: Action) {
    a.ProbeHit? && a.v in s.vcpus && s.vcpus[a.v].phase.Snapped? ==> s.vcpus[a.v].fastEpoch == s.vcpus[a.v].phase.since
  }

  /** A change to one vcpu that leaves it with every slot it had to clear keeps the slots safe. */
  lemma SlotsKeep(s: System, t: System, v: nat)
    requires Safe(s) && v in s.vcpus && v in t.vcpus && s.created <= t.created && t.dropped == s.dropped
    requires forall w | w in s.vcpus && w != v :: w in t.vcpus && t.vcpus[w] == s.vcpus[w]
    requires forall n | n in t.slots && t.slots[n].Some? :: n in s.slots && t.slots[n] == s.slots[n]
    requires forall n | n in t.slots && t.slots[n].Some? && WillClear(s.vcpus[v], n) :: WillClear(t.vcpus[v], n)
    ensures forall n | n in t.slots :: SlotOk(t, n)
  {
    forall n | n in t.slots && t.slots[n].Some? && t.slots[n].value in t.dropped
      ensures SomeoneWillClear(t, n)
    {
      assert SlotOk(s, n);
      var w :| w in s.vcpus && WillClear(s.vcpus[w], n);
      assert w in t.vcpus && WillClear(t.vcpus[w], n);
    }
  }

  /** A step that changes one vcpu, and at most empties slots, needs checking at that vcpu alone. */
  lemma OneVcpuKeeps(s: System, t: System, v: nat)
    requires Safe(s) && v in s.vcpus && v in t.vcpus
    requires t.cache == s.cache && t.created == s.created && t.dropped == s.dropped && t.epoch == s.epoch
    requires t.vcpus == s.vcpus[v := t.vcpus[v]] && VcpuOk(t.vcpus[v], t)
    requires forall n | n in t.slots && t.slots[n].Some? :: n in s.slots && t.slots[n] == s.slots[n]
    requires forall n | n in t.slots && t.slots[n].Some? && WillClear(s.vcpus[v], n) :: WillClear(t.vcpus[v], n)
    ensures Safe(t)
  {
    SlotsKeep(s, t, v);
    forall w | w in t.vcpus
      ensures VcpuOk(t.vcpus[w], t)
    {
      if w != v {
        assert VcpuOk(s.vcpus[w], s);
      }
    }
  }

  lemma FillStepKeeps(s: System, a: Action)
    requires Safe(s) && Enabled(s, a) && ProbeInStep(s, a)
    requires a.Sync? || a.Snapshot? || a.Resolve? || a.ProbeHit? || a.Seed? || a.Fetch? || a.Remember? || a.Leave?
    ensures Safe(Next(s, a))
  {
    assert VcpuOk(s.vcpus[a.v], s);
    if !a.Sync? || s.vcpus[a.v].fastEpoch != s.epoch {
      OneVcpuKeeps(s, Next(s, a), a.v);
    }
  }

  lemma ClearStepKeeps(s: System, a: Action)
    requires Safe(s) && Enabled(s, a) && (a.BeginClear? || a.ClearSlot? || a.EndClear?)
    ensures Safe(Next(s, a))
  {
    assert VcpuOk(s.vcpus[a.v], s);
    OneVcpuKeeps(s, Next(s, a), a.v);
  }

  lemma GrowthKeeps(s: System, a: Action)
    requires Safe(s) && Enabled(s, a) && (a.Install? || a.AddSlot?)
    ensures Safe(Next(s, a))
  {
    var t := Next(s, a);
    forall n | n in t.slots && t.slots[n].Some? && t.slots[n].value in t.dropped
      ensures SomeoneWillClear(t, n)
    {
      assert SlotOk(s, n);
    }
  }

  lemma DropKeeps(s: System, a: Action)
    requires Safe(s) && Enabled(s, a) && a.Drop?
    ensures Safe(Next(s, a))
  {
    var t := Next(s, a);
    forall n | n in t.slots
      ensures SlotOk(t, n)
    {
      assert SlotOk(s, n);
      assert WillClear(t.vcpus[a.v], n);
    }
  }

  lemma PublishKeeps(s: System, a: Action)
    requires Safe(s) && Enabled(s, a) && a.Publish?
    ensures Safe(Next(s, a))
  {
    var t := Next(s, a);
    assert VcpuOk(s.vcpus[a.v], s);
    forall n | n in t.slots
      ensures SlotOk(t, n)
    {
      assert n in s.slots && SlotOk(s, n);
      if t.slots[n].Some? && t.slots[n].value in t.dropped {
        var w :| w in s.vcpus && WillClear(s.vcpus[w], n);
        assert w in t.vcpus && WillClear(t.vcpus[w], n);
      }
    }
  }

  lemma StepKeeps(s: System, a: Action)
    requires Safe(s) && Enabled(s, a) && ProbeInStep(s, a)
    ensures Safe(Next(s, a))
  {
    if a.Install? || a.AddSlot? {
      GrowthKeeps(s, a);
    } else if a.Drop? {
      DropKeeps(s, a);
    } else if a.Publish? {
      PublishKeeps(s, a);
    } else if a.BeginClear? || a.ClearSlot? || a.EndClear? {
      ClearStepKeeps(s, a);
    } else {
      FillStepKeeps(s, a);
    }
  }

  // ---- Runs ----

  ghost predicate IsRun(s: System, actions: seq<Action>)
    decreases |actions|
  {
    actions == [] || (Enabled(s, actions[0]) && IsRun(Next(s, actions[0]), actions[1..]))
  }

  ghost predicate ProbesInStep(s: System, actions: seq<Action>)
    requires IsRun(s, actions)
    decreases |actions|
  {
    actions == [] || (ProbeInStep(s, actions[0]) && ProbesInStep(Next(s, actions[0]), actions[1..]))
  }

  function Run(s: System, actions: seq<Action>): System
    requires IsRun(s, actions)
    decreases |actions|
  {
    if actions == [] then s else Run(Next(s, actions[0]), actions[1..])
  }

  /** Theorem: every run whose slot-filling probe hits are in step keeps every link slot safe. */
  lemma {:induction false} EveryRunSafe(s: System, actions: seq<Action>)
    requires Safe(s) && IsRun(s, actions) && ProbesInStep(s, actions)
    ensures Safe(Run(s, actions))
    decreases |actions|
  {
    hide Safe;
    hide Next;
    hide Enabled;
    if actions != [] {
      StepKeeps(s, actions[0]);
      EveryRunSafe(Next(s, actions[0]), actions[1..]);
    }
  }

  /** Theorem: once nobody is between a drop and its clearing, every slot holds a unit not dropped since. */
  lemma QuietSlotsAreLive(s: System, n: nat)
    requires Safe(s) && n in s.slots && s.slots[n].Some?
    requires forall v | v in s.vcpus :: !s.vcpus[v].phase.Dropping? && !s.vcpus[v].phase.Clearing?
    ensures s.slots[n].value !in s.dropped
  {
    assert SlotOk(s, n);
  }

  // ---- The probe must be in step ----

  /** A slot filled from the probe: the hit, then the publication. */
  function Fill(s: System, v: nat, key: nat, n: nat): System
    requires Enabled(s, ProbeHit(v, key)) && n in s.slots
  {
    Next(Next(s, ProbeHit(v, key)), Publish(v, n))
  }

  /** A fill let through leaves the slot safe exactly when the unit was not dropped or the slot is yet to be cleared. */
  lemma FilledSlotSafeIff(s: System, v: nat, key: nat, n: nat)
    requires Safe(s) && Enabled(s, ProbeHit(v, key)) && n in s.slots && s.vcpus[v].phase.since == s.epoch
    ensures var t, id := Fill(s, v, key, n), s.vcpus[v].fast[key];
            && t.slots[n] == Some(id)
            && (SlotOk(t, n) <==> id !in s.dropped || SomeoneWillClear(s, n))
  {
    var t := Fill(s, v, key, n);
    assert VcpuOk(s.vcpus[v], s);
    if SomeoneWillClear(s, n) {
      var w :| w in s.vcpus && WillClear(s.vcpus[w], n);
      assert w in t.vcpus && WillClear(t.vcpus[w], n);
    }
    if SomeoneWillClear(t, n) {
      var w :| w in t.vcpus && WillClear(t.vcpus[w], n);
      assert w in s.vcpus && WillClear(s.vcpus[w], n);
    }
  }

  /** A fill that is refused changes no slot. */
  lemma RefusedFill(s: System, v: nat, key: nat, n: nat)
    requires Safe(s) && Enabled(s, ProbeHit(v, key)) && n in s.slots && s.vcpus[v].phase.since != s.epoch
    ensures SlotOk(Fill(s, v, key, n), n)
  {
    var t := Fill(s, v, key, n);
    assert SlotOk(s, n);
    if SomeoneWillClear(s, n) {
      var w :| w in s.vcpus && WillClear(s.vcpus[w], n);
      assert w in t.vcpus && WillClear(t.vcpus[w], n);
    }
  }

  /** A vcpu that has taken its snapshot and finds `key` in its probe, as some safe system may have it. */
  predicate AboutToProbe(c: Vcpu, epoch: nat, key: nat) {
    c.phase.Snapped? && key in c.fast && c.fastEpoch <= c.phase.since <= epoch
  }

  /** Whatever safe system the vcpu finds itself in at that epoch, its fill leaves the slot safe. */
  ghost predicate FillAlwaysSafe(c: Vcpu, epoch: nat, key: nat)
    requires AboutToProbe(c, epoch, key)
  {
    forall s: System, v: nat, n: nat | Safe(s) && s.epoch == epoch && v in s.vcpus && s.vcpus[v] == c && n in s.slots ::
      SlotOk(Fill(s, v, key, n), n)
  }

  /** The safe system in which the probed unit, and nothing else, has been dropped and every slot cleared. */
  function DroppedWorld(c: Vcpu, epoch: nat, key: nat): System
    requires key in c.fast
  {
    System(map[], set k | k in c.fast :: c.fast[k], {c.fast[key]}, epoch, map[0 := None], map[0 := c])
  }

  lemma DroppedWorldIsSafe(c: Vcpu, epoch: nat, key: nat)
    requires AboutToProbe(c, epoch, key) && c.fastEpoch < epoch
    ensures Safe(DroppedWorld(c, epoch, key))
  {
  }

  /**
   Theorem: a vcpu's fill from its probe is safe in every safe system exactly when, if it is let through at all,
   the probe is in step with the snapshot. The vcpu can test this before it fills.
   */
  lemma ProbeFillSafeIff(c: Vcpu, epoch: nat, key: nat)
    requires AboutToProbe(c, epoch, key)
    ensures FillAlwaysSafe(c, epoch, key) <==> (c.phase.since == epoch ==> c.fastEpoch == c.phase.since)
  {
    if c.phase.since == epoch && c.fastEpoch != epoch {
      var s := DroppedWorld(c, epoch, key);
      DroppedWorldIsSafe(c, epoch, key);
      FilledSlotSafeIff(s, 0, key, 0);
      assert !SlotOk(Fill(s, 0, key, 0), 0);
    } else {
      forall s: System, v: nat, n: nat | Safe(s) && s.epoch == epoch && v in s.vcpus && s.vcpus[v] == c && n in s.slots
        ensures SlotOk(Fill(s, v, key, n), n)
      {
        StepInStep(s, v, key, n);
      }
    }
  }

  lemma StepInStep(s: System, v: nat, key: nat, n: nat)
    requires Safe(s) && Enabled(s, ProbeHit(v, key)) && n in s.slots
    requires s.vcpus[v].phase.since == s.epoch ==> s.vcpus[v].fastEpoch == s.vcpus[v].phase.since
    ensures SlotOk(Fill(s, v, key, n), n)
  {
    hide Next;
    if s.vcpus[v].phase.since == s.epoch {
      assert VcpuOk(s.vcpus[v], s);
      FilledSlotSafeIff(s, v, key, n);
    } else {
      RefusedFill(s, v, key, n);
    }
  }

  ghost predicate Reaches(s: System, actions: seq<Action>, t: System) {
    IsRun(s, actions) && Run(s, actions) == t
  }

  lemma Then(s: System, a: Action, s': System, rest: seq<Action>, t: System)
    requires Enabled(s, a) && Next(s, a) == s' && Reaches(s', rest, t)
    ensures Reaches(s, [a] + rest, t)
  {
    assert ([a] + rest)[1..] == rest;
  }

  const U := Id(5, 0)

  /** Two idle vcpus with nothing cached. */
  function Start(): System {
    System(map[], {}, {}, 0, map[], map[0 := Vcpu(Idle, map[], 0), 1 := Vcpu(Idle, map[], 0)])
  }

  /** Any number of idle vcpus with nothing cached is safe. */
  lemma InitiallySafe(vcpus: map<nat, Vcpu>)
    requires forall v | v in vcpus :: vcpus[v] == Vcpu(Idle, map[], 0)
    ensures Safe(System(map[], {}, {}, 0, map[], vcpus))
  {
  }

  /** One unit cached and one slot, with vcpu 0 in the given state. */
  function OneUnit(slot: Option<Id>, first: Vcpu): System {
    System(map[5 := U], {U}, {}, 0, map[0 := slot], map[0 := first, 1 := Vcpu(Idle, map[], 0)])
  }

  /** That unit dropped by vcpu 1, in the given phase of clearing the slot; vcpu 0 still has it in its probe. */
  function Dropped(slot: Option<Id>, phase: Phase): System {
    System(map[], {U}, {U}, 1, map[0 := slot], map[0 := Vcpu(Idle, map[5 := U], 0), 1 := Vcpu(phase, map[], 0)])
  }

  /** Dropped and cleared, with vcpu 0 in the given phase. */
  function Cleared(slot: Option<Id>, phase: Phase): System {
    System(map[], {U}, {U}, 1, map[0 := slot], map[0 := Vcpu(phase, map[5 := U], 0), 1 := Vcpu(Idle, map[], 0)])
  }

  lemma Fills(rest: seq<Action>, t: System)
    requires Reaches(OneUnit(Some(U), Vcpu(Idle, map[5 := U], 0)), rest, t)
    ensures Reaches(OneUnit(None, Vcpu(Resolved(0, U), map[], 0)), [Publish(0, 0)] + ([Seed(0)] + rest), t)
  {
    hide Reaches;
    var s2, s3 := OneUnit(None, Vcpu(Resolved(0, U), map[], 0)), OneUnit(Some(U), Vcpu(Linked(0, U), map[], 0));
    Then(s3, Seed(0), OneUnit(Some(U), Vcpu(Idle, map[5 := U], 0)), rest, t);
    Then(s2, Publish(0, 0), s3, [Seed(0)] + rest, t);
  }

  lemma LinksOnce(rest: seq<Action>, t: System)
    requires Reaches(OneUnit(Some(U), Vcpu(Idle, map[5 := U], 0)), rest, t)
    ensures Reaches(OneUnit(None, Vcpu(Idle, map[], 0)),
                    [Snapshot(0)] + ([Resolve(0, 5)] + ([Publish(0, 0)] + ([Seed(0)] + rest))), t)
  {
    hide Reaches;
    var s0, s1 := OneUnit(None, Vcpu(Idle, map[], 0)), OneUnit(None, Vcpu(Snapped(0), map[], 0));
    Fills(rest, t);
    Then(s1, Resolve(0, 5), OneUnit(None, Vcpu(Resolved(0, U), map[], 0)), [Publish(0, 0)] + ([Seed(0)] + rest), t);
    Then(s0, Snapshot(0), s1, [Resolve(0, 5)] + ([Publish(0, 0)] + ([Seed(0)] + rest)), t);
  }

  lemma DropsAndClears(rest: seq<Action>, t: System)
    requires Reaches(Cleared(None, Idle), rest, t)
    ensures Reaches(OneUnit(Some(U), Vcpu(Idle, map[5 := U], 0)),
                    [Drop(1, {5})] + ([BeginClear(1)] + ([ClearSlot(1, 0)] + ([EndClear(1)] + rest))), t)
  {
    hide Reaches;
    var s0, s1 := OneUnit(Some(U), Vcpu(Idle, map[5 := U], 0)), Dropped(Some(U), Dropping);
    var s2, s3 := Dropped(Some(U), Clearing({0})), Dropped(None, Clearing({}));
    assert Doomed(s0, {5}) == {U};
    var all: set<nat>, none: set<nat> := {0}, {};
    assert all - {0} == none;
    assert s1.slots.Keys == all;
    Then(s3, EndClear(1), Cleared(None, Idle), rest, t);
    Then(s2, ClearSlot(1, 0), s3, [EndClear(1)] + rest, t);
    Then(s1, BeginClear(1), s2, [ClearSlot(1, 0)] + ([EndClear(1)] + rest), t);
    Then(s0, Drop(1, {5}), s1, [BeginClear(1)] + ([ClearSlot(1, 0)] + ([EndClear(1)] + rest)), t);
  }

  lemma Relinks()
    ensures Reaches(Cleared(None, Resolved(1, U)), [Publish(0, 0)], Cleared(Some(U), Linked(1, U)))
  {
    var t := Cleared(Some(U), Linked(1, U));
    assert Reaches(t, [], t);
    Then(Cleared(None, Resolved(1, U)), Publish(0, 0), t, [], t);
    assert [Publish(0, 0)] + [] == [Publish(0, 0)];
  }

  lemma ProbesAndRelinks() returns (actions: seq<Action>)
    ensures Reaches(Cleared(None, Idle), actions, Cleared(Some(U), Linked(1, U)))
  {
    hide Reaches;
    var s1, t := Cleared(None, Snapped(1)), Cleared(Some(U), Linked(1, U));
    Relinks();
    Then(s1, ProbeHit(0, 5), Cleared(None, Resolved(1, U)), [Publish(0, 0)], t);
    Then(Cleared(None, Idle), Snapshot(0), s1, [ProbeHit(0, 5)] + [Publish(0, 0)], t);
    actions := [Snapshot(0)] + ([ProbeHit(0, 5)] + [Publish(0, 0)]);
  }

  /** A run from nothing, with a probe out of step, that leaves a dropped unit in a slot nobody will clear. */
  lemma StaleProbeRelinks() returns (actions: seq<Action>)
    ensures IsRun(Start(), actions)
    ensures var t := Run(Start(), actions);
            0 in t.slots && t.slots[0].Some? && t.slots[0].value in t.dropped && !SomeoneWillClear(t, 0)
  {
    var t := Cleared(Some(U), Linked(1, U));
    var probe := ProbesAndRelinks();
    DropsAndClears(probe, t);
    var drop := [Drop(1, {5})] + ([BeginClear(1)] + ([ClearSlot(1, 0)] + ([EndClear(1)] + probe)));
    LinksOnce(drop, t);
    var link := [Snapshot(0)] + ([Resolve(0, 5)] + ([Publish(0, 0)] + ([Seed(0)] + drop)));
    var s1 := Next(Start(), Install(U));
    Then(s1, AddSlot(0), OneUnit(None, Vcpu(Idle, map[], 0)), link, t);
    Then(Start(), Install(U), s1, [AddSlot(0)] + link, t);
    actions := [Install(U)] + ([AddSlot(0)] + link);
  }
}
