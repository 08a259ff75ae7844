/**
 The dispatch loops of one vcpu. Guest code is an arbitrary sequence of stores and a way out of the
 unit; over every run, each unit entered is the translation of the bytes then in memory.
 */
module Dispatcher {
  import opened Pages
  import opened Options
  import opened CodeState
  import opened Engine
  import opened Machine

  datatype Write = Write(addr: nat, data: seq<int>)

  /**
   How a unit ends: back to the dispatcher at `rip`, along a chaining slot, at an instruction the
   interpreter must step (with the outcome of that step), or out of the run.
   */
  datatype Next =
    | Goto(rip: nat)
    | Edge(slot: Slot, computed: nat)
    | Defer(writes: seq<Write>, rip: nat, trap: Option<GuestExit>)
    | Leave(rip: nat, cause: GuestExit)

  /** One execution of guest code: its stores, the guest blocks it spends and how it ends. */
  datatype Effect = Effect(writes: seq<Write>, spent: nat, next: Next)

  /** One step of a run: the address, memory and charge it began with, and the unit if one was entered. */
  datatype Execution =
    | Entered(unit: Unit, compiled: bool, rip: nat, mem: Bytes, charged: nat)
    | Stepped(rip: nat, mem: Bytes, charged: nat)

  // ---- Plain sequential execution ----

  /** The write reaches address `a`: it covers `a`, and every byte it covers is mapped. */
  predicate Lands(mem: Bytes, w: Write, a: nat) {
    w.addr <= a < w.addr + |w.data| && forall b | w.addr <= b < w.addr + |w.data| :: b in mem
  }

  /** `now` is `mem` after `writes`. */
  ghost predicate WrittenBy(mem: Bytes, writes: seq<Write>, now: Bytes) {
    now.Keys == mem.Keys && forall a | a in mem :: ByteAfter(mem, writes, a, now[a])
  }

  /** The byte at `a` after `writes`: what the last write to land there left, or as it was. */
  ghost predicate ByteAfter(mem: Bytes, writes: seq<Write>, a: nat, v: int)
    requires a in mem
  {
    || (exists i | 0 <= i < |writes| :: LastToLand(mem, writes, a, i) && v == writes[i].data[a - writes[i].addr])
    || (NoneLands(mem, writes, a) && v == mem[a])
  }

  ghost predicate LastToLand(mem: Bytes, writes: seq<Write>, a: nat, i: nat)
    requires i < |writes|
    ensures LastToLand(mem, writes, a, i) ==> writes[i].addr <= a < writes[i].addr + |writes[i].data|
  {
    Lands(mem, writes[i], a) && forall j | i < j < |writes| :: !Lands(mem, writes[j], a)
  }

  ghost predicate NoneLands(mem: Bytes, writes: seq<Write>, a: nat) {
    forall i | 0 <= i < |writes| :: !Lands(mem, writes[i], a)
  }

  lemma SameKeysLand(mem: Bytes, now: Bytes, w: Write, a: nat)
    requires mem.Keys == now.Keys
    ensures Lands(mem, w, a) <==> Lands(now, w, a)
  {
    assert forall b: nat :: b in mem <==> b in now;
  }

  lemma ByteThen(mem: Bytes, first: seq<Write>, mid: Bytes, second: seq<Write>, a: nat, v: int)
    requires a in mem && mid.Keys == mem.Keys && ByteAfter(mem, first, a, mid[a]) && ByteAfter(mid, second, a, v)
    ensures ByteAfter(mem, first + second, a, v)
  {
    hide Lands;
    var all, n := first + second, |first|;
    forall w: Write
      ensures Lands(mem, w, a) <==> Lands(mid, w, a)
    {
      SameKeysLand(mem, mid, w, a);
    }
    if NoneLands(mid, second, a) {
      if !NoneLands(mem, first, a) {
        var i :| 0 <= i < n && LastToLand(mem, first, a, i) && mid[a] == first[i].data[a - first[i].addr];
        assert all[i] == first[i] && LastToLand(mem, all, a, i);
      }
    } else {
      var j :| 0 <= j < |second| && LastToLand(mid, second, a, j) && v == second[j].data[a - second[j].addr];
      assert all[n + j] == second[j] && LastToLand(mem, all, a, n + j);
    }
  }

  /** Writes after writes are writes. */
  lemma WrittenThen(mem: Bytes, first: seq<Write>, mid: Bytes, second: seq<Write>, now: Bytes)
    requires WrittenBy(mem, first, mid) && WrittenBy(mid, second, now)
    ensures WrittenBy(mem, first + second, now)
  {
    hide ByteAfter;
    forall a | a in mem
      ensures ByteAfter(mem, first + second, a, now[a])
    {
      ByteThen(mem, first, mid, second, a, now[a]);
    }
  }

  lemma NothingWritten(mem: Bytes)
    ensures WrittenBy(mem, [], mem)
  {
  }

  /** The address a way out of guest code leads to: a direct slot has its own, an indirect one takes the computed. */
  ghost predicate GoesTo(next: Next, rip: nat) {
    match next
    case Goto(r) => rip == r
    case Edge(Direct(_, target), _) => rip == target
    case Edge(Indirect(_), computed) => rip == computed
    case Defer(_, r, _) => rip == r
    case Leave(r, _) => rip == r
  }

  /** The guest exit a way out ends the run with, if any. */
  ghost predicate EndsWith(next: Next, cause: GuestExit) {
    (next.Leave? && next.cause == cause) || (next.Defer? && next.trap == Some(cause))
  }

  ghost predicate GoesOn(next: Next) {
    forall cause :: !EndsWith(next, cause)
  }

  /** All the stores of one execution: the unit's, then those of the instruction it left to the interpreter. */
  function StoresOf(e: Effect): seq<Write> {
    e.writes + (if e.next.Defer? then e.next.writes else [])
  }

  ghost function Stores(guest: nat -> Effect, n: nat): seq<Write> {
    if n == 0 then [] else Stores(guest, n - 1) + StoresOf(guest(n - 1))
  }

  /** Where a run began. */
  datatype Origin = Origin(trace: seq<Execution>, mem: Bytes, rip: nat)

  /** The state plain execution of the first `n` effects reaches. */
  ghost predicate Reached(from: Origin, guest: nat -> Effect, n: nat, rip: nat, mem: Bytes) {
    && WrittenBy(from.mem, Stores(guest, n), mem)
    && (if n == 0 then rip == from.rip else GoesTo(guest(n - 1).next, rip))
  }

  lemma OneWrite(mem: Bytes, w: Write, now: Bytes)
    requires now.Keys == mem.Keys
    requires var ok := forall a | w.addr <= a < w.addr + |w.data| :: a in mem;
             forall a | a in now :: now[a] == if ok && w.addr <= a < w.addr + |w.data| then w.data[a - w.addr] else mem[a]
    ensures WrittenBy(mem, [w], now)
  {
    forall a | a in mem
      ensures ByteAfter(mem, [w], a, now[a])
    {
      if Lands(mem, w, a) {
        assert LastToLand(mem, [w], a, 0);
      }
    }
  }

  // ---- The dispatcher's run against it ----

  /**
   The unit entered is for the current address, and complete: lifting that address, from a memory that agrees with
   the present one on every byte it takes, gives exactly the bytes the unit holds.
   */
  ghost predicate Exact(vm: Vm, e: Execution)
    requires e.Entered?
  {
    exists m: Bytes :: vm.TakenFrom(e.unit, e.rip, m) && vm.SameCode(m, e.rip, e.mem)
  }

  /** For a lifter decided by the bytes it takes, such a unit is the lift of the memory it runs in. */
  lemma ExactIsCurrentLift(vm: Vm, e: Execution)
    requires e.Entered? && Exact(vm, e) && vm.LiftsLocally()
    ensures vm.TakenFrom(e.unit, e.rip, e.mem)
  {
    var m: Bytes :| vm.TakenFrom(e.unit, e.rip, m) && vm.SameCode(m, e.rip, e.mem);
    forall a: nat
      ensures vm.Takes(m, e.rip, a) <==> vm.Takes(e.mem, e.rip, a)
    {
      assert vm.Takes(m, e.rip, e.rip);
    }
  }

  lemma FreshIsExact(vm: Vm, e: Execution)
    requires e.Entered? && vm.Genuine(e.unit) && e.unit.key == e.rip && Fresh(e.unit, e.mem)
    ensures Exact(vm, e)
  {
    var m: Bytes :| vm.TakenFrom(e.unit, e.unit.key, m);
    forall a | a in m && vm.Takes(m, e.rip, a)
      ensures a in e.mem && e.mem[a] == m[a]
    {
      assert a in e.unit.bytes;
    }
  }

  /** Guest blocks one execution is charged: what a compiled unit spent, at least one and at most what is left. */
  function Cost(budget: Option<nat>, e: Effect, x: Execution): int {
    var left := if budget.Some? then budget.value - x.charged else 0xFFFF_FFFF_FFFF_FFFF;
    if x.Entered? && x.compiled && 1 < e.spent then if left < e.spent then left else e.spent else 1
  }

  ghost function Entries(trace: seq<Execution>): nat {
    if trace == [] then 0
    else Entries(trace[..|trace| - 1]) + (if trace[|trace| - 1].Entered? then 1 else 0)
  }

  /** What was charged before step `k` of the run, and in all once it is over. */
  ghost function ChargedBefore(steps: seq<Execution>, run: Run, k: nat): nat
    requires k <= |steps|
  {
    if k < |steps| then steps[k].charged else run.charged
  }

  /** Step `k` began where plain execution of the effects before it leads, and entered only an exact unit. */
  ghost predicate StepOk(vm: Vm, from: Origin, guest: nat -> Effect, k: nat, x: Execution) {
    Reached(from, guest, k, x.rip, x.mem) && (x.Entered? ==> Exact(vm, x))
  }

  /** The steps of a run and the state it has come to are those of plain execution, and its charges add up. */
  ghost predicate Faithful(vm: Vm, from: Origin, guest: nat -> Effect, run: Run, steps: seq<Execution>, rip: nat,
                           mem: Bytes)
  {
    && |steps| == run.Executed() && Entries(steps) == run.entered
    && (forall k | 0 <= k < |steps| :: StepOk(vm, from, guest, k, steps[k]))
    && Reached(from, guest, |steps|, rip, mem)
    && ChargedBefore(steps, run, 0) == 0
    && forall k | 0 <= k < |steps| ::
         ChargedBefore(steps, run, k + 1) == steps[k].charged + Cost(run.budget, guest(k), steps[k])
  }

  lemma FaithfulStart(vm: Vm, from: Origin, guest: nat -> Effect, run: Run)
    requires run.Executed() == 0 && run.charged == 0
    ensures Faithful(vm, from, guest, run, [], from.rip, from.mem)
  {
    NothingWritten(from.mem);
  }

  /** One more execution. */
  lemma FaithfulNext(vm: Vm, from: Origin, guest: nat -> Effect, run: Run, steps: seq<Execution>, rip: nat, mem: Bytes,
                     x: Execution, run': Run, rip': nat, mem': Bytes)
    requires Faithful(vm, from, guest, run, steps, rip, mem)
    requires x.rip == rip && x.mem == mem && x.charged == run.charged && (x.Entered? ==> Exact(vm, x))
    requires WrittenBy(mem, StoresOf(guest(run.Executed())), mem') && GoesTo(guest(run.Executed()).next, rip')
    requires run'.Executed() == run.Executed() + 1 && run'.entered == run.entered + (if x.Entered? then 1 else 0)
    requires run'.budget == run.budget && run'.charged == run.charged + Cost(run.budget, guest(run.Executed()), x)
    ensures Faithful(vm, from, guest, run', steps + [x], rip', mem')
  {
    hide WrittenBy;
    hide GoesTo;
    hide Exact;
    hide Cost;
    var n, steps' := run.Executed(), steps + [x];
    WrittenThen(from.mem, Stores(guest, n), mem, StoresOf(guest(n)), mem');
    assert steps'[..n] == steps;
    forall k | 0 <= k < |steps'|
      ensures StepOk(vm, from, guest, k, steps'[k])
      ensures ChargedBefore(steps', run', k + 1) == steps'[k].charged + Cost(run'.budget, guest(k), steps'[k])
    {
      if k < n {
        assert StepOk(vm, from, guest, k, steps[k]);
        assert ChargedBefore(steps, run, k + 1) == steps[k].charged + Cost(run.budget, guest(k), steps[k]);
      }
    }
  }

  /** No effect so far has ended the run. */
  ghost predicate AllGoOn(guest: nat -> Effect, n: nat) {
    forall k | 0 <= k < n :: GoesOn(guest(k).next)
  }

  /** The run goes on past every effect that does not end it, and stops with the exit of the first that does. */
  ghost predicate Ends(guest: nat -> Effect, n: nat, stop: Option<Exit>) {
    if stop.Some? && stop.value.Guest? then
      0 < n && AllGoOn(guest, n - 1) && EndsWith(guest(n - 1).next, stop.value.cause)
    else AllGoOn(guest, n)
  }

  const IBTC_MEGAMORPHIC_CAP := 8

  class Vcpu {
    const vm: Vm
    const fastIndex: nat -> nat
    var rip: nat
    var fast: map<nat, Unit>
    var fastEpoch: nat
    var pendingMmio: bool
    var refills: map<Slot, nat>
    ghost var trace: seq<Execution>

    constructor (vm: Vm, fastIndex: nat -> nat, rip: nat)
      requires Coherent(vm.View(Probe(map[], 0))) && vm.AllGenuine()
      ensures this.vm == vm && this.rip == rip && Good() && View() == vm.View(Probe(map[], 0)) && trace == []
    {
      this.vm, this.fastIndex, this.rip := vm, fastIndex, rip;
      fast, fastEpoch, pendingMmio, refills, trace := map[], 0, false, map[], [];
    }

    ghost function View(): State
      reads this`fast, this`fastEpoch, vm, vm.mem, vm.cache, vm.backend
    {
      vm.View(Probe(fast, fastEpoch))
    }

    /** Every unit this vcpu can reach without lifting is genuine. */
    ghost predicate Sourced()
      reads this`fast, vm.cache`blocks, vm.backend
    {
      vm.AllGenuine() && forall i | i in fast :: vm.Genuine(fast[i])
    }

    ghost predicate Good()
      reads this`fast, this`fastEpoch, vm, vm.mem, vm.cache, vm.backend
    {
      Coherent(View()) && Sourced()
    }

    /** The unit is for the current address, and may be entered as soon as nothing is pending. */
    ghost predicate Ready(unit: Unit)
      reads this, vm, vm.mem, vm.cache, vm.backend
    {
      Enterable(unit, rip, View()) && vm.Genuine(unit)
    }

    /** Guest or embedder stores. */
    method Perform(writes: seq<Write>)
      requires Good()
      modifies vm.mem`bytes, vm.mem`dirty, vm.mem`dirtyFlag
      ensures Good() && WrittenBy(old(vm.mem.bytes), writes, vm.mem.bytes)
    {
      hide Coherent;
      hide Sourced;
      hide WrittenBy;
      NothingWritten(vm.mem.bytes);
      for i := 0 to |writes|
        invariant Good() && WrittenBy(old(vm.mem.bytes), writes[..i], vm.mem.bytes)
      {
        ghost var mid := vm.mem.bytes;
        PerformOne(writes[i]);
        WrittenThen(old(vm.mem.bytes), writes[..i], mid, [writes[i]], vm.mem.bytes);
        assert writes[..i + 1] == writes[..i] + [writes[i]];
      }
      assert writes[..|writes|] == writes;
    }

    method PerformOne(w: Write)
      requires Good()
      modifies vm.mem`bytes, vm.mem`dirty, vm.mem`dirtyFlag
      ensures Good() && WrittenBy(old(vm.mem.bytes), [w], vm.mem.bytes)
    {
      hide Coherent;
      hide Sourced;
      hide PageRange;
      hide WrittenBy;
      ghost var s := View();
      CoherentFlag(s);
      var ok := vm.mem.Store(w.addr, w.data);
      if ok {
        StoreKeepsCoherent(s, w.addr, w.data, View());
      }
      OneWrite(s.mem, w, vm.mem.bytes);
    }

    method FastGet() returns (found: Option<Unit>)
      requires Good() && fastEpoch == vm.cache.epoch
      ensures found.Some? ==> Ready(found.value)
    {
      hide Machine.Vm.Genuine;
      var i := fastIndex(rip);
      if i in fast && fast[i].key == rip {
        return Some(fast[i]);
      }
      return None;
    }

    method FastPut(unit: Unit)
      requires Good() && fastEpoch == vm.cache.epoch && Ready(unit)
      modifies this`fast
      ensures Good() && Ready(unit)
    {
      hide Machine.Vm.Genuine;
      ProbeKeepsCoherent(View(), fastIndex(rip), unit);
      fast := fast[fastIndex(rip) := unit];
    }

    /** Flush the private probe if a unit was dropped since it was last in step. */
    method Sync()
      requires Good()
      modifies this`fast, this`fastEpoch, this`refills
      ensures Good() && fastEpoch == vm.cache.epoch
    {
      hide Coherent;
      hide Machine.Vm.AllGenuine;
      if vm.cache.epoch != fastEpoch {
        SyncKeepsCoherent(View());
        fast, refills := map[], map[];
        fastEpoch := vm.cache.epoch;
      }
    }

    /** Enter a unit, complete and up to date, at the current address, and perform its stores. */
    method Enter(unit: Unit, compiled: bool, writes: seq<Write>, ghost charged: nat)
      requires Good() && Ready(unit) && vm.mem.dirty == []
      modifies this`trace, vm.mem`bytes, vm.mem`dirty, vm.mem`dirtyFlag
      ensures Good() && WrittenBy(old(vm.mem.bytes), writes, vm.mem.bytes)
      ensures var x := Entered(unit, compiled, rip, old(vm.mem.bytes), charged); trace == old(trace) + [x] && Exact(vm, x)
    {
      hide Coherent;
      hide Sourced;
      hide WrittenBy;
      hide Exact;
      GuardedIsFresh(unit, View());
      ghost var x := Entered(unit, compiled, rip, vm.mem.bytes, charged);
      FreshIsExact(vm, x);
      trace := trace + [x];
      Perform(writes);
    }

    /** Fill a slot with a unit, unless a unit was dropped since `since`. */
    method FillSlot(slot: Slot, unit: Unit, since: nat) returns (published: bool)
      requires Good() && Ready(unit) && (slot.Direct? ==> rip == slot.target)
      modifies vm.backend`links
      ensures Good() && Ready(unit) && (published <==> vm.cache.epoch == since)
      ensures vm.backend.links == if published then old(vm.backend.links)[slot := unit] else old(vm.backend.links)
    {
      hide Coherent;
      hide Machine.Vm.Genuine;
      LinkKeepsCoherent(View(), slot, unit);
      published := vm.backend.PublishIfCurrent(vm.cache, since, slot, unit);
    }

    /** The unit for the current address, to be chained to: nothing if it is only interpreted. */
    method ResolveCompiled() returns (cur: Option<Unit>, stop: Option<Exit>)
      requires Good() && fastEpoch == vm.cache.epoch && !(vm.background && vm.formsRegions)
      modifies this`fast, vm.cache`blocks, vm.cache`spans, vm.cache`hotness, vm.cache`tierPending,
               vm.mem`tagged, vm.backend`queue
      ensures Good()
      ensures cur.Some? ==> stop.None? && Ready(cur.value)
      ensures stop.Some? ==> stop.value.LiftFailed?
    {
      hide Coherent;
      hide Enterable;
      hide Machine.Vm.Genuine;
      hide Machine.Vm.TakenFrom;
      cur, stop := None, None;
      var resolved := vm.Resolve(rip, Probe(fast, fastEpoch));
      match resolved {
        case Stop(exit) => stop := Some(exit);
        case Found(Interpreted(_)) =>
        case Found(Compiled(unit)) =>
          FastPut(unit);
          cur := Some(unit);
      }
    }

    /** A direct edge whose slot was empty: resolve its target and fill the slot. */
    method FollowDirect(slot: Slot) returns (cur: Option<Unit>, stop: Option<Exit>)
      requires Good() && fastEpoch == vm.cache.epoch && !(vm.background && vm.formsRegions)
      requires slot.Direct? && slot.target == rip
      modifies this`fast, vm.cache`blocks, vm.cache`spans, vm.cache`hotness, vm.cache`tierPending,
               vm.mem`tagged, vm.backend
      ensures Good()
      ensures cur.Some? ==> stop.None? && Ready(cur.value)
      ensures cur.Some? ==> vm.backend.links == old(vm.backend.links)[slot := cur.value]
      ensures cur.None? ==> vm.backend.links == old(vm.backend.links)
      ensures stop.Some? ==> stop.value.LiftFailed?
    {
      hide Coherent;
      hide Machine.Vm.Genuine;
      hide Machine.Vm.TakenFrom;
      cur, stop := None, None;
      var since := vm.cache.epoch;
      var resolved := vm.Resolve(rip, Probe(fast, fastEpoch));
      match resolved {
        case Stop(exit) => stop := Some(exit);
        case Found(Interpreted(_)) =>
        case Found(Compiled(unit)) =>
          var published := FillSlot(slot, unit, since);
          if published {
            FastPut(unit);
            cur := Some(unit);
          }
      }
    }

    /** An indirect edge whose slot was empty or held another target. */
    method FollowIndirect(slot: Slot) returns (cur: Option<Unit>, stop: Option<Exit>)
      requires Good() && fastEpoch == vm.cache.epoch && !(vm.background && vm.formsRegions)
      requires slot.Indirect?
      modifies this`fast, this`refills, vm.cache`blocks, vm.cache`spans, vm.cache`hotness, vm.cache`tierPending,
               vm.mem`tagged, vm.backend
      ensures Good()
      ensures cur.Some? ==> stop.None? && Ready(cur.value)
      ensures stop.Some? ==> stop.value.LiftFailed?
    {
      hide Coherent;
      hide Machine.Vm.Genuine;
      hide Enterable;
      hide Sourced;
      stop := None;
      var since := vm.cache.epoch;
      cur := FastGet();
      if cur.None? {
        cur, stop := ResolveCompiled();
        if cur.None? {
          return;
        }
      }
      var count := if slot in refills then refills[slot] else 0;
      if count < IBTC_MEGAMORPHIC_CAP {
        refills := refills[slot := count + 1];
        var published := FillSlot(slot, cur.value, since);
        if !published {
          cur := None;
        }
      }
    }

    /** The address an edge leads to: fixed for a direct slot, computed for an indirect one. */
    function EdgeTarget(slot: Slot, computed: nat): nat {
      if slot.Direct? then slot.target else computed
    }

    /** Compiled code's own test of its slot, then the dispatcher's part of a miss. */
    method FollowEdge(slot: Slot, computed: nat) returns (cur: Option<Unit>, stop: Option<Exit>)
      requires Good() && fastEpoch == vm.cache.epoch && !(vm.background && vm.formsRegions)
      modifies this`rip, this`fast, this`refills, vm.cache`blocks, vm.cache`spans, vm.cache`hotness,
               vm.cache`tierPending, vm.mem`tagged, vm.backend
      ensures Good() && GoesTo(Edge(slot, computed), rip)
      ensures cur.Some? ==> stop.None? && Ready(cur.value)
      ensures stop.Some? ==> stop.value.LiftFailed?
    {
      hide Machine.Vm.Genuine;
      rip := EdgeTarget(slot, computed);
      if slot in vm.backend.links && (slot.Direct? || vm.backend.links[slot].key == rip) {
        return Some(vm.backend.links[slot]), None;
      }
      if slot.Direct? {
        cur, stop := FollowDirect(slot);
      } else {
        cur, stop := FollowIndirect(slot);
      }
    }

    // ---- The loops ----

    /** The steps since `from`, and the present address and memory, are those of plain execution. */
    ghost predicate RunsFrom(from: Origin, guest: nat -> Effect, run: Run)
      reads this, vm.mem
    {
      from.trace <= trace && Faithful(vm, from, guest, run, trace[|from.trace|..], rip, vm.mem.bytes)
    }

    /** Follow chaining edges from `entry` without going back to the outer loop. */
    method Chain(entry: Unit, run: Run, guest: nat -> Effect, ghost from: Origin)
      returns (run': Run, stop: Option<Exit>)
      requires Good() && fastEpoch == vm.cache.epoch && !(vm.background && vm.formsRegions)
      requires Ready(entry) && !vm.mem.dirtyFlag
      requires run.Live() && RunsFrom(from, guest, run) && AllGoOn(guest, run.Executed())
      modifies this`rip, this`fast, this`refills, this`trace, vm.cache`blocks, vm.cache`spans, vm.cache`hotness,
               vm.cache`tierPending, vm.mem, vm.backend
      ensures Good() && RunsFrom(from, guest, run') && Ends(guest, run'.Executed(), stop)
      ensures run'.Follows(run) && run.Executed() < run'.Executed()
      ensures stop.Some? ==> run'.Explains(stop.value)
    {
      hide Good;
      hide Ready;
      hide RunsFrom;
      hide GoesOn;
      var cur := entry;
      run' := run;
      while true
        invariant Good() && fastEpoch == vm.cache.epoch && RunsFrom(from, guest, run')
        invariant Ready(cur) && AllGoOn(guest, run'.Executed())
        invariant run'.Follows(run) && run'.Live() && (run'.Executed() == run.Executed() ==> !vm.mem.dirtyFlag)
        decreases run'.Limit() - run'.Executed()
      {
        if vm.mem.dirtyFlag {
          return run', None;
        }
        var next: Option<Unit>;
        var effect := guest(run'.Executed());
        ghost var was := run';
        next, stop := RunUnit(cur, effect, run', guest, from);
        run' := run'.Charge(effect.spent);
        OneMoreGoesOn(guest, was.Executed(), effect.next, stop);
        if next.None? {
          return;
        }
        if run'.Spent() {
          return run', Some(run'.OnSpent());
        }
        cur := next.value;
      }
    }

    /** Enter a compiled unit and follow its way out. */
    method RunUnit(unit: Unit, effect: Effect, ghost run: Run, ghost guest: nat -> Effect, ghost from: Origin)
      returns (next: Option<Unit>, stop: Option<Exit>)
      requires Good() && fastEpoch == vm.cache.epoch && !(vm.background && vm.formsRegions)
      requires Ready(unit) && !vm.mem.dirtyFlag
      requires run.Live() && RunsFrom(from, guest, run) && effect == guest(run.Executed())
      modifies this`rip, this`fast, this`refills, this`trace, vm.cache`blocks, vm.cache`spans, vm.cache`hotness,
               vm.cache`tierPending, vm.mem, vm.backend
      ensures Good() && fastEpoch == vm.cache.epoch && RunsFrom(from, guest, run.Charge(effect.spent))
      ensures next.Some? ==> stop.None? && Ready(next.value)
      ensures Leaves(effect.next, stop)
    {
      hide Coherent;
      hide Sourced;
      hide Enterable;
      hide Machine.Vm.Genuine;
      hide Exact;
      hide WrittenBy;
      hide GoesTo;
      hide Faithful;
      CoherentFlag(View());
      ghost var steps, r, m := trace[|from.trace|..], rip, vm.mem.bytes;
      Enter(unit, true, effect.writes, run.charged);
      ghost var x := Entered(unit, true, r, m, run.charged);
      ghost var mid := vm.mem.bytes;
      next, stop := LeaveUnit(effect.next);
      WrittenThen(m, effect.writes, mid, if effect.next.Defer? then effect.next.writes else [], vm.mem.bytes);
      FaithfulNext(vm, from, guest, run, steps, r, m, x, run.Charge(effect.spent), rip, vm.mem.bytes);
      assert trace[|from.trace|..] == steps + [x];
    }

    /** What a compiled unit's way out leads to: another unit, the outer loop, or the end of the run. */
    method LeaveUnit(next: Next) returns (cur: Option<Unit>, stop: Option<Exit>)
      requires Good() && fastEpoch == vm.cache.epoch && !(vm.background && vm.formsRegions)
      modifies this`rip, this`fast, this`refills, vm.cache`blocks, vm.cache`spans, vm.cache`hotness,
               vm.cache`tierPending, vm.mem, vm.backend
      ensures Good() && fastEpoch == vm.cache.epoch && GoesTo(next, rip) && Leaves(next, stop)
      ensures WrittenBy(old(vm.mem.bytes), if next.Defer? then next.writes else [], vm.mem.bytes)
      ensures cur.Some? ==> stop.None? && Ready(cur.value)
    {
      hide Coherent;
      hide Sourced;
      hide Machine.Vm.Genuine;
      hide WrittenBy;
      cur, stop := None, None;
      NothingWritten(vm.mem.bytes);
      match next {
        case Edge(slot, computed) => cur, stop := FollowEdge(slot, computed);
        case _ => stop := StepTo(next);
      }
    }

    /** Go where an instruction leads, performing what the interpreter stepped for it; no chaining slot is taken. */
    method StepTo(next: Next) returns (stop: Option<Exit>)
      requires Good()
      modifies this`rip, vm.mem`bytes, vm.mem`dirty, vm.mem`dirtyFlag
      ensures Good() && GoesTo(next, rip) && Leaves(next, stop) && (stop.Some? ==> stop.value.Guest?)
      ensures WrittenBy(old(vm.mem.bytes), if next.Defer? then next.writes else [], vm.mem.bytes)
    {
      hide Coherent;
      hide Sourced;
      hide WrittenBy;
      stop := None;
      NothingWritten(vm.mem.bytes);
      match next {
        case Goto(r) => rip := r;
        case Edge(slot, computed) => rip := EdgeTarget(slot, computed);
        case Defer(writes, r, trap) =>
          Perform(writes);
          rip := r;
          stop := Trapped(trap);
        case Leave(r, cause) =>
          rip := r;
          stop := Some(Guest(cause));
      }
    }

    /** Fetch the unit for the current address, from the private probe or by resolving it. */
    method Fetch() returns (r: Resolved)
      requires Good() && fastEpoch == vm.cache.epoch && !(vm.background && vm.formsRegions)
      modifies this`fast, vm.cache`blocks, vm.cache`spans, vm.cache`hotness, vm.cache`tierPending,
               vm.mem`tagged, vm.backend`queue
      ensures Good()
      ensures r.Found? ==> Ready(r.block.unit)
      ensures r.Stop? ==> r.exit.LiftFailed?
    {
      hide Coherent;
      hide Enterable;
      hide Machine.Vm.Genuine;
      hide Machine.Vm.TakenFrom;
      var found := FastGet();
      if found.Some? {
        return Found(Compiled(found.value));
      }
      r := vm.Resolve(rip, Probe(fast, fastEpoch));
      if r.Found? && r.block.Compiled? {
        FastPut(r.block.unit);
      }
    }

    /** Resume after a trap the embedder has answered: one instruction, read from memory as it is. */
    method StepPending(run: Run, effect: Effect, ghost guest: nat -> Effect, ghost from: Origin)
      returns (run': Run, stop: Option<Exit>)
      requires Good() && run.Live() && RunsFrom(from, guest, run) && effect == guest(run.Executed())
      modifies this`rip, this`trace, this`pendingMmio, vm.mem`bytes, vm.mem`dirty, vm.mem`dirtyFlag
      ensures Good() && RunsFrom(from, guest, run') && Leaves(effect.next, stop)
      ensures run'.Follows(run) && run'.Executed() == run.Executed() + 1
      ensures stop.Some? ==> stop.value.Guest?
    {
      hide Coherent;
      hide Sourced;
      hide WrittenBy;
      hide GoesTo;
      hide Faithful;
      ghost var steps, r, m := trace[|from.trace|..], rip, vm.mem.bytes;
      ghost var x := Stepped(r, m, run.charged);
      pendingMmio := false;
      trace := trace + [x];
      Perform(effect.writes);
      ghost var mid := vm.mem.bytes;
      stop := StepTo(effect.next);
      run' := run.ChargeStep();
      WrittenThen(m, effect.writes, mid, if effect.next.Defer? then effect.next.writes else [], vm.mem.bytes);
      FaithfulNext(vm, from, guest, run, steps, r, m, x, run', rip, vm.mem.bytes);
      assert trace[|from.trace|..] == steps + [x];
    }

    method Interpret(unit: Unit, run: Run, effect: Effect, ghost guest: nat -> Effect, ghost from: Origin)
      returns (run': Run, stop: Option<Exit>)
      requires Good() && Ready(unit) && vm.mem.dirty == []
      requires run.Live() && RunsFrom(from, guest, run) && effect == guest(run.Executed())
      modifies this`rip, this`trace, vm.mem`bytes, vm.mem`dirty, vm.mem`dirtyFlag
      ensures Good() && RunsFrom(from, guest, run') && Leaves(effect.next, stop)
      ensures run'.Follows(run) && run'.Executed() == run.Executed() + 1
      ensures stop.Some? ==> stop.value.Guest?
    {
      hide Coherent;
      hide Sourced;
      hide Machine.Vm.Genuine;
      hide Exact;
      hide WrittenBy;
      hide GoesTo;
      hide Faithful;
      ghost var steps, r, m := trace[|from.trace|..], rip, vm.mem.bytes;
      ghost var x := Entered(unit, false, r, m, run.charged);
      Enter(unit, false, effect.writes, run.charged);
      ghost var mid := vm.mem.bytes;
      stop := StepTo(effect.next);
      run' := run.Charge(1);
      WrittenThen(m, effect.writes, mid, if effect.next.Defer? then effect.next.writes else [], vm.mem.bytes);
      FaithfulNext(vm, from, guest, run, steps, r, m, x, run', rip, vm.mem.bytes);
      assert trace[|from.trace|..] == steps + [x];
    }

    /** One turn of the outer loop: a step the interpreter owes, an interpreted unit, or a chain of compiled ones. */
    method Turn(run: Run, guest: nat -> Effect, ghost from: Origin) returns (run': Run, stop: Option<Exit>)
      requires Good() && !(vm.background && vm.formsRegions)
      requires run.Live() && RunsFrom(from, guest, run) && AllGoOn(guest, run.Executed())
      modifies this, vm.mem, vm.cache, vm.backend
      ensures Good() && RunsFrom(from, guest, run') && Ends(guest, run'.Executed(), stop)
      ensures run'.Follows(run) && (stop.Some? || run.Executed() < run'.Executed())
      ensures stop.Some? ==> run'.Explains(stop.value)
    {
      hide Coherent;
      hide Ready;
      hide Machine.Vm.AllGenuine;
      hide Machine.Vm.Genuine;
      hide Faithful;
      hide GoesOn;
      hide Run.Charge;
      vm.HandleSmc(Probe(fast, fastEpoch));
      Sync();
      if pendingMmio {
        run', stop := StepPending(run, guest(run.Executed()), guest, from);
        OneMoreGoesOn(guest, run.Executed(), guest(run.Executed()).next, stop);
        return;
      }
      var fetched := Fetch();
      match fetched {
        case Stop(exit) =>
          run', stop := run, Some(exit);
        case Found(Interpreted(unit)) =>
          run', stop := Interpret(unit, run, guest(run.Executed()), guest, from);
          OneMoreGoesOn(guest, run.Executed(), guest(run.Executed()).next, stop);
        case Found(Compiled(unit)) =>
          run', stop := Chain(unit, run, guest, from);
      }
    }

    /**
     Theorem: a run is a run of plain execution. Every step begins at the address and in the memory that performing
     the guest's effects one after another leads to, and so does the state the run ends in; every unit entered is
     complete and up to date; the run ends with the first exit of the guest's; and no more than the budget is charged.
     */
    method RunInner(budget: Option<nat>, horizon: nat, guest: nat -> Effect) returns (run: Run, exit: Exit)
      requires Good() && !(vm.background && vm.formsRegions)
      modifies this, vm.mem, vm.cache, vm.backend
      ensures Good()
      ensures RunsFrom(Origin(old(trace), old(vm.mem.bytes), old(rip)), guest, run)
      ensures Ends(guest, run.Executed(), Some(exit))
      ensures budget.Some? ==> run.charged <= budget.value
      ensures run.Explains(exit)
    {
      hide Good;
      hide GoesOn;
      ghost var from := Origin(trace, vm.mem.bytes, rip);
      run := Run(budget, horizon, 0, 0, 0);
      assert RunsFrom(from, guest, run) by {
        FaithfulStart(vm, from, guest, run);
        assert trace[|from.trace|..] == [];
      }
      hide RunsFrom;
      while true
        invariant Good() && RunsFrom(from, guest, run) && AllGoOn(guest, run.Executed())
        invariant run.Follows(Run(budget, horizon, 0, 0, 0))
        decreases run.Limit() - run.Executed()
      {
        if run.Spent() {
          return run, run.OnSpent();
        }
        var stop: Option<Exit>;
        run, stop := Turn(run, guest, from);
        if stop.Some? {
          return run, stop.value;
        }
      }
    }
  }

  /** A way out that ends the run stops it with its exit; any other does not stop it with an exit of the guest's. */
  ghost predicate Leaves(next: Next, stop: Option<Exit>) {
    && (stop.Some? ==> stop.value.LiftFailed? || stop.value.Guest?)
    && if stop.Some? && stop.value.Guest? then EndsWith(next, stop.value.cause) else GoesOn(next)
  }

  lemma OneMoreGoesOn(guest: nat -> Effect, n: nat, next: Next, stop: Option<Exit>)
    requires AllGoOn(guest, n) && next == guest(n).next && Leaves(next, stop)
    ensures Ends(guest, n + 1, stop)
  {
  }

  function Trapped(trap: Option<GuestExit>): Option<Exit> {
    if trap.Some? then Some(Guest(trap.value)) else None
  }

  /**
   The accounting of one run: an optional budget of guest blocks, the guest blocks charged, the units
   entered and the single instructions the interpreter stepped. Without a budget a run has no end of
   its own; `horizon` cuts it off anywhere.
   */
  datatype Run = Run(budget: Option<nat>, horizon: nat, charged: nat, entered: nat, stepped: nat) {
    function Executed(): nat { entered + stepped }

    function Limit(): nat { if budget.Some? then budget.value else horizon }

    predicate Spent() { if budget.Some? then charged >= budget.value else Executed() >= horizon }

    function OnSpent(): Exit { if budget.Some? then BudgetExhausted else Paused }

    /** A run stops for want of budget only when all of it has been charged; the guest may stop it at any time. */
    ghost predicate Explains(exit: Exit) {
      && (exit.BudgetExhausted? ==> budget.Some? && charged == budget.value)
      && (exit.Paused? ==> budget.None? && Executed() == horizon)
    }

    /** May execute another unit. */
    ghost predicate Live() { Executed() <= charged && !Spent() }

    /** A later point of the same run: no more than the budget has been charged. */
    ghost predicate Follows(r: Run) {
      && budget == r.budget && horizon == r.horizon
      && r.Executed() <= Executed() <= charged && Executed() <= Limit()
      && (budget.Some? ==> charged <= budget.value)
    }

    /** The fuel a unit is handed: what is left of the budget, never below one guest block. */
    function Quantum(): (q: nat)
      requires !Spent()
      ensures 1 <= q
    {
      if budget.Some? then budget.value - charged else 0xFFFF_FFFF_FFFF_FFFF
    }

    /** Charge the fuel a unit consumed, at least one guest block. A unit stops when its fuel is gone. */
    function Charge(spent: nat): Run
      requires !Spent()
    {
      var quantum := Quantum();
      var used := if spent <= quantum then spent else quantum;
      this.(charged := charged + (if used < 1 then 1 else used), entered := entered + 1)
    }

    /** One instruction stepped by the interpreter counts as a guest block. */
    function ChargeStep(): Run
      requires !Spent()
    {
      this.(charged := charged + 1, stepped := stepped + 1)
    }
  }
}
