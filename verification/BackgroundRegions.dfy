/**
 A region compiled in the background may reach blocks on pages that no cached unit covers. Whether such
 a region can ever be published stale is decided by the state it is submitted in.
 */
module BackgroundRegions {
  import opened Pages
  import opened CodeState

  /** What may happen while a compile is in flight. */
  datatype Step =
    | Store(addr: nat, data: seq<int>)
    | Drain
    | Insert(block: Cached)
    | Promote(key: nat)
    | Submit(key: nat)
    | Finish(index: nat)
    | SubmitRegion(unit: Unit)
    | Arrive(index: nat)
    | Link(slot: Slot, key: nat)
    | Remember(index: nat, key: nat)
    | Sync

  /** Invalidate each of `pages` in turn. */
  function DropPages(s: State, pages: seq<nat>): State
    decreases |pages|
  {
    if pages == [] then s else DropPages(DropPage(s, pages[0]), pages[1..])
  }

  /** Claim the dirty pages, invalidate them, and clear the links if a unit went. */
  function Drained(s: State): State {
    var d := DropPages(s.(dirty := [], flag := false), s.dirty);
    if d.epoch == s.epoch then d else d.(links := map[])
  }

  /** The finished compile leaves the queue, and is published unless a unit was dropped meanwhile. */
  function Finished(s: State, i: nat): State
    requires i < |s.queue|
  {
    var r, t := s.queue[i], s.(queue := s.queue[..i] + s.queue[i + 1..]);
    if r.epoch == s.epoch then Promoted(t, r.unit) else t
  }

  /** The unit starts with the block now cached under its key, and no compile of that block is queued. */
  ghost predicate InFlight(s: State, u: Unit) {
    && u.key in s.blocks && u.key in s.spans && PagesOf(s.spans[u.key]) <= PagesOf(u.spans)
    && forall r | r in s.queue && r.unit.key == u.key :: r.epoch != s.epoch
  }

  /** One step other than a region's; the keys in `held` have a region in flight and are not submitted again. */
  ghost predicate Moves(s: State, step: Step, t: State, held: set<nat>) {
    match step
    case Store(addr, data) => Stored(s, addr, data, t)
    case Drain => t == Drained(s)
    case Insert(block) =>
      block.unit.key !in s.blocks && WellFormed(block.unit) && Fresh(block.unit, s.mem) && t == Inserted(s, block)
    case Promote(k) => k in s.blocks && t == Promoted(s, s.blocks[k].unit)
    case Submit(k) =>
      k in s.blocks && k !in held && t == s.(queue := s.queue + [Request(s.blocks[k].unit, s.epoch)])
    case Finish(i) => i < |s.queue| && t == Finished(s, i)
    case Link(l, k) =>
      k in s.blocks && (l.Direct? ==> k == l.target) && t == s.(links := s.links[l := s.blocks[k].unit])
    case Remember(i, k) =>
      s.fastEpoch == s.epoch && k in s.blocks && t == s.(fast := s.fast[i := s.blocks[k].unit])
    case Sync => t == s.(fast := map[], fastEpoch := s.epoch)
    case SubmitRegion(_) => false
    case Arrive(_) => false
  }

  // ---- Every step keeps the state coherent ----

  lemma {:induction false} DropPagesKeep(s: State, pages: seq<nat>, invalidated: bool)
    requires Draining(s, pages, invalidated)
    ensures s.epoch <= DropPages(s, pages).epoch
    ensures var t := DropPages(s, pages); Draining(t, [], invalidated || t.epoch != s.epoch) && t.dirty == s.dirty
    decreases |pages|
  {
    hide Draining;
    if pages != [] {
      var p, rest := pages[0], pages[1..];
      assert pages == [p] + rest;
      var t := DropPage(s, p);
      DropKeepsDraining(s, p, rest, invalidated);
      DropPagesKeep(t, rest, invalidated || t.epoch != s.epoch);
    }
  }

  lemma DrainKeeps(s: State)
    requires Coherent(s)
    ensures Coherent(Drained(s)) && s.epoch <= Drained(s).epoch
  {
    hide Coherent;
    hide Draining;
    hide DropPages;
    var d := s.(dirty := [], flag := false);
    DrainStarts(s, d);
    DropPagesKeep(d, s.dirty, false);
    var t := DropPages(d, s.dirty);
    DrainEnds(t, t.epoch != s.epoch);
  }

  lemma FinishedKeeps(s: State, i: nat)
    requires Coherent(s) && i < |s.queue|
    ensures Coherent(Finished(s, i))
  {
    hide CacheOk;
    hide LinksOk;
    hide ProbeOk;
    FinishKeepsCoherent(s, i);
    var r, t := s.queue[i], s.(queue := s.queue[..i] + s.queue[i + 1..]);
    if r.epoch == s.epoch {
      PromoteKeepsCoherent(t, r.unit);
    }
  }

  lemma LinkKeeps(s: State, l: Slot, k: nat)
    requires Coherent(s) && k in s.blocks && (l.Direct? ==> k == l.target)
    ensures Coherent(s.(links := s.links[l := s.blocks[k].unit]))
  {
    CachedIsGuarded(s, k, s.dirty);
    LinkKeepsCoherent(s, l, s.blocks[k].unit);
  }

  lemma RememberKeeps(s: State, i: nat, k: nat)
    requires Coherent(s) && k in s.blocks && s.fastEpoch == s.epoch
    ensures Coherent(s.(fast := s.fast[i := s.blocks[k].unit]))
  {
    CachedIsGuarded(s, k, s.dirty);
    ProbeKeepsCoherent(s, i, s.blocks[k].unit);
  }

  lemma CachedUnderItsKey(s: State, k: nat)
    requires Coherent(s) && k in s.blocks
    ensures s.blocks[k].unit.key == k && k in s.spans && s.spans[k] == s.blocks[k].unit.spans
  {
  }

  lemma MoveKeepsCoherent(s: State, step: Step, t: State, held: set<nat>)
    requires Coherent(s) && Moves(s, step, t, held)
    ensures Coherent(t) && s.epoch <= t.epoch
  {
    hide Coherent;
    hide Drained;
    hide InFlight;
    hide Stored;
    match step
    case Store(addr, data) => StoreKeeps(s, addr, data, t);
    case Drain => DrainKeeps(s);
    case Insert(block) => InsertKeepsCoherent(s, block);
    case Promote(k) =>
      CachedUnderItsKey(s, k);
      PromoteKeepsCoherent(s, s.blocks[k].unit);
    case Submit(k) =>
      CachedUnderItsKey(s, k);
      SubmitKeepsCoherent(s, s.blocks[k].unit);
    case Finish(i) => FinishedKeeps(s, i);
    case Link(l, k) => LinkKeeps(s, l, k);
    case Remember(i, k) => RememberKeeps(s, i, k);
    case Sync => SyncKeepsCoherent(s);
  }

  lemma StoreKeeps(s: State, addr: nat, data: seq<int>, t: State)
    requires Coherent(s) && Stored(s, addr, data, t)
    ensures Coherent(t) && t.epoch == s.epoch
  {
    StoreKeepsCoherent(s, addr, data, t);
  }

  // ---- Publishing ----

  lemma WiderSpansCoverMore(spans: map<nat, seq<Span>>, k: nat, sp: seq<Span>)
    requires k in spans && PagesOf(spans[k]) <= PagesOf(sp)
    ensures Covered(spans[k := sp]) == Covered(spans) + PagesOf(sp)
  {
    var t := spans[k := sp];
    forall p | p in Covered(spans)
      ensures p in Covered(t)
    {
      var j :| j in spans && p in PagesOf(spans[j]);
      assert p in PagesOf(t[j]);
    }
    assert t[k] == sp;
  }

  lemma PublishCovers(s: State, u: Unit)
    requires u.key in s.blocks && u.key in s.spans && PagesOf(s.spans[u.key]) <= PagesOf(u.spans)
    ensures Covered(Promoted(s, u).spans) == Covered(s.spans) + PagesOf(u.spans)
  {
    WiderSpansCoverMore(s.spans, u.key, u.spans);
  }

  lemma PublishKeepsCache(s: State, u: Unit)
    requires CacheOk(s, s.dirty) && u.key in s.blocks && PagesOf(s.spans[u.key]) <= PagesOf(u.spans)
    requires WellFormed(u) && Current(u, s.mem, s.dirty)
    ensures CacheOk(Promoted(s, u), s.dirty)
  {
    hide PagesOf;
    hide Covered;
    hide WellFormed;
    hide Current;
    PublishCovers(s, u);
  }

  /** Theorem: publishing a region over the block it starts at is coherent exactly when its bytes are current. */
  lemma PublishCoherentIff(s: State, u: Unit)
    requires Coherent(s) && WellFormed(u) && InFlight(s, u)
    ensures Coherent(Promoted(s, u)) <==> Current(u, s.mem, s.dirty)
  {
    hide PagesOf;
    hide Covered;
    hide WellFormed;
    hide Current;
    hide Guarded;
    var t := Promoted(s, u);
    if Current(u, s.mem, s.dirty) {
      PublishKeepsCache(s, u);
      PublishCovers(s, u);
      forall l | l in s.links
        ensures Guarded(s.links[l], t, s.dirty)
      {
        GuardMonotone(s.links[l], s, t, s.dirty);
      }
      if s.fastEpoch == s.epoch {
        forall i | i in s.fast
          ensures Guarded(s.fast[i], t, s.dirty)
        {
          GuardMonotone(s.fast[i], s, t, s.dirty);
        }
      }
    } else {
      assert t.blocks[u.key].unit == u;
    }
  }

  // ---- What a byte needs ----

  /** No page that a drain would take is covered, so a drain now would drop nothing. */
  ghost predicate Quiet(s: State) {
    forall p | p in s.dirty :: p !in Covered(s.spans)
  }

  /** A write to a byte of this page would be noticed before the unit is published. */
  ghost predicate Noticed(s: State, p: nat) {
    if Quiet(s) then p in Covered(s.spans) else p in s.tagged || p in s.dirty
  }

  ghost predicate Watched(s: State, u: Unit) {
    forall a | a in u.bytes :: Noticed(s, Page(a))
  }

  /** A drain of uncovered pages drops nothing; any covered one moves the epoch. */
  lemma {:induction false} DropPagesExact(s: State, pages: seq<nat>)
    requires CacheOk(s, pages)
    ensures (forall p | p in pages :: p !in Covered(s.spans)) ==>
              DropPages(s, pages) == s.(tagged := DropPages(s, pages).tagged)
    ensures (exists p | p in pages :: p in Covered(s.spans)) ==> s.epoch < DropPages(s, pages).epoch
    ensures s.epoch <= DropPages(s, pages).epoch
    decreases |pages|
  {
    hide CacheOk;
    hide Covered;
    hide Victims;
    if pages != [] {
      var p, rest := pages[0], pages[1..];
      assert pages == [p] + rest;
      DropKeepsCache(s, p, rest);
      VictimsTouch(s, pages, p);
      var t := DropPage(s, p);
      if p !in Covered(s.spans) {
        assert t.spans == s.spans && t.blocks == s.blocks;
      }
      DropPagesExact(t, rest);
    }
  }

  lemma DirtyOnlyInCache(s: State, t: State, pending: seq<nat>)
    requires CacheOk(s, pending) && t == s.(dirty := [], flag := false)
    ensures CacheOk(t, pending)
  {
  }

  /** A drain keeps the epoch exactly in a quiet state, and then changes only the tags. */
  lemma DrainExact(s: State)
    requires Coherent(s)
    ensures Drained(s).epoch == s.epoch <==> Quiet(s)
    ensures Quiet(s) ==> Drained(s) == s.(dirty := [], flag := false, tagged := Drained(s).tagged)
  {
    hide CacheOk;
    hide LinksOk;
    hide ProbeOk;
    hide QueueOk;
    hide Covered;
    hide DropPages;
    var d := s.(dirty := [], flag := false);
    DirtyOnlyInCache(s, d, s.dirty);
    DropPagesExact(d, s.dirty);
  }

  /** The pages that live units span only grow while the epoch stands. */
  lemma StepGrowsCover(s: State, step: Step, t: State, held: set<nat>)
    requires Coherent(s) && Moves(s, step, t, held) && t.epoch == s.epoch
    ensures Covered(s.spans) <= Covered(t.spans)
  {
    hide Coherent;
    hide Covered;
    hide PagesOf;
    hide InFlight;
    hide Drained;
    match step
    case Store(_, _) =>
    case Drain => DrainExact(s);
    case Insert(block) => CachedKeys(s); InsertCovers(s.spans, block.unit.key, block.unit.spans);
    case Promote(k) =>
      CachedUnderItsKey(s, k);
      PromoteKeepsCoherent(s, s.blocks[k].unit);
    case Submit(_) =>
    case Finish(i) => FinishKeepsCover(s, i);
    case Link(_, _) =>
    case Remember(_, _) =>
    case Sync =>
  }

  lemma CachedKeys(s: State)
    requires Coherent(s)
    ensures s.blocks.Keys == s.spans.Keys
  {
  }

  lemma PublishGrowsCover(s: State, v: Unit)
    requires InFlight(s, v)
    ensures Covered(s.spans) <= Covered(Promoted(s, v).spans)
  {
    PublishCovers(s, v);
  }

  lemma FinishKeepsCover(s: State, i: nat)
    requires Coherent(s) && i < |s.queue|
    ensures var t := Finished(s, i);
      && t.spans == s.spans && t.tagged == s.tagged
      && t.mem == s.mem && t.dirty == s.dirty && t.epoch == s.epoch
  {
    hide CacheOk;
    hide LinksOk;
    hide ProbeOk;
    hide PagesOf;
    FinishKeepsCoherent(s, i);
    var r, t := s.queue[i], s.(queue := s.queue[..i] + s.queue[i + 1..]);
    if r.epoch == s.epoch {
      PromoteKeepsCoherent(t, r.unit);
    }
  }

  /** Memory, pending pages and tags after a step that is neither a store nor a drain. */
  lemma OtherSteps(s: State, step: Step, t: State, held: set<nat>)
    requires Coherent(s) && Moves(s, step, t, held) && !step.Store? && !step.Drain?
    ensures t.mem == s.mem && t.dirty == s.dirty && s.tagged <= t.tagged && t.epoch == s.epoch
  {
    hide Finished;
    hide WellFormed;
    hide Fresh;
    hide Coherent;
    hide PagesOf;
    hide InFlight;
    if step.Finish? {
      FinishKeepsCover(s, step.index);
    }
  }

  lemma StoreKeepsWatch(s: State, addr: nat, data: seq<int>, t: State, u: Unit)
    requires Covered(s.spans) <= s.tagged && Stored(s, addr, data, t)
    requires Watched(s, u) && Current(u, s.mem, s.dirty)
    ensures Watched(t, u) && Current(u, t.mem, t.dirty)
  {
    hide Covered;
    forall a | a in u.bytes
      ensures Noticed(t, Page(a)) && ((a in t.mem && t.mem[a] == u.bytes[a]) || Page(a) in t.dirty)
    {
      assert Noticed(s, Page(a));
      if addr <= a < addr + |data| {
        InPageRange(addr, |data|, a);
      }
    }
  }

  lemma DrainKeepsWatch(s: State, u: Unit)
    requires Coherent(s) && Drained(s).epoch == s.epoch
    requires Watched(s, u) && Current(u, s.mem, s.dirty)
    ensures Watched(Drained(s), u) && Current(u, s.mem, []) && Drained(s).mem == s.mem && Drained(s).dirty == []
  {
    hide Coherent;
    hide Covered;
    hide Drained;
    DrainExact(s);
    forall a | a in u.bytes
      ensures Noticed(Drained(s), Page(a)) && a in s.mem && s.mem[a] == u.bytes[a]
    {
      assert Noticed(s, Page(a));
    }
  }

  lemma WatchGrows(s: State, t: State, u: Unit)
    requires Covered(s.spans) <= s.tagged && Covered(s.spans) <= Covered(t.spans)
    requires s.tagged <= t.tagged && t.dirty == s.dirty
    requires Watched(s, u)
    ensures Watched(t, u)
  {
    hide Covered;
    forall a | a in u.bytes
      ensures Noticed(t, Page(a))
    {
      assert Noticed(s, Page(a));
    }
  }

  lemma CoverIsTagged(s: State)
    requires Coherent(s)
    ensures Covered(s.spans) <= s.tagged
  {
  }

  lemma StepKeepsWatch(s: State, step: Step, t: State, held: set<nat>, u: Unit)
    requires Coherent(s) && Moves(s, step, t, held) && t.epoch == s.epoch
    requires Watched(s, u) && Current(u, s.mem, s.dirty)
    ensures Watched(t, u) && Current(u, t.mem, t.dirty)
  {
    hide Coherent;
    hide Watched;
    hide Current;
    hide Covered;
    hide Drained;
    hide Stored;
    CoverIsTagged(s);
    if step.Store? {
      StoreKeepsWatch(s, step.addr, step.data, t, u);
    } else if step.Drain? {
      DrainKeepsWatch(s, u);
    } else {
      StepGrowsCover(s, step, t, held);
      OtherSteps(s, step, t, held);
      WatchGrows(s, t, u);
    }
  }

  /** While the epoch stands, the block the compile started from stays cached. */
  lemma StepKeepsInFlight(s: State, step: Step, t: State, held: set<nat>, u: Unit)
    requires Coherent(s) && Moves(s, step, t, held) && t.epoch == s.epoch && InFlight(s, u) && u.key in held
    ensures InFlight(t, u)
  {
    hide Coherent;
    hide Covered;
    hide PagesOf;
    hide Drained;
    match step
    case Store(_, _) =>
    case Drain => DrainExact(s);
    case Insert(_) =>
    case Promote(k) => CachedUnderItsKey(s, k);
    case Submit(k) => CachedUnderItsKey(s, k);
    case Finish(i) => FinishKeepsInFlight(s, i, u);
    case Link(_, _) =>
    case Remember(_, _) =>
    case Sync =>
  }

  lemma FinishKeepsInFlight(s: State, i: nat, u: Unit)
    requires Coherent(s) && i < |s.queue| && InFlight(s, u)
    ensures InFlight(Finished(s, i), u)
  {
    hide CacheOk;
    hide LinksOk;
    hide ProbeOk;
    hide PagesOf;
    FinishKeepsCover(s, i);
    assert s.queue[i] in s.queue;
    var rest := s.queue[..i] + s.queue[i + 1..];
    assert forall r | r in rest :: r in s.queue;
  }

  // ---- Any number of regions in flight ----

  /** The state, and the regions being compiled with the epoch each was submitted at. */
  datatype World = World(s: State, regions: seq<Request>)

  /** What arrives when a compile finishes: the region, unless a unit was dropped since it was submitted. */
  function Arrived(s: State, u: Unit, since: nat): State {
    if s.epoch == since && u.key in s.blocks then Promoted(s, u) else s
  }

  function Landed(w: World, i: nat): World
    requires i < |w.regions|
  {
    World(Arrived(w.s, w.regions[i].unit, w.regions[i].epoch), w.regions[..i] + w.regions[i + 1..])
  }

  /** Keys with a region in flight that will still be let through. */
  function Held(w: World): set<nat> {
    set i | 0 <= i < |w.regions| && w.regions[i].epoch == w.s.epoch :: w.regions[i].unit.key
  }

  /** A region lifted from memory as it is, over a cached block that is not being compiled already. */
  ghost predicate Submittable(w: World, u: Unit) {
    WellFormed(u) && Fresh(u, w.s.mem) && InFlight(w.s, u) && u.key !in Held(w)
  }

  function Submitted(w: World, u: Unit): World { w.(regions := w.regions + [Request(u, w.s.epoch)]) }

  ghost predicate Leads(w: World, step: Step, x: World) {
    match step
    case SubmitRegion(u) => Submittable(w, u) && x == Submitted(w, u)
    case Arrive(i) => i < |w.regions| && x == Landed(w, i)
    case _ => Moves(w.s, step, x.s, Held(w)) && x.regions == w.regions
  }

  ghost predicate IsRun(worlds: seq<World>, steps: seq<Step>) {
    && |worlds| == |steps| + 1
    && forall i | 0 <= i < |steps| :: Leads(worlds[i], steps[i], worlds[i + 1])
  }

  /** Every region is watched when it is submitted. */
  ghost predicate SubmitsWatched(worlds: seq<World>, steps: seq<Step>)
    requires |worlds| == |steps| + 1
  {
    forall i | 0 <= i < |steps| && steps[i].SubmitRegion? :: Watched(worlds[i].s, steps[i].unit)
  }

  /** A region that may arrive now. */
  ghost predicate Ready(s: State, u: Unit) {
    WellFormed(u) && InFlight(s, u) && Watched(s, u) && Current(u, s.mem, s.dirty)
  }

  ghost predicate RegionOk(s: State, r: Request) {
    r.epoch <= s.epoch && (r.epoch == s.epoch ==> Ready(s, r.unit))
  }

  /** Two regions that may both be let through are of different keys. */
  ghost predicate Apart(w: World, i: nat, j: nat)
    requires i < |w.regions| && j < |w.regions|
  {
    w.regions[i].epoch == w.s.epoch == w.regions[j].epoch ==> w.regions[i].unit.key != w.regions[j].unit.key
  }

  ghost predicate Disciplined(w: World) {
    && Coherent(w.s)
    && (forall i | 0 <= i < |w.regions| :: RegionOk(w.s, w.regions[i]))
    && forall i, j | 0 <= i < j < |w.regions| :: Apart(w, i, j)
  }

  lemma MoveKeepsRegion(s: State, step: Step, t: State, held: set<nat>, r: Request)
    requires Coherent(s) && Moves(s, step, t, held) && RegionOk(s, r) && (r.epoch == s.epoch ==> r.unit.key in held)
    ensures RegionOk(t, r)
  {
    hide Coherent;
    hide Moves;
    hide InFlight;
    hide Watched;
    hide Current;
    hide WellFormed;
    MoveKeepsCoherent(s, step, t, held);
    if r.epoch == t.epoch {
      StepKeepsWatch(s, step, t, held, r.unit);
      StepKeepsInFlight(s, step, t, held, r.unit);
    }
  }

  lemma MoveKeepsDiscipline(w: World, step: Step, x: World)
    requires Disciplined(w) && Moves(w.s, step, x.s, Held(w)) && x.regions == w.regions
    ensures Disciplined(x)
  {
    hide Coherent;
    hide Moves;
    hide RegionOk;
    MoveKeepsCoherent(w.s, step, x.s, Held(w));
    forall i | 0 <= i < |x.regions|
      ensures RegionOk(x.s, x.regions[i])
    {
      MoveKeepsRegion(w.s, step, x.s, Held(w), w.regions[i]);
    }
    forall i, j | 0 <= i < j < |x.regions|
      ensures Apart(x, i, j)
    {
      assert Apart(w, i, j);
      EpochOfRegion(w, i);
    }
  }

  lemma EpochOfRegion(w: World, i: nat)
    requires Disciplined(w) && i < |w.regions|
    ensures w.regions[i].epoch <= w.s.epoch
  {
    assert RegionOk(w.s, w.regions[i]);
  }

  lemma SubmitKeepsDiscipline(w: World, u: Unit)
    requires Disciplined(w) && Submittable(w, u) && Watched(w.s, u)
    ensures Disciplined(Submitted(w, u))
  {
    hide Coherent;
    hide InFlight;
    hide Watched;
    hide WellFormed;
    var x := Submitted(w, u);
    assert Current(u, w.s.mem, w.s.dirty);
    forall i | 0 <= i < |x.regions|
      ensures RegionOk(x.s, x.regions[i])
    {
      assert i < |w.regions| ==> RegionOk(w.s, w.regions[i]);
    }
    forall i, j | 0 <= i < j < |x.regions|
      ensures Apart(x, i, j)
    {
      if j < |w.regions| {
        assert Apart(w, i, j);
      }
    }
  }

  /** A region that arrives leaves every other one ready. */
  lemma ArrivalKeepsReady(s: State, v: Unit, u: Unit)
    requires Coherent(s) && Ready(s, v) && Ready(s, u) && u.key != v.key
    ensures Ready(Promoted(s, v), u)
  {
    hide Coherent;
    hide Covered;
    hide PagesOf;
    hide Watched;
    hide Current;
    hide WellFormed;
    CoverIsTagged(s);
    PublishGrowsCover(s, v);
    WatchGrows(s, Promoted(s, v), u);
  }

  lemma ArrivalKeepsRegion(s: State, r: Request, q: Request)
    requires Coherent(s) && RegionOk(s, r) && RegionOk(s, q)
    requires r.epoch == s.epoch == q.epoch ==> r.unit.key != q.unit.key
    ensures RegionOk(Arrived(s, r.unit, r.epoch), q)
  {
    hide Coherent;
    hide Ready;
    if r.epoch == s.epoch == q.epoch {
      ArrivalKeepsReady(s, r.unit, q.unit);
    }
  }

  lemma ArrivalKeepsCoherent(s: State, r: Request)
    requires Coherent(s) && RegionOk(s, r)
    ensures Coherent(Arrived(s, r.unit, r.epoch))
  {
    hide Coherent;
    hide InFlight;
    hide Watched;
    hide Current;
    hide WellFormed;
    if r.epoch == s.epoch {
      PublishCoherentIff(s, r.unit);
    }
  }

  lemma ArrivalKeepsDiscipline(w: World, i: nat)
    requires Disciplined(w) && i < |w.regions|
    ensures Disciplined(Landed(w, i))
  {
    hide Coherent;
    hide RegionOk;
    hide Apart;
    hide Arrived;
    var x := Landed(w, i);
    ArrivalKeepsCoherent(w.s, w.regions[i]);
    ArrivalKeepsEpoch(w.s, w.regions[i]);
    forall k | 0 <= k < |x.regions|
      ensures RegionOk(x.s, x.regions[k])
    {
      OthersApart(w, i, k);
      ArrivalKeepsRegion(w.s, w.regions[i], x.regions[k]);
    }
    forall j, k | 0 <= j < k < |x.regions|
      ensures Apart(x, j, k)
    {
      StillApart(w, i, j, k);
    }
  }

  lemma ArrivalKeepsEpoch(s: State, r: Request)
    ensures Arrived(s, r.unit, r.epoch).epoch == s.epoch
  {
  }

  lemma OthersApart(w: World, i: nat, k: nat)
    requires Disciplined(w) && i < |w.regions| && k < |w.regions| - 1
    ensures var q := Landed(w, i).regions[k];
            && RegionOk(w.s, q)
            && (w.regions[i].epoch == w.s.epoch == q.epoch ==> w.regions[i].unit.key != q.unit.key)
  {
    hide Coherent;
    hide RegionOk;
    hide Arrived;
    if k < i {
      assert Apart(w, k, i);
    } else {
      assert Apart(w, i, k + 1);
    }
  }

  lemma StillApart(w: World, i: nat, j: nat, k: nat)
    requires Disciplined(w) && i < |w.regions| && j < k < |w.regions| - 1
    ensures Apart(Landed(w, i), j, k)
  {
    hide Coherent;
    hide RegionOk;
    hide Arrived;
    ArrivalKeepsEpoch(w.s, w.regions[i]);
    assert Apart(w, if j < i then j else j + 1, if k < i then k else k + 1);
  }

  lemma StepKeepsDiscipline(w: World, step: Step, x: World)
    requires Disciplined(w) && Leads(w, step, x) && (step.SubmitRegion? ==> Watched(w.s, step.unit))
    ensures Disciplined(x)
  {
    hide Disciplined;
    hide Moves;
    hide Submittable;
    hide Watched;
    match step {
      case SubmitRegion(u) => SubmitKeepsDiscipline(w, u);
      case Arrive(i) => ArrivalKeepsDiscipline(w, i);
      case _ => MoveKeepsDiscipline(w, step, x);
    }
  }

  /** Theorem: with any number of regions in flight, each watched when it was submitted, every run stays coherent. */
  lemma {:induction false} WatchedRegionsSafe(worlds: seq<World>, steps: seq<Step>)
    requires IsRun(worlds, steps) && SubmitsWatched(worlds, steps) && Disciplined(worlds[0])
    ensures Disciplined(worlds[|steps|])
    decreases |steps|
  {
    hide Disciplined;
    hide Leads;
    hide Watched;
    if steps != [] {
      assert Leads(worlds[0], steps[0], worlds[1]);
      StepKeepsDiscipline(worlds[0], steps[0], worlds[1]);
      assert IsRun(worlds[1..], steps[1..]) by { TailIsRun(worlds, steps); }
      assert SubmitsWatched(worlds[1..], steps[1..]) by { TailIsRun(worlds, steps); }
      WatchedRegionsSafe(worlds[1..], steps[1..]);
    }
  }

  lemma TailIsRun(worlds: seq<World>, steps: seq<Step>)
    requires IsRun(worlds, steps) && SubmitsWatched(worlds, steps) && steps != []
    ensures IsRun(worlds[1..], steps[1..]) && SubmitsWatched(worlds[1..], steps[1..])
  {
    hide Leads;
    hide Watched;
    var ws, ss := worlds[1..], steps[1..];
    forall i | 0 <= i < |ss|
      ensures Leads(ws[i], ss[i], ws[i + 1])
    {
      assert Leads(worlds[i + 1], steps[i + 1], worlds[i + 2]);
    }
    forall i | 0 <= i < |ss| && ss[i].SubmitRegion?
      ensures Watched(ws[i].s, ss[i].unit)
    {
      assert steps[i + 1].SubmitRegion?;
    }
  }

  // ---- The write nobody notices ----

  /** One byte written, its page pending if it is tagged. */
  function Poked(s: State, a: nat, v: int): State {
    var dirty := if Page(a) in s.tagged then s.dirty + [Page(a)] else s.dirty;
    s.(mem := s.mem[a := v], dirty := dirty, flag := s.flag || dirty != [])
  }

  lemma PokeIsStore(s: State, a: nat, v: int)
    requires Coherent(s)
    ensures Stored(s, a, [v], Poked(s, a, v))
  {
    hide CacheOk;
    hide LinksOk;
    hide ProbeOk;
    hide QueueOk;
    forall p | p in PageRange(a, 1)
      ensures p == Page(a)
    {
      assert Within(Page(a), p, Page(LastByte(a, 1)));
    }
  }

  /** A byte whose page is not watched can change under the compile with the epoch unmoved. */
  lemma UnnoticedWrite(w: World, u: Unit, a: nat) returns (worlds: seq<World>, steps: seq<Step>)
    requires Coherent(w.s) && a in u.bytes && !Noticed(w.s, Page(a))
    ensures IsRun(worlds, steps) && worlds[0] == w && SubmitsWatched(worlds, steps)
    ensures var last := worlds[|steps|];
      && last.regions == w.regions && last.s.epoch == w.s.epoch && last.s.blocks == w.s.blocks
      && !Current(u, last.s.mem, last.s.dirty)
  {
    hide Coherent;
    hide Covered;
    hide Drained;
    hide Stored;
    hide Page;
    var s := w.s;
    var v := if u.bytes[a] == 0 then 1 else 0;
    var t := Poked(s, a, v);
    PokeIsStore(s, a, v);
    if Quiet(s) {
      StoreKeeps(s, a, [v], t);
      assert Quiet(t);
      DrainExact(t);
      worlds, steps := [w, w.(s := t), w.(s := Drained(t))], [Store(a, [v]), Drain];
      assert Leads(w.(s := t), Drain, w.(s := Drained(t)));
    } else {
      CoverIsTagged(s);
      worlds, steps := [w, w.(s := t)], [Store(a, [v])];
    }
    assert Leads(w, Store(a, [v]), w.(s := t));
  }

  lemma OneMore(worlds: seq<World>, steps: seq<Step>, step: Step, x: World)
    requires IsRun(worlds, steps) && SubmitsWatched(worlds, steps)
    requires Leads(worlds[|steps|], step, x) && !step.SubmitRegion?
    ensures IsRun(worlds + [x], steps + [step]) && SubmitsWatched(worlds + [x], steps + [step])
  {
    hide Leads;
    hide Watched;
    var ws, ss := worlds + [x], steps + [step];
    forall i | 0 <= i < |ss|
      ensures Leads(ws[i], ss[i], ws[i + 1])
    {
      if i < |steps| {
        assert Leads(worlds[i], steps[i], worlds[i + 1]);
      }
    }
    forall i | 0 <= i < |ss| && ss[i].SubmitRegion?
      ensures Watched(ws[i].s, ss[i].unit)
    {
      assert i < |steps| && steps[i].SubmitRegion?;
    }
  }

  // ---- The result ----

  /** Once the region is submitted, every run that submits others only when they are watched stays coherent. */
  ghost predicate AlwaysSafe(w: World, u: Unit) {
    forall worlds: seq<World>, steps: seq<Step> |
      IsRun(worlds, steps) && SubmitsWatched(worlds, steps) && worlds[0] == Submitted(w, u) ::
      Coherent(worlds[|steps|].s)
  }

  /**
   Theorem: a region submitted beside any number of watched ones is safe, over every run, exactly when every page it
   took a byte from is covered by a cached unit. The exception is a state in which a covered page is already
   pending: no drain can leave the epoch alone then, and it is enough that each of those pages is tagged or pending.
   */
  lemma RegionSafeIff(w: World, u: Unit)
    requires Disciplined(w) && Submittable(w, u)
    ensures AlwaysSafe(w, u) <==> Watched(w.s, u)
  {
    hide Leads;
    hide Noticed;
    hide Coherent;
    if Watched(w.s, u) {
      hide Watched;
      hide Submittable;
      SubmitKeepsDiscipline(w, u);
      hide Submitted;
      forall worlds: seq<World>, steps: seq<Step> |
        IsRun(worlds, steps) && SubmitsWatched(worlds, steps) && worlds[0] == Submitted(w, u)
        ensures Coherent(worlds[|steps|].s)
      {
        WatchedRegionsSafe(worlds, steps);
      }
    } else {
      var a :| a in u.bytes && !Noticed(w.s, Page(a));
      var worlds, steps := StaleArrival(w, u, a);
    }
  }

  /** The run that breaks coherence: the write nobody notices, then the region's arrival. */
  lemma StaleArrival(w: World, u: Unit, a: nat) returns (worlds: seq<World>, steps: seq<Step>)
    requires Coherent(w.s) && InFlight(w.s, u) && a in u.bytes && !Noticed(w.s, Page(a))
    ensures IsRun(worlds, steps) && SubmitsWatched(worlds, steps) && worlds[0] == Submitted(w, u)
    ensures !Coherent(worlds[|steps|].s)
  {
    hide Coherent;
    hide Noticed;
    hide Current;
    hide Promoted;
    var w0 := Submitted(w, u);
    worlds, steps := UnnoticedWrite(w0, u, a);
    var n := |w.regions|;
    var last := worlds[|steps|];
    assert last.regions[n] == Request(u, w.s.epoch);
    var x := Landed(last, n);
    ArrivalStale(last.s, u);
    assert Leads(last, Arrive(n), x);
    OneMore(worlds, steps, Arrive(n), x);
    worlds, steps := worlds + [x], steps + [Arrive(n)];
  }

  lemma ArrivalStale(s: State, u: Unit)
    requires u.key in s.blocks && !Current(u, s.mem, s.dirty)
    ensures !Coherent(Arrived(s, u, s.epoch))
  {
    assert Promoted(s, u).blocks[u.key].unit == u;
  }

  /** A coherent state with no region in flight is where runs start. */
  lemma InitiallyDisciplined(s: State)
    requires Coherent(s)
    ensures Disciplined(World(s, []))
  {
  }

  // ---- A region that arrives stale ----

  /** The block at 0, and a region of it and the byte at 4096. */
  function Block(): Unit { Unit(0, [Span(0, 1)], map[0 := 1]) }

  function Loop(): Unit { Unit(0, [Span(0, 1), Span(4096, 1)], map[0 := 1, 4096 := 7]) }

  /** The block is cached; the pages of `tagged` are tagged, page zero among them. */
  function OneBlock(tagged: set<nat>): State {
    State(map[0 := 1, 4096 := 7], tagged, [], false, map[0 := Interpreted(Block())], map[0 := [Span(0, 1)]], 0,
          [], map[], map[], 0)
  }

  lemma PagesOfBlocks()
    ensures PagesOf([Span(0, 1)]) == {0} && PagesOf([Span(0, 1), Span(4096, 1)]) == {0, 1}
  {
    assert PageRange(0, 1) == {0};
    assert PageRange(4096, 1) == {1};
    var one, two := [Span(0, 1)], [Span(0, 1), Span(4096, 1)];
    assert one[0] == Span(0, 1) && two[0] == Span(0, 1) && two[1] == Span(4096, 1);
  }

  /** Page one is covered by nothing: tagged or not, the loop can arrive stale. */
  lemma LoopCanArriveStale(tagged: set<nat>)
    requires 0 in tagged
    ensures var w := World(OneBlock(tagged), []);
      Disciplined(w) && Submittable(w, Loop()) && !AlwaysSafe(w, Loop())
  {
    var w := World(OneBlock(tagged), []);
    OneBlockIsCoherent(tagged);
    InitiallyDisciplined(w.s);
    hide Disciplined;
    assert !Noticed(w.s, Page(4096));
    RegionSafeIff(w, Loop());
  }

  lemma OneBlockIsCoherent(tagged: set<nat>)
    requires 0 in tagged
    ensures var w := World(OneBlock(tagged), []);
      Coherent(w.s) && Submittable(w, Loop()) && Covered(w.s.spans) == {0}
  {
    PagesOfBlocks();
    assert Covered(OneBlock(tagged).spans) == {0};
  }
}
