/** The virtual machine: self-modifying-code handling and resolution of an address to a unit. */
module Machine {
  import opened Pages
  import opened Options
  import opened CodeState
  import opened Engine
  import opened Unmapping

  type Length = n: nat | 0 < n witness 1

  type CodeSpans = s: seq<Span> | NonEmpty(s) witness []

  /** What lifting from an entry address found: its first block, the blocks reached from it, and whether they loop. */
  datatype Region = Region(first: Length, rest: CodeSpans, hasLoop: bool)

  datatype GuestExit = Syscall | Hlt | UnmappedMemory | Exception | MmioTrap | PortIo

  /** Why a run ended. `Paused` is the cut-off of a run that has no budget. */
  datatype Exit = BudgetExhausted | Paused | LiftFailed | Guest(cause: GuestExit)

  datatype Resolved = Found(block: Cached) | Stop(exit: Exit)

  /** A vcpu's private fast-resolve array and the epoch it is valid at. */
  datatype Probe = Probe(entries: map<nat, Unit>, epoch: nat)

  class Vm {
    const mem: Memory
    const cache: TranslationCache
    const backend: Backend
    const tierUpAfter: Option<nat>
    const background: bool
    const formsRegions: bool
    const liftBlock: (Bytes, nat) -> Option<Length>
    const liftRegion: (Bytes, nat) -> Option<Region>

    ghost function View(probe: Probe): State
      reads this, mem, cache, backend
    {
      State(mem.bytes, mem.tagged, mem.dirty, mem.dirtyFlag, cache.blocks, cache.spans, cache.epoch,
            backend.queue, backend.links, probe.entries, probe.epoch)
    }

    constructor (contents: Bytes, tierUpAfter: Option<nat>, background: bool, formsRegions: bool,
                 liftBlock: (Bytes, nat) -> Option<Length>, liftRegion: (Bytes, nat) -> Option<Region>)
      ensures Coherent(View(Probe(map[], 0))) && AllGenuine() && mem.bytes == contents
      ensures fresh(mem) && fresh(cache) && fresh(backend)
    {
      mem := new Memory(contents);
      cache := new TranslationCache();
      backend := new Backend();
      this.tierUpAfter, this.background, this.formsRegions := tierUpAfter, background, formsRegions;
      this.liftBlock, this.liftRegion := liftBlock, liftRegion;
    }

    // ---- What lifting takes ----

    /** Lifting at `pc` from memory `m` takes the byte at `a`, whether or not anything is mapped there. */
    predicate Takes(m: Bytes, pc: nat, a: nat) {
      if formsRegions && !background then
        match liftRegion(m, pc)
        case None => false
        case Some(Region(first, rest, hasLoop)) =>
          || pc <= a < pc + first
          || (hasLoop && exists i | 0 <= i < |rest| :: rest[i].start <= a < rest[i].start + rest[i].len)
      else
        match liftBlock(m, pc)
        case None => false
        case Some(len) => pc <= a < pc + len
    }

    /** Lifting at `pc` forms a region of several blocks with a loop, which is compiled at once. */
    predicate LoopsAt(m: Bytes, pc: nat) {
      && formsRegions && !background
      && var region := liftRegion(m, pc);
         region.Some? && region.value.rest != [] && region.value.hasLoop
    }

    /** `u` holds every byte that lifting at `pc` took from `m`, no other byte, and spans all their pages. */
    ghost predicate TakenFrom(u: Unit, pc: nat, m: Bytes) {
      && u.key == pc && Takes(m, pc, pc)
      && (forall a :: a in u.bytes <==> a in m && Takes(m, pc, a))
      && (forall a | a in u.bytes :: u.bytes[a] == m[a])
      && forall a | Takes(m, pc, a) :: Page(a) in PagesOf(u.spans)
    }

    /** The unit is what lifting its address found, in memory as it was at some time. */
    ghost predicate Genuine(u: Unit) {
      exists m: Bytes :: TakenFrom(u, u.key, m)
    }

    /** Every unit the cache, a link slot or the compiler's queue holds is genuine. */
    ghost predicate AllGenuine()
      reads cache`blocks, backend
    {
      && GenuineBlocks(cache.blocks)
      && (forall l | l in backend.links :: Genuine(backend.links[l]))
      && forall r | r in backend.queue :: Genuine(r.unit)
    }

    /** Memory `n` still has every byte that lifting at `pc` took from `m`. */
    ghost predicate SameCode(m: Bytes, pc: nat, n: Bytes) {
      forall a | a in m && Takes(m, pc, a) :: a in n && n[a] == m[a]
    }

    /** Lifting is decided by the bytes it takes, all of them mapped. */
    ghost predicate LiftsLocally() {
      && (forall m: Bytes, pc, a | Takes(m, pc, a) :: a in m)
      && forall m: Bytes, pc, n: Bytes | Takes(m, pc, pc) && SameCode(m, pc, n) ::
           forall a :: Takes(m, pc, a) <==> Takes(n, pc, a)
    }

    // ---- Self-modifying code ----

    method DropDirtyPage(page: nat, ghost rest: seq<nat>, ghost invalidated: bool, ghost probe: Probe)
      returns (dropped: bool)
      requires Draining(View(probe), [page] + rest, invalidated)
      modifies cache, mem`tagged
      ensures Draining(View(probe), rest, invalidated || dropped)
      ensures dropped <==> old(cache.epoch) != cache.epoch
      ensures old(cache.epoch) <= cache.epoch
      ensures Kept(old(cache.blocks), old(cache.spans), [page], cache.blocks)
      ensures Kept(old(cache.spans), old(cache.spans), [page], cache.spans)
    {
      hide Draining;
      DropKeepsDraining(View(probe), page, rest, invalidated);
      DropKeepsOthers(View(probe), page, rest, invalidated);
      OnePage(page);
      var lo := page * PAGE;
      var victims := cache.InvalidateOverlapping(lo, lo + PAGE, mem);
      dropped := victims != {};
      assert View(probe) == DropPage(old(View(probe)), page);
    }

    /** Drop the units on every page written since the last call, and clear the links if any went. */
    method HandleSmc(ghost probe: Probe)
      requires Coherent(View(probe)) && AllGenuine()
      modifies mem`tagged, mem`dirty, mem`dirtyFlag, cache, backend`links
      ensures Coherent(View(probe)) && AllGenuine()
      ensures mem.dirty == [] && !mem.dirtyFlag && old(cache.epoch) <= cache.epoch
      ensures Kept(old(cache.blocks), old(cache.spans), old(mem.dirty), cache.blocks)
      ensures backend.links == if cache.epoch == old(cache.epoch) then old(backend.links) else map[]
    {
      hide Coherent;
      hide Draining;
      hide Kept;
      hide GenuineBlocks;
      hide Genuine;
      ghost var before := View(probe);
      CoherentFlag(before);
      var pages := mem.TakeDirtyCode();
      DrainStarts(before, View(probe));
      KeptAll(before);
      var invalidated := false;
      for i := 0 to |pages|
        invariant Draining(View(probe), pages[i..], invalidated)
        invariant mem.dirty == [] && !mem.dirtyFlag && old(cache.epoch) <= cache.epoch
        invariant invalidated <==> cache.epoch != old(cache.epoch)
        invariant backend.links == old(backend.links)
        invariant Kept(old(cache.blocks), old(cache.spans), pages[..i], cache.blocks)
        invariant Kept(old(cache.spans), old(cache.spans), pages[..i], cache.spans)
      {
        assert pages[i..] == [pages[i]] + pages[i + 1..];
        assert pages[..i + 1] == pages[..i] + [pages[i]];
        ghost var blocks, spans := cache.blocks, cache.spans;
        var dropped := DropDirtyPage(pages[i], pages[i + 1..], invalidated, probe);
        KeptThen(old(cache.blocks), old(cache.spans), pages[..i], pages[i], blocks, spans, cache.blocks);
        KeptThen(old(cache.spans), old(cache.spans), pages[..i], pages[i], spans, spans, cache.spans);
        invalidated := invalidated || dropped;
      }
      assert pages[|pages|..] == [] && pages[..|pages|] == pages;
      DrainEnds(View(probe), invalidated);
      if invalidated {
        backend.InvalidateLinks();
      }
      KeptAreGenuine(old(cache.blocks), old(cache.spans), pages, cache.blocks);
    }

    ghost predicate GenuineBlocks(blocks: map<nat, Cached>) {
      forall k | k in blocks :: Genuine(blocks[k].unit)
    }

    lemma KeptAreGenuine(was: map<nat, Cached>, spans: map<nat, seq<Span>>, pages: seq<nat>, now: map<nat, Cached>)
      requires GenuineBlocks(was) && Kept(was, spans, pages, now)
      ensures GenuineBlocks(now)
    {
      hide Genuine;
      hide Avoids;
    }

    /** Unmap `[addr, addr + size)`, if a region is mapped there, and drop the units translated from it. */
    method Unmap(addr: nat, size: nat, mapped: bool, ghost probe: Probe) returns (ok: bool)
      modifies mem`bytes, mem`tagged, cache, backend`links
      ensures ok == mapped
      ensures View(probe) == if ok then Unmapped(old(View(probe)), addr, addr + size) else old(View(probe))
    {
      if !mapped {
        return false;
      }
      ok := true;
      hide Victims;
      hide ClearedPages;
      mem.Unmap(addr, addr + size);
      var dropped := cache.InvalidateOverlapping(addr, addr + size, mem);
      if dropped != {} {
        backend.InvalidateLinks();
      }
    }

    /** Publish any of the background compiles that have finished, in any order. */
    method DrainTierUp(ghost probe: Probe)
      requires Coherent(View(probe)) && AllGenuine()
      modifies backend`queue, cache`blocks, cache`spans, cache`hotness, cache`tierPending, mem`tagged
      ensures Coherent(View(probe)) && AllGenuine()
      ensures cache.spans == old(cache.spans) && SameUnits(old(cache.blocks), cache.blocks)
    {
      hide Coherent;
      hide Genuine;
      while backend.queue != []
        invariant Coherent(View(probe)) && AllGenuine()
        invariant cache.spans == old(cache.spans) && SameUnits(old(cache.blocks), cache.blocks)
        decreases |backend.queue|
      {
        if * {
          break;
        }
        PublishOne(probe);
      }
    }

    method PublishOne(ghost probe: Probe)
      requires Coherent(View(probe)) && backend.queue != [] && AllGenuine()
      modifies backend`queue, cache`blocks, cache`spans, cache`hotness, cache`tierPending, mem`tagged
      ensures Coherent(View(probe)) && AllGenuine() && |backend.queue| < old(|backend.queue|)
      ensures cache.spans == old(cache.spans) && SameUnits(old(cache.blocks), cache.blocks)
    {
      hide Coherent;
      hide PagesOf;
      hide Genuine;
      var i :| 0 <= i < |backend.queue|;
      var fin := backend.queue[i];
      ghost var s := View(probe);
      FinishKeepsCoherent(s, i);
      backend.queue := backend.queue[..i] + backend.queue[i + 1..];
      ghost var t := View(probe);
      if fin.epoch == t.epoch {
        InFlight(s, fin);
        PromoteKeepsCoherent(t, fin.unit);
      }
      var published := cache.UpgradeRegion(Compiled(fin.unit), fin.epoch, mem);
      cache.tierPending := cache.tierPending - {fin.unit.key};
      assert published ==> View(probe) == Promoted(t, fin.unit);
    }

    /** Cache a freshly lifted unit under a key that is not cached. */
    method InsertLifted(pc: nat, spans: CodeSpans, compile: bool, ghost probe: Probe) returns (block: Cached)
      requires Coherent(View(probe)) && pc !in cache.blocks
      modifies cache`blocks, cache`spans, mem`tagged
      ensures Coherent(View(probe)) && Enterable(block.unit, pc, View(probe))
      ensures block.Compiled? <==> compile
      ensures block.unit == Lift(mem.bytes, pc, spans) && cache.blocks == old(cache.blocks)[pc := block]
    {
      hide Coherent;
      hide Enterable;
      hide PagesOf;
      var unit := Lift(mem.bytes, pc, spans);
      block := if compile then Compiled(unit) else Interpreted(unit);
      LiftIsFresh(mem.bytes, pc, spans);
      InsertKeepsCoherent(View(probe), block);
      cache.Insert(block, mem);
      assert View(probe) == Inserted(old(View(probe)), block);
      CachedIsEnterable(View(probe), pc);
    }

    /** First sight of an address: lift it, as a region where the backend forms them, and cache the result. */
    method LiftFirst(pc: nat, ghost probe: Probe) returns (r: Resolved)
      requires Coherent(View(probe)) && pc !in cache.blocks
      modifies cache`blocks, cache`spans, mem`tagged
      ensures Coherent(View(probe))
      ensures r.Found? ==> TakenFrom(r.block.unit, pc, mem.bytes)
      ensures r.Found? ==> (r.block.Compiled? <==> tierUpAfter.None? || LoopsAt(mem.bytes, pc))
      ensures r.Found? ==> Enterable(r.block.unit, pc, View(probe))
      ensures r.Found? ==> cache.blocks == old(cache.blocks)[pc := r.block]
      ensures r.Stop? ==> r.exit.LiftFailed? && cache.blocks == old(cache.blocks)
      ensures r.Stop? <==>
                if formsRegions && !background then liftRegion(mem.bytes, pc).None? else liftBlock(mem.bytes, pc).None?
    {
      hide Coherent;
      hide Enterable;
      hide PagesOf;
      hide TakenFrom;
      var block: Cached;
      var eager := tierUpAfter.None?;
      if formsRegions && !background {
        var region := liftRegion(mem.bytes, pc);
        if region.None? {
          return Stop(LiftFailed);
        }
        var Region(first, rest, hasLoop) := region.value;
        if rest != [] && hasLoop {
          var spans: CodeSpans := [Span(pc, first)] + rest;
          block := InsertLifted(pc, spans, true, probe);
          RegionTaken(mem.bytes, pc, first, rest);
        } else {
          block := InsertLifted(pc, [Span(pc, first)], eager, probe);
          BlockTaken(mem.bytes, pc, first);
        }
      } else {
        var len := liftBlock(mem.bytes, pc);
        if len.None? {
          return Stop(LiftFailed);
        }
        block := InsertLifted(pc, [Span(pc, len.value)], eager, probe);
        BlockTaken(mem.bytes, pc, len.value);
      }
      r := Found(block);
    }

    lemma BlockTaken(m: Bytes, pc: nat, len: Length)
      requires forall a: nat :: Takes(m, pc, a) <==> pc <= a < pc + len
      ensures TakenFrom(Lift(m, pc, [Span(pc, len)]), pc, m)
    {
      hide Takes;
      hide PagesOf;
      var spans := [Span(pc, len)];
      forall a: nat
        ensures InSpans(a, spans) <==> pc <= a < pc + len
      {
        assert spans[0] == Span(pc, len);
      }
      forall a | Takes(m, pc, a)
        ensures Page(a) in PagesOf(spans)
      {
        PageOfSpans(a, spans);
      }
    }

    lemma RegionTaken(m: Bytes, pc: nat, first: Length, rest: CodeSpans)
      requires formsRegions && !background && liftRegion(m, pc) == Some(Region(first, rest, true))
      ensures TakenFrom(Lift(m, pc, [Span(pc, first)] + rest), pc, m)
    {
      hide PagesOf;
      var spans := [Span(pc, first)] + rest;
      assert spans[0] == Span(pc, first) && forall i | 0 <= i < |rest| :: spans[i + 1] == rest[i];
      forall a: nat
        ensures InSpans(a, spans) <==> Takes(m, pc, a)
      {
      }
      forall a | Takes(m, pc, a)
        ensures Page(a) in PagesOf(spans)
      {
        PageOfSpans(a, spans);
      }
    }

    /** Hand a hot unit to the background compiler. When nothing is to be done inline, `settled`. */
    method SubmitTierUp(unit: Unit, epoch: nat, ghost probe: Probe) returns (settled: bool)
      requires Coherent(View(probe)) && AllGenuine() && epoch == cache.epoch
      requires unit.key in cache.blocks && cache.blocks[unit.key].unit == unit
      modifies cache`tierPending, backend`queue
      ensures Coherent(View(probe)) && AllGenuine()
    {
      hide Coherent;
      hide Genuine;
      if unit.key in cache.tierPending {
        return true;
      }
      cache.tierPending := cache.tierPending + {unit.key};
      if * {
        SubmitKeepsCoherent(View(probe), unit);
        backend.queue := backend.queue + [Request(unit, epoch)];
        return true;
      }
      // The queue is full, or there is no compiler thread.
      cache.tierPending := cache.tierPending - {unit.key};
      settled := *;
    }

    /** Compile a hot unit, in place or in the background. */
    method TierUp(pc: nat, epoch: nat, ghost probe: Probe) returns (block: Cached)
      requires Coherent(View(probe)) && AllGenuine() && pc in cache.blocks && epoch == cache.epoch
      modifies cache`blocks, cache`spans, cache`hotness, cache`tierPending, backend`queue
      ensures Coherent(View(probe)) && AllGenuine() && Enterable(block.unit, pc, View(probe))
      ensures cache.blocks == old(cache.blocks)[pc := block] && block.unit == old(cache.blocks)[pc].unit
      ensures !background ==> block.Compiled?
    {
      hide Coherent;
      hide Enterable;
      hide PagesOf;
      hide Genuine;
      block := cache.blocks[pc];
      CachedIsEnterable(View(probe), pc);
      if background {
        var settled := SubmitTierUp(block.unit, epoch, probe);
        CachedIsEnterable(View(probe), pc);
        if settled {
          return;
        }
      }
      ghost var s := View(probe);
      PromoteKeepsCoherent(s, block.unit);
      block := Compiled(block.unit);
      // The retry when a racing vcpu dropped the unit has no turn with one vcpu.
      var upgraded := cache.Upgrade(block, epoch);
      assert upgraded && View(probe) == Promoted(s, block.unit);
      CachedIsEnterable(View(probe), pc);
    }

    lemma TakenIsGenuine(u: Unit, pc: nat, m: Bytes)
      requires TakenFrom(u, pc, m)
      ensures Genuine(u) && u.key == pc
    {
    }

    /** The unit for `pc`: cached, tiered up once hot, or lifted on first sight. */
    method Resolve(pc: nat, ghost probe: Probe) returns (r: Resolved)
      requires Coherent(View(probe)) && AllGenuine() && !(background && formsRegions)
      modifies cache`blocks, cache`spans, cache`hotness, cache`tierPending, mem`tagged, backend`queue
      ensures Coherent(View(probe)) && AllGenuine()
      ensures r.Found? ==> Enterable(r.block.unit, pc, View(probe)) && Genuine(r.block.unit)
      ensures r.Found? && pc !in old(cache.blocks) ==> TakenFrom(r.block.unit, pc, mem.bytes)
      ensures r.Found? && !background && pc in old(cache.blocks) ==>
                (r.block.Compiled? <==>
                   || old(cache.blocks)[pc].Compiled?
                   || (tierUpAfter.Some? && tierUpAfter.value <= Count(old(cache.hotness), pc) + 1))
      ensures r.Stop? ==> r.exit.LiftFailed? && pc !in old(cache.blocks)
      ensures r.Found? ==> pc in cache.blocks && cache.blocks[pc] == r.block
      ensures forall k | k in old(cache.blocks) :: k in cache.blocks && cache.blocks[k].unit == old(cache.blocks)[k].unit
    {
      hide Coherent;
      hide Enterable;
      hide TakenFrom;
      if background {
        DrainTierUp(probe);
      }
      var epoch := cache.epoch;
      if pc !in cache.blocks {
        r := LiftFirst(pc, probe);
        if r.Found? {
          TakenIsGenuine(r.block.unit, pc, mem.bytes);
        }
        return;
      }
      var block := cache.blocks[pc];
      CachedIsEnterable(View(probe), pc);
      if tierUpAfter.None? || block.Compiled? {
        return Found(block);
      }
      var count := cache.BumpHotness(pc);
      if count < tierUpAfter.value {
        return Found(block);
      }
      block := TierUp(pc, epoch, probe);
      r := Found(block);
    }
  }

  function Count(hotness: map<nat, nat>, pc: nat): nat { if pc in hotness then hotness[pc] else 0 }

  /** `u` is the unit for `pc`, and may be entered as soon as nothing is pending. */
  ghost predicate Enterable(u: Unit, pc: nat, s: State) {
    u.key == pc && Guarded(u, s, s.dirty)
  }

  /** The same keys stand for the same units; only their tier may differ. */
  ghost predicate SameUnits(was: map<nat, Cached>, now: map<nat, Cached>) {
    was.Keys == now.Keys && forall k | k in was :: now[k].unit == was[k].unit
  }

  lemma CachedIsEnterable(s: State, pc: nat)
    requires Coherent(s) && pc in s.blocks
    ensures Enterable(s.blocks[pc].unit, pc, s) && s.blocks[pc].unit.key == pc
  {
    CachedIsGuarded(s, pc, s.dirty);
  }

  /** `now` keeps exactly the entries of `was` that span none of `pages`. */
  ghost predicate Kept<T>(was: map<nat, T>, spans: map<nat, seq<Span>>, pages: seq<nat>, now: map<nat, T>) {
    && (forall k :: k in now <==> k in was && k in spans && Avoids(spans[k], pages))
    && forall k | k in now :: k in was && now[k] == was[k]
  }

  ghost predicate Avoids(spans: seq<Span>, pages: seq<nat>) {
    forall p | p in pages :: p !in PagesOf(spans)
  }

  lemma KeptAll(s: State)
    requires Coherent(s)
    ensures Kept(s.blocks, s.spans, [], s.blocks) && Kept(s.spans, s.spans, [], s.spans)
  {
    hide PagesOf;
    hide Covered;
    assert forall k | k in s.blocks :: k in s.spans;
  }

  lemma KeptThen<T>(was: map<nat, T>, spans: map<nat, seq<Span>>, pages: seq<nat>, p: nat, mid: map<nat, T>,
                    midSpans: map<nat, seq<Span>>, now: map<nat, T>)
    requires Kept(was, spans, pages, mid) && Kept(spans, spans, pages, midSpans) && Kept(mid, midSpans, [p], now)
    ensures Kept(was, spans, pages + [p], now)
  {
    hide PagesOf;
  }

  lemma DropKeepsOthers(s: State, p: nat, rest: seq<nat>, invalidated: bool)
    requires Draining(s, [p] + rest, invalidated)
    ensures Kept(s.blocks, s.spans, [p], DropPage(s, p).blocks) && Kept(s.spans, s.spans, [p], DropPage(s, p).spans)
  {
    hide PagesOf;
    hide AnyOverlaps;
    hide Covered;
    VictimsTouch(s, [p] + rest, p);
    assert forall k | k in s.blocks :: k in s.spans;
  }

  lemma OnePage(p: nat)
    ensures ClearedPages(p * PAGE, p * PAGE + PAGE) == {p}
  {
    var pages := ClearedPages(p * PAGE, p * PAGE + PAGE);
    assert forall q | q in pages :: Within(Page(p * PAGE), q, Page(ByteBefore(p * PAGE + PAGE)));
    assert Within(Page(p * PAGE), p, Page(ByteBefore(p * PAGE + PAGE)));
  }

  lemma InFlight(s: State, r: Request)
    requires Coherent(s) && r in s.queue && r.epoch == s.epoch
    ensures r.unit.key in s.blocks && s.blocks[r.unit.key].unit == r.unit
  {
  }

  lemma CoherentFlag(s: State)
    requires Coherent(s)
    ensures s.dirty != [] ==> s.flag
  {
  }
}
