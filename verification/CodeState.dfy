/**
 What a translated unit is, and what it means for every holder of one to stay coherent with guest
 memory: the cache, the link slots, a vcpu's private probe and compiles in flight.
 */
module CodeState {
  import opened Options
  import opened Pages

  // ---- Spans ----

  function PagesOf(spans: seq<Span>): set<nat> {
    set i, p | 0 <= i < |spans| && p in PageRange(spans[i].start, spans[i].len) :: p
  }

  predicate Overlaps(s: Span, lo: nat, hi: nat) {
    s.start < hi && lo < s.start + s.len
  }

  predicate AnyOverlaps(spans: seq<Span>, lo: nat, hi: nat) {
    exists i | 0 <= i < |spans| :: Overlaps(spans[i], lo, hi)
  }

  predicate NonEmpty(spans: seq<Span>) {
    forall i | 0 <= i < |spans| :: 0 < spans[i].len
  }

  /** Overlapping a page and touching it are the same for spans that hold a byte. */
  lemma OverlapIsTouch(spans: seq<Span>, p: nat)
    requires NonEmpty(spans)
    ensures AnyOverlaps(spans, p * PAGE, p * PAGE + PAGE) <==> p in PagesOf(spans)
  {
    forall i | 0 <= i < |spans|
      ensures Overlaps(spans[i], p * PAGE, p * PAGE + PAGE) <==> p in PageRange(spans[i].start, spans[i].len)
    {
      SpanTouches(spans[i].start, spans[i].len, p);
    }
  }

  lemma SpanTouches(start: nat, len: nat, p: nat)
    requires 0 < len
    ensures Overlaps(Span(start, len), p * PAGE, p * PAGE + PAGE) <==> p in PageRange(start, len)
  {
    assert Within(Page(start), p, Page(LastByte(start, len))) <==> start < p * PAGE + PAGE && p * PAGE < start + len;
  }

  // ---- Units ----

  type Bytes = map<nat, int>

  /** A translation: the address it starts at, the spans it was lifted from and the bytes found there. */
  datatype Unit = Unit(key: nat, spans: seq<Span>, bytes: Bytes)

  ghost predicate WellFormed(u: Unit) {
    && NonEmpty(u.spans)
    && forall a | a in u.bytes :: Page(a) in PagesOf(u.spans)
  }

  /** Every byte the unit was lifted from is still there. */
  ghost predicate Fresh(u: Unit, mem: Bytes) {
    forall a | a in u.bytes :: a in mem && mem[a] == u.bytes[a]
  }

  /** Every byte is still there, except on pages whose invalidation is pending. */
  ghost predicate Current(u: Unit, mem: Bytes, pending: seq<nat>) {
    forall a | a in u.bytes :: (a in mem && mem[a] == u.bytes[a]) || Page(a) in pending
  }

  datatype Cached = Interpreted(unit: Unit) | Compiled(unit: Unit)

  /** A compile in flight, with the invalidation epoch it was submitted at. */
  datatype Request = Request(unit: Unit, epoch: nat)

  /** A chaining slot of compiled code. A direct edge has one target; an indirect one compares the stored target. */
  datatype Slot = Direct(id: nat, target: nat) | Indirect(id: nat)

  // ---- The state every step acts on ----

  datatype State = State(
    mem: Bytes, tagged: set<nat>, dirty: seq<nat>, flag: bool,
    blocks: map<nat, Cached>, spans: map<nat, seq<Span>>, epoch: nat,
    queue: seq<Request>, links: map<Slot, Unit>,
    fast: map<nat, Unit>, fastEpoch: nat)

  /** Pages some live unit spans. */
  function Covered(spans: map<nat, seq<Span>>): set<nat> {
    set k, p | k in spans && p in PagesOf(spans[k]) :: p
  }

  /** A unit that may be entered later: any write to its bytes, and any drop of its pages, will be noticed. */
  ghost predicate Guarded(u: Unit, s: State, pending: seq<nat>) {
    WellFormed(u) && PagesOf(u.spans) <= Covered(s.spans) && Current(u, s.mem, pending)
  }

  ghost predicate CacheOk(s: State, pending: seq<nat>) {
    && s.blocks.Keys == s.spans.Keys
    && Covered(s.spans) <= s.tagged
    && forall k | k in s.blocks ::
         var u := s.blocks[k].unit;
         u.key == k && s.spans[k] == u.spans && WellFormed(u) && Current(u, s.mem, pending)
  }

  ghost predicate LinksOk(s: State, pending: seq<nat>) {
    forall l | l in s.links :: Guarded(s.links[l], s, pending) && (l.Direct? ==> s.links[l].key == l.target)
  }

  ghost predicate ProbeOk(s: State, pending: seq<nat>) {
    && s.fastEpoch <= s.epoch
    && (s.fastEpoch == s.epoch ==> forall i | i in s.fast :: Guarded(s.fast[i], s, pending))
  }

  ghost predicate QueueOk(s: State) {
    forall r | r in s.queue ::
      && r.epoch <= s.epoch
      && (r.epoch == s.epoch ==> r.unit.key in s.blocks && s.blocks[r.unit.key].unit == r.unit)
  }

  /** The coherence invariant. */
  ghost predicate Coherent(s: State) {
    && (s.dirty != [] ==> s.flag)
    && CacheOk(s, s.dirty) && LinksOk(s, s.dirty) && ProbeOk(s, s.dirty) && QueueOk(s)
  }

  /** With nothing pending, a unit that is guarded is a translation of the bytes now in memory. */
  lemma GuardedIsFresh(u: Unit, s: State)
    requires Guarded(u, s, [])
    ensures Fresh(u, s.mem)
  {
  }

  lemma CachedIsGuarded(s: State, k: nat, pending: seq<nat>)
    requires CacheOk(s, pending) && k in s.blocks
    ensures Guarded(s.blocks[k].unit, s, pending)
  {
  }

  // ---- Stores ----

  /** A store of `data` at `addr`, noted: its tagged pages become pending. */
  ghost predicate Stored(s: State, addr: nat, data: seq<int>, t: State) {
    && t == s.(mem := t.mem, dirty := t.dirty, flag := t.flag)
    && (forall a | a in s.mem && !(addr <= a < addr + |data|) :: a in t.mem && t.mem[a] == s.mem[a])
    && s.dirty <= t.dirty
    && (forall p | p in PageRange(addr, |data|) && p in s.tagged :: p in t.dirty)
    && (t.dirty != [] ==> t.flag)
  }

  lemma StoreKeepsGuard(s: State, addr: nat, data: seq<int>, t: State, u: Unit)
    requires Covered(s.spans) <= s.tagged && Stored(s, addr, data, t)
    requires WellFormed(u) && PagesOf(u.spans) <= Covered(s.spans) && Current(u, s.mem, s.dirty)
    ensures Current(u, t.mem, t.dirty)
  {
    forall a | a in u.bytes
      ensures (a in t.mem && t.mem[a] == u.bytes[a]) || Page(a) in t.dirty
    {
      if addr <= a < addr + |data| {
        InPageRange(addr, |data|, a);
      }
    }
  }

  lemma PagesAreCovered(spans: map<nat, seq<Span>>, k: nat)
    requires k in spans
    ensures PagesOf(spans[k]) <= Covered(spans)
  {
  }

  /** A noted store keeps the whole state coherent. */
  lemma StoreKeepsCoherent(s: State, addr: nat, data: seq<int>, t: State)
    requires Coherent(s) && Stored(s, addr, data, t)
    ensures Coherent(t)
  {
    forall k | k in t.blocks
      ensures Current(t.blocks[k].unit, t.mem, t.dirty)
    {
      PagesAreCovered(s.spans, k);
      StoreKeepsGuard(s, addr, data, t, s.blocks[k].unit);
    }
    forall l | l in t.links
      ensures Guarded(t.links[l], t, t.dirty)
    {
      StoreKeepsGuard(s, addr, data, t, s.links[l]);
    }
    if t.fastEpoch == t.epoch {
      forall i | i in t.fast
        ensures Guarded(t.fast[i], t, t.dirty)
      {
        StoreKeepsGuard(s, addr, data, t, s.fast[i]);
      }
    }
  }

  // ---- Invalidation ----

  /** Keys of the units any of whose spans overlaps `[lo, hi)`. */
  function Victims(spans: map<nat, seq<Span>>, lo: nat, hi: nat): set<nat> {
    set k | k in spans && AnyOverlaps(spans[k], lo, hi)
  }

  /** Drop every unit on page `p`, clear its tag, and move the epoch if anything was dropped. */
  function DropPage(s: State, p: nat): State {
    var victims := Victims(s.spans, p * PAGE, p * PAGE + PAGE);
    s.(blocks := s.blocks - victims, spans := s.spans - victims, tagged := s.tagged - {p},
       epoch := if victims == {} then s.epoch else s.epoch + 1)
  }

  /** Part way through a drain: `pending` pages are still to do; once a unit is dropped the links await clearing. */
  ghost predicate Draining(s: State, pending: seq<nat>, invalidated: bool) {
    CacheOk(s, pending) && (!invalidated ==> LinksOk(s, pending)) && ProbeOk(s, pending) && QueueOk(s)
  }

  lemma VictimsTouch(s: State, pending: seq<nat>, p: nat)
    requires CacheOk(s, pending)
    ensures forall k | k in s.spans ::
              k in Victims(s.spans, p * PAGE, p * PAGE + PAGE) <==> p in PagesOf(s.spans[k])
    ensures Victims(s.spans, p * PAGE, p * PAGE + PAGE) == {} <==> p !in Covered(s.spans)
  {
    forall k | k in s.spans
      ensures k in Victims(s.spans, p * PAGE, p * PAGE + PAGE) <==> p in PagesOf(s.spans[k])
    {
      assert k in s.blocks;
      OverlapIsTouch(s.spans[k], p);
    }
    if p in Covered(s.spans) {
      var k :| k in s.spans && p in PagesOf(s.spans[k]);
      assert k in Victims(s.spans, p * PAGE, p * PAGE + PAGE);
    }
  }

  /** A unit that does not touch the dropped page keeps its bytes checked against the remaining pages. */
  lemma CurrentOffPage(u: Unit, mem: Bytes, p: nat, rest: seq<nat>)
    requires WellFormed(u) && Current(u, mem, [p] + rest) && p !in PagesOf(u.spans)
    ensures Current(u, mem, rest)
  {
  }

  lemma DropKeepsCache(s: State, p: nat, rest: seq<nat>)
    requires CacheOk(s, [p] + rest)
    ensures CacheOk(DropPage(s, p), rest)
  {
    hide PagesOf;
    hide AnyOverlaps;
    VictimsTouch(s, [p] + rest, p);
    var t := DropPage(s, p);
    forall k | k in t.blocks
      ensures Current(t.blocks[k].unit, t.mem, rest)
    {
      assert k in s.blocks && k in s.spans;
      CurrentOffPage(s.blocks[k].unit, s.mem, p, rest);
    }
    assert t.blocks.Keys == t.spans.Keys;
    assert Covered(t.spans) <= Covered(s.spans) && p !in Covered(t.spans);
  }

  /** When the page is covered by no unit, nothing that is guarded touches it. */
  lemma UnusedPageKeepsGuard(s: State, p: nat, rest: seq<nat>, u: Unit)
    requires p !in Covered(s.spans) && Guarded(u, s, [p] + rest)
    ensures Guarded(u, s, rest)
  {
    CurrentOffPage(u, s.mem, p, rest);
  }

  lemma DropKeepsDraining(s: State, p: nat, rest: seq<nat>, invalidated: bool)
    requires Draining(s, [p] + rest, invalidated)
    ensures var t := DropPage(s, p); Draining(t, rest, invalidated || t.epoch != s.epoch)
  {
    hide PagesOf;
    hide Covered;
    hide AnyOverlaps;
    DropKeepsCache(s, p, rest);
    VictimsTouch(s, [p] + rest, p);
    var t := DropPage(s, p);
    if t.epoch == s.epoch {
      assert t.spans == s.spans && t.blocks == s.blocks;
      forall u: Unit | Guarded(u, s, [p] + rest)
        ensures Guarded(u, t, rest)
      {
        UnusedPageKeepsGuard(s, p, rest, u);
      }
    }
  }

  /** Clearing every link ends the drain. */
  lemma DrainEnds(s: State, invalidated: bool)
    requires Draining(s, [], invalidated) && s.dirty == []
    ensures Coherent(if invalidated then s.(links := map[]) else s)
  {
  }

  // ---- Steps of the dispatcher ----

  function Inserted(s: State, c: Cached): State {
    var u := c.unit;
    s.(blocks := s.blocks[u.key := c], spans := s.spans[u.key := u.spans], tagged := s.tagged + PagesOf(u.spans))
  }

  lemma InsertCovers(spans: map<nat, seq<Span>>, k: nat, sp: seq<Span>)
    requires k !in spans
    ensures Covered(spans[k := sp]) == Covered(spans) + PagesOf(sp)
  {
    var t := spans[k := sp];
    forall p | p in Covered(spans)
      ensures p in Covered(t)
    {
      var j :| j in spans && p in PagesOf(spans[j]);
      assert t[j] == spans[j];
    }
    assert t[k] == sp;
  }

  lemma InsertKeepsCache(s: State, c: Cached, pending: seq<nat>)
    requires CacheOk(s, pending) && c.unit.key !in s.blocks && WellFormed(c.unit) && Fresh(c.unit, s.mem)
    ensures CacheOk(Inserted(s, c), pending)
    ensures Covered(s.spans) <= Covered(Inserted(s, c).spans)
  {
    hide PagesOf;
    hide Covered;
    hide WellFormed;
    InsertCovers(s.spans, c.unit.key, c.unit.spans);
  }

  /** Covering more pages leaves every guarded unit guarded. */
  lemma GuardMonotone(u: Unit, s: State, t: State, pending: seq<nat>)
    requires Guarded(u, s, pending) && s.mem == t.mem && Covered(s.spans) <= Covered(t.spans)
    ensures Guarded(u, t, pending)
  {
  }

  /** A unit lifted from memory as it is, under a key not cached, joins the cache. */
  lemma InsertKeepsCoherent(s: State, c: Cached)
    requires Coherent(s) && c.unit.key !in s.blocks && WellFormed(c.unit) && Fresh(c.unit, s.mem)
    ensures Coherent(Inserted(s, c))
  {
    hide PagesOf;
    hide Covered;
    hide WellFormed;
    hide CacheOk;
    hide Guarded;
    var t := Inserted(s, c);
    InsertKeepsCache(s, c, s.dirty);
    forall l | l in s.links
      ensures Guarded(s.links[l], t, s.dirty)
    {
      GuardMonotone(s.links[l], s, t, s.dirty);
    }
    if s.fastEpoch == s.epoch {
      forall i | i in s.fast
        ensures Guarded(s.fast[i], t, s.dirty)
      {
        GuardMonotone(s.fast[i], s, t, s.dirty);
      }
    }
  }

  /** Swapping an interpreted unit for its compiled form. */
  function Promoted(s: State, u: Unit): State {
    s.(blocks := s.blocks[u.key := Compiled(u)], spans := s.spans[u.key := u.spans],
       tagged := s.tagged + PagesOf(u.spans))
  }

  lemma PromoteKeepsCoherent(s: State, u: Unit)
    requires Coherent(s) && u.key in s.blocks && s.blocks[u.key].unit == u
    ensures Coherent(Promoted(s, u))
    ensures Promoted(s, u).spans == s.spans && Promoted(s, u).tagged == s.tagged
  {
    hide PagesOf;
    hide Covered;
    PagesAreCovered(s.spans, u.key);
    assert Promoted(s, u).spans == s.spans;
    assert Promoted(s, u).tagged == s.tagged;
  }

  /** The unit lifted from `mem` as it is. */
  function Lift(mem: Bytes, key: nat, spans: seq<Span>): Unit {
    Unit(key, spans, map a | a in mem && InSpans(a, spans) :: mem[a])
  }

  predicate InSpans(a: nat, spans: seq<Span>) {
    exists i | 0 <= i < |spans| :: spans[i].start <= a < spans[i].start + spans[i].len
  }

  lemma LiftIsFresh(mem: Bytes, key: nat, spans: seq<Span>)
    requires NonEmpty(spans)
    ensures WellFormed(Lift(mem, key, spans)) && Fresh(Lift(mem, key, spans), mem)
  {
    forall a | a in mem && InSpans(a, spans)
      ensures Page(a) in PagesOf(spans)
    {
      PageOfSpans(a, spans);
    }
  }

  lemma PageOfSpans(a: nat, spans: seq<Span>)
    requires InSpans(a, spans)
    ensures Page(a) in PagesOf(spans)
  {
    var i :| 0 <= i < |spans| && spans[i].start <= a < spans[i].start + spans[i].len;
    InPageRange(spans[i].start, spans[i].len, a);
  }

  /** Claiming the dirty pages starts a drain. */
  lemma DrainStarts(s: State, t: State)
    requires Coherent(s) && t == s.(dirty := [], flag := false)
    ensures Draining(t, s.dirty, false)
  {
    GuardSameWorld(s, t, s.dirty);
  }

  /** Guarding depends on memory and on the live spans alone. */
  lemma GuardSameWorld(s: State, t: State, pending: seq<nat>)
    requires s.mem == t.mem && s.spans == t.spans
    ensures forall u: Unit | Guarded(u, s, pending) :: Guarded(u, t, pending)
  {
  }

  lemma SubmitKeepsCoherent(s: State, u: Unit)
    requires Coherent(s) && u.key in s.blocks && s.blocks[u.key].unit == u
    ensures Coherent(s.(queue := s.queue + [Request(u, s.epoch)]))
  {
    hide Guarded;
    hide WellFormed;
    hide Covered;
    GuardSameWorld(s, s.(queue := s.queue + [Request(u, s.epoch)]), s.dirty);
  }

  lemma FinishKeepsCoherent(s: State, i: nat)
    requires Coherent(s) && i < |s.queue|
    ensures Coherent(s.(queue := s.queue[..i] + s.queue[i + 1..]))
  {
    hide Guarded;
    hide WellFormed;
    hide Covered;
    GuardSameWorld(s, s.(queue := s.queue[..i] + s.queue[i + 1..]), s.dirty);
  }

  lemma LinkKeepsCoherent(s: State, l: Slot, u: Unit)
    requires Coherent(s) && Guarded(u, s, s.dirty) && (l.Direct? ==> u.key == l.target)
    ensures Coherent(s.(links := s.links[l := u]))
  {
    hide Guarded;
    hide WellFormed;
    hide Covered;
    GuardSameWorld(s, s.(links := s.links[l := u]), s.dirty);
  }

  lemma ProbeKeepsCoherent(s: State, i: nat, u: Unit)
    requires Coherent(s) && s.fastEpoch == s.epoch && Guarded(u, s, s.dirty)
    ensures Coherent(s.(fast := s.fast[i := u]))
  {
    hide Guarded;
    hide WellFormed;
    hide Covered;
    GuardSameWorld(s, s.(fast := s.fast[i := u]), s.dirty);
  }

  lemma SyncKeepsCoherent(s: State)
    requires Coherent(s)
    ensures Coherent(s.(fast := map[], fastEpoch := s.epoch))
  {
    hide Guarded;
    hide WellFormed;
    hide Covered;
    GuardSameWorld(s, s.(fast := map[], fastEpoch := s.epoch), s.dirty);
  }
}
