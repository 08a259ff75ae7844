/**
 A store of compiled code is noted only if the watermark admits the page of its first byte. This joins the gate
 to coherence: which stores it misses, and that no other breaks the agreement of units with memory.
 */
module StoreGate {
  import opened Pages
  import opened CodeState
  import Watermark

  /** The widest store, in bytes. */
  const MAX_STORE: nat := 64

  /** The tagged pages of the store, in order. */
  function TaggedPages(tagged: set<nat>, first: nat, last: nat): seq<nat> {
    (if first in tagged then [first] else []) + (if last != first && last in tagged then [last] else [])
  }

  /** Memory after the bytes of `data` are written at `addr`. */
  function Written(mem: Bytes, addr: nat, data: seq<int>): Bytes {
    map a | a in mem :: if addr <= a < addr + |data| then data[a - addr] else mem[a]
  }

  /** A store that consults the watermark on its first byte, and the tags only if that admits it. */
  function GatedStore(s: State, word: nat, addr: nat, data: seq<int>): State {
    var first, last := Page(addr), Page(LastByte(addr, |data|));
    var noted := if Watermark.Gate(word, first) then TaggedPages(s.tagged, first, last) else [];
    s.(mem := Written(s.mem, addr, data), dirty := s.dirty + noted, flag := s.flag || noted != [])
  }

  /** The store spills from below into a tagged page, not yet pending, that is the watermark's low bound. */
  predicate Missed(s: State, word: nat, addr: nat, data: seq<int>) {
    var q := Page(addr) + 1;
    Page(LastByte(addr, |data|)) == q && q in s.tagged && q !in s.dirty && q == Watermark.Lo(word)
  }

  lemma AtMostTwoPages(addr: nat, len: nat, p: nat)
    requires len <= MAX_STORE
    ensures var first, last := Page(addr), Page(LastByte(addr, len));
            (last == first || last == first + 1) && (p in PageRange(addr, len) <==> p == first || p == last)
  {
    assert p in PageRange(addr, len) <==> Within(Page(addr), p, Page(LastByte(addr, len)));
  }

  /** Theorem: with every tagged page admitted, the gate notes a store exactly when it is not such a spill. */
  lemma GatedStoreNotedIff(s: State, word: nat, addr: nat, data: seq<int>)
    requires (s.dirty != [] ==> s.flag) && |data| <= MAX_STORE
    requires forall p | p in s.tagged :: Watermark.Gate(word, p)
    ensures Stored(s, addr, data, GatedStore(s, word, addr, data)) <==> !Missed(s, word, addr, data)
  {
    hide Watermark.Gate;
    hide Watermark.Lo;
    hide Page;
    var t := GatedStore(s, word, addr, data);
    var first, last := Page(addr), Page(LastByte(addr, |data|));
    AtMostTwoPages(addr, |data|, last);
    if last in s.tagged && last == first + 1 {
      Watermark.SpillGatedIff(word, last);
    }
    if Watermark.Gate(word, first) {
      NotBelow(word, first);
    }
    forall p | p in PageRange(addr, |data|) && p in s.tagged && !Missed(s, word, addr, data)
      ensures p in t.dirty
    {
      AtMostTwoPages(addr, |data|, p);
    }
  }

  lemma NotBelow(word: nat, page: nat)
    requires Watermark.Gate(word, page)
    ensures Watermark.Lo(word) != page + 1
  {
  }

  /** Whether or not it is noted, the store writes its mapped bytes, and makes pending only tagged pages it touches. */
  lemma GatedStoreWrites(s: State, word: nat, addr: nat, data: seq<int>)
    requires |data| <= MAX_STORE
    ensures var t := GatedStore(s, word, addr, data);
            && t.mem.Keys == s.mem.Keys
            && (forall a | a in s.mem :: t.mem[a] == if addr <= a < addr + |data| then data[a - addr] else s.mem[a])
            && s.dirty <= t.dirty
            && forall p | p in t.dirty[|s.dirty|..] :: p in s.tagged && p in PageRange(addr, |data|)
  {
    hide Watermark.Gate;
    hide Page;
    var first, last := Page(addr), Page(LastByte(addr, |data|));
    AtMostTwoPages(addr, |data|, first);
    AtMostTwoPages(addr, |data|, last);
  }

  /** A store the gate does not miss keeps the state coherent. */
  lemma GatedStoreCoherent(s: State, word: nat, addr: nat, data: seq<int>)
    requires Coherent(s) && |data| <= MAX_STORE && !Missed(s, word, addr, data)
    requires forall p | p in s.tagged :: Watermark.Gate(word, p)
    ensures Coherent(GatedStore(s, word, addr, data))
  {
    hide GatedStore;
    hide Missed;
    GatedStoreNotedIff(s, word, addr, data);
    StoreKeepsCoherent(s, addr, data, GatedStore(s, word, addr, data));
  }

  // ---- A store that is missed ----

  /** One cached unit, of the first byte of page 4. */
  function UnitOnPageFour(): State {
    var u := Unit(16384, [Span(16384, 1)], map[16384 := 1]);
    State(map[16383 := 1, 16384 := 1], {4}, [], false, map[16384 := Interpreted(u)], map[16384 := u.spans], 0,
          [], map[], map[], 0)
  }

  lemma UnitOnPageFourIsCoherent()
    ensures Coherent(UnitOnPageFour())
  {
    var spans := [Span(16384, 1)];
    assert PageRange(16384, 1) == {4};
    assert spans[0] == Span(16384, 1);
    assert PagesOf(spans) == {4};
    var m := UnitOnPageFour().spans;
    assert m[16384] == spans;
    assert Covered(m) == {4};
  }

  /** After a run that marks pages 5 and 4, a two-byte store across into page 4 leaves its unit stale. */
  lemma SpillStrandsAUnit() returns (actions: seq<Watermark.Action>)
    ensures var start := Watermark.System(0, {}, map[0 := Watermark.Idle]);
            && Watermark.IsRun(start, actions)
            && var s, word := UnitOnPageFour(), Watermark.Run(start, actions).word;
               && Coherent(s) && (forall p | p in s.tagged :: Watermark.Gate(word, p))
               && !Coherent(GatedStore(s, word, 16383, [0, 0]))
  {
    actions := Watermark.SpillMissed();
    var start := Watermark.System(0, {}, map[0 := Watermark.Idle]);
    var s, word := UnitOnPageFour(), Watermark.Run(start, actions).word;
    UnitOnPageFourIsCoherent();
    var t := GatedStore(s, word, 16383, [0, 0]);
    assert t.dirty == [] && t.mem[16384] == 0;
    assert !Current(t.blocks[16384].unit, t.mem, t.dirty);
  }
}
