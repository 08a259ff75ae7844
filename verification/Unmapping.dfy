/** Unmapping a range drops the units that overlap it but clears the tags of whole pages. */
module Unmapping {
  import opened Pages
  import opened CodeState

  /** Unmap `[lo, hi)`, possibly empty: its bytes go, units overlapping it are dropped, its pages' tags are cleared. */
  function Unmapped(s: State, lo: nat, hi: nat): State
    requires lo <= hi
  {
    var victims := Victims(s.spans, lo, hi);
    s.(mem := map a | a in s.mem && !(lo <= a < hi) :: s.mem[a],
       blocks := s.blocks - victims, spans := s.spans - victims,
       tagged := s.tagged - ClearedPages(lo, hi),
       epoch := if victims == {} then s.epoch else s.epoch + 1,
       links := if victims == {} then s.links else map[])
  }

  /** Every live unit on a page of the range overlaps the range itself. */
  ghost predicate OwnsItsPages(s: State, lo: nat, hi: nat)
    requires lo <= hi
  {
    forall k, p | k in s.spans && p in PagesOf(s.spans[k]) && p in ClearedPages(lo, hi) ::
      AnyOverlaps(s.spans[k], lo, hi)
  }

  lemma SurvivorsKeep(s: State, lo: nat, hi: nat)
    requires lo <= hi && CacheOk(s, s.dirty) && OwnsItsPages(s, lo, hi)
    ensures CacheOk(Unmapped(s, lo, hi), s.dirty)
  {
    hide PagesOf;
    hide AnyOverlaps;
    var t := Unmapped(s, lo, hi);
    forall k | k in t.blocks
      ensures Current(t.blocks[k].unit, t.mem, s.dirty)
    {
      assert k in s.blocks && k in s.spans && k !in Victims(s.spans, lo, hi);
      OffRange(s.blocks[k].unit, s, lo, hi);
    }
    assert t.blocks.Keys == t.spans.Keys;
    assert Covered(t.spans) <= Covered(s.spans);
    forall p | p in Covered(t.spans)
      ensures p in t.tagged
    {
      var k :| k in t.spans && p in PagesOf(t.spans[k]);
      assert k in s.spans && k !in Victims(s.spans, lo, hi);
    }
  }

  lemma AddressInRange(lo: nat, hi: nat, a: nat)
    requires lo <= hi
    ensures lo <= a < hi ==> Page(a) in ClearedPages(lo, hi)
  {
    if lo <= a < hi {
      assert Within(Page(lo), Page(a), Page(ByteBefore(hi)));
    }
  }

  /** A unit with no page in the range loses no byte. */
  lemma OffRange(u: Unit, s: State, lo: nat, hi: nat)
    requires lo <= hi && WellFormed(u) && Current(u, s.mem, s.dirty)
    requires forall p | p in PagesOf(u.spans) :: p !in ClearedPages(lo, hi)
    ensures Current(u, Unmapped(s, lo, hi).mem, s.dirty)
  {
    forall a | a in u.bytes
      ensures !(lo <= a < hi)
    {
      AddressInRange(lo, hi, a);
    }
  }

  lemma NothingDropped(s: State, lo: nat, hi: nat, u: Unit)
    requires lo <= hi && OwnsItsPages(s, lo, hi) && Victims(s.spans, lo, hi) == {}
    requires Guarded(u, s, s.dirty)
    ensures Guarded(u, Unmapped(s, lo, hi), s.dirty)
  {
    forall p | p in PagesOf(u.spans)
      ensures p !in ClearedPages(lo, hi)
    {
      var k :| k in s.spans && p in PagesOf(s.spans[k]);
      assert k !in Victims(s.spans, lo, hi);
    }
    OffRange(u, s, lo, hi);
    assert Unmapped(s, lo, hi).spans == s.spans;
  }

  lemma UnmapKeepsCoherent(s: State, lo: nat, hi: nat)
    requires lo <= hi && Coherent(s) && OwnsItsPages(s, lo, hi)
    ensures Coherent(Unmapped(s, lo, hi))
  {
    hide CacheOk;
    hide Guarded;
    hide OwnsItsPages;
    SurvivorsKeep(s, lo, hi);
    var t := Unmapped(s, lo, hi);
    if Victims(s.spans, lo, hi) == {} {
      assert t.blocks == s.blocks;
      forall l | l in s.links
        ensures Guarded(s.links[l], t, s.dirty)
      {
        NothingDropped(s, lo, hi, s.links[l]);
      }
      if s.fastEpoch == s.epoch {
        forall i | i in s.fast
          ensures Guarded(s.fast[i], t, s.dirty)
        {
          NothingDropped(s, lo, hi, s.fast[i]);
        }
      }
    }
  }

  lemma StrandedPage(s: State, lo: nat, hi: nat, k: nat, p: nat)
    requires lo <= hi && Coherent(s)
    requires k in s.spans && p in PagesOf(s.spans[k]) && p in ClearedPages(lo, hi) && !AnyOverlaps(s.spans[k], lo, hi)
    ensures !Coherent(Unmapped(s, lo, hi))
  {
    var t := Unmapped(s, lo, hi);
    assert k in t.spans && t.spans[k] == s.spans[k];
    assert p in Covered(t.spans) && p !in t.tagged;
  }

  /** Theorem: an unmap keeps the state coherent exactly when every unit on the range's pages overlaps the range. */
  lemma UnmapCoherentIff(s: State, lo: nat, hi: nat)
    requires lo <= hi && Coherent(s)
    ensures Coherent(Unmapped(s, lo, hi)) <==> OwnsItsPages(s, lo, hi)
  {
    if OwnsItsPages(s, lo, hi) {
      UnmapKeepsCoherent(s, lo, hi);
    } else {
      var k, p :| k in s.spans && p in PagesOf(s.spans[k]) && p in ClearedPages(lo, hi) &&
                  !AnyOverlaps(s.spans[k], lo, hi);
      StrandedPage(s, lo, hi, k, p);
    }
  }

  /** Whole pages always qualify, and so does an empty range at the start of a page other than the first. */
  lemma AlignedUnmapIsSafe(s: State, lo: nat, hi: nat)
    requires lo <= hi && Coherent(s) && lo % PAGE == 0 && hi % PAGE == 0 && 0 < hi
    ensures Coherent(Unmapped(s, lo, hi))
  {
    forall k, p | k in s.spans && p in PagesOf(s.spans[k]) && p in ClearedPages(lo, hi)
      ensures AnyOverlaps(s.spans[k], lo, hi)
    {
      assert k in s.blocks;
      PageInside(lo, hi, p);
      OverlapIsTouch(s.spans[k], p);
      var i :| 0 <= i < |s.spans[k]| && Overlaps(s.spans[k][i], p * PAGE, p * PAGE + PAGE);
      assert Overlaps(s.spans[k][i], lo, hi);
    }
    UnmapKeepsCoherent(s, lo, hi);
  }

  lemma PageInside(lo: nat, hi: nat, p: nat)
    requires lo <= hi && lo % PAGE == 0 && hi % PAGE == 0 && 0 < hi && p in ClearedPages(lo, hi)
    ensures lo <= p * PAGE && p * PAGE + PAGE <= hi
  {
    assert Within(Page(lo), p, Page(ByteBefore(hi)));
  }

  function LowUnit(): Unit { Unit(0, [Span(0, 16)], map[0 := 1]) }

  function OneUnit(): State {
    var u := LowUnit();
    State(map[0 := 1], {0}, [], false, map[0 := Compiled(u)], map[0 := u.spans], 0, [], map[], map[], 0)
  }

  lemma OneUnitIsCoherent()
    ensures Coherent(OneUnit())
  {
    var s := OneUnit();
    OnlyPageZero();
    assert forall p | p in Covered(s.spans) :: p in PagesOf(s.spans[0]);
    assert NonEmpty(LowUnit().spans);
  }

  /** Unmapping half a page: a later store to the surviving unit goes unnoticed, and the stale unit stays cached. */
  lemma HalfPageUnmapLosesStores() returns (s: State, t: State, w: State)
    ensures Coherent(s) && t == Unmapped(s, 2048, 4096)
    ensures Stored(t, 0, [2], w) && w.dirty == []
    ensures 0 in w.blocks && !Fresh(w.blocks[0].unit, w.mem)
  {
    hide Coherent;
    s := OneUnit();
    OneUnitIsCoherent();
    t := Unmapped(s, 2048, 4096);
    assert !AnyOverlaps(LowUnit().spans, 2048, 4096);
    assert Victims(s.spans, 2048, 4096) == {};
    AddressInRange(2048, 4096, 2048);
    w := t.(mem := t.mem[0 := 2]);
    assert forall p | p in PageRange(0, 1) :: p == 0;
    assert w.blocks[0].unit.bytes[0] == 1;
  }

  /** Unmapping nothing at address zero clears the tag of page zero and drops no unit there. */
  lemma EmptyUnmapStrandsAUnit()
    ensures Coherent(OneUnit()) && !Coherent(Unmapped(OneUnit(), 0, 0))
  {
    var s := OneUnit();
    OneUnitIsCoherent();
    OnlyPageZero();
    assert Within(Page(0), 0, Page(ByteBefore(0)));
    assert !AnyOverlaps(s.spans[0], 0, 0);
    StrandedPage(s, 0, 0, 0, 0);
  }

  lemma OnlyPageZero()
    ensures PagesOf([Span(0, 16)]) == {0}
  {
    var spans := [Span(0, 16)];
    assert forall p | p in PageRange(0, 16) :: p == 0;
    InPageRange(0, 16, 0);
    assert spans[0] == Span(0, 16);
  }
}
