/** Guest regions: disjoint ranges with a lookup hint, over host pages that are open only where a region lies. */
module Regions {
  const HOST_PAGE: nat := 4096

  datatype Kind = Ram | Trap

  datatype Region = Region(start: nat, size: nat, kind: Kind) {
    function End(): nat { start + size }
  }

  datatype MapError = OutOfBounds | Overlap

  datatype Result<+T> = Ok(value: T) | Err(error: MapError)

  datatype Lookup = Hit(region: Region) | Unmapped

  predicate Overlapping(a: Region, b: Region) {
    a.start < b.End() && b.start < a.End()
  }

  predicate Disjoint(regions: seq<Region>) {
    forall i, j | 0 <= i < j < |regions| :: !Overlapping(regions[i], regions[j])
  }

  predicate Contains(r: Region, addr: nat, size: nat) {
    r.start <= addr && addr + size <= r.End()
  }

  /** The first region that contains the access, as a scan from the front finds it. */
  function Scan(regions: seq<Region>, addr: nat, size: nat): Lookup {
    if regions == [] then Unmapped
    else if Contains(regions[0], addr, size) then Hit(regions[0])
    else Scan(regions[1..], addr, size)
  }

  /** The index a scan from the front stops at; `|regions|` if no region contains the access. */
  function ScanIndex(regions: seq<Region>, addr: nat, size: nat): (i: nat)
    ensures i <= |regions| && forall j | 0 <= j < i :: !Contains(regions[j], addr, size)
    ensures i < |regions| ==> Contains(regions[i], addr, size)
  {
    if regions == [] || Contains(regions[0], addr, size) then 0 else 1 + ScanIndex(regions[1..], addr, size)
  }

  lemma {:induction false} ScanFinds(regions: seq<Region>, addr: nat, size: nat, i: nat)
    requires i < |regions| && Contains(regions[i], addr, size)
    requires forall j | 0 <= j < i :: !Contains(regions[j], addr, size)
    ensures Scan(regions, addr, size) == Hit(regions[i])
    decreases |regions|
  {
    if i != 0 {
      ScanFinds(regions[1..], addr, size, i - 1);
    }
  }

  lemma {:induction false} ScanMisses(regions: seq<Region>, addr: nat, size: nat)
    requires forall j | 0 <= j < |regions| :: !Contains(regions[j], addr, size)
    ensures Scan(regions, addr, size) == Unmapped
    decreases |regions|
  {
    if regions != [] {
      ScanMisses(regions[1..], addr, size);
    }
  }

  /** An access that holds a byte lies in at most one region. */
  lemma OneContains(regions: seq<Region>, addr: nat, size: nat, i: nat, j: nat)
    requires Disjoint(regions) && 0 < size && i < |regions| && j < |regions|
    requires Contains(regions[i], addr, size) && Contains(regions[j], addr, size)
    ensures i == j
  {
    if i < j {
      assert Overlapping(regions[i], regions[j]);
    } else if j < i {
      assert Overlapping(regions[j], regions[i]);
    }
  }

  // ---- Host pages ----

  /** Page `p` of the backing, which starts at guest address `base`, lies in the outward rounding of `r`. */
  predicate Rounded(r: Region, base: nat, p: nat) {
    r.start < base + (p + 1) * HOST_PAGE && base + p * HOST_PAGE < r.End()
  }

  predicate OnPage(a: nat, base: nat, p: nat) { base + p * 4096 <= a < base + (p + 1) * 4096 }

  /** Some byte of the region lies on the page. */
  ghost predicate Intersects(r: Region, base: nat, p: nat) {
    exists a: nat :: r.start <= a < r.End() && OnPage(a, base, p)
  }

  ghost predicate SomeRounded(regions: seq<Region>, base: nat, p: nat) {
    exists i | 0 <= i < |regions| :: Rounded(regions[i], base, p)
  }

  /** Rounding a region outward reaches the pages it has a byte on, and for an empty one the page around it. */
  lemma RoundedIff(r: Region, base: nat, p: nat)
    requires base <= r.start
    ensures Rounded(r, base, p) <==>
            Intersects(r, base, p) || (r.size == 0 && base + p * HOST_PAGE < r.start < base + (p + 1) * HOST_PAGE)
  {
    var lo, hi := base + p * HOST_PAGE, base + (p + 1) * HOST_PAGE;
    if Rounded(r, base, p) && 0 < r.size {
      var a := if r.start < lo then lo else r.start;
      assert r.start <= a < r.End() && OnPage(a, base, p);
    }
  }

  /** The first page of the rounding of a range, and the page after its last. */
  function FirstPage(offset: nat): nat { offset / HOST_PAGE }

  function PageAfter(end: nat): nat { (end + HOST_PAGE - 1) / HOST_PAGE }

  lemma RoundedPages(r: Region, base: nat, p: nat)
    requires base <= r.start
    ensures Rounded(r, base, p) <==> FirstPage(r.start - base) <= p < PageAfter(r.End() - base)
  {
  }

  // ---- The region table ----

  class Table {
    const base: nat
    const capacity: nat
    var regions: seq<Region>
    var hint: nat
    var open: set<nat>

    ghost predicate Valid()
      reads this
    {
      && Disjoint(regions)
      && (forall i | 0 <= i < |regions| :: base <= regions[i].start && regions[i].End() <= base + capacity)
      && OpenWhereMapped()
    }

    /** A host page is open exactly when it lies in the rounding of a mapped region. */
    ghost predicate OpenWhereMapped()
      reads this
    {
      forall p: nat :: p in open <==> SomeRounded(regions, base, p)
    }

    constructor (base: nat, capacity: nat)
      ensures Valid() && regions == [] && this.base == base && this.capacity == capacity
    {
      this.base, this.capacity, regions, hint, open := base, capacity, [], 0, {};
    }

    /** Map a region, unless it leaves the backing or overlaps another. */
    method Map(addr: nat, size: nat, kind: Kind) returns (r: Result<()>)
      requires Valid()
      modifies this`regions, this`open
      ensures Valid()
      ensures var added := Region(addr, size, kind);
              if addr < base || base + capacity < addr + size then r == Err(OutOfBounds)
              else if exists i | 0 <= i < |old(regions)| :: Overlapping(added, old(regions)[i]) then r == Err(Overlap)
              else r == Ok(())
      ensures regions == if r.Ok? then old(regions) + [Region(addr, size, kind)] else old(regions)
    {
      var added := Region(addr, size, kind);
      if addr < base || base + capacity < addr + size {
        return Err(OutOfBounds);
      }
      if exists i | 0 <= i < |regions| :: Overlapping(added, regions[i]) {
        return Err(Overlap);
      }
      ghost var before := regions;
      regions := regions + [added];
      OpenPages(added);
      forall p: nat
        ensures SomeRounded(regions, base, p) <==> SomeRounded(before, base, p) || Rounded(added, base, p)
      {
        AppendRounds(before, added, base, p);
      }
      r := Ok(());
    }

    /** Open every page of a region's rounding. */
    method OpenPages(r: Region)
      requires base <= r.start
      modifies this`open
      ensures forall p: nat :: p in open <==> p in old(open) || Rounded(r, base, p)
    {
      var page, last := FirstPage(r.start - base), PageAfter(r.End() - base);
      while page < last
        invariant FirstPage(r.start - base) <= page
        invariant forall p: nat :: p in open <==> p in old(open) || (FirstPage(r.start - base) <= p < last && p < page)
      {
        open := open + {page};
        page := page + 1;
      }
      forall p: nat
        ensures Rounded(r, base, p) <==> FirstPage(r.start - base) <= p < last
      {
        RoundedPages(r, base, p);
      }
    }

    /** Close every page of a region's rounding that no surviving region shares. */
    method ClosePages(r: Region)
      requires base <= r.start
      modifies this`open
      ensures forall p: nat :: p in open <==> p in old(open) && !(Rounded(r, base, p) && !SomeRounded(regions, base, p))
    {
      var page, last := FirstPage(r.start - base), PageAfter(r.End() - base);
      while page < last
        invariant FirstPage(r.start - base) <= page
        invariant forall p: nat :: p in open <==>
                    p in old(open) && !(FirstPage(r.start - base) <= p < last && p < page && !SomeRounded(regions, base, p))
      {
        var shared := exists i | 0 <= i < |regions| :: Rounded(regions[i], base, page);
        if !shared {
          open := open - {page};
        }
        page := page + 1;
      }
      forall p: nat
        ensures Rounded(r, base, p) <==> FirstPage(r.start - base) <= p < last
      {
        RoundedPages(r, base, p);
      }
    }

    /** Unmap the region that is exactly `(addr, size)`. */
    method Unmap(addr: nat, size: nat) returns (r: Result<()>)
      requires Valid()
      modifies this`regions, this`open
      ensures Valid()
      ensures r.Ok? <==> exists i | 0 <= i < |old(regions)| :: old(regions)[i].start == addr && old(regions)[i].size == size
      ensures r.Ok? ==> exists i | 0 <= i < |old(regions)| ::
                old(regions)[i].start == addr && old(regions)[i].size == size &&
                regions == old(regions)[..i] + old(regions)[i + 1..]
      ensures r.Err? ==> regions == old(regions) && r.error == OutOfBounds
    {
      var i := 0;
      while i < |regions| && !(regions[i].start == addr && regions[i].size == size)
        invariant i <= |regions|
        invariant forall j | 0 <= j < i :: !(regions[j].start == addr && regions[j].size == size)
      {
        i := i + 1;
      }
      if i == |regions| {
        return Err(OutOfBounds);
      }
      ghost var before := regions;
      var gone := regions[i];
      regions := regions[..i] + regions[i + 1..];
      ClosePages(gone);
      RemovalKeepsDisjoint(before, i);
      forall p: nat
        ensures SomeRounded(before, base, p) <==> SomeRounded(regions, base, p) || Rounded(gone, base, p)
      {
        RemoveRounds(before, i, base, p);
      }
      r := Ok(());
    }

    /** The region an access lies in, trying the last one hit before scanning. */
    method RegionAt(addr: nat, size: nat) returns (found: Lookup)
      requires Valid()
      modifies this`hint
      ensures Valid()
      ensures found == if HintHits(regions, old(hint), addr, size) then Hit(regions[old(hint)])
                       else Scan(regions, addr, size)
      ensures 0 < size ==> found == Scan(regions, addr, size)
      ensures found.Hit? ==> hint < |regions| && found.region == regions[hint] && Contains(found.region, addr, size)
    {
      if hint < |regions| && Contains(regions[hint], addr, size) {
        if 0 < size {
          HintAgrees(regions, addr, size, hint);
        }
        return Hit(regions[hint]);
      }
      var i := 0;
      while i < |regions| && !Contains(regions[i], addr, size)
        invariant i <= |regions|
        invariant forall j | 0 <= j < i :: !Contains(regions[j], addr, size)
      {
        i := i + 1;
      }
      if i == |regions| {
        ScanMisses(regions, addr, size);
        return Unmapped;
      }
      ScanFinds(regions, addr, size, i);
      hint := i;
      found := Hit(regions[i]);
    }
  }

  predicate HintHits(regions: seq<Region>, hint: nat, addr: nat, size: nat) {
    hint < |regions| && Contains(regions[hint], addr, size)
  }

  /**
   Theorem: a hint that hits is the region a scan would stop at exactly when the access holds a byte, or no earlier
   region contains its address, ends included.
   */
  lemma HintAgreesIff(regions: seq<Region>, addr: nat, size: nat, hint: nat)
    requires Disjoint(regions) && HintHits(regions, hint, addr, size)
    ensures ScanIndex(regions, addr, size) == hint <==>
            0 < size || forall j | 0 <= j < hint :: !(regions[j].start <= addr <= regions[j].End())
  {
    var i := ScanIndex(regions, addr, size);
    if 0 < size {
      OneContains(regions, addr, size, i, hint);
    }
  }

  lemma HintAgrees(regions: seq<Region>, addr: nat, size: nat, hint: nat)
    requires Disjoint(regions) && 0 < size && hint < |regions| && Contains(regions[hint], addr, size)
    ensures Scan(regions, addr, size) == Hit(regions[hint])
  {
    forall j | 0 <= j < hint
      ensures !Contains(regions[j], addr, size)
    {
      if Contains(regions[j], addr, size) {
        OneContains(regions, addr, size, j, hint);
      }
    }
    ScanFinds(regions, addr, size, hint);
  }

  lemma AppendRounds(regions: seq<Region>, r: Region, base: nat, p: nat)
    ensures SomeRounded(regions + [r], base, p) <==> SomeRounded(regions, base, p) || Rounded(r, base, p)
  {
    var all := regions + [r];
    if SomeRounded(regions, base, p) {
      var i :| 0 <= i < |regions| && Rounded(regions[i], base, p);
      assert all[i] == regions[i];
    }
    assert all[|regions|] == r;
  }

  lemma RemoveRounds(regions: seq<Region>, i: nat, base: nat, p: nat)
    requires i < |regions|
    ensures var rest := regions[..i] + regions[i + 1..];
            SomeRounded(regions, base, p) <==> SomeRounded(rest, base, p) || Rounded(regions[i], base, p)
  {
    var rest := regions[..i] + regions[i + 1..];
    if SomeRounded(regions, base, p) {
      var j :| 0 <= j < |regions| && Rounded(regions[j], base, p);
      assert j < i ==> rest[j] == regions[j];
      assert j > i ==> rest[j - 1] == regions[j];
    }
    if SomeRounded(rest, base, p) {
      var j :| 0 <= j < |rest| && Rounded(rest[j], base, p);
      assert j < i ==> rest[j] == regions[j];
      assert j >= i ==> rest[j] == regions[j + 1];
    }
  }

  lemma RemovalKeepsDisjoint(regions: seq<Region>, i: nat)
    requires i < |regions| && Disjoint(regions)
    ensures Disjoint(regions[..i] + regions[i + 1..])
  {
  }

  // ---- Where the general claims stop ----

  /** An empty access on a boundary lies in two regions: what the hint finds is not what the scan finds. */
  lemma EmptyAccessIsAmbiguous()
    ensures var regions := [Region(0, 8, Ram), Region(8, 8, Trap)];
            && Disjoint(regions) && Contains(regions[1], 8, 0)
            && Scan(regions, 8, 0) == Hit(regions[0]) && regions[0] != regions[1]
  {
  }

  /** An empty region inside a page opens that page although no byte is mapped there. */
  lemma EmptyRegionOpensAPage()
    ensures var r := Region(100, 0, Ram); Rounded(r, 0, 0) && !Intersects(r, 0, 0)
  {
  }

  /** Theorem: with no empty region, a host page is open exactly when some region has a byte on it. */
  lemma OpenPagesIntersect(regions: seq<Region>, base: nat, p: nat)
    requires forall i | 0 <= i < |regions| :: base <= regions[i].start && 0 < regions[i].size
    ensures SomeRounded(regions, base, p) <==> exists i | 0 <= i < |regions| :: Intersects(regions[i], base, p)
  {
    forall i | 0 <= i < |regions|
      ensures Rounded(regions[i], base, p) <==> Intersects(regions[i], base, p)
    {
      RoundedIff(regions[i], base, p);
    }
  }
}
