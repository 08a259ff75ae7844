/** Data-page dirty tracking: two bitmaps, a scan list and a count that refine two plain sets of pages. */
module WatchPages {
  import opened Pages

  // ---- Machine words, low bit first ----

  type Word = s: seq<bool> | |s| == 64 witness seq(64, i => false)

  const ZERO: Word := seq(64, i => false)

  predicate IsZero(w: Word) { forall i | 0 <= i < 64 :: !w[i] }

  /** Index of the lowest set bit at or above `from`. */
  function LowestFrom(w: Word, from: nat): (i: nat)
    requires from <= 64 && exists j | from <= j < 64 :: w[j]
    ensures from <= i < 64 && w[i] && forall j | from <= j < i :: !w[j]
    decreases 64 - from
  {
    if w[from] then from else LowestFrom(w, from + 1)
  }

  function TrailingZeros(w: Word): (i: nat)
    requires !IsZero(w)
    ensures i < 64 && w[i] && forall j | 0 <= j < i :: !w[j]
  {
    LowestFrom(w, 0)
  }

  /** Whether a borrow reaches bit `i` when one is subtracted: every lower bit is zero. */
  predicate Borrows(w: Word, i: nat)
    requires i <= 64
  {
    i == 0 || (!w[i - 1] && Borrows(w, i - 1))
  }

  /** `w - 1`, bit by bit. */
  function Minus1(w: Word): Word {
    seq(64, i requires 0 <= i < 64 => w[i] != Borrows(w, i))
  }

  function And(a: Word, b: Word): Word {
    seq(64, i requires 0 <= i < 64 => a[i] && b[i])
  }

  lemma {:induction false} BorrowsUpToLowest(w: Word, i: nat)
    requires i <= 64
    ensures Borrows(w, i) <==> forall j | 0 <= j < i :: !w[j]
  {
    if i != 0 {
      BorrowsUpToLowest(w, i - 1);
    }
  }

  /** Anding a word with one less than it clears its lowest set bit. */
  lemma AndMinus1ClearsLowest(w: Word)
    requires !IsZero(w)
    ensures And(w, Minus1(w)) == w[TrailingZeros(w) := false]
  {
    var t := TrailingZeros(w);
    forall i | 0 <= i < 64
      ensures And(w, Minus1(w))[i] == w[t := false][i]
    {
      BorrowsUpToLowest(w, i);
    }
  }

  // ---- The facility ----

  predicate Bit(table: seq<Word>, page: nat) {
    page / 64 < |table| && table[page / 64][page % 64]
  }

  predicate Ascending(pages: seq<nat>) {
    forall i, j | 0 <= i < j < |pages| :: pages[i] < pages[j]
  }

  /** The table with bit `b` of word `w` set to `v`. */
  function WithBit(table: seq<Word>, w: nat, b: nat, v: bool): seq<Word>
    requires w < |table| && b < 64
  {
    table[w := table[w][b := v]]
  }

  /** Changing one bit of one word changes one page of the table. */
  lemma BitsAfter(s: seq<Word>, w: nat, b: nat, v: bool)
    requires w < |s| && b < 64
    ensures forall p: nat :: Bit(WithBit(s, w, b, v), p) <==> if p == 64 * w + b then v else Bit(s, p)
  {
    forall p: nat
      ensures Bit(WithBit(s, w, b, v), p) <==> if p == 64 * w + b then v else Bit(s, p)
    {
      if p / 64 == w && p % 64 == b {
        assert p == 64 * w + b;
      }
    }
  }

  ghost predicate Represents(table: seq<Word>, pages: set<nat>) {
    forall p: nat :: p in pages <==> Bit(table, p)
  }

  ghost predicate ScanList(table: seq<Word>, words: set<nat>) {
    forall w: nat :: w in words <==> w < |table| && !IsZero(table[w])
  }

  lemma SetBitRepresents(table: seq<Word>, pages: set<nat>, page: nat)
    requires Represents(table, pages) && page / 64 < |table|
    ensures Represents(WithBit(table, page / 64, page % 64, true), pages + {page})
    ensures Represents(WithBit(table, page / 64, page % 64, false), pages - {page})
    ensures table[page / 64][page % 64] <==> page in pages
  {
    hide Bit;
    BitsAfter(table, page / 64, page % 64, true);
    BitsAfter(table, page / 64, page % 64, false);
    assert Bit(table, page) == table[page / 64][page % 64] by { BitAt(table, page); }
  }

  lemma BitAt(table: seq<Word>, page: nat)
    ensures Bit(table, page) == (page / 64 < |table| && table[page / 64][page % 64])
  {
  }

  lemma SetBitScans(table: seq<Word>, words: set<nat>, w: nat, b: nat)
    requires ScanList(table, words) && w < |table| && b < 64
    ensures ScanList(WithBit(table, w, b, true), words + {w})
    ensures var t := WithBit(table, w, b, false); ScanList(t, if IsZero(t[w]) then words - {w} else words)
  {
    assert WithBit(table, w, b, true)[w][b];
    if w !in words {
      assert IsZero(WithBit(table, w, b, false)[w]);
    }
  }

  lemma SameBit(table: seq<Word>, w: nat, b: nat, v: bool)
    requires w < |table| && b < 64 && table[w][b] == v
    ensures WithBit(table, w, b, v) == table
  {
    assert table[w][b := v] == table[w];
  }

  lemma AppendAscends(pages: seq<nat>, p: nat)
    requires Ascending(pages) && forall q | q in pages :: q < p
    ensures Ascending(pages + [p])
  {
    forall i, j | 0 <= i < j < |pages + [p]|
      ensures (pages + [p])[i] < (pages + [p])[j]
    {
      assert (pages + [p])[i] in pages;
    }
  }

  lemma ConcatAscends(a: seq<nat>, b: seq<nat>, bound: nat)
    requires Ascending(a) && Ascending(b)
    requires (forall p | p in a :: p < bound) && (forall p | p in b :: bound <= p)
    ensures Ascending(a + b)
  {
    forall i, j | 0 <= i < j < |a + b|
      ensures (a + b)[i] < (a + b)[j]
    {
      if i < |a| <= j {
        assert (a + b)[i] in a && (a + b)[j] in b;
      }
    }
  }

  /** A word off the scan list has no watched page, so no dirty one. */
  lemma OffScanList(watch: seq<Word>, dirty: seq<Word>, words: set<nat>, watched: set<nat>, dirtied: set<nat>, w: nat)
    requires Represents(watch, watched) && Represents(dirty, dirtied) && dirtied <= watched
    requires ScanList(watch, words) && |watch| == |dirty| && w < |watch| && w !in words
    ensures IsZero(dirty[w])
  {
    forall i | 0 <= i < 64
      ensures !dirty[w][i]
    {
      var p := 64 * w + i;
      BitAt(dirty, p);
      BitAt(watch, p);
      assert p / 64 == w && p % 64 == i;
      assert p in dirtied ==> p in watched;
    }
  }

  /** Read-modify-write of one word. */
  method PutBit(table: array<Word>, w: nat, b: nat, v: bool)
    requires w < table.Length && b < 64
    modifies table
    ensures table[..] == WithBit(old(table[..]), w, b, v)
  {
    table[w] := table[w][b := v];
  }

  /** The page of the last byte of a range; an empty range counts as one byte. */
  function LastPage(addr: nat, size: nat): nat { Page(LastByte(addr, size)) }

  class Watcher {
    const watch: array<Word>
    const dirty: array<Word>
    var words: set<nat>
    var count: nat
    ghost var watched: set<nat>
    ghost var dirtied: set<nat>

    ghost predicate Valid()
      reads this, watch, dirty
    {
      && watch != dirty && watch.Length == dirty.Length
      && Represents(watch[..], watched) && Represents(dirty[..], dirtied)
      && dirtied <= watched
      && count == |watched|
      && ScanList(watch[..], words)
    }

    constructor (pages: nat)
      ensures Valid() && watched == {} && dirtied == {}
      ensures fresh(watch) && fresh(dirty) && watch.Length == (pages + 63) / 64
    {
      var n := (pages + 63) / 64;
      watch := new Word[n](i => ZERO);
      dirty := new Word[n](i => ZERO);
      words, count, watched, dirtied := {}, 0, {}, {};
    }

    /** Start watching a page. A page beyond the table is not registered. */
    method Watch(page: nat)
      requires Valid()
      modifies this`words, this`count, this`watched, watch
      ensures Valid() && dirtied == old(dirtied)
      ensures watched == old(watched) + if page / 64 < watch.Length then {page} else {}
    {
      hide Represents;
      hide ScanList;
      hide WithBit;
      var w, b := page / 64, page % 64;
      if w >= watch.Length {
        return;
      }
      var was := watch[w][b];
      SetBitRepresents(watch[..], watched, page);
      SetBitScans(watch[..], words, w, b);
      PutBit(watch, w, b, true);
      watched := watched + {page};
      if !was {
        count := count + 1;
        words := words + {w};
      } else {
        SameBit(old(watch[..]), w, b, true);
      }
    }

    /** Forget a pending write. */
    method ClearDirty(page: nat)
      requires Represents(dirty[..], dirtied) && page / 64 < dirty.Length
      modifies this`dirtied, dirty
      ensures Represents(dirty[..], dirtied) && dirtied == old(dirtied) - {page}
    {
      hide Represents;
      hide WithBit;
      var w, b := page / 64, page % 64;
      SetBitRepresents(dirty[..], dirtied, page);
      PutBit(dirty, w, b, false);
      dirtied := dirtied - {page};
    }

    method Unwatch(page: nat)
      requires Valid()
      modifies this, watch, dirty
      ensures Valid() && watched == old(watched) - {page} && dirtied == old(dirtied) - {page}
    {
      hide Represents;
      hide ScanList;
      hide WithBit;
      var w, b := page / 64, page % 64;
      if w >= watch.Length {
        BeyondTable(watch[..], watched, page);
        return;
      }
      var was := watch[w][b];
      SetBitRepresents(watch[..], watched, page);
      SetBitScans(watch[..], words, w, b);
      PutBit(watch, w, b, false);
      if was {
        count := count - 1;
        ClearDirty(page);
        watched := watched - {page};
        if IsZero(watch[w]) {
          words := words - {w};
        }
      } else {
        SameBit(old(watch[..]), w, b, false);
      }
    }

    method SetDirty(page: nat)
      requires Valid() && page / 64 < dirty.Length && page in watched
      modifies this`dirtied, dirty
      ensures Valid() && dirtied == old(dirtied) + {page}
    {
      hide Represents;
      hide WithBit;
      var w, b := page / 64, page % 64;
      SetBitRepresents(dirty[..], dirtied, page);
      PutBit(dirty, w, b, true);
      dirtied := dirtied + {page};
    }

    /** Record a write to a page, if it is watched. */
    method NotePage(page: nat)
      requires Valid()
      modifies this`dirtied, dirty
      ensures Valid() && dirtied == old(dirtied) + if page in watched then {page} else {}
    {
      hide Represents;
      hide ScanList;
      hide WithBit;
      var w, b := page / 64, page % 64;
      if w >= watch.Length {
        BeyondTable(watch[..], watched, page);
        return;
      }
      SetBitRepresents(watch[..], watched, page);
      if count != 0 && watch[w][b] {
        SetBitRepresents(dirty[..], dirtied, page);
        if !dirty[w][b] {
          SetDirty(page);
        }
      }
    }

    /** Drain the dirty pages, ascending. */
    method TakeDirty() returns (pages: seq<nat>)
      requires Valid()
      modifies this`dirtied, dirty
      ensures Valid() && dirtied == {} && Ascending(pages)
      ensures forall p: nat :: p in pages <==> p in old(dirtied)
    {
      pages := [];
      if count == 0 {
        assert watched == {};
        return;
      }
      ghost var was := dirty[..];
      for w := 0 to watch.Length
        invariant dirtied == old(dirtied) && DrainedTo(was, dirty[..], pages, w)
      {
        pages := DrainOne(w, pages, was);
      }
      assert Represents(dirty[..], {}) by { DrainedAll(was, dirty[..], pages); }
      dirtied := {};
    }

    /** Drain the dirty pages as ranges. */
    method TakeDirtyRanges() returns (ranges: seq<Span>)
      requires Valid()
      modifies this`dirtied, dirty
      ensures Valid() && dirtied == {} && Coalesced(ranges)
      ensures forall p: nat :: SomeHolds(ranges, p) <==> p in old(dirtied)
    {
      var pages := TakeDirty();
      ranges := Coalesce(pages);
    }

    /** Watch every page of `[addr, addr + size)`. */
    method WatchRange(addr: nat, size: nat)
      requires Valid()
      modifies this`words, this`count, this`watched, watch
      ensures Valid() && dirtied == old(dirtied)
      ensures forall p: nat :: p in watched <==>
                p in old(watched) || (p / 64 < watch.Length && Page(addr) <= p <= LastPage(addr, size))
    {
      hide Represents;
      hide ScanList;
      for page := Page(addr) to LastPage(addr, size) + 1
        invariant Valid() && dirtied == old(dirtied)
        invariant forall p: nat :: p in watched <==>
                    p in old(watched) || (p / 64 < watch.Length && Page(addr) <= p < page)
      {
        Watch(page);
      }
    }

    method UnwatchRange(addr: nat, size: nat)
      requires Valid()
      modifies this, watch, dirty
      ensures Valid()
      ensures forall p: nat :: p in watched <==> p in old(watched) && !(Page(addr) <= p <= LastPage(addr, size))
      ensures forall p: nat :: p in dirtied <==> p in old(dirtied) && !(Page(addr) <= p <= LastPage(addr, size))
    {
      hide Represents;
      hide ScanList;
      for page := Page(addr) to LastPage(addr, size) + 1
        invariant Valid()
        invariant forall p: nat :: p in watched <==> p in old(watched) && !(Page(addr) <= p < page)
        invariant forall p: nat :: p in dirtied <==> p in old(dirtied) && !(Page(addr) <= p < page)
      {
        Unwatch(page);
      }
    }

    /** A store of `len` bytes: its watched pages become dirty. */
    method NoteWrite(addr: nat, len: nat)
      requires Valid()
      modifies this`dirtied, dirty
      ensures Valid()
      ensures forall p: nat :: p in dirtied <==>
                p in old(dirtied) || (p in watched && Page(addr) <= p <= LastPage(addr, len))
    {
      hide Represents;
      hide ScanList;
      for page := Page(addr) to LastPage(addr, len) + 1
        invariant Valid()
        invariant forall p: nat :: p in dirtied <==> p in old(dirtied) || (p in watched && Page(addr) <= p < page)
      {
        NotePage(page);
      }
    }

    /** Drain one word, if it is on the scan list. */
    method DrainOne(w: nat, pages: seq<nat>, ghost was: seq<Word>) returns (pages': seq<nat>)
      requires w < watch.Length == dirty.Length == |was| && watch != dirty && DrainedTo(was, dirty[..], pages, w)
      requires Represents(watch[..], watched) && Represents(was, dirtied) && dirtied <= watched && ScanList(watch[..], words)
      modifies dirty
      ensures DrainedTo(was, dirty[..], pages', w + 1)
    {
      hide Represents;
      hide ScanList;
      hide DrainedTo;
      ghost var now := dirty[..];
      Untouched(was, now, pages, w);
      if w in words {
        var bits := dirty[w];
        dirty[w] := ZERO;
        var found := ScanWord(w, bits);
        DrainWord(was, now, dirty[..], pages, found, w);
        pages' := pages + found;
      } else {
        OffScanList(watch[..], was, words, watched, dirtied, w);
        DrainWord(was, now, now, pages, [], w);
        assert pages + [] == pages;
        pages' := pages;
      }
    }
  }

  // ---- Ranges ----

  predicate WholePages(r: Span) { r.start % PAGE == 0 && r.len % PAGE == 0 && 0 < r.len }

  predicate Holds(r: Span, page: nat) { r.start <= page * PAGE < r.start + r.len }

  predicate SomeHolds(ranges: seq<Span>, page: nat) {
    exists i | 0 <= i < |ranges| :: Holds(ranges[i], page)
  }

  /** Whole pages, ascending, with a gap between any two: disjoint, and none can be merged with another. */
  predicate Coalesced(ranges: seq<Span>) {
    && (forall i | 0 <= i < |ranges| :: WholePages(ranges[i]))
    && forall i, j | 0 <= i < j < |ranges| :: ranges[i].start + ranges[i].len < ranges[j].start
  }

  /** The ranges cover exactly the pages seen, and end with the last of them. */
  ghost predicate CoversSeen(ranges: seq<Span>, pages: seq<nat>) {
    && Coalesced(ranges)
    && (forall p: nat :: SomeHolds(ranges, p) <==> p in pages)
    && (ranges == [] <==> pages == [])
    && (pages != [] ==>
          var last := ranges[|ranges| - 1]; last.start + last.len == pages[|pages| - 1] * PAGE + PAGE)
  }

  lemma ExtendLast(ranges: seq<Span>, pages: seq<nat>, p: nat)
    requires CoversSeen(ranges, pages) && pages != []
    requires var last := ranges[|ranges| - 1]; p * PAGE == last.start + last.len
    ensures var k := |ranges| - 1; CoversSeen(ranges[k := ranges[k].(len := ranges[k].len + PAGE)], pages + [p])
  {
    var k := |ranges| - 1;
    var out := ranges[k := ranges[k].(len := ranges[k].len + PAGE)];
    forall q: nat
      ensures SomeHolds(out, q) <==> q in pages + [p]
    {
      HoldsExtended(ranges[k], p, q);
      if SomeHolds(ranges, q) {
        var i :| 0 <= i < |ranges| && Holds(ranges[i], q);
        assert Holds(out[i], q);
      }
      if SomeHolds(out, q) {
        var i :| 0 <= i < |out| && Holds(out[i], q);
        assert i < k ==> Holds(ranges[i], q);
        assert i == k && q != p ==> Holds(ranges[k], q);
      }
      assert q == p ==> Holds(out[k], q);
    }
  }

  lemma HoldsExtended(r: Span, p: nat, q: nat)
    requires p * PAGE == r.start + r.len
    ensures Holds(r.(len := r.len + PAGE), q) <==> Holds(r, q) || q == p
  {
  }

  lemma AppendRange(ranges: seq<Span>, pages: seq<nat>, p: nat)
    requires CoversSeen(ranges, pages)
    requires pages != [] ==> var last := ranges[|ranges| - 1]; last.start + last.len < p * PAGE
    ensures CoversSeen(ranges + [Span(p * PAGE, PAGE)], pages + [p])
  {
    var r := Span(p * PAGE, PAGE);
    var out := ranges + [r];
    forall q: nat
      ensures SomeHolds(out, q) <==> q in pages + [p]
    {
      assert Holds(r, q) <==> q == p;
      if SomeHolds(ranges, q) {
        var i :| 0 <= i < |ranges| && Holds(ranges[i], q);
        assert Holds(out[i], q);
      }
      if SomeHolds(out, q) {
        var i :| 0 <= i < |out| && Holds(out[i], q);
        assert i < |ranges| ==> Holds(ranges[i], q);
      }
      assert q == p ==> Holds(out[|ranges|], q);
    }
  }

  /** Merge runs of consecutive pages into ranges. */
  method Coalesce(pages: seq<nat>) returns (out: seq<Span>)
    requires Ascending(pages)
    ensures Coalesced(out)
    ensures forall p: nat :: SomeHolds(out, p) <==> p in pages
  {
    hide SomeHolds;
    hide Coalesced;
    out := [];
    assert CoversSeen(out, pages[..0]) by { NothingSeen(); }
    for k := 0 to |pages|
      invariant CoversSeen(out, pages[..k])
    {
      var p := pages[k];
      var start, n := p * PAGE, |out|;
      assert pages[..k + 1] == pages[..k] + [p];
      assert k != 0 ==> pages[..k][k - 1] < p;
      if n != 0 && start == out[n - 1].start + out[n - 1].len {
        ExtendLast(out, pages[..k], p);
        out := out[n - 1 := out[n - 1].(len := out[n - 1].len + PAGE)];
      } else {
        AppendRange(out, pages[..k], p);
        out := out + [Span(start, PAGE)];
      }
    }
    assert pages[..|pages|] == pages;
  }

  lemma NothingSeen()
    ensures CoversSeen([], [])
  {
  }

  lemma Untouched(was: seq<Word>, now: seq<Word>, pages: seq<nat>, w: nat)
    requires w < |was| == |now| && DrainedTo(was, now, pages, w)
    ensures now[w] == was[w]
  {
  }

  lemma DrainedAll(was: seq<Word>, now: seq<Word>, pages: seq<nat>)
    requires |was| == |now| && DrainedTo(was, now, pages, |was|)
    ensures Represents(now, {})
    ensures forall p: nat :: p in pages <==> Bit(was, p)
  {
  }

  /** What a drain has done once it has passed word `w`. */
  ghost predicate DrainedTo(was: seq<Word>, now: seq<Word>, pages: seq<nat>, w: nat)
    requires w <= |was| == |now|
  {
    && Ascending(pages)
    && (forall p: nat :: p in pages <==> p < 64 * w && Bit(was, p))
    && (forall i | 0 <= i < w :: IsZero(now[i]))
    && (forall i | w <= i < |was| :: now[i] == was[i])
  }

  lemma DrainWord(was: seq<Word>, now: seq<Word>, now': seq<Word>, pages: seq<nat>, found: seq<nat>, w: nat)
    requires w < |was| == |now| == |now'| && DrainedTo(was, now, pages, w)
    requires now' == now[w := now'[w]] && IsZero(now'[w]) && Ascending(found)
    requires forall p: nat :: p in found <==> p / 64 == w && was[w][p % 64]
    ensures DrainedTo(was, now', pages + found, w + 1)
  {
    ConcatAscends(pages, found, 64 * w);
    forall p: nat
      ensures p in pages + found <==> p < 64 * (w + 1) && Bit(was, p)
    {
      assert p / 64 == w ==> (Bit(was, p) <==> was[w][p % 64]);
    }
  }

  /** `found` are the pages of the set bits of word `w` below bit `low`. */
  ghost predicate FoundBelow(found: seq<nat>, w: nat, bits: Word, low: nat) {
    forall p: nat :: p in found <==> p / 64 == w && p % 64 < low && bits[p % 64]
  }

  lemma FoundNext(found: seq<nat>, w: nat, bits: Word, low: nat, t: nat)
    requires FoundBelow(found, w, bits, low) && low <= t < 64 && bits[t] && forall i | low <= i < t :: !bits[i]
    ensures FoundBelow(found + [64 * w + t], w, bits, t + 1)
    ensures forall p | p in found :: p < 64 * w + t
  {
    var q: nat := 64 * w + t;
    assert q / 64 == w && q % 64 == t;
    forall p: nat
      ensures p in found + [q] <==> p / 64 == w && p % 64 < t + 1 && bits[p % 64]
    {
      assert p == 64 * (p / 64) + p % 64;
    }
  }

  /** The pages of a word's set bits, lowest first. */
  method ScanWord(w: nat, bits: Word) returns (found: seq<nat>)
    ensures Ascending(found)
    ensures forall p: nat :: p in found <==> p / 64 == w && bits[p % 64]
  {
    found := [];
    var rest, low := bits, 0;
    while !IsZero(rest)
      invariant low <= 64 && Ascending(found) && FoundBelow(found, w, bits, low)
      invariant forall i | 0 <= i < 64 :: rest[i] == (low <= i && bits[i])
      decreases 64 - low
    {
      hide FoundBelow;
      var t := TrailingZeros(rest);
      AndMinus1ClearsLowest(rest);
      assert forall i | low <= i < t :: !bits[i] by { assert forall i | low <= i < t :: rest[i] == bits[i]; }
      FoundNext(found, w, bits, low, t);
      AppendAscends(found, 64 * w + t);
      found := found + [64 * w + t];
      rest := And(rest, Minus1(rest));
      low := t + 1;
    }
  }

  lemma BeyondTable(table: seq<Word>, pages: set<nat>, page: nat)
    requires Represents(table, pages) && |table| <= page / 64
    ensures page !in pages
  {
    BitAt(table, page);
  }
}
