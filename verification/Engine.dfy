/** Guest memory, the translation cache and the backend: the objects a virtual machine shares with its vcpus. */
module Engine {
  import opened Pages
  import opened CodeState

  // ---- Guest memory: bytes, code-page tags and the dirty list ----

  class Memory {
    var bytes: Bytes
    var tagged: set<nat>
    var dirty: seq<nat>
    var dirtyFlag: bool

    constructor (contents: Bytes)
      ensures bytes == contents && tagged == {} && dirty == [] && !dirtyFlag
    {
      bytes, tagged, dirty, dirtyFlag := contents, {}, [], false;
    }

    /** Record the code pages of a store as dirty. */
    method NoteWrite(addr: nat, len: nat)
      requires dirty != [] ==> dirtyFlag
      modifies this`dirty, this`dirtyFlag
      ensures old(dirty) <= dirty && (dirty != [] ==> dirtyFlag)
      ensures forall p | p in PageRange(addr, len) && p in tagged :: p in dirty
      ensures forall p | p in dirty[|old(dirty)|..] :: p in PageRange(addr, len) && p in tagged
    {
      var page, last := Page(addr), Page(LastByte(addr, len));
      while page <= last
        invariant Page(addr) <= page
        invariant old(dirty) <= dirty && (dirty != [] ==> dirtyFlag)
        invariant forall p | p in PageRange(addr, len) && p in tagged && p < page :: p in dirty
        invariant forall p | p in dirty[|old(dirty)|..] :: p in PageRange(addr, len) && p in tagged
      {
        if page in tagged {
          assert Within(Page(addr), page, last);
          dirty := dirty + [page];
          dirtyFlag := true;
        }
        page := page + 1;
      }
    }

    /** A guest or embedder store. A byte outside guest memory refuses the whole store. */
    method Store(addr: nat, data: seq<int>) returns (ok: bool)
      requires dirty != [] ==> dirtyFlag
      modifies this`bytes, this`dirty, this`dirtyFlag
      ensures ok <==> forall a | addr <= a < addr + |data| :: a in old(bytes)
      ensures bytes.Keys == old(bytes.Keys) && old(dirty) <= dirty && (dirty != [] ==> dirtyFlag)
      ensures forall a | a in bytes ::
                bytes[a] == if ok && addr <= a < addr + |data| then data[a - addr] else old(bytes[a])
      ensures ok ==> forall p | p in PageRange(addr, |data|) && p in tagged :: p in dirty
      ensures !ok ==> bytes == old(bytes) && dirty == old(dirty) && dirtyFlag == old(dirtyFlag)
    {
      ok := forall a | addr <= a < addr + |data| :: a in bytes;
      if ok {
        bytes := map a | a in bytes :: if addr <= a < addr + |data| then data[a - addr] else bytes[a];
        NoteWrite(addr, |data|);
      }
    }

    /** Drain the pages written since the last call. */
    method TakeDirtyCode() returns (pages: seq<nat>)
      modifies this`dirty, this`dirtyFlag
      ensures old(dirtyFlag) ==> pages == old(dirty) && dirty == []
      ensures !old(dirtyFlag) ==> pages == [] && dirty == old(dirty)
      ensures !dirtyFlag
    {
      if !dirtyFlag {
        return [];
      }
      dirtyFlag := false;
      pages := dirty;
      dirty := [];
    }

    method MarkCode(spans: seq<Span>)
      modifies this`tagged
      ensures tagged == old(tagged) + PagesOf(spans)
    {
      for i := 0 to |spans|
        invariant tagged == old(tagged) + PagesOf(spans[..i])
      {
        PagesOfNext(spans, i);
        tagged := tagged + PageRange(spans[i].start, spans[i].len);
      }
      assert spans[..|spans|] == spans;
    }

    /** Clear the tag of every page from that of `lo` to that of the byte before `hi`. */
    method ClearCodePages(lo: nat, hi: nat)
      requires lo <= hi
      modifies this`tagged
      ensures tagged == old(tagged) - ClearedPages(lo, hi)
    {
      var page, last := Page(lo), Page(ByteBefore(hi));
      while page <= last
        invariant Page(lo) <= page
        invariant forall p: nat :: p in tagged <==> p in old(tagged) && !(Within(Page(lo), p, last) && p < page)
      {
        tagged := tagged - {page};
        page := page + 1;
      }
    }

    /** Drop the bytes of `[lo, hi)` from guest memory. */
    method Unmap(lo: nat, hi: nat)
      modifies this`bytes
      ensures bytes == map a | a in old(bytes) && !(lo <= a < hi) :: old(bytes)[a]
    {
      bytes := map a | a in bytes && !(lo <= a < hi) :: bytes[a];
    }
  }

  lemma PagesOfNext(spans: seq<Span>, i: nat)
    requires i < |spans|
    ensures PagesOf(spans[..i + 1]) == PagesOf(spans[..i]) + PageRange(spans[i].start, spans[i].len)
  {
    var s, t := spans[..i], spans[..i + 1];
    assert t[i] == spans[i];
    forall p | p in PagesOf(s)
      ensures p in PagesOf(t)
    {
      var j :| 0 <= j < |s| && p in PageRange(s[j].start, s[j].len);
      assert t[j] == s[j];
    }
  }

  // ---- The translation cache ----

  class TranslationCache {
    var blocks: map<nat, Cached>
    var spans: map<nat, seq<Span>>
    var epoch: nat
    var hotness: map<nat, nat>
    var tierPending: set<nat>

    constructor ()
      ensures blocks == map[] && spans == map[] && epoch == 0
    {
      blocks, spans, epoch, hotness, tierPending := map[], map[], 0, map[], {};
    }

    method BumpHotness(key: nat) returns (count: nat)
      modifies this`hotness
      ensures count == (if key in old(hotness) then old(hotness)[key] else 0) + 1
      ensures hotness == old(hotness)[key := count]
    {
      count := (if key in hotness then hotness[key] else 0) + 1;
      hotness := hotness[key := count];
    }

    /** Cache a unit and tag its pages, as one step. */
    method Insert(block: Cached, mem: Memory)
      modifies this`blocks, this`spans, mem`tagged
      ensures blocks == old(blocks)[block.unit.key := block]
      ensures spans == old(spans)[block.unit.key := block.unit.spans]
      ensures mem.tagged == old(mem.tagged) + PagesOf(block.unit.spans)
    {
      mem.MarkCode(block.unit.spans);
      blocks := blocks[block.unit.key := block];
      spans := spans[block.unit.key := block.unit.spans];
    }

    /** Swap in a compiled unit, unless a unit was dropped since `since`. */
    method Upgrade(block: Cached, since: nat) returns (ok: bool)
      modifies this`blocks, this`spans, this`hotness
      ensures ok <==> epoch == since
      ensures blocks == if ok then old(blocks)[block.unit.key := block] else old(blocks)
      ensures spans == if ok then old(spans)[block.unit.key := block.unit.spans] else old(spans)
      ensures hotness == if ok then old(hotness) - {block.unit.key} else old(hotness)
    {
      if epoch != since {
        return false;
      }
      spans := spans[block.unit.key := block.unit.spans];
      blocks := blocks[block.unit.key := block];
      hotness := hotness - {block.unit.key};
      ok := true;
    }

    /** As `Upgrade`, re-tagging the pages of every span. */
    method UpgradeRegion(block: Cached, since: nat, mem: Memory) returns (ok: bool)
      modifies this`blocks, this`spans, this`hotness, mem`tagged
      ensures ok <==> epoch == since
      ensures blocks == if ok then old(blocks)[block.unit.key := block] else old(blocks)
      ensures spans == if ok then old(spans)[block.unit.key := block.unit.spans] else old(spans)
      ensures hotness == if ok then old(hotness) - {block.unit.key} else old(hotness)
      ensures mem.tagged == if ok then old(mem.tagged) + PagesOf(block.unit.spans) else old(mem.tagged)
    {
      if epoch != since {
        return false;
      }
      mem.MarkCode(block.unit.spans);
      blocks := blocks[block.unit.key := block];
      spans := spans[block.unit.key := block.unit.spans];
      hotness := hotness - {block.unit.key};
      ok := true;
    }

    /** Drop every unit overlapping `[lo, hi)`, clear the tags of its pages, and move the epoch if anything was dropped. */
    method InvalidateOverlapping(lo: nat, hi: nat, mem: Memory) returns (victims: set<nat>)
      requires lo <= hi
      modifies this, mem`tagged
      ensures victims == Victims(old(spans), lo, hi)
      ensures blocks == old(blocks) - victims && spans == old(spans) - victims
      ensures hotness == old(hotness) - victims && tierPending == old(tierPending) - victims
      ensures mem.tagged == old(mem.tagged) - ClearedPages(lo, hi)
      ensures epoch == if victims == {} then old(epoch) else old(epoch) + 1
    {
      victims := Victims(spans, lo, hi);
      if victims != {} {
        spans := spans - victims;
        blocks := blocks - victims;
        hotness := hotness - victims;
        tierPending := tierPending - victims;
      }
      mem.ClearCodePages(lo, hi);
      if victims != {} {
        epoch := epoch + 1;
      }
    }
  }

  /** Compiled code's chaining slots, and the background compiler's queue. */
  class Backend {
    var links: map<Slot, Unit>
    var queue: seq<Request>

    constructor ()
      ensures links == map[] && queue == []
    {
      links, queue := map[], [];
    }

    /** Fill a slot, unless a unit was dropped since its target was resolved. */
    method PublishIfCurrent(cache: TranslationCache, since: nat, slot: Slot, unit: Unit) returns (ok: bool)
      modifies this`links
      ensures ok <==> cache.epoch == since
      ensures links == if ok then old(links)[slot := unit] else old(links)
    {
      if cache.epoch != since {
        return false;
      }
      links := links[slot := unit];
      ok := true;
    }

    method InvalidateLinks()
      modifies this`links
      ensures links == map[]
    {
      links := map[];
    }
  }
}
