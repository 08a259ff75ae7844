/** Guest pages of 4 KiB, the granularity of code tags and of watched data. */
module Pages {
  const PAGE: nat := 4096

  function Page(a: nat): nat { a / PAGE }

  /** Guest bytes `[start, start + len)`. */
  datatype Span = Span(start: nat, len: nat)

  predicate Within(lo: nat, p: nat, hi: nat) { lo <= p <= hi }

  function LastByte(addr: nat, len: nat): nat { addr + (if len == 0 then 0 else len - 1) }

  /** The pages a store or a span touches; an empty one counts as one byte. */
  function PageRange(addr: nat, len: nat): (pages: set<nat>)
    ensures forall p: nat :: p in pages <==> Within(Page(addr), p, Page(LastByte(addr, len)))
  {
    var lo, hi := Page(addr), Page(LastByte(addr, len));
    set p: nat | lo <= p <= hi && Within(lo, p, hi)
  }

  /** `end - 1`, staying at zero. */
  function ByteBefore(end: nat): nat { if end == 0 then 0 else end - 1 }

  /**
   The pages whose tags go when `[lo, hi)` is invalidated. An empty range still has the page around `lo`, unless
   `lo` is the start of a page other than the first.
   */
  function ClearedPages(lo: nat, hi: nat): (pages: set<nat>)
    requires lo <= hi
    ensures forall p: nat :: p in pages <==> Within(Page(lo), p, Page(ByteBefore(hi)))
  {
    var first, last := Page(lo), Page(ByteBefore(hi));
    set p: nat | first <= p <= last && Within(first, p, last)
  }

  lemma InPageRange(addr: nat, len: nat, a: nat)
    requires addr <= a < addr + len
    ensures Page(a) in PageRange(addr, len)
  {
    assert Within(Page(addr), Page(a), Page(LastByte(addr, len)));
  }
}
