/** The dirty-page bitmap of `snapshot.c`. A 64-bit word stands for the set of its bit positions. */
module DirtyPages {
  import opened Bytes

  const PAGE_SIZE := 4096
  const MAX_PAGES := 256
  const WORDS := 4

  type Word = set<nat>

  function Wrap(n: int): u32 {
    n % 0x1_0000_0000
  }

  function PageCount(memorySize: nat): (n: nat)
    ensures n <= MAX_PAGES && (memorySize > 0 ==> n > 0)
  {
    var n := (memorySize + PAGE_SIZE - 1) / PAGE_SIZE;
    if n > MAX_PAGES then MAX_PAGES else n
  }

  /** The last page of the range, as the code computes it in 32 bits and then clamps it. */
  function LastPage(addr: u32, size: u32, pageCount: nat): u32 {
    var last := Wrap(addr + size - 1) / PAGE_SIZE;
    if last >= pageCount then Wrap(pageCount - 1) else last
  }

  predicate Between(p: nat, low: nat, high: nat) {
    low <= p <= high
  }

  /** The pages a range of bytes marks. */
  ghost function PagesOf(addr: u32, size: u32, pageCount: nat): set<nat> {
    set p: nat | p < MAX_PAGES && Between(p, addr / PAGE_SIZE, LastPage(addr, size, pageCount))
  }

  /** The pages below `n` that are in `dirty`, in ascending order. */
  function Listed(dirty: set<nat>, n: nat): (pages: seq<nat>)
    ensures |pages| <= n && forall i :: 0 <= i < |pages| ==> pages[i] < n
  {
    if n == 0 then []
    else if n - 1 in dirty then Listed(dirty, n - 1) + [n - 1]
    else Listed(dirty, n - 1)
  }

  lemma {:induction false} ListedExactly(dirty: set<nat>, n: nat)
    ensures var pages := Listed(dirty, n);
            && (forall p: nat :: p in pages <==> p < n && p in dirty)
            && (forall i, j :: 0 <= i < j < |pages| ==> pages[i] < pages[j])
  {
    if n > 0 { ListedExactly(dirty, n - 1); }
  }

  /** A range inside memory marks exactly the pages its bytes lie in. */
  lemma MarksItsBytes(addr: u32, size: u32, memorySize: nat, p: nat)
    requires size > 0 && addr + size <= memorySize <= PAGE_SIZE * MAX_PAGES
    ensures p in PagesOf(addr, size, PageCount(memorySize)) <==> exists a: nat :: addr <= a < addr + size && a / PAGE_SIZE == p
  {
    var last := addr + size - 1;
    assert Wrap(last) == last && last / PAGE_SIZE < PageCount(memorySize);
    if p in PagesOf(addr, size, PageCount(memorySize)) {
      var a: nat := if addr / PAGE_SIZE == p then addr else p * PAGE_SIZE;
      PageStart(p);
      assert addr <= a <= last && a / PAGE_SIZE == p;
    } else if a: nat :| addr <= a < addr + size && a / PAGE_SIZE == p {
      assert addr / PAGE_SIZE <= a / PAGE_SIZE <= last / PAGE_SIZE;
      assert Between(p, addr / PAGE_SIZE, LastPage(addr, size, PageCount(memorySize)));
    }
  }

  lemma PageStart(p: nat)
    ensures p * PAGE_SIZE / PAGE_SIZE == p
  {
  }

  /** An empty range at address 0 is taken for the whole memory. */
  lemma EmptyMarksAll(memorySize: nat, p: nat)
    requires 0 < memorySize <= PAGE_SIZE * MAX_PAGES
    ensures p in PagesOf(0, 0, PageCount(memorySize)) <==> p < PageCount(memorySize)
  {
    assert Wrap(-1) / PAGE_SIZE >= MAX_PAGES;
    assert LastPage(0, 0, PageCount(memorySize)) == PageCount(memorySize) - 1;
    assert Between(p, 0, PageCount(memorySize) - 1) <==> p < PageCount(memorySize);
  }

  /** An empty range inside a page marks that page, one at the start of a later page marks none. */
  lemma EmptyMarks(addr: u32, memorySize: nat)
    requires 0 < addr <= memorySize <= PAGE_SIZE * MAX_PAGES
    ensures PagesOf(addr, 0, PageCount(memorySize)) == if addr % PAGE_SIZE == 0 then {} else {addr / PAGE_SIZE}
  {
    var n := PageCount(memorySize);
    assert Wrap(addr - 1) == addr - 1 && (addr - 1) / PAGE_SIZE < n;
    assert LastPage(addr, 0, n) == (addr - 1) / PAGE_SIZE;
    assert PAGE_SIZE * (addr / PAGE_SIZE) + addr % PAGE_SIZE == addr;
  }

  /** The pages the bytes of a range lie in. */
  ghost predicate Covers(addr: u32, size: u32, p: nat) {
    exists a: nat :: addr <= a < addr + size && a / PAGE_SIZE == p
  }

  /** A range in memory marks exactly the pages of its bytes, unless it is empty and begins anywhere
      but at a page behind the first: then it marks some page although it has no bytes. */
  lemma MarksExactly(addr: u32, size: u32, memorySize: nat)
    requires addr + size <= memorySize <= PAGE_SIZE * MAX_PAGES
    ensures (forall p: nat :: p in PagesOf(addr, size, PageCount(memorySize)) <==> Covers(addr, size, p))
            <==> size > 0 || (addr > 0 && addr % PAGE_SIZE == 0)
  {
    if size > 0 {
      forall p: nat ensures p in PagesOf(addr, size, PageCount(memorySize)) <==> Covers(addr, size, p) {
        MarksItsBytes(addr, size, memorySize, p);
      }
    } else {
      assert forall p: nat :: !Covers(addr, 0, p);
      if addr > 0 {
        EmptyMarks(addr, memorySize);
        assert addr % PAGE_SIZE != 0 ==> addr / PAGE_SIZE in PagesOf(addr, 0, PageCount(memorySize));
      } else {
        assert Between(0, 0, LastPage(0, 0, PageCount(memorySize)));
        assert 0 in PagesOf(0, 0, PageCount(memorySize));
      }
    }
  }

  class Tracker {
    const bitmap: array<Word>
    var pageCount: nat

    ghost predicate Valid()
      reads this
    {
      bitmap.Length == WORDS && pageCount <= MAX_PAGES
    }

    ghost function Dirty(): set<nat>
      requires Valid()
      reads this, bitmap
    {
      set p: nat | p < MAX_PAGES && p % 64 in bitmap[p / 64]
    }

    /** `hs_dirty_init`. */
    constructor (memorySize: nat)
      ensures Valid() && fresh(bitmap) && Dirty() == {} && pageCount == PageCount(memorySize)
    {
      bitmap := new Word[WORDS](_ => {});
      pageCount := PageCount(memorySize);
    }

    /** `hs_dirty_mark`. */
    method Mark(addr: u32, size: u32)
      requires Valid()
      modifies bitmap
      ensures Dirty() == old(Dirty()) + PagesOf(addr, size, pageCount)
    {
      var start, end := addr / PAGE_SIZE, LastPage(addr, size, pageCount);
      ghost var before := Dirty();
      var p := start;
      while p <= end
        invariant start <= p && (p <= end + 1 || p == start)
        invariant forall q: nat | q < MAX_PAGES :: q % 64 in bitmap[q / 64] <==> q in before || start <= q < p
        decreases end - p
      {
        if p / 64 < WORDS {
          bitmap[p / 64] := bitmap[p / 64] + {p % 64};
        }
        p := p + 1;
      }
    }

    /** `hs_dirty_clear`. */
    method Clear()
      requires Valid()
      modifies bitmap
      ensures Dirty() == {}
    {
      forall i | 0 <= i < WORDS {
        bitmap[i] := {};
      }
    }

    /** `hs_dirty_is_page_dirty`. */
    method IsDirty(page: nat) returns (d: bool)
      requires Valid()
      ensures d <==> page in Dirty()
    {
      if page / 64 >= WORDS { return false; }
      return page % 64 in bitmap[page / 64];
    }

    /** `hs_dirty_get_pages`, with room for every page. */
    method GetPages() returns (pages: seq<nat>)
      requires Valid()
      ensures pages == Listed(Dirty(), pageCount)
    {
      pages := [];
      for p := 0 to pageCount
        invariant pages == Listed(Dirty(), p)
      {
        var d := IsDirty(p);
        if d && |pages| < MAX_PAGES { pages := pages + [p]; }
      }
    }
  }

  /** `snapshot_add_page`: false only when the page is new and the list is full. */
  method AddPage(pages: seq<nat>, max: nat, page: nat) returns (ok: bool, more: seq<nat>)
    ensures ok <==> page in pages || |pages| < max
    ensures more == if !ok || page in pages then pages else pages + [page]
  {
    for i := 0 to |pages|
      invariant page !in pages[..i]
    {
      if pages[i] == page { return true, pages; }
    }
    if |pages| >= max { return false, pages; }
    return true, pages + [page];
  }
}
