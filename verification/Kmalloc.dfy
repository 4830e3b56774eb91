/** Cache geometry, size classes and the dispatch of kmalloc and kfree (mm/slab.c). */
module Kmalloc {
  import opened Arithmetic
  import opened BlockGeometry
  import Buddy
  import opened Options
  import PageAllocator
  import opened SlabRuns
  import opened Words

  const SLAB_MIN_ALIGN: nat := 8
  const SLAB_MAX_SIZE: nat := 2048

  const SIZE_TYPES: seq<nat> := [8, 16, 32, 48, 64, 96, 128, 192, 256, 384, 512, 768, 1024, 1536, 2048]

  ghost predicate IsPowerOfTwo(x: nat) {
    exists k: nat :: x == Pow2(k)
  }

  /**
   * The alignment of a cache: 0 stands for the least one. The source rounds up with a mask, which is
   * AlignUp for powers of two.
   */
  function CacheAlign(align: nat): nat {
    AlignUp(if align != 0 then align else SLAB_MIN_ALIGN, SLAB_MIN_ALIGN)
  }

  /**
   * The layout kmem_cache_create computes for slabs of one page: objects behind the slab header, as many as
   * fit. header is the size of `struct slab`, word that of `struct free_obj`.
   */
  function CacheGeometry(page: nat, header: nat, word: nat, size: nat, align: nat): (r: Option<Geometry>)
    requires 0 < header && 0 < word && (align == 0 || IsPowerOfTwo(align))
    ensures r.Some? ==> r.value.Valid() && r.value.page == page && header <= r.value.offset
    ensures r.Some? ==> size <= r.value.size && word <= r.value.size
    ensures r.Some? ==> page < r.value.offset + (r.value.count + 1) * r.value.size
    ensures r.None? <==>
            page < AlignUp(header, CacheAlign(align)) + AlignUp(if size < word then word else size, CacheAlign(align))
  {
    Rounded(if align != 0 then align else SLAB_MIN_ALIGN, SLAB_MIN_ALIGN);
    var a := CacheAlign(align);
    Rounded(header, a);
    Rounded(if size < word then word else size, a);
    var offset := AlignUp(header, a);
    var objectSize := AlignUp(if size < word then word else size, a);
    if offset >= page then None
    else
      FitCount(page - offset, objectSize);
      var count := (page - offset) / objectSize;
      if count == 0 then None else Some(Geometry(page, offset, objectSize, count))
  }

  /** The least multiple of 8 that is not below the alignment asked for, 8 for 0. */
  lemma CacheAlignIs(align: nat)
    ensures
      var a := CacheAlign(align);
      a % 8 == 0 && (if align == 0 then a == 8 else align <= a < align + 8)
  {
    hide AlignUp, AlignDown;
    AlignFacts(if align != 0 then align else SLAB_MIN_ALIGN, SLAB_MIN_ALIGN);
    if align == 0 {
      Multiple(8, AlignUp(SLAB_MIN_ALIGN, SLAB_MIN_ALIGN));
    }
  }

  lemma Multiple(d: nat, x: int)
    requires d > 0 && x % d == 0 && d <= x < 2 * d
    ensures x == d
  {
    MultipleMod(1, d);
    if d < x {
      MultiplesApart(d, x, d);
    }
  }

  /** No byte is given away: objects begin at the first boundary behind the header, and each ends at the next one. */
  lemma GeometryTight(page: nat, header: nat, word: nat, size: nat, align: nat)
    requires 0 < header && 0 < word && (align == 0 || IsPowerOfTwo(align))
    requires CacheGeometry(page, header, word, size, align).Some?
    ensures
      var g, a := CacheGeometry(page, header, word, size, align).value, CacheAlign(align);
      && 0 < a && g.offset % a == 0 && g.offset < header + a
      && g.size % a == 0 && g.size < (if size < word then word else size) + a
  {
    hide AlignUp, AlignDown;
    CacheAlignIs(align);
    Rounded(header, CacheAlign(align));
    Rounded(if size < word then word else size, CacheAlign(align));
  }

  lemma Rounded(x: nat, d: nat)
    requires x > 0 && d > 0
    ensures 0 < x <= AlignUp(x, d) < x + d && AlignUp(x, d) % d == 0
  {
    AlignFacts(x, d);
  }

  lemma FitCount(room: nat, size: nat)
    requires size > 0
    ensures room / size >= 0 && (room / size) * size <= room < (room / size + 1) * size
    ensures room / size == 0 <==> room < size
  {
    var q := room / size;
    assert room == q * size + room % size;
    MulDistribute(q, 1, size);
    if q < 0 {
      MulOrder(q + 1, 0, size);
    }
    if q > 0 {
      MulAtLeast(q, size);
    }
  }

  /** Every object of a cache lies at a multiple of its alignment. */
  lemma ObjectsAligned(page: nat, header: nat, word: nat, size: nat, align: nat, b: nat, i: nat)
    requires 0 < header && 0 < word && (align == 0 || IsPowerOfTwo(align))
    requires CacheGeometry(page, header, word, size, align).Some?
    requires CacheAlign(align) > 0 && page % CacheAlign(align) == 0 && page > 0 && b % page == 0
    ensures CacheGeometry(page, header, word, size, align).value.Slot(b, i) % CacheAlign(align) == 0
    ensures align <= CacheAlign(align) && (align != 0 && align % SLAB_MIN_ALIGN == 0 ==> CacheAlign(align) == align)
  {
    hide AlignUp, AlignDown;
    var a := CacheAlign(align);
    var g := CacheGeometry(page, header, word, size, align).value;
    AlignFacts(header, a);
    AlignFacts(if size < word then word else size, a);
    ModTransitive(b, page, a);
    MultipleMod(i, g.size);
    ModTransitive(i * g.size, g.size, a);
    ModAdd(b, g.offset, a);
    ModAdd(b + g.offset, i * g.size, a);
    AlignFacts(if align != 0 then align else SLAB_MIN_ALIGN, SLAB_MIN_ALIGN);
    if align != 0 && align % SLAB_MIN_ALIGN == 0 && align < CacheAlign(align) {
      MultiplesApart(align, CacheAlign(align), SLAB_MIN_ALIGN);
    }
  }

  /** size_to_index: the least size class that holds the request. */
  method SizeToIndex(size: nat) returns (r: Option<nat>)
    ensures r.Some? <==> size <= SLAB_MAX_SIZE
    ensures r.Some? ==> r.value < |SIZE_TYPES| && size <= SIZE_TYPES[r.value]
    ensures r.Some? ==> forall i :: 0 <= i < r.value ==> SIZE_TYPES[i] < size
  {
    if size == 0 {
      return Some(0);
    }
    AlignFacts(size, SLAB_MIN_ALIGN);
    var rounded := AlignUp(size, SLAB_MIN_ALIGN);
    var i := 0;
    while i < |SIZE_TYPES|
      invariant 0 <= i <= |SIZE_TYPES|
      invariant forall k :: 0 <= k < i ==> SIZE_TYPES[k] < size
    {
      ClassAligned(i);
      if SIZE_TYPES[i] < rounded && size <= SIZE_TYPES[i] {
        MultiplesApart(SIZE_TYPES[i], rounded, SLAB_MIN_ALIGN);
      }
      if rounded <= SIZE_TYPES[i] {
        LargestClass(i);
        return Some(i);
      }
      i := i + 1;
    }
    assert SIZE_TYPES[14] < size;
    return None;
  }

  lemma ClassAligned(i: nat)
    requires i < |SIZE_TYPES|
    ensures SIZE_TYPES[i] % SLAB_MIN_ALIGN == 0
  {
  }

  lemma LargestClass(i: nat)
    requires i < |SIZE_TYPES|
    ensures SIZE_TYPES[i] <= SLAB_MAX_SIZE
  {
  }

  /** __kfree sends a pointer to the page allocator only if it is page-aligned and its page is marked for no slab. */
  predicate FreedAsPages(page: nat, ptr: nat, slab: bool)
    requires page > 0
  {
    ptr % page == 0 && !slab
  }

  /** An object of a slab is never page-aligned, so it never goes there, whatever its page is marked for. */
  lemma SlotsNotPages(g: Geometry, b: nat, ptr: nat, slab: bool)
    requires g.Valid() && b % g.page == 0 && g.IsSlot(b, ptr)
    ensures g.page > 0 && !FreedAsPages(g.page, ptr, slab)
  {
    var i: nat :| i < g.count && ptr == g.Slot(b, i);
    SlotFits(g, b, i);
    ModOffset(b, ptr - b, g.page);
  }

  /** The pages __kmalloc asks for, in 64-bit arithmetic. */
  function PagesFor(size: nat, page: nat): (n: nat)
    requires page > 0
    ensures 0 <= n
  {
    ModBelow(size + page - 1, 0x1_0000_0000_0000_0000);
    ModBelow((size + page - 1) % 0x1_0000_0000_0000_0000, page);
    (size + page - 1) % 0x1_0000_0000_0000_0000 / page
  }

  lemma RoundedUp(size: nat, page: nat, k: nat)
    requires page > 0
    ensures (size + page - 1) / page <= k <==> size <= k * page
  {
    var q := (size + page - 1) / page;
    ModBelow(size + page - 1, page);
    MulDistribute(q, 1, page);
    if q <= k {
      MulOrder(q, k, page);
    } else {
      MulOrder(k + 1, q, page);
      MulDistribute(k, 1, page);
    }
  }

  /** The block of a large request holds it exactly if it is at most 2^31 pages; beyond, it may be one page. */
  lemma LargeFits(size: nat, page: nat)
    requires 0 < page <= 0x1_0000_0000 && size < 0x1_0000_0000_0000_0000
    ensures
      var order := KvaOrder(PagesFor(size, page));
      && (size <= Pow2(order) * page <==> size <= 0x8000_0000 * page)
      && (order > 0 ==> Pow2(order - 1) * page < size)
  {
    hide KvaOrder, Pow2;
    var n := PagesFor(size, page);
    BlockHolds(n);
    MulOrder(page, 0x1_0000_0000, 0x8000_0000);
    if size + page - 1 < 0x1_0000_0000_0000_0000 {
      DivModUnique(size + page - 1, 0x1_0000_0000_0000_0000, 0, size + page - 1);
      RoundedUp(size, page, Pow2(KvaOrder(n)));
      RoundedUp(size, page, 0x8000_0000);
      if KvaOrder(n) > 0 {
        RoundedUp(size, page, Pow2(KvaOrder(n) - 1));
      }
    } else {
      Wrapped(size, page);
    }
  }

  lemma Wrapped(size: nat, page: nat)
    requires 0 < page <= 0x1_0000_0000 && size < 0x1_0000_0000_0000_0000 <= size + page - 1
    ensures PagesFor(size, page) == 0 && KvaOrder(0) == 0 && Pow2(0) * page == page
  {
    DivModUnique(size + page - 1, 0x1_0000_0000_0000_0000, 1, size + page - 1 - 0x1_0000_0000_0000_0000);
    DivModUnique(size + page - 1 - 0x1_0000_0000_0000_0000, page, 0, size + page - 1 - 0x1_0000_0000_0000_0000);
  }

  /** __kmalloc above the largest size class: a block of the order the size asks for. */
  method LargeAlloc(a: PageAllocator.PageAllocator, cpu: nat, size: nat, page: nat)
    returns (r: Option<nat>, ghost order: nat)
    requires a.Valid() && a.Quiet() && cpu < |a.pcp| && 0 < page <= 0x1_0000_0000
    requires SLAB_MAX_SIZE < size < 0x1_0000_0000_0000_0000
    modifies a, a.area
    ensures a.Valid() && a.Quiet() && a.managed == old(a.managed) && |a.pcp| == old(|a.pcp|)
    ensures size <= Pow2(order) * page <==> size <= 0x8000_0000 * page
    ensures order > 0 ==> Pow2(order - 1) * page < size
    ensures r.Some? ==>
      && r.value % page == 0 && r.value / page >= 0 && r.value / page in a.area.page
      && !a.area.page[r.value / page].slab
      && Block(r.value / page, order) !in old(a.live) && a.live == old(a.live) + {Block(r.value / page, order)}
    ensures r.None? ==> a.live == old(a.live)
    ensures order != 0 ==> (r.None? <==> order >= MAX_ORDER || !Buddy.HasRun(Cover(old(a.area.Free())), order))
    ensures order == 0 ==> (r.None? <==> old(a.pcp[cpu].list) == [] && Cover(old(a.area.Free())) == {})
  {
    hide PageAllocator.PageAllocator.Valid, PageAllocator.PageAllocator.Quiet, PageAllocator.PageAllocator.View, Cover,
         Buddy.HasRun, KvaOrder, Pow2, PagesFor;
    LargeFits(size, page);
    var asked := PagesOrder(PagesFor(size, page));
    order := asked;
    var pfn := a.AllocPages(cpu, asked);
    if pfn.None? {
      return None, order;
    }
    MultipleMod(pfn.value, page);
    DivModUnique(pfn.value * page, page, pfn.value, 0);
    r := Some(pfn.value * page);
  }

  /** ... and __kfree of the result: the dispatch returns the block. */
  method LargeRoundTrip(a: PageAllocator.PageAllocator, cpu: nat, size: nat, page: nat) returns (r: Option<nat>)
    requires a.Valid() && a.Quiet() && cpu < |a.pcp| && 0 < page <= 0x1_0000_0000
    requires SLAB_MAX_SIZE < size < 0x1_0000_0000_0000_0000
    modifies a, a.area
    ensures a.Valid() && a.Quiet() && a.live == old(a.live) && a.managed == old(a.managed)
    ensures r.Some? ==> FreedAsPages(page, r.value, false)
  {
    hide PageAllocator.PageAllocator.Valid, PageAllocator.PageAllocator.Quiet, PageAllocator.PageAllocator.View, Cover,
         Buddy.HasRun, Pow2;
    ghost var order;
    r, order := LargeAlloc(a, cpu, size, page);
    if r.Some? {
      HeadOrder(a, r.value / page, order);
      var _ := Kfree(a, cpu, r.value, page);
    }
  }

  /** One page more than 2^31 is asked for, and one page is what the block has. */
  lemma OnePageForTooMany(page: nat)
    requires 0 < page <= 0x1_0000_0000
    ensures KvaOrder(PagesFor(0x8000_0001 * page, page)) == 0
  {
    hide KvaOrder;
    PagesOfPages(0x8000_0001, page);
    TooMany();
  }

  lemma PagesOfPages(n: nat, page: nat)
    requires 0 < page <= 0x1_0000_0000 && n < 0xffff_ffff
    ensures n * page >= 0 && PagesFor(n * page, page) == n
  {
    MulOrder(0, n, page);
    MulOrder(n + 1, 0xffff_ffff, page);
    MulDistribute(n, 1, page);
    MulOrder(page, 0x1_0000_0000, 0xffff_ffff);
    DivModUnique(n * page + page - 1, 0x1_0000_0000_0000_0000, 0, n * page + page - 1);
    DivModUnique(n * page + page - 1, page, n, page - 1);
  }

  lemma TooMany()
    ensures KvaOrder(0x8000_0001) == 0
  {
    hide LeastOrder;
  }

  lemma HeadOrder(a: PageAllocator.PageAllocator, p: nat, order: nat)
    requires a.Valid() && Block(p, order) in a.live
    ensures p in a.area.page && a.area.page[p].order == order
  {
  }

  /** __kfree of a block of pages or of an object; true is the page allocator. */
  method Kfree(a: PageAllocator.PageAllocator, cpu: nat, ptr: nat, page: nat) returns (pages: bool)
    requires a.Valid() && a.Quiet() && cpu < |a.pcp| && page > 0
    requires ptr % page == 0 ==> ptr / page >= 0 && ptr / page in a.area.page
    requires ptr % page == 0 && !a.area.page[ptr / page].slab ==>
      Block(ptr / page, a.area.page[ptr / page].order) in a.live
    modifies a, a.area
    ensures a.Valid() && a.Quiet() && a.managed == old(a.managed)
    ensures pages <==> ptr % page == 0 && FreedAsPages(page, ptr, old(a.area.page[ptr / page].slab))
    ensures a.live == if pages then old(a.live) - {Block(ptr / page, old(a.area.page[ptr / page].order))}
            else old(a.live)
  {
    if ptr % page == 0 {
      var pfn: nat := ptr / page;
      if !a.area.page[pfn].slab {
        a.FreePages(cpu, pfn);
        return true;
      }
    }
    return false;
  }
}
