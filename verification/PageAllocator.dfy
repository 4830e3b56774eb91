/** alloc_pages and free_pages: the buddy lists behind per-CPU lists of single pages (mm/buddy.c). */
module PageAllocator {
  import opened Arithmetic
  import opened BlockGeometry
  import opened Buddy
  import opened AllocatorRuns
  import opened UniqueLists
  import opened Options

  const MAX_CPUS: nat := 16

  datatype PerCpuPages = PerCpuPages(list: seq<nat>, count: nat, high: nat, batch: nat)

  ghost function Lists(pcp: seq<PerCpuPages>, draining: seq<bool>): seq<CpuList>
    requires |draining| == |pcp|
  {
    seq(|pcp|, c requires 0 <= c < |pcp| => CpuList(pcp[c].list, pcp[c].high, pcp[c].batch, draining[c]))
  }

  /** The page records agree with who owns the pages. */
  ghost predicate FlagsMatch(page: Pages, s: State, managed: set<nat>) {
    && managed <= page.Keys
    && (forall p :: p in managed ==> !page[p].reserved && (page[p].pcp <==> p in PcpPages(s.pcp)))
    && (forall p :: p in PcpPages(s.pcp) ==> p in page && page[p].order == 0)
    && (forall b :: b in s.live ==> b.pfn in page && page[b.pfn].order == b.order)
  }

  class PageAllocator {
    const area: FreeArea
    var pcp: seq<PerCpuPages>
    ghost var draining: seq<bool>
    ghost var live: set<Block>
    ghost var managed: set<nat>

    ghost function View(): State
      requires |draining| == |pcp|
      reads this, area
    {
      State(area.Free(), Lists(pcp, draining), live)
    }

    /** Everything but the length bounds of the CPU lists. */
    ghost predicate Core()
      reads this, area
    {
      && |draining| == |pcp|
      && (forall c :: 0 <= c < |pcp| ==> pcp[c].count == |pcp[c].list|)
      && area.Valid()
      && Partition(View(), managed)
      && FlagsMatch(area.page, View(), managed)
      && area.managedPages == |managed|
    }

    ghost predicate Valid()
      ensures Valid() ==> |draining| == |pcp|
      reads this, area
    {
      Core() && Inv(View(), managed)
    }

    /** What the first page of a list and its batch are good for. */
    lemma CpuListFacts(cpu: nat)
      requires Valid() && cpu < |pcp|
      ensures pcp[cpu].batch > 0 && (pcp[cpu].list != [] ==> Block(pcp[cpu].list[0], 0) !in live)
    {
      hide Tiling, NoBuddies, Cover, PcpDistinct, PcpPages, Block.Aligned, Block.Pages, FlagsMatch, FreeArea.Valid;
      assert View().pcp[cpu].batch == pcp[cpu].batch;
      if pcp[cpu].list != [] {
        FreshPage(View(), managed, cpu);
      }
    }

    /** The end of buddy_init: empty lists on every CPU. */
    constructor (initialized: FreeArea)
      requires initialized.Valid()
      requires Clean(initialized.page, Cover(initialized.Free()))
      requires initialized.managedPages == |Cover(initialized.Free())|
      ensures Valid() && area == initialized && managed == Cover(area.Free())
      ensures View() == State(initialized.Free(), seq(MAX_CPUS, _ => CpuList([], 64, 16, false)), {})
    {
      area := initialized;
      pcp := seq(MAX_CPUS, _ => PerCpuPages([], 0, 64, 16));
      draining := seq(MAX_CPUS, _ => false);
      live := {};
      managed := Cover(initialized.Free());
      new;
      assert View().pcp == seq(MAX_CPUS, _ => CpuList([], 64, 16, false));
      EmptyLists(View().pcp);
      assert Cover({}) == {};
    }

    /** buddy_alloc: one section under the buddy lock. */
    method BuddyAlloc(order: nat) returns (r: Option<nat>)
      requires Valid()
      modifies this, area
      ensures Valid() && managed == old(managed)
      ensures Next(old(View()), View(), AllocatorRuns.BuddyAlloc(order, r))
      ensures pcp == old(pcp) && draining == old(draining)
      ensures r.Some? ==> r.value in area.page && !area.page[r.value].slab
    {
      hide Tiling, NoBuddies, Cover, PcpDistinct, PcpPages, Block.Aligned, Block.Pages, Touches, FreeBlocks,
           ListsMatch, FlagsMatch, HasRun, CpuBounds;
      r := area.AllocLocked(order);
      if r.Some? {
        live := live + {Block(r.value, order)};
      }
      assert NextAlloc(old(View()), View(), order, r);
      AllocKeepsInv(old(View()), View(), order, r, managed);
      AllocFlags(old(area.page), area.page, old(View()), View(), order, r, managed);
    }

    /** buddy_free of a live block: one section under the buddy lock. */
    method BuddyFree(p: nat)
      requires Valid() && p in area.page && Block(p, area.page[p].order) in live
      modifies this, area
      ensures Valid() && managed == old(managed)
      ensures Next(old(View()), View(), AllocatorRuns.BuddyFree(Block(p, old(area.page[p].order))))
      ensures pcp == old(pcp) && draining == old(draining)
      ensures
        var b := Block(p, old(area.page[p].order));
        live == old(live) - {b} && Cover(area.Free()) == Cover(old(area.Free())) + b.Pages()
    {
      hide Tiling, NoBuddies, Cover, PcpDistinct, PcpPages, Block.Aligned, Block.Pages, Touches, FreeBlocks,
           ListsMatch, FlagsMatch, CpuBounds;
      ghost var b := Block(p, area.page[p].order);
      LiveFreeable(area.page, View(), managed, b);
      area.FreeLocked(p);
      live := live - {b};
      FreeKeepsInv(old(View()), View(), b, managed);
      FreeFlags(old(area.page), area.page, old(View()), View(), b, managed);
    }

    /** __pcp_pop */
    method PcpPop(cpu: nat) returns (r: Option<nat>)
      requires Valid() && cpu < |pcp| && !draining[cpu]
      modifies this, area
      ensures Valid() && managed == old(managed) && |pcp| == old(|pcp|)
      ensures draining == old(draining)
      ensures r.None? <==> old(pcp[cpu].list) == []
      ensures r.None? ==> View() == old(View()) && pcp == old(pcp)
      ensures r.None? ==> live == old(live) && area.Free() == old(area.Free())
      ensures r.Some? ==> r.value == old(pcp[cpu].list[0]) && Next(old(View()), View(), Pop(cpu))
      ensures r.Some? ==>
        var q := old(pcp[cpu]);
        && pcp == old(pcp)[cpu := q.(list := q.list[1..], count := |q.list| - 1)]
        && live == old(live) + {Block(r.value, 0)} && area.Free() == old(area.Free())
    {
      hide Tiling, NoBuddies, Cover, PcpDistinct, PcpPages, Block.Aligned, Block.Pages, Touches, FreeBlocks,
           ListsMatch, FlagsMatch, CpuBounds;
      if pcp[cpu].list == [] {
        return None;
      }
      var p := pcp[cpu].list[0];
      OnList(area.page, View(), managed, cpu, 0);
      pcp := pcp[cpu := pcp[cpu].(list := pcp[cpu].list[1..], count := pcp[cpu].count - 1)];
      area.SetOwned(p, area.page[p].(pcp := false));
      live := live + {Block(p, 0)};
      assert View().pcp == old(View()).pcp[cpu := View().pcp[cpu]];
      PopKeepsInv(old(View()), View(), cpu, managed);
      PopFlags(old(area.page), area.page, old(View()), View(), cpu, managed);
      r := Some(p);
    }

    /** __pcp_push of a live single page; the caller drains when the list grew over `high`. */
    method PcpPush(cpu: nat, p: nat)
      requires Valid() && cpu < |pcp| && !draining[cpu] && Block(p, 0) in live
      modifies this, area
      ensures Valid() && managed == old(managed) && |pcp| == old(|pcp|)
      ensures Next(old(View()), View(), Push(cpu, p))
      ensures draining == old(draining)[cpu := pcp[cpu].count > pcp[cpu].high]
      ensures
        var q := old(pcp[cpu]);
        && pcp == old(pcp)[cpu := q.(list := [p] + q.list, count := q.count + 1)] && pcp[cpu].count == |pcp[cpu].list|
        && live == old(live) - {Block(p, 0)} && area.Free() == old(area.Free())
    {
      hide Tiling, NoBuddies, Cover, PcpDistinct, PcpPages, Block.Aligned, Block.Pages, Touches, FreeBlocks,
           ListsMatch, FlagsMatch, CpuBounds;
      LiveFreeable(area.page, View(), managed, Block(p, 0));
      area.SetOwned(p, area.page[p].(order := 0, pcp := true));
      pcp := pcp[cpu := pcp[cpu].(list := [p] + pcp[cpu].list, count := pcp[cpu].count + 1)];
      live := live - {Block(p, 0)};
      draining := draining[cpu := pcp[cpu].count > pcp[cpu].high];
      assert View().pcp == old(View()).pcp[cpu := View().pcp[cpu]];
      PushKeepsInv(old(View()), View(), cpu, p, managed);
      PushFlags(old(area.page), area.page, old(View()), View(), cpu, p, managed);
    }

    /** pcp_refill of an empty list: one section under the buddy lock. */
    method PcpRefill(cpu: nat) returns (nr: nat)
      requires Valid() && cpu < |pcp| && !draining[cpu] && pcp[cpu].list == []
      modifies this, area
      ensures Valid() && managed == old(managed) && |pcp| == old(|pcp|)
      ensures Next(old(View()), View(), Refill(cpu)) && nr == |pcp[cpu].list|
      ensures draining == old(draining) && live == old(live)
      ensures
        var q := pcp[cpu];
        && pcp == old(pcp)[cpu := old(pcp[cpu]).(list := q.list, count := q.count)]
        && Elems(q.list) <= Cover(old(area.Free())) && Cover(area.Free()) == Cover(old(area.Free())) - Elems(q.list)
        && (|q.list| == q.batch || Cover(area.Free()) == {})
    {
      hide Tiling, NoBuddies, Cover, PcpDistinct, PcpPages, Block.Aligned, Block.Pages, Touches, FreeBlocks,
           ListsMatch, FlagsMatch, Elems, NoDup, FreeArea.Valid, Partition;
      nr := 0;
      NoElems();
      while nr < pcp[cpu].batch
        invariant Core() && managed == old(managed) && live == old(live) && draining == old(draining)
        invariant |pcp| == old(|pcp|) && nr == |pcp[cpu].list| <= pcp[cpu].batch
        invariant pcp == old(pcp)[cpu := old(pcp[cpu]).(list := pcp[cpu].list, count := pcp[cpu].count)]
        invariant NoDup(pcp[cpu].list) && Elems(pcp[cpu].list) <= Cover(old(area.Free()))
        invariant Cover(area.Free()) == Cover(old(area.Free())) - Elems(pcp[cpu].list)
      {
        var stop := RefillOne(cpu);
        if stop {
          break;
        }
        nr := nr + 1;
      }
      assert View().pcp == old(View()).pcp[cpu := View().pcp[cpu]];
      PartitionMerged(View(), managed);
      RefillKeepsInv(old(View()), View(), cpu, managed);
    }

    /** One round of the refill loop. */
    method RefillOne(cpu: nat) returns (stop: bool)
      requires Core() && cpu < |pcp| && NoDup(pcp[cpu].list)
      modifies this, area
      ensures Core() && managed == old(managed) && live == old(live) && draining == old(draining)
      ensures |pcp| == old(|pcp|)
      ensures stop ==> View() == old(View()) && pcp == old(pcp) && Cover(area.Free()) == {}
      ensures !stop ==> pcp[cpu].list != []
      ensures !stop ==>
                var p := pcp[cpu].list[0];
                && p in Cover(old(area.Free()))
                && pcp == old(pcp)[cpu := old(pcp[cpu]).(list := [p] + old(pcp[cpu].list),
                                                         count := old(pcp[cpu].count) + 1)]
                && Elems(pcp[cpu].list) == old(Elems(pcp[cpu].list)) + {p} && NoDup(pcp[cpu].list)
                && Cover(area.Free()) == Cover(old(area.Free())) - {p}
    {
      hide Tiling, NoBuddies, Cover, PcpDistinct, PcpPages, Block.Aligned, Block.Pages, Touches, FreeBlocks,
           ListsMatch, FlagsMatch, HasRun, Elems, NoDup, Partition;
      var r := area.AllocLocked(0);
      if r.None? {
        NoSinglePage(Cover(area.Free()));
        return true;
      }
      var p := r.value;
      PageBlock(p);
      ghost var mid := area.page;
      area.SetOwned(p, area.page[p].(buddy := false, pcp := true));
      pcp := pcp[cpu := pcp[cpu].(list := [p] + pcp[cpu].list, count := pcp[cpu].count + 1)];
      assert View().pcp == old(View()).pcp[cpu := View().pcp[cpu]];
      PageToList(old(View()), View(), cpu, p, managed);
      RefillFlags(old(area.page), mid, area.page, old(View()), View(), p, managed);
      stop := false;
    }

    /** pcp_drain: the first `n` pages of the list go back to the buddy lists. */
    method PcpDrain(cpu: nat, n: nat) returns (nr: nat)
      requires Core() && cpu < |pcp|
      modifies this, area
      ensures Core() && managed == old(managed) && live == old(live) && draining == old(draining)
      ensures nr == if n <= old(|pcp[cpu].list|) then n else old(|pcp[cpu].list|)
      ensures pcp == old(pcp)[cpu := old(pcp[cpu]).(list := old(pcp[cpu].list[nr..]),
              count := old(pcp[cpu].count) - nr)]
      ensures Cover(area.Free()) == Cover(old(area.Free())) + Elems(old(pcp[cpu].list[..nr]))
    {
      hide Tiling, NoBuddies, Cover, PcpDistinct, PcpPages, Block.Aligned, Block.Pages, Touches, FreeBlocks,
           ListsMatch, FlagsMatch, Elems, FreeArea.Valid, Partition;
      nr := 0;
      ghost var list := pcp[cpu].list;
      NoElems();
      assert list[..0] == [] && list[0..] == list;
      while nr < n && pcp[cpu].list != []
        invariant 0 <= nr <= |list| && nr <= n
        invariant Core() && managed == old(managed) && live == old(live) && draining == old(draining)
        invariant pcp == old(pcp)[cpu := old(pcp[cpu]).(list := list[nr..], count := old(pcp[cpu].count) - nr)]
        invariant Cover(area.Free()) == Cover(old(area.Free())) + Elems(list[..nr])
      {
        GrowElems(list, nr);
        DrainOne(cpu);
        assert list[nr..][1..] == list[nr + 1..];
        nr := nr + 1;
      }
    }

    /** One round of the drain loop. */
    method DrainOne(cpu: nat)
      requires Core() && cpu < |pcp| && pcp[cpu].list != []
      modifies this, area
      ensures Core() && managed == old(managed) && live == old(live) && draining == old(draining)
      ensures pcp == old(pcp)[cpu := old(pcp[cpu]).(list := old(pcp[cpu].list[1..]), count := old(pcp[cpu].count) - 1)]
      ensures Cover(area.Free()) == Cover(old(area.Free())) + {old(pcp[cpu].list[0])}
    {
      hide Tiling, NoBuddies, Cover, PcpDistinct, PcpPages, Block.Aligned, Block.Pages, Touches, FreeBlocks,
           ListsMatch, FlagsMatch, Elems;
      var p := pcp[cpu].list[0];
      OnList(area.page, View(), managed, cpu, 0);
      pcp := pcp[cpu := pcp[cpu].(list := pcp[cpu].list[1..], count := pcp[cpu].count - 1)];
      area.SetOwned(p, area.page[p].(pcp := false, order := 0));
      PageBlock(p);
      ghost var mid := area.page;
      area.FreeLocked(p);
      assert View().pcp == old(View()).pcp[cpu := View().pcp[cpu]];
      PageToFree(old(View()), View(), cpu, managed);
      DrainFlags(old(area.page), mid, area.page, old(View()), View(), p, managed);
    }

    /** The drain that ends a free which pushed the list over `high`. */
    method DrainOver(cpu: nat)
      requires Valid() && cpu < |pcp| && draining[cpu]
      modifies this, area
      ensures Valid() && managed == old(managed) && |pcp| == old(|pcp|)
      ensures Next(old(View()), View(), Drain(cpu))
      ensures draining == old(draining)[cpu := false] && live == old(live)
      ensures
        var q := old(pcp[cpu]);
        var n := if q.batch <= |q.list| then q.batch else |q.list|;
        && pcp == old(pcp)[cpu := q.(list := q.list[n..], count := q.count - n)]
        && Cover(area.Free()) == Cover(old(area.Free())) + Elems(q.list[..n])
    {
      hide Tiling, NoBuddies, Cover, PcpDistinct, PcpPages, Block.Aligned, Block.Pages, Touches, FreeBlocks,
           ListsMatch, FlagsMatch, Elems;
      ghost var p := View().pcp[cpu];
      var nr := PcpDrain(cpu, pcp[cpu].batch);
      ghost var done := State(View().free, View().pcp[cpu := View().pcp[cpu].(draining := false)], live);
      FlagsSameOwners(area.page, View(), done, cpu, managed);
      draining := draining[cpu := false];
      assert View() == done;
      assert View().pcp == old(View()).pcp[cpu := View().pcp[cpu]];
      assert View().pcp[cpu] == p.(draining := false, list := p.list[nr..]);
      assert NextDrain(old(View()), View(), cpu, nr, p.(draining := false));
      assert p.draining && nr == if p.batch <= |p.list| then p.batch else |p.list|;
      DrainKeepsInv(old(View()), View(), cpu, nr, p.(draining := false), managed);
    }

    /** The part of pcp_configure under one CPU's lock. */
    method ConfigureCpu(cpu: nat, high: nat, batch: nat)
      requires Valid() && cpu < |pcp| && !draining[cpu] && 1 <= batch <= high
      modifies this, area
      ensures Valid() && managed == old(managed) && |pcp| == old(|pcp|) && draining == old(draining)
      ensures Next(old(View()), View(), Configure(cpu, high, batch))
      ensures live == old(live) && pcp == old(pcp)[cpu := PerCpuPages([], 0, high, batch)]
    {
      hide Tiling, NoBuddies, Cover, PcpDistinct, PcpPages, Block.Aligned, Block.Pages, Touches, FreeBlocks,
           ListsMatch, FlagsMatch, Elems, NoDup, FreeArea.Valid;
      ghost var p := View().pcp[cpu];
      var nr := PcpDrain(cpu, pcp[cpu].count);
      assert old(pcp[cpu].list[nr..]) == [];
      ghost var q := View().pcp[cpu].(high := high, batch := batch);
      ghost var done := State(View().free, View().pcp[cpu := q], live);
      FlagsSameOwners(area.page, View(), done, cpu, managed);
      pcp := pcp[cpu := pcp[cpu].(high := high, batch := batch)];
      assert View() == done;
      assert View().pcp == old(View()).pcp[cpu := View().pcp[cpu]];
      assert View().pcp[cpu] == p.(high := high, batch := batch, list := p.list[nr..]);
      assert NextDrain(old(View()), View(), cpu, nr, p.(high := high, batch := batch));
      assert !p.draining && nr == |p.list|;
      DrainKeepsInv(old(View()), View(), cpu, nr, p.(high := high, batch := batch), managed);
    }

    /** No free is in the middle of draining. */
    ghost predicate Quiet()
      reads this
    {
      forall c :: 0 <= c < |draining| ==> !draining[c]
    }

    /** The end of alloc_slab_detached: the page of a new slab is marked, until it is allocated again. */
    method MarkSlab(p: nat)
      requires Valid() && Block(p, 0) in live
      modifies area`page
      ensures Valid() && View() == old(View()) && p in area.page && area.page[p].slab
      ensures forall q :: q in old(area.page) && q != p ==> q in area.page && area.page[q] == old(area.page)[q]
    {
      hide Tiling, NoBuddies, PcpDistinct, PcpPages, Block.Aligned, Block.Pages, Touches, FreeBlocks, ListsMatch,
           FlagsMatch, Cover, Partition;
      LiveRecord(area.page, View(), managed, p);
      NotHeadOutside(area.page, p);
      area.SetOwned(p, area.page[p].(slab := true));
      MarkedFlags(old(area.page), p, View(), managed, true);
    }

    /** prepare_allocated_page: the page carries no mark of an earlier owner. */
    method Prepare(p: nat)
      requires Valid() && Block(p, 0) in live
      modifies area`page
      ensures Valid() && View() == old(View()) && p in area.page && !area.page[p].slab
    {
      hide Tiling, NoBuddies, PcpDistinct, PcpPages, Block.Aligned, Block.Pages, Touches, FreeBlocks, ListsMatch,
           FlagsMatch, Cover, Partition;
      LiveRecord(area.page, View(), managed, p);
      NotHeadOutside(area.page, p);
      area.SetOwned(p, area.page[p].(slab := false));
      MarkedFlags(old(area.page), p, View(), managed, false);
    }

    /** An aligned block of free pages is free no more. */
    twostate predicate TookBlock(new b: Block)
      reads this, area
    {
      && pcp == old(pcp) && b.Aligned() && b.Pages() <= Cover(old(area.Free()))
      && Cover(area.Free()) == Cover(old(area.Free())) - b.Pages()
    }

    /** The first page of the list is gone from it. */
    twostate predicate TookFirst(cpu: nat, new r: Option<nat>)
      reads this, area
    {
      && cpu < old(|pcp|) && old(pcp[cpu].list) != []
      && var q := old(pcp[cpu]);
         && r == Some(q.list[0]) && pcp == old(pcp)[cpu := q.(list := q.list[1..], count := |q.list| - 1)]
         && area.Free() == old(area.Free())
    }

    /** A batch of free pages, fewer only when no more are free, came to the list, and its first one is gone. */
    twostate predicate TookRefilled(cpu: nat, p: nat)
      reads this, area
    {
      && cpu < old(|pcp|) == |pcp|
      && var q := pcp[cpu];
         && pcp == old(pcp)[cpu := old(pcp[cpu]).(list := q.list, count := q.count)]
         && Elems([p] + q.list) <= Cover(old(area.Free()))
         && Cover(area.Free()) == Cover(old(area.Free())) - Elems([p] + q.list)
         && (|q.list| + 1 == q.batch || Cover(area.Free()) == {})
    }

    /** alloc_pages, as one CPU running alone sees it: the block's first page is marked for no slab. */
    method AllocPages(cpu: nat, order: nat) returns (r: Option<nat>)
      requires Valid() && Quiet() && cpu < |pcp|
      modifies this, area
      ensures Valid() && Quiet() && managed == old(managed) && |pcp| == old(|pcp|)
      ensures r.Some? ==> live == old(live) + {Block(r.value, order)} && Block(r.value, order) !in old(live)
      ensures r.None? ==> live == old(live)
      ensures order != 0 ==> (r.None? <==> order >= MAX_ORDER || !HasRun(Cover(old(area.Free())), order))
      ensures order == 0 ==> (r.None? <==> old(pcp[cpu].list) == [] && Cover(old(area.Free())) == {})
      ensures r.Some? ==> r.value in area.page && !area.page[r.value].slab
      ensures order != 0 && r.Some? ==> TookBlock(Block(r.value, order))
      ensures order == 0 && old(pcp[cpu].list) != [] ==> TookFirst(cpu, r)
      ensures order == 0 && old(pcp[cpu].list) == [] && r.Some? ==> TookRefilled(cpu, r.value)
    {
      hide Tiling, NoBuddies, Cover, PcpDistinct, PcpPages, Block.Aligned, Block.Pages, Touches, FreeBlocks,
           ListsMatch, FlagsMatch, Elems, NoDup, HasRun, FreeArea.Valid;
      if order != 0 {
        r := BuddyAlloc(order);
        if r.Some? {
          FreshBlock(old(View()), managed, Block(r.value, order));
          RunAt(Cover(old(area.Free())), Block(r.value, order));
        }
        return;
      }
      r := AllocOne(cpu);
      if r.Some? {
        Prepare(r.value);
      }
    }

    /** The part of alloc_pages under the CPU's lock: a page of its list, after a refill if that is empty. */
    method AllocOne(cpu: nat) returns (r: Option<nat>)
      requires Valid() && Quiet() && cpu < |pcp|
      modifies this, area
      ensures Valid() && Quiet() && managed == old(managed) && |pcp| == old(|pcp|)
      ensures r.Some? ==> live == old(live) + {Block(r.value, 0)} && Block(r.value, 0) !in old(live)
      ensures r.None? ==> live == old(live)
      ensures r.None? <==> old(pcp[cpu].list) == [] && Cover(old(area.Free())) == {}
      ensures old(pcp[cpu].list) != [] ==> TookFirst(cpu, r)
      ensures old(pcp[cpu].list) == [] && r.Some? ==> TookRefilled(cpu, r.value)
    {
      hide Tiling, NoBuddies, Cover, PcpDistinct, PcpPages, Block.Aligned, Block.Pages, Touches, FreeBlocks,
           ListsMatch, FlagsMatch, Elems, NoDup, HasRun, FreeArea.Valid, Partition, Inv, Next, Valid, View;
      CpuListFacts(cpu);
      r := PcpPop(cpu);
      if r.None? {
        var nr := PcpRefill(cpu);
        CpuListFacts(cpu);
        ghost var list := pcp[cpu].list;
        RefilledUnlessEmpty(Cover(old(area.Free())), Cover(area.Free()), list);
        r := PcpPop(cpu);
        assert r.Some? ==> list == [r.value] + list[1..];
      }
    }

    /** free_pages of a live block, as one CPU running alone sees it. */
    method FreePages(cpu: nat, p: nat)
      requires Valid() && Quiet() && cpu < |pcp|
      requires p in area.page && Block(p, area.page[p].order) in live
      modifies this, area
      ensures Valid() && Quiet() && managed == old(managed) && |pcp| == old(|pcp|)
      ensures live == old(live) - {Block(p, old(area.page[p].order))}
      ensures old(area.page[p].order) != 0 ==>
        pcp == old(pcp) && Cover(area.Free()) == Cover(old(area.Free())) + Block(p, old(area.page[p].order)).Pages()
      ensures old(area.page[p].order) == 0 ==>
        var q, list := old(pcp[cpu]), [p] + old(pcp[cpu].list);
        var n := if |list| <= q.high then 0 else if q.batch <= |list| then q.batch else |list|;
        && pcp == old(pcp)[cpu := q.(list := list[n..], count := |list| - n)]
        && Cover(area.Free()) == Cover(old(area.Free())) + Elems(list[..n])
    {
      hide Tiling, NoBuddies, Cover, PcpDistinct, PcpPages, Block.Aligned, Block.Pages, Touches, FreeBlocks,
           ListsMatch, FlagsMatch, Elems, NoDup, FreeArea.Valid, Partition, Inv, Next, Valid, View;
      if area.page[p].order != 0 {
        BuddyFree(p);
        return;
      }
      PcpPush(cpu, p);
      ghost var list := pcp[cpu].list;
      if pcp[cpu].count > pcp[cpu].high {
        DrainOver(cpu);
      } else {
        NoElems();
        assert list[0..] == list && list[..0] == [];
      }
    }

    /** pcp_configure; the result says whether the arguments were accepted. */
    method PcpConfigure(high: nat, batch: nat) returns (ok: bool)
      requires Valid() && Quiet()
      modifies this, area
      ensures Valid() && Quiet() && managed == old(managed) && live == old(live)
      ensures ok <==> batch != 0 && batch <= high
      ensures !ok ==> View() == old(View())
      ensures ok ==> PcpPages(View().pcp) == {} && forall c :: 0 <= c < |pcp| ==>
              pcp[c] == PerCpuPages([], 0, high, batch)
      ensures ok ==> Cover(area.Free()) == managed - Cover(live)
    {
      hide Tiling, NoBuddies, Cover, PcpDistinct, PcpPages, Block.Aligned, Block.Pages, Touches, FreeBlocks,
           ListsMatch, FlagsMatch, Elems, NoDup, FreeArea.Valid, Partition, Inv, Valid, View;
      if batch == 0 || high < batch {
        return false;
      }
      var cpu := 0;
      while cpu < |pcp|
        invariant 0 <= cpu <= |pcp|
        invariant Valid() && draining == old(draining) && managed == old(managed) && live == old(live)
        invariant forall c :: 0 <= c < cpu ==> pcp[c] == PerCpuPages([], 0, high, batch)
      {
        ConfigureCpu(cpu, high, batch);
        cpu := cpu + 1;
      }
      AllReturned();
      ok := true;
    }

    /** With empty lists, the free pages are all that is not handed out. */
    lemma AllReturned()
      requires Valid() && forall c :: 0 <= c < |pcp| ==> pcp[c].list == []
      ensures PcpPages(View().pcp) == {} && Cover(area.Free()) == managed - Cover(live)
    {
      hide Tiling, NoBuddies, Cover, PcpDistinct, PcpPages, Block.Aligned, Block.Pages, Touches, FreeBlocks,
           ListsMatch, FlagsMatch, Elems, NoDup, FreeArea.Valid;
      EmptyLists(View().pcp);
    }

    /** buddy_get_memory_stats: what the counters add up to. */
    method MemoryStats() returns (buddyFree: nat, pcpFree: nat, used: nat)
      requires Valid()
      ensures buddyFree == |Cover(area.Free())|
      ensures pcpFree == PcpCount(View().pcp)
      ensures used == |Cover(live)|
    {
      hide Tiling, NoBuddies, Cover, PcpDistinct, PcpPages, Block.Aligned, Block.Pages, Touches, FreeBlocks,
           ListsMatch, FlagsMatch, Elems, NoDup, Pow2;
      buddyFree := 0;
      var order := 0;
      ListFacts(area.freeList, area.nrFree, area.page, 0);
      CountersSized(area.freeList, area.nrFree, area.page);
      while order < MAX_ORDER
        invariant 0 <= order <= MAX_ORDER
        invariant buddyFree == Shifted(area.nrFree, order)
      {
        buddyFree := buddyFree + Shl(area.nrFree[order], order);
        order := order + 1;
      }
      FreeCount(area.freeList, area.nrFree, area.page, MAX_ORDER);
      AllBlocksBelow(area.page);
      pcpFree := 0;
      var cpu := 0;
      assert View().pcp[..0] == [];
      while cpu < |pcp|
        invariant 0 <= cpu <= |pcp|
        invariant pcpFree == PcpCount(View().pcp[..cpu])
      {
        assert View().pcp[..cpu + 1][..cpu] == View().pcp[..cpu];
        pcpFree := pcpFree + pcp[cpu].count;
        cpu := cpu + 1;
      }
      assert View().pcp[..cpu] == View().pcp;
      PagesConserved([View()], [], managed, 0);
      var free := buddyFree + pcpFree;
      used := if area.managedPages > free then area.managedPages - free else 0;
    }
  }

  lemma PartitionMerged(s: State, managed: set<nat>)
    requires Partition(s, managed)
    ensures Merged(s.free)
  {
  }

  lemma EmptyLists(pcp: seq<CpuList>)
    requires forall c :: 0 <= c < |pcp| ==> pcp[c].list == []
    ensures PcpDistinct(pcp) && PcpPages(pcp) == {}
  {
    forall p ensures p !in PcpPages(pcp) {
      PcpPagesAt(pcp, p);
    }
  }

  /** A live page is in the page array and outside every free block. */
  lemma LiveRecord(page: Pages, s: State, managed: set<nat>, p: nat)
    requires Partition(s, managed) && FlagsMatch(page, s, managed) && Block(p, 0) in s.live
    ensures p in page && p !in Cover(s.free)
  {
    LivePfn(s, managed, Block(p, 0));
  }

  lemma MarkedFlags(page: Pages, p: nat, s: State, managed: set<nat>, slab: bool)
    requires FlagsMatch(page, s, managed) && p in page
    ensures FlagsMatch(page[p := page[p].(slab := slab)], s, managed)
  {
    hide PcpPages;
  }

  lemma LivePfn(s: State, managed: set<nat>, b: Block)
    requires Partition(s, managed) && b in s.live
    ensures b.pfn in Cover(s.live) && b.pfn !in Cover(s.free) && b.pfn !in PcpPages(s.pcp) && b.pfn in managed
  {
    PfnInPages(b);
  }

  /** Writing only pages of the free blocks leaves the other owners' records alone. */
  lemma TouchFlags(page: Pages, page': Pages, s: State, where: set<nat>, managed: set<nat>)
    requires Partition(s, managed) && FlagsMatch(page, s, managed)
    requires Touches(page, page', where) && where !! PcpPages(s.pcp)
    requires forall b :: b in s.live ==> b.pfn !in where
    ensures FlagsMatch(page', s, managed)
  {
    hide Merged, Tiling, NoBuddies, Cover, PcpDistinct, PcpPages, Block.Aligned, Block.Pages, CpuBounds;
  }

  lemma AllocFlags(page: Pages, page': Pages, s: State, s': State, order: nat, r: Option<nat>, managed: set<nat>)
    requires Inv(s, managed) && FlagsMatch(page, s, managed) && NextAlloc(s, s', order, r)
    requires Touches(page, page', Cover(s.free))
    requires r.Some? ==> r.value in page' && page'[r.value].order == order
    ensures FlagsMatch(page', s', managed)
  {
    hide Merged, Tiling, NoBuddies, Cover, PcpDistinct, PcpPages, Block.Aligned, Block.Pages, CpuBounds, Touches;
    forall b | b in s.live ensures b.pfn !in Cover(s.free) {
      LivePfn(s, managed, b);
    }
    TouchFlags(page, page', s, Cover(s.free), managed);
  }

  /** A live block passes the checks of __buddy_free_locked. */
  lemma LiveFreeable(page: Pages, s: State, managed: set<nat>, b: Block)
    requires Partition(s, managed) && FlagsMatch(page, s, managed) && s.free == FreeBlocks(page) && b in s.live
    ensures b.pfn in page && page[b.pfn].order == b.order < MAX_ORDER
    ensures !page[b.pfn].reserved && !page[b.pfn].buddy && !page[b.pfn].pcp
    ensures b.Aligned() && b.Pages() <= page.Keys && b.Pages() !! Cover(s.free) && b.pfn !in Cover(s.free)
  {
    LivePfn(s, managed, b);
    NotHeadOutside(page, b.pfn);
    TakeOut(s.live, b);
  }

  lemma FreeFlags(page: Pages, page': Pages, s: State, s': State, b: Block, managed: set<nat>)
    requires Partition(s, managed) && FlagsMatch(page, s, managed) && b in s.live
    requires s'.live == s.live - {b} && s'.pcp == s.pcp
    requires Touches(page, page', Cover(s.free) + b.Pages())
    ensures FlagsMatch(page', s', managed)
  {
    TakeOut(s.live, b);
    hide Merged, Cover, PcpDistinct, PcpPages, Block.Aligned, Block.Pages, Touches, Shaped;
    forall c | c in s'.live ensures c.pfn !in Cover(s.free) && c.pfn !in b.Pages() {
      LivePfn(s, managed, c);
      ApartIsDisjoint(b, c);
      PfnInPages(c);
    }
    TouchFlagsLive(page, page', s, s', Cover(s.free) + b.Pages(), managed);
  }

  lemma TouchFlagsLive(page: Pages, page': Pages, s: State, s': State, where: set<nat>, managed: set<nat>)
    requires FlagsMatch(page, s, managed) && s'.live <= s.live && s'.pcp == s.pcp
    requires Touches(page, page', where) && where !! PcpPages(s.pcp)
    requires forall b :: b in s'.live ==> b.pfn !in where
    ensures FlagsMatch(page', s', managed)
  {
    hide PcpPages;
  }

  lemma OnList(page: Pages, s: State, managed: set<nat>, cpu: nat, i: nat)
    requires Partition(s, managed) && FlagsMatch(page, s, managed) && s.free == FreeBlocks(page)
    requires cpu < |s.pcp| && i < |s.pcp[cpu].list|
    ensures var p := s.pcp[cpu].list[i];
            p in page && page[p].pcp && page[p].order == 0 && !page[p].reserved && !page[p].buddy
            && p in PcpPages(s.pcp) && p in managed && p !in Cover(s.free)
  {
    ListInPcp(s.pcp, cpu);
    assert s.pcp[cpu].list[i] in Elems(s.pcp[cpu].list);
    NotHeadOutside(page, s.pcp[cpu].list[i]);
  }

  lemma PopFlags(page: Pages, page': Pages, s: State, s': State, cpu: nat, managed: set<nat>)
    requires Inv(s, managed) && FlagsMatch(page, s, managed) && Next(s, s', Pop(cpu)) && s.free == FreeBlocks(page)
    requires s.pcp[cpu].list[0] in page
    requires page' == page[s.pcp[cpu].list[0] := page[s.pcp[cpu].list[0]].(pcp := false)]
    ensures FlagsMatch(page', s', managed)
  {
    var p := s.pcp[cpu].list[0];
    OnList(page, s, managed, cpu, 0);
    HeadAndTail(s.pcp[cpu].list);
    ListInPcp(s.pcp, cpu);
    hide Merged, Tiling, Cover, PcpPages, Block.Aligned, Block.Pages;
    PcpPagesUpdate(s.pcp, cpu, s'.pcp[cpu]);
    forall b | b in s.live ensures b.pfn != p {
      LivePfn(s, managed, b);
    }
  }

  lemma PushFlags(page: Pages, page': Pages, s: State, s': State, cpu: nat, p: nat, managed: set<nat>)
    requires Inv(s, managed) && FlagsMatch(page, s, managed) && Next(s, s', Push(cpu, p)) && p in page
    requires page' == page[p := page[p].(order := 0, pcp := true)]
    ensures FlagsMatch(page', s', managed)
  {
    LivePfn(s, managed, Block(p, 0));
    ListInPcp(s.pcp, cpu);
    PushElems(p, s.pcp[cpu].list);
    forall b | b in s'.live ensures b.pfn != p {
      assert b.Apart(Block(p, 0));
    }
    hide Merged, Tiling, Cover, PcpPages, Block.Aligned, Block.Pages;
    PcpPagesUpdate(s.pcp, cpu, s'.pcp[cpu]);
  }

  lemma NoElems()
    ensures Elems([]) == {} && NoDup([])
  {
  }

  lemma GrowElems(list: seq<nat>, n: nat)
    requires n < |list|
    ensures Elems(list[..n + 1]) == Elems(list[..n]) + {list[n]}
  {
    forall x | x in Elems(list[..n]) ensures x in Elems(list[..n + 1]) {
      var i :| 0 <= i < n && list[..n][i] == x;
      assert list[..n + 1][i] == x;
    }
    assert list[..n + 1][n] == list[n];
    forall x | x in Elems(list[..n + 1]) && x != list[n] ensures x in Elems(list[..n]) {
      var i :| 0 <= i < n + 1 && list[..n + 1][i] == x;
      assert list[..n][i] == x;
    }
  }

  lemma RunAt(free: set<nat>, b: Block)
    requires b.Aligned() && b.Pages() <= free
    ensures HasRun(free, b.order)
  {
  }

  lemma NoSinglePage(free: set<nat>)
    requires !HasRun(free, 0)
    ensures free == {}
  {
    if free != {} {
      var p :| p in free;
      PageBlock(p);
      RunAt(free, Block(p, 0));
      assert false;
    }
  }

  lemma RefillFlags(page: Pages, mid: Pages, page': Pages, s: State, s': State, p: nat, managed: set<nat>)
    requires Partition(s, managed) && FlagsMatch(page, s, managed)
    requires p in Cover(s.free) && s'.live == s.live && PcpPages(s'.pcp) == PcpPages(s.pcp) + {p}
    requires Touches(page, mid, Cover(s.free)) && p in mid && mid[p].order == 0
    requires page' == mid[p := mid[p].(buddy := false, pcp := true)]
    ensures FlagsMatch(page', s', managed)
  {
    forall b | b in s.live ensures b.pfn !in Cover(s.free) {
      LivePfn(s, managed, b);
    }
    hide Merged, Tiling, Cover, PcpPages, Block.Aligned, Block.Pages, PcpDistinct;
    TouchFlags(page, mid, s, Cover(s.free), managed);
  }

  lemma DrainFlags(page: Pages, mid: Pages, page': Pages, s: State, s': State, p: nat, managed: set<nat>)
    requires Partition(s, managed) && FlagsMatch(page, s, managed)
    requires p in PcpPages(s.pcp) && s'.live == s.live && PcpPages(s'.pcp) == PcpPages(s.pcp) - {p} && p in page
    requires mid == page[p := page[p].(pcp := false, order := 0)]
    requires Touches(mid, page', Cover(s.free) + {p}) && Partition(s', managed)
    ensures FlagsMatch(page', s', managed)
  {
    forall b | b in s.live ensures b.pfn !in Cover(s.free) && b.pfn != p {
      LivePfn(s, managed, b);
    }
    hide Merged, Tiling, Cover, PcpPages, Block.Aligned, Block.Pages, PcpDistinct;
    assert FlagsMatch(mid, s', managed);
    TouchFlags(mid, page', s', Cover(s.free) + {p}, managed);
  }

  /** Changing a CPU list's limits or drain mark moves no page. */
  lemma FlagsSameOwners(page: Pages, s: State, s': State, cpu: nat, managed: set<nat>)
    requires FlagsMatch(page, s, managed) && PcpDistinct(s.pcp) && cpu < |s.pcp| && |s'.pcp| == |s.pcp|
    requires s'.live == s.live && s'.pcp == s.pcp[cpu := s'.pcp[cpu]] && s'.pcp[cpu].list == s.pcp[cpu].list
    ensures FlagsMatch(page, s', managed)
  {
    ListInPcp(s.pcp, cpu);
    PcpPagesUpdate(s.pcp, cpu, s'.pcp[cpu]);
  }

  lemma FreshBlock(s: State, managed: set<nat>, b: Block)
    requires Partition(s, managed) && b.Pages() <= Cover(s.free)
    ensures b !in s.live
  {
    PfnInPages(b);
    if b in s.live {
      LivePfn(s, managed, b);
      assert false;
    }
  }

  lemma FreshPage(s: State, managed: set<nat>, cpu: nat)
    requires Partition(s, managed) && cpu < |s.pcp| && s.pcp[cpu].list != []
    ensures Block(s.pcp[cpu].list[0], 0) !in s.live
  {
    ListInPcp(s.pcp, cpu);
    HeadAndTail(s.pcp[cpu].list);
    if Block(s.pcp[cpu].list[0], 0) in s.live {
      LivePfn(s, managed, Block(s.pcp[cpu].list[0], 0));
      assert false;
    }
  }

  /** A refill leaves the list empty only when no page was free. */
  lemma RefilledUnlessEmpty(was: set<nat>, free: set<nat>, list: seq<nat>)
    requires Elems(list) <= was && free == was - Elems(list) && (list == [] ==> free == {})
    ensures list == [] <==> was == {}
  {
    if list == [] {
      NoElems();
    } else {
      assert list[0] in Elems(list);
    }
  }

  /** n << order */
  function Shl(n: nat, order: nat): nat {
    n * Pow2(order)
  }

  /** The sum of nr_free << order over the orders below `k`. */
  function Shifted(nrFree: seq<nat>, k: nat): nat
    requires k <= |nrFree|
  {
    if k == 0 then 0 else Shifted(nrFree, k - 1) + Shl(nrFree[k - 1], k - 1)
  }

  lemma CountersSized(freeList: seq<seq<nat>>, nrFree: seq<nat>, page: Pages)
    requires ListsMatch(freeList, nrFree, page)
    ensures |nrFree| == MAX_ORDER
  {
  }

  ghost function BlocksBelow(page: Pages, k: nat): set<Block> {
    set b | b in FreeBlocks(page) && b.order < k
  }

  lemma AllBlocksBelow(page: Pages)
    requires Tiling(FreeBlocks(page))
    ensures BlocksBelow(page, MAX_ORDER) == FreeBlocks(page)
  {
  }

  lemma {:induction false} RangeCount(b: Block, n: nat)
    requires n <= Pow2(b.order)
    ensures |set p: nat | p < b.pfn + n && b.Has(p)| == n
  {
    var s := set p: nat | p < b.pfn + n && b.Has(p);
    if n == 0 {
      assert s == {};
    } else {
      RangeCount(b, n - 1);
      var t := set p: nat | p < b.pfn + (n - 1) && b.Has(p);
      assert b.Has(b.pfn + n - 1);
      assert s == t + {b.pfn + n - 1};
    }
  }

  lemma BlockCount(b: Block)
    ensures |b.Pages()| == Pow2(b.order)
  {
    RangeCount(b, Pow2(b.order));
  }

  /** The first `n` blocks of one list. */
  ghost function ListBlocks(list: seq<nat>, o: nat, n: nat): set<Block>
    requires n <= |list|
  {
    set i | 0 <= i < n :: Block(list[i], o)
  }

  lemma ListBlocksStep(below: set<Block>, list: seq<nat>, o: nat, n: nat)
    requires 0 < n <= |list| && NoDup(list)
    requires forall b :: b in below ==> b.order < o
    ensures Block(list[n - 1], o) !in below + ListBlocks(list, o, n - 1)
    ensures below + ListBlocks(list, o, n) == below + ListBlocks(list, o, n - 1) + {Block(list[n - 1], o)}
  {
  }

  lemma DisjointUnionCount(x: set<nat>, y: set<nat>)
    requires x !! y
    ensures |x + y| == |x| + |y|
  {
  }

  lemma ShlNext(n: nat, order: nat)
    ensures Shl(0, order) == 0
    ensures Shl(n + 1, order) == Shl(n, order) + Pow2(order)
  {
  }

  lemma CountAdd(x: set<Block>, b: Block)
    requires Tiling(x + {b}) && b !in x
    ensures Tiling(x) && |Cover(x + {b})| == |Cover(x)| + Pow2(b.order)
  {
    hide Tiling, Cover, Block.Pages, Pow2;
    TakeOut(x + {b}, b);
    assert x + {b} - {b} == x;
    BlockCount(b);
    DisjointUnionCount(Cover(x), b.Pages());
    assert Cover(x + {b}) == Cover(x) + b.Pages();
  }

  lemma {:induction false} ListCount(below: set<Block>, list: seq<nat>, o: nat, n: nat)
    requires n <= |list| && NoDup(list) && Tiling(below + ListBlocks(list, o, n))
    requires forall b :: b in below ==> b.order < o
    ensures |Cover(below + ListBlocks(list, o, n))| == |Cover(below)| + Shl(n, o)
  {
    if n == 0 {
      NoListBlocks(below, list, o);
      ShlNext(0, o);
    } else {
      ListBlocksStep(below, list, o, n);
      hide *;
      var fewer, b := below + ListBlocks(list, o, n - 1), Block(list[n - 1], o);
      CountAdd(fewer, b);
      ListCount(below, list, o, n - 1);
      ShlNext(n - 1, o);
    }
  }

  lemma NoListBlocks(below: set<Block>, list: seq<nat>, o: nat)
    ensures below + ListBlocks(list, o, 0) == below
  {
  }

  /** The counters count the pages of the free blocks. */
  lemma {:induction false} FreeCount(freeList: seq<seq<nat>>, nrFree: seq<nat>, page: Pages, k: nat)
    requires ListsMatch(freeList, nrFree, page) && Tiling(FreeBlocks(page)) && k <= MAX_ORDER
    ensures |Cover(BlocksBelow(page, k))| == Shifted(nrFree, k)
  {
    if k == 0 {
      assert BlocksBelow(page, 0) == {} && Cover({}) == {};
    } else {
      FreeCount(freeList, nrFree, page, k - 1);
      var list := freeList[k - 1];
      var below, here := BlocksBelow(page, k - 1), ListBlocks(list, k - 1, |list|);
      forall b ensures b in BlocksBelow(page, k) <==> b in below + here {
        FreeBlocksAt(page, b);
        BuddyListed(freeList, nrFree, page, b.pfn, k - 1);
        if b.pfn in list {
          var i :| 0 <= i < |list| && list[i] == b.pfn;
          assert Block(list[i], k - 1) in here;
        }
      }
      assert BlocksBelow(page, k) == below + here;
      TilingSubset(FreeBlocks(page), below + here);
      ListCount(below, list, k - 1, |list|);
    }
  }
}
