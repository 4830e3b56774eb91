/** The buddy free lists of mm/buddy.c: splitting, coalescing and boot-time merging. */
module Buddy {
  import opened Arithmetic
  import opened BlockGeometry
  import opened UniqueLists
  import opened Options

  /** The part of `struct page` the allocator reads and writes; slab is page->slab being set. */
  datatype Page = Page(order: nat, buddy: bool, pcp: bool, reserved: bool, slab: bool)

  type Pages = map<nat, Page>

  ghost function FreeBlocks(page: Pages): set<Block> {
    set p | p in page && page[p].buddy :: Block(p, page[p].order)
  }

  lemma FreeBlocksAt(page: Pages, b: Block)
    ensures b in FreeBlocks(page) <==> b.pfn in page && page[b.pfn].buddy && page[b.pfn].order == b.order
  {
  }

  lemma FreeBlocksSet(page: Pages, p: nat, v: Page)
    requires p in page && !page[p].buddy && v.buddy
    ensures FreeBlocks(page[p := v]) == FreeBlocks(page) + {Block(p, v.order)}
    ensures Block(p, v.order) !in FreeBlocks(page)
  {
    forall b ensures b in FreeBlocks(page[p := v]) <==> b in FreeBlocks(page) || b == Block(p, v.order) {
      FreeBlocksAt(page, b);
      FreeBlocksAt(page[p := v], b);
    }
  }

  lemma FreeBlocksClear(page: Pages, p: nat, v: Page)
    requires p in page && page[p].buddy && !v.buddy
    ensures FreeBlocks(page[p := v]) == FreeBlocks(page) - {Block(p, page[p].order)}
    ensures Block(p, page[p].order) in FreeBlocks(page)
  {
    forall b ensures b in FreeBlocks(page[p := v]) <==> b in FreeBlocks(page) && b != Block(p, page[p].order) {
      FreeBlocksAt(page, b);
      FreeBlocksAt(page[p := v], b);
    }
  }

  /** The lists, their counters and the page flags describe the same free blocks. */
  ghost predicate ListsMatch(freeList: seq<seq<nat>>, nrFree: seq<nat>, page: Pages) {
    && |freeList| == MAX_ORDER && |nrFree| == MAX_ORDER
    && (forall o :: 0 <= o < MAX_ORDER ==> nrFree[o] == |freeList[o]| && NoDup(freeList[o]))
    && (forall o, p :: 0 <= o < MAX_ORDER && p in freeList[o] ==> p in page && page[p].buddy && page[p].order == o)
    && (forall p :: p in page && page[p].buddy ==> page[p].order < MAX_ORDER && p in freeList[page[p].order])
    && (forall p :: p in page && page[p].buddy ==> !page[p].slab)
  }

  /** The node after `x` on the list; None is the list head. */
  function NextIn(s: seq<nat>, x: nat): Option<nat> {
    if |s| <= 1 then None else if s[0] == x then Some(s[1]) else NextIn(s[1..], x)
  }

  lemma {:induction false} NextInAt(s: seq<nat>, i: nat)
    requires NoDup(s) && i < |s|
    ensures NextIn(s, s[i]) == if i + 1 < |s| then Some(s[i + 1]) else None
  {
    if i > 0 {
      NextInAt(s[1..], i - 1);
    }
  }

  /** Some aligned run of 2^order pages is wholly free. */
  ghost predicate HasRun(free: set<nat>, order: nat) {
    exists b: Block :: b.order == order && b.Aligned() && b.Pages() <= free
  }

  /** A memory region in page frames, [base, end). */
  datatype Region = Region(base: nat, end: nat) {
    predicate Has(p: nat) { base <= p < end }

    ghost function Pages(): set<nat> { set p: nat | p < end && Has(p) }
  }

  ghost predicate SortedRegions(regions: seq<Region>) {
    && (forall i :: 0 <= i < |regions| ==> regions[i].base <= regions[i].end)
    && (forall i, j :: 0 <= i < j < |regions| ==> regions[i].end <= regions[j].base)
  }

  /** The pages handed to the buddy lists at boot. */
  ghost function Managed(regions: seq<Region>, reserved: set<nat>): set<nat> {
    if regions == [] then {}
    else Managed(regions[..|regions| - 1], reserved) + (regions[|regions| - 1].Pages() - reserved)
  }

  class FreeArea {
    var freeList: seq<seq<nat>>
    var nrFree: seq<nat>
    var page: Pages
    var managedPages: nat

    ghost predicate Lists()
      reads this`page, this`freeList, this`nrFree
    {
      ListsMatch(freeList, nrFree, page)
    }

    ghost function Free(): set<Block>
      reads this`page
    {
      FreeBlocks(page)
    }

    ghost predicate Valid()
      reads this`page, this`freeList, this`nrFree
    {
      && Lists()
      && Tiling(Free())
      && NoBuddies(Free())
      && Cover(Free()) <= page.Keys
    }

    /** The page array as physmem_init leaves it: no page is on a list yet. */
    constructor (mem: Pages)
      requires forall p :: p in mem ==> !mem[p].buddy && !mem[p].pcp
      ensures page == mem && Unlisted()
    {
      page := mem;
      freeList := [];
      nrFree := [];
      managedPages := 0;
    }

    ghost predicate Unlisted()
      reads this`page
    {
      forall p :: p in page ==> !page[p].buddy && !page[p].pcp
    }

    /** buddy_init: list every unreserved page of the regions, then merge order by order. */
    method BuddyInit(regions: seq<Region>, reserved: set<nat>)
      requires Unlisted() && SortedRegions(regions)
      requires forall i :: 0 <= i < |regions| ==> regions[i].Pages() <= page.Keys
      modifies this
      ensures Valid()
      ensures Cover(Free()) == Managed(regions, reserved)
      ensures managedPages == |Managed(regions, reserved)|
      ensures Touches(old(page), page, Managed(regions, reserved))
      ensures Clean(page, Managed(regions, reserved))
    {
      hide Tiling, Cover, FreeBlocks, Touches, Block.Pages, Block.Aligned, NoBuddiesBelow, Region.Pages, Managed,
           SortedRegions, NoBuddies, ListsMatch;
      managedPages := 0;
      freeList := seq(MAX_ORDER, _ => []);
      nrFree := seq(MAX_ORDER, _ => 0);
      NothingFree(page);
      NothingListed(freeList, nrFree, page);
      TouchesNothing(page, {});
      ghost var limit := ListRegions(regions, reserved, page);
      StartMerging(limit);
      ghost var listed := page;
      TouchesNothing(listed, Cover(Free()));
      MergeAll(listed);
      TouchesTrans(old(page), listed, page, Cover(Free()));
      CleanKept(listed, page, Cover(Free()));
    }

    method ListRegions(regions: seq<Region>, reserved: set<nat>, ghost before: Pages) returns (ghost limit: nat)
      requires Listing(0) && SortedRegions(regions) && before == page && Touches(before, page, {})
      requires Cover(Free()) == {} && managedPages == 0
      requires forall i :: 0 <= i < |regions| ==> regions[i].Pages() <= page.Keys
      modifies this
      ensures Listing(limit)
      ensures Cover(Free()) == Managed(regions, reserved)
      ensures Touches(before, page, Cover(Free())) && managedPages == |Cover(Free())|
      ensures Clean(page, Cover(Free()))
    {
      hide *;
      NoRegionsManaged(reserved);
      var k := 0;
      limit := 0;
      assert regions[..0] == [];
      NoneClean(page);
      while k < |regions|
        invariant 0 <= k <= |regions|
        invariant limit == if k == 0 then 0 else regions[k - 1].end
        invariant Listing(limit)
        invariant Cover(Free()) == Managed(regions[..k], reserved)
        invariant page.Keys == before.Keys && Touches(before, page, Cover(Free()))
        invariant managedPages == |Cover(Free())| && Clean(page, Cover(Free()))
      {
        RegionsInOrder(regions, k);
        LaterLimit(limit, regions[k].base);
        ListRegion(regions[k], reserved, before);
        GrowManaged(regions, k, reserved);
        limit := regions[k].end;
        k := k + 1;
      }
      assert regions[..k] == regions;
    }

    /** The merging loop at the end of buddy_init. */
    method MergeAll(ghost before: Pages)
      requires MergedBelow(0) && Touches(before, page, Cover(Free()))
      modifies this`page, this`freeList, this`nrFree
      ensures Valid() && Cover(Free()) == Cover(old(Free()))
      ensures Touches(before, page, Cover(Free()))
    {
      hide Tiling, Cover, FreeBlocks, Touches, Block.Pages, Block.Aligned, NoBuddiesBelow, ListsMatch;
      var order := 0;
      while order < MAX_ORDER - 1
        invariant order <= MAX_ORDER - 1
        invariant MergedBelow(order) && Cover(Free()) == Cover(old(Free()))
        invariant Touches(before, page, Cover(Free()))
      {
        ghost var mid := page;
        TryMergeOrder(order);
        TouchesTrans(before, mid, page, Cover(Free()));
        order := order + 1;
      }
      AllMerged(Free());
    }

    /** The inner loop of buddy_init over one region. */
    method ListRegion(region: Region, reserved: set<nat>, ghost before: Pages)
      requires Listing(region.base) && region.base <= region.end && region.Pages() <= page.Keys
      requires Touches(before, page, Cover(Free())) && managedPages == |Cover(Free())|
      requires Clean(page, Cover(Free()))
      modifies this
      ensures Clean(page, Cover(Free()))
      ensures Listing(region.end) && page.Keys == old(page.Keys)
      ensures Cover(Free()) == Cover(old(Free())) + (region.Pages() - reserved)
      ensures Touches(before, page, Cover(Free())) && managedPages == |Cover(Free())|
    {
      hide Tiling, Cover, FreeBlocks, Touches, Block.Pages, Block.Aligned, Region.Pages, FreeArea.Listing, Clean;
      var pfn := region.base;
      EmptyRegion(pfn, reserved);
      while pfn < region.end
        invariant region.base <= pfn <= region.end
        invariant Listing(pfn)
        invariant Cover(Free()) == Cover(old(Free())) + (Region(region.base, pfn).Pages() - reserved)
        invariant page.Keys == old(page.Keys) && Touches(before, page, Cover(Free()))
        invariant managedPages == |Cover(Free())| && Clean(page, Cover(Free()))
      {
        GrowRegion(region.base, pfn, region.end);
        GrowListed(Cover(old(Free())), region.base, pfn, reserved);
        if pfn in reserved {
          LaterLimit(pfn, pfn + 1);
        } else {
          AddBootPage(pfn, before);
          managedPages := managedPages + 1;
        }
        pfn := pfn + 1;
      }
    }

    lemma LaterLimit(limit: nat, later: nat)
      requires Listing(limit) && limit <= later
      ensures Listing(later)
    {
    }

    lemma StartMerging(limit: nat)
      requires Listing(limit)
      ensures MergedBelow(0)
    {
    }

    /** During boot: only single pages below `limit` are listed, in ascending order. */
    ghost predicate Listing(limit: nat)
      reads this`page, this`freeList, this`nrFree
    {
      && Lists() && Tiling(Free()) && Cover(Free()) <= page.Keys
      && (forall o :: 0 < o < MAX_ORDER ==> freeList[o] == [])
      && Ascending(freeList[0]) && AllBelow(freeList[0], limit)
    }

    method AddBootPage(p: nat, ghost before: Pages)
      requires Listing(p) && p in page
      requires Touches(before, page, Cover(Free())) && Clean(page, Cover(Free()))
      modifies this`page, this`freeList, this`nrFree
      ensures Clean(page, Cover(Free()))
      ensures Listing(p + 1) && page.Keys == old(page.Keys)
      ensures p !in Cover(old(Free())) && Cover(Free()) == Cover(old(Free())) + {p}
      ensures Touches(before, page, Cover(Free()))
    {
      hide Tiling, Cover, FreeBlocks, Touches, Block.Pages, Block.Aligned;
      NotListedYet(freeList, nrFree, page, p);
      AddPageTiling(Free(), p);
      NotHeadOutside(page, p);
      TouchesMore(before, page, Cover(Free()), Cover(Free()) + {p});
      AddLoose(p, 0, before, Cover(Free()) + {p});
      assert Free() == old(Free()) + {Block(p, 0)};
    }

    /** add_to_free_area: to the tail of the list of its order. */
    method AddToFreeArea(p: nat, o: nat)
      requires Lists() && o < MAX_ORDER
      requires p in page && !page[p].buddy && page[p].order == o && !page[p].slab
      modifies this`page, this`freeList, this`nrFree
      ensures Lists()
      ensures page == old(page)[p := old(page[p]).(buddy := true, pcp := false)]
      ensures freeList == old(freeList)[o := old(freeList[o]) + [p]]
      ensures Free() == old(Free()) + {Block(p, o)} && Block(p, o) !in old(Free())
    {
      FreeBlocksSet(page, p, page[p].(buddy := true, pcp := false));
      page := page[p := page[p].(buddy := true, pcp := false)];
      freeList := freeList[o := freeList[o] + [p]];
      nrFree := nrFree[o := nrFree[o] + 1];
    }

    /** remove_from_free_area */
    method RemoveFromFreeArea(p: nat, o: nat)
      requires Lists() && o < MAX_ORDER && p in freeList[o]
      modifies this`page, this`freeList, this`nrFree
      ensures Lists()
      ensures page == old(page)[p := old(page[p]).(buddy := false)]
      ensures freeList == old(freeList)[o := Without(old(freeList[o]), p)]
      ensures Free() == old(Free()) - {Block(p, o)}
      ensures Block(p, o) in old(Free())
    {
      WithoutFacts(freeList[o], p);
      FreeBlocksClear(page, p, page[p].(buddy := false));
      page := page[p := page[p].(buddy := false)];
      freeList := freeList[o := Without(freeList[o], p)];
      nrFree := nrFree[o := nrFree[o] - 1];
    }

    /** __buddy_alloc_locked: the smallest large enough block, split down to `order`. */
    method AllocLocked(order: nat) returns (r: Option<nat>)
      requires Valid()
      modifies this`page, this`freeList, this`nrFree
      ensures Valid()
      ensures r.None? <==> order >= MAX_ORDER || !HasRun(Cover(old(Free())), order)
      ensures r.None? ==> page == old(page) && freeList == old(freeList) && nrFree == old(nrFree)
      ensures r.Some? ==>
                var b := Block(r.value, order);
                && b.Aligned() && b.Pages() <= Cover(old(Free())) && b.pfn in page
                && Cover(Free()) == Cover(old(Free())) - b.Pages()
                && page[b.pfn].order == order && !page[b.pfn].buddy && !page[b.pfn].slab
      ensures Touches(old(page), page, Cover(old(Free())))
    {
      hide Tiling, NoBuddies, Cover, HasRun, FreeBlocks, Block.Pages, Block.Aligned, Touches;
      TouchesNothing(page, Cover(Free()));
      if order >= MAX_ORDER {
        return None;
      }
      var current := order;
      while current < MAX_ORDER && nrFree[current] == 0
        invariant order <= current <= MAX_ORDER
        invariant forall k :: order <= k < current ==> freeList[k] == []
      {
        current := current + 1;
      }
      if current == MAX_ORDER {
        NoRunWithoutBlock(Free(), order, freeList, nrFree, page);
        return None;
      }
      HeadIsFree(freeList, nrFree, page, current);
      BlockGivesRun(Free(), Block(freeList[current][0], current), order);
      TakeOut(Free(), Block(freeList[current][0], current));
      while current > order
        invariant order <= current < MAX_ORDER
        invariant Lists() && Tiling(Free()) && Cover(Free()) == Cover(old(Free()))
        invariant |freeList[current]| > 0
        invariant forall k :: order <= k < current ==> freeList[k] == []
        invariant NoBuddies(Free() - {Block(freeList[current][0], current)})
        invariant page.Keys == old(page.Keys) && Touches(old(page), page, Cover(old(Free())))
      {
        ghost var mid := page;
        SplitFirst(current);
        TouchesTrans(old(page), mid, page, Cover(old(Free())));
        current := current - 1;
      }
      ghost var mid := page;
      var p := TakeFirst(order);
      TouchesTrans(old(page), mid, page, Cover(old(Free())));
      r := Some(p);
    }

    /** The head of a list leaves it as the allocated block. */
    method TakeFirst(order: nat) returns (p: nat)
      requires Lists() && Tiling(Free()) && order < MAX_ORDER && |freeList[order]| > 0
      requires NoBuddies(Free() - {Block(freeList[order][0], order)})
      modifies this`page, this`freeList, this`nrFree
      ensures Lists() && Tiling(Free()) && NoBuddies(Free())
      ensures Cover(Free()) == Cover(old(Free())) - Block(p, order).Pages()
      ensures Block(p, order).Aligned() && Block(p, order).Pages() <= Cover(old(Free()))
      ensures p in page && page[p].order == order && !page[p].buddy && !page[p].slab
      ensures Touches(old(page), page, Cover(old(Free())))
    {
      hide Tiling, NoBuddies, Cover, FreeBlocks, Block.Pages, Block.Aligned;
      p := freeList[order][0];
      HeadIsFree(freeList, nrFree, page, order);
      TakeOut(Free(), Block(p, order));
      RemoveFromFreeArea(p, order);
    }

    /** One round of the splitting loop: the first block of `current` becomes two of `current - 1`. */
    method SplitFirst(current: nat)
      requires Lists() && Tiling(Free()) && Cover(Free()) <= page.Keys
      requires 0 < current < MAX_ORDER && |freeList[current]| > 0 && freeList[current - 1] == []
      requires NoBuddies(Free() - {Block(freeList[current][0], current)})
      modifies this`page, this`freeList, this`nrFree
      ensures Lists() && Tiling(Free()) && page.Keys == old(page.Keys)
      ensures |freeList[current - 1]| == 2
      ensures NoBuddies(Free() - {Block(freeList[current - 1][0], current - 1)})
      ensures Cover(Free()) == Cover(old(Free()))
      ensures forall k :: 0 <= k < current - 1 ==> freeList[k] == old(freeList[k])
      ensures Touches(old(page), page, Cover(old(Free())))
    {
      hide Tiling, NoBuddies, Cover, FreeBlocks, Block.Pages, Block.Aligned, Touches, BuddyPfn, Pow2, ListsMatch,
           Without;
      ghost var all := Cover(Free());
      ListFacts(freeList, nrFree, page, current);
      var p := freeList[current][0];
      var newOrder := current - 1;
      var b := BuddyPfn(p, newOrder);
      ghost var whole, lo := Block(p, current), Block(p, newOrder);
      HeadIsFree(freeList, nrFree, page, current);
      SplitTiling(Free(), whole, Free() - {whole}, lo);
      RemoveFromFreeArea(p, current);
      TouchesOne(old(page), p, page[p], all);

      NotHeadOutside(page, b);
      AddLoose(b, newOrder, old(page), all);
      NotHeadOutside(page, p);
      AddLoose(p, newOrder, old(page), all);
    }

    /** Gives a page that heads no free block its order, clears its flags and lists it. */
    method AddLoose(p: nat, o: nat, ghost before: Pages, ghost where: set<nat>)
      requires Lists() && p in page && !page[p].buddy && o < MAX_ORDER
      requires Touches(before, page, where) && p in where
      modifies this`page, this`freeList, this`nrFree
      ensures Lists() && Free() == old(Free()) + {Block(p, o)}
      ensures freeList == old(freeList)[o := old(freeList[o]) + [p]]
      ensures page.Keys == old(page.Keys) && Touches(before, page, where)
      ensures page == old(page)[p := Page(o, true, false, false, false)]
    {
      hide FreeBlocks, Touches, ListsMatch;
      ghost var loose := Page(o, false, false, false, false);
      FreeBlocksSame(page, p, loose);
      ListsSame(freeList, nrFree, page, p, loose);
      TouchesStep(before, page, p, loose, where);
      page := page[p := Page(o, false, false, false, false)];
      TouchesStep(before, page, p, loose.(buddy := true), where);
      AddToFreeArea(p, o);
    }

    /** Rewrites the record of a page outside every free block. */
    method SetOwned(p: nat, v: Page)
      requires Valid() && p in page && p !in Cover(Free()) && !v.buddy
      modifies this`page
      ensures Valid() && Free() == old(Free()) && page == old(page)[p := v]
    {
      hide FreeBlocks, Cover, Tiling, NoBuddies, ListsMatch;
      NotHeadOutside(page, p);
      FreeBlocksSame(page, p, v);
      ListsSame(freeList, nrFree, page, p, v);
      page := page[p := v];
    }

    /** The page passes the checks that open __buddy_free_locked. */
    predicate Freeable(p: nat)
      requires p in page
      reads this`page
    {
      page[p].order < MAX_ORDER && !page[p].reserved && !page[p].buddy && !page[p].pcp
    }

    /** __buddy_free_locked: merge with free buddies as far as possible. */
    method FreeLocked(p: nat)
      requires Valid() && p in page
      requires Freeable(p) ==>
                 var b := Block(p, page[p].order);
                 b.Aligned() && b.Pages() <= page.Keys && b.Pages() !! Cover(Free())
      modifies this`page, this`freeList, this`nrFree
      ensures Valid()
      ensures old(page[p].order >= MAX_ORDER || page[p].reserved || page[p].buddy || page[p].pcp) <==> !old(Freeable(p))
      ensures !old(Freeable(p)) ==> page == old(page) && freeList == old(freeList) && nrFree == old(nrFree)
      ensures old(Freeable(p)) ==> Cover(Free()) == Cover(old(Free())) + Block(p, old(page[p].order)).Pages()
      ensures Touches(old(page), page, Cover(Free()))
    {
      hide Tiling, NoBuddies, Cover, FreeBlocks, Block.Pages, Block.Aligned, Touches, BuddyPfn, Pow2, Block.Parent;
      TouchesNothing(page, Cover(Free()));
      var order := page[p].order;
      if order >= MAX_ORDER {
        return;
      }
      if page[p].reserved || page[p].buddy || page[p].pcp {
        return;
      }
      ghost var target := Cover(Free()) + Block(p, order).Pages();
      TouchesNothing(page, target);
      var curr := p;
      while order < MAX_ORDER - 1
        invariant order < MAX_ORDER && curr in page && page.Keys == old(page.Keys)
        invariant Lists() && Tiling(Free()) && NoBuddies(Free())
        invariant Block(curr, order).Aligned()
        invariant Block(curr, order).Pages() !! Cover(Free())
        invariant Cover(Free()) + Block(curr, order).Pages() == target
        invariant Touches(old(page), page, target)
      {
        ghost var c := Block(curr, order);
        var buddy := BuddyPfn(curr, order);
        FreeBlocksAt(page, c.Buddy());
        if buddy in page && page[buddy].buddy && page[buddy].order == order {
          MergeStep(Free(), c, Free() - {c.Buddy()});
          TouchesStep(old(page), page, buddy, page[buddy].(buddy := false), target);
          RemoveFromFreeArea(buddy, order);
          if curr > buddy {
            curr := buddy;
          }
          order := order + 1;
          assert Block(curr, order) == c.Parent();
        } else {
          break;
        }
      }
      FreeBlocksAt(page, Block(curr, order).Buddy());
      PutBack(Free(), Block(curr, order));
      NotHeadOutside(page, curr);
      PfnInPages(Block(curr, order));
      AddLoose(curr, order, old(page), target);
    }

    /** Nothing above `top` is free and everything below it is merged. */
    ghost predicate MergedBelow(top: nat)
      reads this`page, this`freeList, this`nrFree
    {
      && Lists() && Tiling(Free()) && Cover(Free()) <= page.Keys
      && NoBuddiesBelow(Free(), top)
      && (forall o :: top < o < MAX_ORDER ==> freeList[o] == [])
      && (top < MAX_ORDER ==> Ascending(freeList[top]))
    }

    /** try_merge_order: the boot-time pass over one list.  `pos` and `n` are list nodes; None is the list head. */
    method TryMergeOrder(order: nat)
      requires MergedBelow(order)
      modifies this`page, this`freeList, this`nrFree
      ensures order < MAX_ORDER - 1 ==> MergedBelow(order + 1)
      ensures order >= MAX_ORDER - 1 ==> MergedBelow(order)
      ensures Cover(Free()) == Cover(old(Free()))
      ensures Touches(old(page), page, Cover(old(Free())))
    {
      hide Tiling, Cover, FreeBlocks, Touches, Block.Pages, Block.Aligned, NoBuddiesBelow, ListsMatch, Block.Parent,
           Pow2, BuddyPfn, NextIn, MidPass, NoDup;
      TouchesNothing(page, Cover(Free()));
      if order >= MAX_ORDER - 1 {
        return;
      }
      ListFacts(freeList, nrFree, page, order);
      var pos := if freeList[order] == [] then None else Some(freeList[order][0]);
      var n := if pos.None? then None else NextIn(freeList[order], pos.value);
      if pos.Some? {
        NextInAt(freeList[order], 0);
      }
      ghost var i := 0;
      StartPass(freeList[order], freeList[order + 1], order);
      while pos.Some?
        invariant Lists() && Tiling(Free()) && Cover(Free()) == Cover(old(Free())) && page.Keys == old(page.Keys)
        invariant Touches(old(page), page, Cover(old(Free())))
        invariant NoBuddiesBelow(Free(), order)
        invariant |freeList| == MAX_ORDER && NoDup(freeList[order])
        invariant forall o :: order + 1 < o < MAX_ORDER ==> freeList[o] == []
        invariant i <= |freeList[order]| && MidPass(freeList[order], freeList[order + 1], order, i)
        invariant pos == (if i < |freeList[order]| then Some(freeList[order][i]) else None)
        invariant n == (if i + 1 < |freeList[order]| then Some(freeList[order][i + 1]) else None)
        decreases |freeList[order]| - i
      {
        var p := pos.value;
        var buddy := BuddyPfn(p, order);
        ghost var list := freeList[order];
        BuddyListed(freeList, nrFree, page, buddy, order);
        if buddy in page && page[buddy].buddy && page[buddy].order == order {
          NextIsBuddy(list, nrFree, page, freeList, order, i, freeList[order + 1]);
          MergePass(list, freeList[order + 1], order, i);
          NextInAt(list, i + 1);
          n := NextIn(freeList[order], n.value);
          MergeAt(p, buddy, order, i, old(page), Cover(old(Free())));
        } else {
          SkipPass(list, freeList[order + 1], order, i);
          i := i + 1;
        }
        pos := n;
        ListFacts(freeList, nrFree, page, order);
        if pos.Some? {
          NextInAt(freeList[order], i);
          n := NextIn(freeList[order], pos.value);
        }
      }
      NoBuddiesAt(freeList, nrFree, page, order, freeList[order + 1]);
    }

    /** Two adjacent list elements that are buddies leave the list, their parent joins the next one. */
    method MergeAt(p: nat, buddy: nat, order: nat, ghost i: nat, ghost before: Pages, ghost where: set<nat>)
      requires Lists() && Tiling(Free()) && order < MAX_ORDER - 1 && NoBuddiesBelow(Free(), order)
      requires |freeList| == MAX_ORDER && Cover(Free()) == where && where <= page.Keys
      requires i + 1 < |freeList[order]| && freeList[order][i] == p && freeList[order][i + 1] == buddy
      requires buddy == BuddyPfn(p, order) && p < buddy
      requires Touches(before, page, where)
      modifies this`page, this`freeList, this`nrFree
      ensures Lists() && Tiling(Free()) && NoBuddiesBelow(Free(), order) && Cover(Free()) == where
      ensures page.Keys == old(page.Keys) && Touches(before, page, where)
      ensures freeList == old(freeList)[order := old(freeList[order][..i] + freeList[order][i + 2..])]
                                       [order + 1 := old(freeList[order + 1] + [p])]
    {
      hide Tiling, Cover, FreeBlocks, Touches, Block.Pages, Block.Aligned, NoBuddiesBelow, ListsMatch, Pow2, BuddyPfn,
           Block.Parent, Without;
      ghost var list := freeList[order];
      ghost var c := Block(p, order);
      BuddyListed(freeList, nrFree, page, p, order);
      BuddyListed(freeList, nrFree, page, buddy, order);
      MergePair(Free(), c, Free() - {c} - {c.Buddy()} + {c.Parent()});
      ListFacts(freeList, nrFree, page, order);
      WithoutAt(list, i);
      InTiling(Free(), c);
      InTiling(Free(), c.Buddy());

      RemoveFromFreeArea(p, order);
      TouchesStep(before, old(page), p, page[p], where);
      ghost var mid := page;
      ListFacts(freeList, nrFree, page, order);
      assert freeList[order][i] == buddy;
      WithoutAt(freeList[order], i);
      RemoveFromFreeArea(buddy, order);
      TouchesStep(before, mid, buddy, page[buddy], where);
      var merged := if p < buddy then p else buddy;
      assert c.Parent() == Block(merged, order + 1);
      AddLoose(merged, order + 1, before, where);
      assert list[..i] + list[i + 1..][1..] == list[..i] + list[i + 2..];
    }
  }

  // ---------------------------------------------------------------- proof helpers

  /** Only pages of `where` were written, and no reserved or per-CPU mark was added. */
  ghost predicate Touches(before: Pages, after: Pages, where: set<nat>) {
    && before.Keys == after.Keys
    && (forall q :: q in after && q !in where ==> after[q] == before[q])
    && (forall q :: q in after && after[q].reserved ==> before[q].reserved)
    && (forall q :: q in after && after[q].pcp ==> before[q].pcp)
  }

  /** The pages carry neither the reserved nor the per-CPU mark. */
  ghost predicate Clean(page: Pages, where: set<nat>) {
    forall p :: p in where ==> p in page && !page[p].reserved && !page[p].pcp
  }

  lemma NoneClean(page: Pages)
    ensures Clean(page, {})
  {
  }

  lemma CleanKept(before: Pages, page: Pages, where: set<nat>)
    requires Clean(before, where) && Touches(before, page, where)
    ensures Clean(page, where)
  {
  }

  lemma TouchesNothing(page: Pages, where: set<nat>)
    ensures Touches(page, page, where)
  {
  }

  lemma TouchesOne(page: Pages, p: nat, v: Page, where: set<nat>)
    requires p in page && p in where
    requires (v.reserved ==> page[p].reserved) && (v.pcp ==> page[p].pcp)
    ensures Touches(page, page[p := v], where)
  {
  }

  lemma TouchesStep(before: Pages, page: Pages, p: nat, v: Page, where: set<nat>)
    requires Touches(before, page, where)
    requires p in page && p in where
    requires (v.reserved ==> page[p].reserved) && (v.pcp ==> page[p].pcp)
    ensures Touches(before, page[p := v], where)
  {
  }

  lemma TouchesMore(before: Pages, page: Pages, where: set<nat>, more: set<nat>)
    requires Touches(before, page, where) && where <= more
    ensures Touches(before, page, more)
  {
  }

  lemma TouchesTrans(a: Pages, b: Pages, c: Pages, where: set<nat>)
    requires Touches(a, b, where) && Touches(b, c, where)
    ensures Touches(a, c, where)
  {
  }

  lemma PfnInPages(b: Block)
    ensures b.pfn in b.Pages()
  {
    assert b.Has(b.pfn);
  }

  lemma FreeBlocksSame(page: Pages, p: nat, v: Page)
    requires p in page && !page[p].buddy && !v.buddy
    ensures FreeBlocks(page[p := v]) == FreeBlocks(page)
  {
    forall b ensures b in FreeBlocks(page[p := v]) <==> b in FreeBlocks(page) {
      FreeBlocksAt(page, b);
      FreeBlocksAt(page[p := v], b);
    }
  }

  lemma ListsSame(freeList: seq<seq<nat>>, nrFree: seq<nat>, page: Pages, p: nat, v: Page)
    requires ListsMatch(freeList, nrFree, page)
    requires p in page && !page[p].buddy && !v.buddy
    ensures ListsMatch(freeList, nrFree, page[p := v])
  {
  }

  lemma HeadIsFree(freeList: seq<seq<nat>>, nrFree: seq<nat>, page: Pages, o: nat)
    requires ListsMatch(freeList, nrFree, page) && o < MAX_ORDER && |freeList[o]| > 0
    ensures Block(freeList[o][0], o) in FreeBlocks(page)
  {
    FreeBlocksAt(page, Block(freeList[o][0], o));
    assert freeList[o][0] in freeList[o];
  }

  /** A page outside every free block is not the head of one. */
  lemma NotHeadOutside(page: Pages, p: nat)
    requires p in page && p !in Cover(FreeBlocks(page))
    ensures !page[p].buddy
  {
    if page[p].buddy {
      var b := Block(p, page[p].order);
      FreeBlocksAt(page, b);
      PfnInPages(b);
      assert false;
    }
  }

  /** An aligned run of pages inside a block of at least its order. */
  lemma BlockGivesRun(free: set<Block>, c: Block, order: nat)
    requires Tiling(free) && c in free && order <= c.order
    ensures HasRun(Cover(free), order)
  {
    var b := Block(c.pfn, order);
    ModPow2Down(c.pfn, order, c.order);
    Pow2Monotone(order, c.order);
    ContainedPages(free, c, b);
  }

  lemma NoRunWithoutBlock(free: set<Block>, order: nat, freeList: seq<seq<nat>>, nrFree: seq<nat>, page: Pages)
    requires free == FreeBlocks(page) && ListsMatch(freeList, nrFree, page)
    requires Tiling(free) && NoBuddies(free) && order < MAX_ORDER
    requires forall k :: order <= k < MAX_ORDER ==> freeList[k] == []
    ensures !HasRun(Cover(free), order)
  {
    if HasRun(Cover(free), order) {
      var b: Block :| b.order == order && b.Aligned() && b.Pages() <= Cover(free);
      var c := RunInOneBlock(free, b);
      BiggerContains(c, b);
      FreeBlocksAt(page, c);
      assert false;
    }
  }

  /** None of the first `i` list elements has its buddy on the list. */
  ghost predicate Unpaired(list: seq<nat>, o: nat, i: nat)
    requires i <= |list|
  {
    forall k :: 0 <= k < i ==> BuddyPfn(list[k], o) !in list
  }

  predicate AllBelow(list: seq<nat>, x: nat) {
    forall k :: 0 <= k < |list| ==> list[k] < x
  }

  /** State of the boot pass over `list` after `i` elements stay; merged blocks went to `next`. */
  ghost predicate MidPass(list: seq<nat>, next: seq<nat>, o: nat, i: nat)
    requires i <= |list|
  {
    && Ascending(list) && Ascending(next)
    && Unpaired(list, o, i)
    && (i < |list| ==> AllBelow(next, list[i]))
  }

  lemma StartPass(list: seq<nat>, next: seq<nat>, o: nat)
    requires Ascending(list) && next == []
    ensures MidPass(list, next, o, 0)
  {
  }

  lemma SkipPass(list: seq<nat>, next: seq<nat>, o: nat, i: nat)
    requires i < |list| && MidPass(list, next, o, i) && BuddyPfn(list[i], o) !in list
    ensures MidPass(list, next, o, i + 1)
  {
  }

  lemma MergePass(list: seq<nat>, next: seq<nat>, o: nat, i: nat)
    requires i + 1 < |list| && MidPass(list, next, o, i)
    ensures MidPass(list[..i] + list[i + 2..], next + [list[i]], o, i)
  {
    var after := list[..i] + list[i + 2..];
    assert forall x :: x in after ==> x in list;
  }

  lemma InTiling(free: set<Block>, b: Block)
    requires b in free
    ensures b.pfn in Cover(free)
  {
    PfnInPages(b);
  }

  lemma ListFacts(freeList: seq<seq<nat>>, nrFree: seq<nat>, page: Pages, o: nat)
    requires ListsMatch(freeList, nrFree, page) && o < MAX_ORDER
    ensures |freeList| == MAX_ORDER && NoDup(freeList[o])
  {
  }

  lemma BuddyListed(freeList: seq<seq<nat>>, nrFree: seq<nat>, page: Pages, p: nat, o: nat)
    requires ListsMatch(freeList, nrFree, page) && o < MAX_ORDER
    ensures p in page && page[p].buddy && page[p].order == o <==> p in freeList[o]
    ensures p in freeList[o] <==> Block(p, o) in FreeBlocks(page)
  {
    FreeBlocksAt(page, Block(p, o));
  }

  lemma NextIsBuddy(list: seq<nat>, nrFree: seq<nat>, page: Pages, freeList: seq<seq<nat>>, o: nat, i: nat,
                    next: seq<nat>)
    requires ListsMatch(freeList, nrFree, page) && o < MAX_ORDER && list == freeList[o] && Tiling(FreeBlocks(page))
    requires i < |list| && MidPass(list, next, o, i) && BuddyPfn(list[i], o) in list
    ensures i + 1 < |list| && list[i + 1] == BuddyPfn(list[i], o) && list[i] < list[i + 1]
  {
    var j :| 0 <= j < |list| && list[j] == BuddyPfn(list[i], o);
    forall k | 0 <= k < |list| ensures Block(list[k], o).Aligned() {
      BuddyListed(freeList, nrFree, page, list[k], o);
    }
    Halves(Block(list[i], o));
    if j < i {
      assert false;
    }
    assert j != i;
    BuddyIsNext(list, o, i, j);
  }

  lemma NoBuddiesAt(freeList: seq<seq<nat>>, nrFree: seq<nat>, page: Pages, o: nat, next: seq<nat>)
    requires ListsMatch(freeList, nrFree, page) && o < MAX_ORDER
    requires NoBuddiesBelow(FreeBlocks(page), o)
    requires MidPass(freeList[o], next, o, |freeList[o]|)
    ensures NoBuddiesBelow(FreeBlocks(page), o + 1) && Ascending(next)
  {
    forall b | b in FreeBlocks(page) && b.order == o ensures b.Buddy() !in FreeBlocks(page) {
      BuddyListed(freeList, nrFree, page, b.pfn, o);
      BuddyListed(freeList, nrFree, page, b.Buddy().pfn, o);
    }
  }

  // ---------------------------------------------------------------- boot helpers

  lemma NothingFree(page: Pages)
    requires forall p :: p in page ==> !page[p].buddy
    ensures FreeBlocks(page) == {} && Cover({}) == {} && Tiling({})
  {
  }

  lemma NothingListed(freeList: seq<seq<nat>>, nrFree: seq<nat>, page: Pages)
    requires forall p :: p in page ==> !page[p].buddy
    requires freeList == seq(MAX_ORDER, _ => []) && nrFree == seq(MAX_ORDER, _ => 0)
    ensures ListsMatch(freeList, nrFree, page)
  {
  }

  lemma EmptyRegion(base: nat, reserved: set<nat>)
    ensures Region(base, base).Pages() - reserved == {}
  {
  }

  lemma GrowRegion(base: nat, pfn: nat, end: nat)
    requires base <= pfn < end
    ensures Region(base, pfn + 1).Pages() == Region(base, pfn).Pages() + {pfn}
    ensures pfn in Region(base, end).Pages()
  {
    assert Region(base, end).Has(pfn);
    forall p: nat ensures p in Region(base, pfn + 1).Pages() <==> p in Region(base, pfn).Pages() || p == pfn {
      assert Region(base, pfn + 1).Has(p) <==> Region(base, pfn).Has(p) || p == pfn;
    }
  }

  lemma GrowListed(done: set<nat>, base: nat, pfn: nat, reserved: set<nat>)
    requires base <= pfn
    ensures done + (Region(base, pfn + 1).Pages() - reserved)
         == done + (Region(base, pfn).Pages() - reserved) + (if pfn in reserved then {} else {pfn})
  {
    GrowRegion(base, pfn, pfn + 1);
  }

  lemma RegionsInOrder(regions: seq<Region>, k: nat)
    requires SortedRegions(regions) && k < |regions|
    ensures regions[k].base <= regions[k].end
    ensures k > 0 ==> regions[k - 1].end <= regions[k].base
  {
  }

  lemma NoRegionsManaged(reserved: set<nat>)
    ensures Managed([], reserved) == {}
  {
  }

  lemma GrowManaged(regions: seq<Region>, k: nat, reserved: set<nat>)
    requires k < |regions|
    ensures Managed(regions[..k + 1], reserved) == Managed(regions[..k], reserved) + (regions[k].Pages() - reserved)
    ensures Region(regions[k].base, regions[k].end) == regions[k]
  {
    assert regions[..k + 1][..k] == regions[..k];
  }

  /** A frame above every listed single page is in no free block. */
  lemma NotListedYet(freeList: seq<seq<nat>>, nrFree: seq<nat>, page: Pages, p: nat)
    requires ListsMatch(freeList, nrFree, page)
    requires forall o :: 0 < o < MAX_ORDER ==> freeList[o] == []
    requires AllBelow(freeList[0], p)
    ensures p !in Cover(FreeBlocks(page))
  {
    forall b | b in FreeBlocks(page) ensures p !in b.Pages() {
      FreeBlocksAt(page, b);
      assert b.order == 0;
      assert !b.Has(p);
    }
  }

  lemma AddPageTiling(free: set<Block>, p: nat)
    requires Tiling(free) && p !in Cover(free)
    ensures Tiling(free + {Block(p, 0)})
    ensures Cover(free + {Block(p, 0)}) == Cover(free) + {p}
  {
    var b := Block(p, 0);
    assert Pow2(0) == 1;
    forall q: nat ensures q in b.Pages() <==> q == p {
      assert b.Has(q) <==> q == p;
    }
    TilingAdd(free, b);
    CoverAdd(free, b);
  }

  lemma AllMerged(free: set<Block>)
    requires NoBuddiesBelow(free, MAX_ORDER - 1)
    ensures NoBuddies(free)
  {
  }
}
