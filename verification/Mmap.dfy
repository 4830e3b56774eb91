/** Where an anonymous mapping goes (mm/mmap.c): first fit over the VMA list. */
module Mmap {
  import opened Arithmetic
  import opened Vma
  import opened AddressSpace
  import opened Options

  /** page: the page size; top: the first address user mappings may not reach; limit: where addresses wrap. */
  datatype Layout = Layout(page: nat, top: nat, limit: nat) {
    predicate Valid() {
      0 < page && top < limit && limit % page == 0
    }
  }

  datatype Target = Chosen(addr: nat) | Refused(error: Error)

  /** The range lies in user space. */
  ghost predicate InUserSpace(g: Layout, start: nat, len: nat) {
    0 < len && g.page <= start && start + len <= g.top
  }

  /** The range can be mapped. */
  ghost predicate Fits(g: Layout, list: seq<Vma>, start: nat, len: nat) {
    InUserSpace(g, start, len) && NothingMapped(list, start, start + len)
  }

  /** The addresses a search from start considers. */
  ghost predicate Candidate(g: Layout, start: nat, c: nat)
    requires 0 < g.page
  {
    c == start || (start < c && c % g.page == 0)
  }

  ghost predicate NoFitBelow(g: Layout, list: seq<Vma>, start: nat, len: nat, cursor: nat)
    requires 0 < g.page
  {
    forall c: nat :: Candidate(g, start, c) && c < cursor ==> !Fits(g, list, c, len)
  }

  ghost predicate NoFit(g: Layout, list: seq<Vma>, start: nat, len: nat)
    requires 0 < g.page
  {
    forall c: nat :: Candidate(g, start, c) ==> !Fits(g, list, c, len)
  }

  /** The least address a search from start may return. */
  ghost predicate FirstFit(g: Layout, list: seq<Vma>, start: nat, len: nat, r: nat)
    requires 0 < g.page
  {
    Candidate(g, start, r) && Fits(g, list, r, len) && NoFitBelow(g, list, start, len, r)
  }

  /** mmap_range_valid, with address arithmetic that wraps. */
  method RangeValid(g: Layout, start: nat, len: nat) returns (r: bool)
    requires g.Valid() && len < g.limit
    ensures r <==> InUserSpace(g, start, len)
    ensures r <==> 0 < len && g.page <= start && start + len <= g.top
  {
    if len == 0 || start < g.page {
      return false;
    }
    if start >= g.limit {  // an aligned-up address that wrapped to 0
      return false;
    }
    WrapsOnce(start, len, g.limit);
    var end := (start + len) % g.limit;
    return end >= start && end <= g.top;
  }

  /** vma_range_is_free. */
  method RangeIsFree(g: Layout, list: seq<Vma>, start: nat, len: nat) returns (r: bool)
    requires g.Valid() && Sorted(list) && len < g.limit
    ensures r <==> Fits(g, list, start, len)
  {
    var valid := RangeValid(g, start, len);
    if !valid {
      return false;
    }
    var i := 0;
    while i < |list|
      invariant 0 <= i <= |list|
      invariant forall k :: 0 <= k < i ==> list[k].end <= start
    {
      if list[i].end <= start {
        i := i + 1;
        continue;
      }
      if list[i].start >= start + len {
        break;
      }
      Meets(list, i, Vma(start, start + len, 0));
      return false;
    }
    PutAt(list, i, Vma(start, start + len, 0));
    return true;
  }

  /**
   * find_free_range_from: the least candidate that fits, 0 exactly if none does. A search from the first
   * page is refused whatever is free above it.
   */
  method FindFreeFrom(g: Layout, list: seq<Vma>, start: nat, len: nat) returns (r: nat)
    requires g.Valid() && Sorted(list) && len < g.limit
    ensures r != 0 ==> FirstFit(g, list, start, len, r)
    ensures g.page <= start ==> (r == 0 <==> NoFit(g, list, start, len))
    ensures start < g.page ==> r == 0
  {
    hide Sorted, NothingMapped, NoFitBelow, At;
    var cursor: nat := start;
    var valid := RangeValid(g, start, len);
    NothingBelow(g, list, start, len);
    if !valid {
      if g.page <= start {
        NoneAbove(g, list, start, len, start);
      }
      return 0;
    }
    var i := 0;
    while i < |list|
      invariant 0 <= i <= |list| && Candidate(g, start, cursor) && InUserSpace(g, cursor, len)
      invariant forall k :: 0 <= k < i ==> list[k].end <= cursor
      invariant NoFitBelow(g, list, start, len, cursor)
    {
      if list[i].end <= cursor {
        i := i + 1;
        continue;
      }
      if cursor + len <= list[i].start {
        PutAt(list, i, Vma(cursor, cursor + len, 0));
        return cursor;
      }
      Skip(g, list, i, start, len, cursor);
      AlignFacts(list[i].end, g.page);
      assert AlignUp(list[i].end, g.page) >= cursor;
      cursor := AlignUp(list[i].end, g.page);
      valid := RangeValid(g, cursor, len);
      if !valid {
        NoneAbove(g, list, start, len, cursor);
        return 0;
      }
      i := i + 1;
    }
    PutAt(list, i, Vma(cursor, cursor + len, 0));
    return cursor;
  }

  lemma NothingBelow(g: Layout, list: seq<Vma>, start: nat, len: nat)
    requires 0 < g.page
    ensures NoFitBelow(g, list, start, len, start)
  {
  }

  /** If the range at the cursor leaves user space, so does every later one. */
  lemma NoneAbove(g: Layout, list: seq<Vma>, start: nat, len: nat, cursor: nat)
    requires 0 < g.page && NoFitBelow(g, list, start, len, cursor) && !InUserSpace(g, cursor, len)
    requires g.page <= cursor
    ensures NoFit(g, list, start, len)
  {
  }

  /** No candidate between the cursor and the page after an interval in the way fits. */
  lemma Skip(g: Layout, list: seq<Vma>, i: nat, start: nat, len: nat, cursor: nat)
    requires g.Valid() && Sorted(list) && i < |list| && 0 < len
    requires Candidate(g, start, cursor) && NoFitBelow(g, list, start, len, cursor)
    requires cursor < list[i].end && list[i].start < cursor + len
    ensures cursor < AlignUp(list[i].end, g.page)
    ensures NoFitBelow(g, list, start, len, AlignUp(list[i].end, g.page))
  {
    AlignFacts(list[i].end, g.page);
    var next := AlignUp(list[i].end, g.page);
    forall c: nat | Candidate(g, start, c) && cursor <= c < next ensures !Fits(g, list, c, len) {
      if c != cursor {
        if list[i].end <= c {
          MultiplesApart(c, next, g.page);
          assert false;
        }
      }
      Meets(list, i, Vma(c, c + len, 0));
    }
  }

  // ---------------------------------------------------------------- above the heap

  /** The page boundaries that leave a page free behind the heap. */
  ghost predicate AboveHeap(g: Layout, brk: nat, c: nat)
    requires 0 < g.page
  {
    c % g.page == 0 && brk + g.page <= c
  }

  /** The least of them that fits. */
  ghost predicate FirstAboveHeap(g: Layout, list: seq<Vma>, brk: nat, len: nat, r: nat)
    requires 0 < g.page
  {
    AboveHeap(g, brk, r) && Fits(g, list, r, len)
    && forall c: nat :: AboveHeap(g, brk, c) && c < r ==> !Fits(g, list, c, len)
  }

  ghost predicate NoneAboveHeap(g: Layout, list: seq<Vma>, brk: nat, len: nat)
    requires 0 < g.page
  {
    forall c: nat :: AboveHeap(g, brk, c) ==> !Fits(g, list, c, len)
  }

  /** Where a search without a usable hint begins: at the first such boundary, or in the second page if that wraps. */
  function SearchBase(g: Layout, brk: nat): (b: nat)
    requires g.Valid()
    ensures b % g.page == 0 && g.page <= b
    ensures brk + 2 * g.page <= g.limit ==> brk + g.page <= b < brk + 2 * g.page
    ensures brk < g.limit < brk + 2 * g.page ==> b == g.page
  {
    BaseFacts(g, brk);
    var base := AlignUp(brk + g.page, g.page) % g.limit;
    if base < g.page then g.page else base
  }

  lemma BaseFacts(g: Layout, brk: nat)
    requires g.Valid()
    ensures
      var up := AlignUp(brk + g.page, g.page);
      && 0 <= up && up % g.limit % g.page == 0 && g.page % g.page == 0
      && (brk + 2 * g.page <= g.limit ==> brk + g.page <= up % g.limit < brk + 2 * g.page)
      && (brk < g.limit < brk + 2 * g.page ==> up % g.limit <= g.page)
  {
    hide AlignUp, AlignDown;
    var up := AlignUp(brk + g.page, g.page);
    AlignFacts(brk + g.page, g.page);
    ModKeepsMultiple(up, g.limit, g.page);
    MultipleMod(1, g.page);
    if brk + 2 * g.page <= g.limit {
      DivModUnique(up, g.limit, 0, up);
    } else if brk < g.limit {
      WrappedBase(g, up);
    }
  }

  lemma WrappedBase(g: Layout, up: nat)
    requires g.Valid() && up % g.page == 0 && g.limit - g.page < up < g.limit + 2 * g.page
    ensures up % g.limit <= g.page
  {
    if up < g.limit {
      MultiplesApart(up, g.limit, g.page);
    }
    MultipleMod(1, g.page);
    ModAdd(g.limit, g.page, g.page);
    if g.limit + g.page < up {
      MultiplesApart(g.limit + g.page, up, g.page);
    }
    hide Layout.Valid;
    MultipleMod(0, g.page);
    if g.limit < g.page {
      MultiplesApart(0, g.limit, g.page);
    }
    if up == g.limit {
      MultipleMod(1, g.limit);
    } else if g.limit == g.page {
      MultipleMod(2, g.limit);
    } else if up > g.limit {
      DivModUnique(up, g.limit, 1, up - g.limit);
    }
  }

  /** A search from there considers exactly those boundaries. */
  lemma HeapCandidates(g: Layout, brk: nat, c: nat)
    requires g.Valid() && brk + 2 * g.page <= g.limit
    ensures Candidate(g, SearchBase(g, brk), c) <==> AboveHeap(g, brk, c)
  {
    hide AlignUp, AlignDown;
    var b := SearchBase(g, brk);
    if brk + g.page <= c < b && c % g.page == 0 {
      MultiplesApart(c, b, g.page);
    }
  }

  lemma HeapSearch(g: Layout, list: seq<Vma>, brk: nat, len: nat)
    requires g.Valid() && brk + 2 * g.page <= g.limit
    ensures NoFit(g, list, SearchBase(g, brk), len) <==> NoneAboveHeap(g, list, brk, len)
    ensures forall r: nat ::
      FirstFit(g, list, SearchBase(g, brk), len, r) <==> FirstAboveHeap(g, list, brk, len, r)
  {
    hide AlignUp, AlignDown, Fits, SearchBase, Candidate, AboveHeap;
    forall c: nat ensures Candidate(g, SearchBase(g, brk), c) <==> AboveHeap(g, brk, c) {
      HeapCandidates(g, brk, c);
    }
  }

  /** find_free_range: from the hint if it lies above the heap, else from the page after the heap. */
  method FindFree(g: Layout, list: seq<Vma>, brk: nat, hint: nat, len: nat) returns (r: nat)
    requires g.Valid() && Sorted(list) && len < g.limit
    ensures r != 0 ==>
      FirstFit(g, list, hint, len, r) || FirstFit(g, list, SearchBase(g, brk), len, r)
    ensures hint >= SearchBase(g, brk) && !NoFit(g, list, hint, len) ==> FirstFit(g, list, hint, len, r)
    ensures r == 0 <==>
      NoFit(g, list, SearchBase(g, brk), len) && (hint >= SearchBase(g, brk) ==> NoFit(g, list, hint, len))
    ensures hint % g.page == 0 ==> (r == 0 <==> NoFit(g, list, SearchBase(g, brk), len))
    ensures brk + 2 * g.page <= g.limit && (hint < brk + g.page || NoFit(g, list, hint, len)) ==>
      if r == 0 then NoneAboveHeap(g, list, brk, len) else FirstAboveHeap(g, list, brk, len, r)
  {
    hide Sorted, NothingMapped, NoFitBelow, NoFit, FirstFit, At, AlignUp, AlignDown, FirstAboveHeap, NoneAboveHeap;
    var base := AlignUp(brk + g.page, g.page) % g.limit;
    if base < g.page {
      base := g.page;
    }
    if brk + 2 * g.page <= g.limit {
      HeapSearch(g, list, brk, len);
    }
    if hint >= base {
      r := FindFreeFrom(g, list, hint, len);
      if r != 0 {
        FitsFromBase(g, list, base, hint, len, r);
        FitsSomewhere(g, list, hint, len, r);
        return;
      }
    }
    r := FindFreeFrom(g, list, base, len);
  }

  lemma FitsFromBase(g: Layout, list: seq<Vma>, base: nat, hint: nat, len: nat, r: nat)
    requires g.Valid() && base <= hint && FirstFit(g, list, hint, len, r)
    ensures hint % g.page == 0 ==> !NoFit(g, list, base, len)
  {
    if hint % g.page == 0 {
      assert Candidate(g, base, r);
    }
  }

  lemma FitsSomewhere(g: Layout, list: seq<Vma>, start: nat, len: nat, r: nat)
    requires g.Valid() && FirstFit(g, list, start, len, r)
    ensures !NoFit(g, list, start, len)
  {
    assert Candidate(g, start, r);
  }

  // ---------------------------------------------------------------- sys_mmap

  /** The length of a mapping: whole pages, in address arithmetic that wraps. */
  function PageLength(g: Layout, len: nat): (n: nat)
    requires g.Valid()
    ensures n % g.page == 0
    ensures len + g.page <= g.limit ==> len <= n < len + g.page
    ensures len <= g.limit < len + g.page ==> n == 0
  {
    LengthFacts(g, len);
    AlignUp(len, g.page) % g.limit
  }

  lemma LengthFacts(g: Layout, len: nat)
    requires g.Valid()
    ensures
      var up := AlignUp(len, g.page);
      && 0 <= up && up % g.limit % g.page == 0
      && (len + g.page <= g.limit ==> len <= up % g.limit < len + g.page)
      && (len <= g.limit < len + g.page ==> up % g.limit == 0)
  {
    hide AlignUp, AlignDown;
    var up := AlignUp(len, g.page);
    AlignFacts(len, g.page);
    ModKeepsMultiple(up, g.limit, g.page);
    if len + g.page <= g.limit {
      DivModUnique(up, g.limit, 0, up);
    } else if len <= g.limit {
      if up < g.limit {
        MultiplesApart(up, g.limit, g.page);
      } else if g.limit < up {
        MultiplesApart(g.limit, up, g.page);
      }
      MultipleMod(1, g.limit);
    }
  }

  /** The last page boundary not above an address. */
  function HintOf(g: Layout, addr: nat): (h: nat)
    requires g.Valid()
    ensures h % g.page == 0 && h <= addr < h + g.page
  {
    AlignFacts(addr, g.page);
    if addr != 0 then AlignDown(addr, g.page) else 0
  }

  /** Where a mapping without a usable hint goes. */
  ghost predicate PlacedAboveHeap(g: Layout, list: seq<Vma>, brk: nat, len: nat, r: Target)
    requires 0 < g.page
  {
    if r.Chosen? then FirstAboveHeap(g, list, brk, len, r.addr)
    else r == Refused(ENOMEM) && NoneAboveHeap(g, list, brk, len)
  }

  /** The choice of the address: MAP_FIXED takes the given one or fails, otherwise the hint and then first fit. */
  method PickTarget(g: Layout, list: seq<Vma>, brk: nat, addr: nat, len: nat, fixed: bool) returns (r: Target)
    requires g.Valid() && Sorted(list) && len < g.limit
    ensures r.Chosen? ==> Fits(g, list, r.addr, len) && r.addr % g.page == 0
    ensures fixed && addr % g.page != 0 ==> r == Refused(EINVAL)
    ensures fixed && addr % g.page == 0 ==>
      r == if Fits(g, list, addr, len) then Chosen(addr) else Refused(ENOMEM)
    ensures !fixed && Fits(g, list, HintOf(g, addr), len) ==> r == Chosen(HintOf(g, addr))
    ensures !fixed && !Fits(g, list, HintOf(g, addr), len) ==>
      (r == Refused(ENOMEM) <==> NoFit(g, list, SearchBase(g, brk), len)) && r != Refused(EINVAL)
    ensures !fixed && !Fits(g, list, HintOf(g, addr), len) && brk + 2 * g.page <= g.limit ==>
      var hint := HintOf(g, addr);
      if hint < brk + g.page || NoFit(g, list, hint, len) then PlacedAboveHeap(g, list, brk, len, r)
      else r.Chosen? && FirstFit(g, list, hint, len, r.addr)
    ensures r.Refused? ==> r.error == EINVAL || r.error == ENOMEM
  {
    hide Sorted, Fits, NoFit, SearchBase, HintOf, FirstFit, FirstAboveHeap, NoneAboveHeap;
    ZeroNeverFits(g, list, len);
    if fixed {
      if addr % g.page != 0 {
        return Refused(EINVAL);
      }
      var free := RangeIsFree(g, list, addr, len);
      if !free {
        return Refused(ENOMEM);
      }
      return Chosen(addr);
    }
    var hint := HintOf(g, addr);
    if hint != 0 {
      var free := RangeIsFree(g, list, hint, len);
      if free {
        return Chosen(hint);
      }
    }
    if brk + 2 * g.page <= g.limit {
      HintAboveBase(g, brk, hint);
    }
    var target := FindFree(g, list, brk, hint, len);
    if target == 0 {
      return Refused(ENOMEM);
    }
    TargetFits(g, list, hint, len, target);
    TargetFits(g, list, SearchBase(g, brk), len, target);
    return Chosen(target);
  }

  lemma ZeroNeverFits(g: Layout, list: seq<Vma>, len: nat)
    requires g.Valid()
    ensures !Fits(g, list, 0, len)
  {
  }

  lemma TargetFits(g: Layout, list: seq<Vma>, start: nat, len: nat, r: nat)
    requires 0 < g.page && start % g.page == 0
    ensures FirstFit(g, list, start, len, r) ==> Fits(g, list, r, len) && r % g.page == 0
  {
  }

  lemma HintAboveBase(g: Layout, brk: nat, hint: nat)
    requires g.Valid() && brk + 2 * g.page <= g.limit && hint % g.page == 0
    ensures brk + g.page <= hint <==> SearchBase(g, brk) <= hint
  {
    HeapCandidates(g, brk, hint);
  }

  /**
   * sys_mmap with do_mmap, which ignores the result of the insertion: the chosen range is free, so the
   * insertion cannot fail and the new mapping is exactly the range that is returned.
   */
  method MapAnonymous(mm: MmStruct, g: Layout, brk: nat, addr: nat, len: nat, prot: nat, fixed: bool)
    returns (r: Target)
    requires mm.Valid() && g.Valid() && g.limit == mm.limit
    modifies mm`list
    ensures mm.Valid() && (old(Merged(mm.list)) ==> Merged(mm.list))
    ensures r.Chosen? ==> Fits(g, old(mm.list), r.addr, PageLength(g, len))
    ensures r.Chosen? ==>
      Overrides(old(mm.list), mm.list, r.addr, r.addr + PageLength(g, len), Some(prot))
    ensures r.Refused? ==> mm.list == old(mm.list)
    ensures PageLength(g, len) == 0 ==> r == Refused(EINVAL)
    ensures fixed && PageLength(g, len) != 0 && addr % g.page == 0 ==>
      r == if Fits(g, old(mm.list), addr, PageLength(g, len)) then Chosen(addr) else Refused(ENOMEM)
    ensures fixed && PageLength(g, len) != 0 && addr % g.page != 0 ==> r == Refused(EINVAL)
    ensures !fixed && r.Refused? && PageLength(g, len) != 0 ==>
      NoFit(g, old(mm.list), SearchBase(g, brk), PageLength(g, len))
    ensures !fixed && PageLength(g, len) != 0 && brk + 2 * g.page <= g.limit ==>
      var hint, n := HintOf(g, addr), PageLength(g, len);
      if Fits(g, old(mm.list), hint, n) then r == Chosen(hint)
      else if hint < brk + g.page || NoFit(g, old(mm.list), hint, n) then
        PlacedAboveHeap(g, old(mm.list), brk, n, r)
      else r.Chosen? && FirstFit(g, old(mm.list), hint, n, r.addr)
  {
    hide Sorted, NothingMapped, NoFitBelow, NoFit, Overrides, Merged, At, AlignUp, AlignDown, FirstFit, PlacedAboveHeap;
    var size := AlignUp(len, g.page) % g.limit;
    if size == 0 {
      return Refused(EINVAL);
    }
    r := PickTarget(g, mm.list, brk, addr, size, fixed);
    if r.Refused? {
      return;
    }
    AlignFacts(len, g.page);
    ModKeepsMultiple(AlignUp(len, g.page), g.limit, g.page);
    AlignedStays(size, g.page);
    AlignedStays(r.addr, g.page);
    var status := mm.Add(AlignDown(r.addr, g.page), AlignUp(size, g.page), prot);
    assert status == Success;
  }

  lemma AlignedStays(x: nat, page: nat)
    requires page > 0 && x % page == 0
    ensures AlignUp(x, page) == x && AlignDown(x, page) == x
  {
    hide AlignUp, AlignDown;
    AlignFacts(x, page);
    if AlignDown(x, page) < x {
      MultiplesApart(AlignDown(x, page), x, page);
    }
    if x < AlignUp(x, page) {
      MultiplesApart(x, AlignUp(x, page), page);
    }
  }

  /** A C int made from an address: its low 32 bits with their sign. */
  function AsInt(x: nat): int {
    var low := x % 0x1_0000_0000;
    if low < 0x8000_0000 then low else low - 0x1_0000_0000
  }

  /** sys_mmap keeps its result in an int: the caller gets the address back exactly if it lies below 2^31. */
  lemma ReturnedAddress(x: nat)
    ensures AsInt(x) == x <==> x < 0x8000_0000
  {
    if x < 0x1_0000_0000 {
      DivModUnique(x, 0x1_0000_0000, 0, x);
    }
  }

  lemma ReturnedAddressTruncated()
    ensures AsInt(0x20_8000_0000) == -0x8000_0000
  {
    DivModUnique(0x20_8000_0000, 0x1_0000_0000, 0x20, 0x8000_0000);
  }
}
