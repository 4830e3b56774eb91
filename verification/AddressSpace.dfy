/** The operations on a process's VMA list (mm/vma.c). */
module AddressSpace {
  import opened Arithmetic
  import opened Vma
  import opened Options

  datatype Error = EINVAL | EFAULT | ENOMEM

  datatype Status = Success | Failure(error: Error)

  class MmStruct {
    /** The number of addresses: address arithmetic wraps at it. */
    const limit: nat
    var list: seq<Vma>

    constructor (limit: nat)
      ensures list == [] && this.limit == limit
    {
      this.limit := limit;
      list := [];
    }

    ghost predicate Valid()
      reads this`list
    {
      Sorted(list)
    }

    // ---------------------------------------------------------------- lookups

    /** vma_find: intervals without flags are not found. */
    method Find(va: nat) returns (r: Option<Vma>)
      requires Valid()
      ensures r.Some? ==> r.value in list && r.value.Has(va)
      ensures r.Some? <==> At(list, va).Some? && At(list, va).value != 0
      ensures r.Some? ==> At(list, va) == Some(r.value.flags)
    {
      var i := 0;
      while i < |list|
        invariant 0 <= i <= |list|
        invariant forall k :: 0 <= k < i ==> list[k].Has(va) ==> list[k].flags == 0
      {
        if list[i].start <= va && list[i].end > va && list[i].flags != 0 {
          AtIndex(list, i, va);
          return Some(list[i]);
        }
        i := i + 1;
      }
      if At(list, va).Some? {
        ghost var k := AtWitness(list, va);
        assert list[k].flags == 0;
      }
      return None;
    }

    /** vma_range_is_mapped: the range is not empty and has no hole. */
    method RangeIsMapped(start: nat, end: nat) returns (r: bool)
      requires Valid()
      ensures r <==> start < end && FullyMapped(list, start, end)
    {
      var cursor := start;
      if start >= end {
        return false;
      }
      var i := 0;
      while i < |list|
        invariant 0 <= i <= |list| && start <= cursor < end
        invariant FullyMapped(list, start, cursor)
        invariant forall k :: 0 <= k < i ==> list[k].end <= cursor
      {
        var v := list[i];
        if v.end <= cursor {
          i := i + 1;
          continue;
        }
        if v.start > cursor {
          AtNone(list, cursor);
          return false;
        }
        CoveredBy(list, i, start, cursor);
        if v.end >= end {
          return true;
        }
        cursor := v.end;
        i := i + 1;
      }
      AtNone(list, cursor);
      return false;
    }

    // ---------------------------------------------------------------- insertion

    /** vma_insert: refused exactly if the range meets a mapped one; otherwise the union, merged with its neighbours. */
    method Insert(v: Vma) returns (r: Status)
      requires Valid() && v.start < v.end
      modifies this`list
      ensures Valid()
      ensures r == Success <==> NothingMapped(old(list), v.start, v.end)
      ensures r == Success ==> Overrides(old(list), list, v.start, v.end, Some(v.flags))
      ensures r != Success ==> r == Failure(EFAULT) && list == old(list)
      ensures old(Merged(list)) ==> Merged(list)
    {
      hide Sorted, SameMap, Overrides, MergedAround, Merged, At;
      var i := 0;
      while i < |list|
        invariant 0 <= i <= |list| && list == old(list)
        invariant forall k :: 0 <= k < i ==> list[k].end <= v.start
      {
        if v.end <= list[i].start {
          break;
        }
        if v.start < list[i].end {
          Meets(list, i, v);
          return Failure(EFAULT);
        }
        i := i + 1;
      }
      PutAt(list, i, v);
      list := list[..i] + [v] + list[i..];
      assert Overrides(old(list), list, v.start, v.end, Some(v.flags));
      label put:
      MergeNeighbours(i);
      OverridesThen(old(list), old@put(list), list, v.start, v.end, Some(v.flags));
      r := Success;
    }

    /** vma_add: the checked form of the insertion. */
    method Add(start: nat, len: nat, flags: nat) returns (r: Status)
      requires Valid() && start + len < limit
      modifies this`list
      ensures Valid()
      ensures r == Failure(EINVAL) <==> len == 0
      ensures r == Success <==> len > 0 && NothingMapped(old(list), start, start + len)
      ensures r == Success ==> Overrides(old(list), list, start, start + len, Some(flags))
      ensures r != Success ==> list == old(list)
      ensures old(Merged(list)) ==> Merged(list)
    {
      if len == 0 {
        return Failure(EINVAL);
      }
      var found := Find(start);
      if found.Some? {
        return Failure(EFAULT);
      }
      r := Insert(Vma(start, start + len, flags));
    }

    /** The tail of vma_insert: the interval at k is merged with the one before and the one after it. */
    method MergeNeighbours(k: nat)
      requires Valid() && k < |list|
      modifies this`list
      ensures Valid() && SameMap(old(list), list)
      ensures old(MergedAround(list, k)) ==> Merged(list)
    {
      hide Sorted, SameMap, MergedAround, MergedBut, Merged;
      var l, i := list, k;
      AroundFirst(l, k);
      ghost var first := l;
      SameRefl(l);
      if i > 0 && Mergeable(l[i - 1], l[i]) {
        MergeKeeps(l, i - 1);
        MergeOnly(l, i - 1);
        l := MergeAt(l, i - 1);
        i := i - 1;
      }
      ghost var second := l;
      AroundLast(l, i);
      SameRefl(l);
      if i + 1 < |l| && Mergeable(l[i], l[i + 1]) {
        MergeKeeps(l, i);
        MergeOnly(l, i);
        l := MergeAt(l, i);
      }
      SameThen(first, second, l);
      list := l;
    }

    // ---------------------------------------------------------------- cutting at an address

    /** The first loop of vma_delete and vma_protect: the interval around start is cut there. */
    method CutStart(start: nat, end: nat, oom: bool) returns (ok: bool)
      requires Valid() && start < end
      modifies this`list
      ensures Valid() && SameMap(old(list), list) && StartsFrom(old(list), list, start)
      ensures ok <==> !oom || NoStraddle(old(list), start)
      ensures if ok then NoStraddle(list, start) else list == old(list)
    {
      hide Sorted, SameMap, At, NoStraddle, StartsFrom, SplitAt;
      SameRefl(list);
      StartsRefl(list, start);
      var i := 0;
      while i < |list|
        invariant 0 <= i <= |list| && list == old(list)
        invariant forall k :: 0 <= k < i ==> list[k].end <= start
      {
        if list[i].end <= start {
          i := i + 1;
          continue;
        }
        if list[i].start >= end {
          break;
        }
        if list[i].start < start {
          Straddles(list, i, start);
          if oom {
            return false;
          }
          SplitKeeps(list, i, start);
          list := SplitAt(list, i, start);
          return true;
        }
        break;
      }
      NothingToCut(list, i, start);
      return true;
    }

    /** The second loop of vma_delete and vma_protect: the interval around end is cut there. */
    method CutEnd(start: nat, end: nat, oom: bool) returns (ok: bool)
      requires Valid() && NoStraddle(list, start)
      modifies this`list
      ensures Valid() && SameMap(old(list), list) && StartsFrom(old(list), list, end)
      ensures NoStraddle(list, start)
      ensures ok <==> !oom || NoStraddle(old(list), end)
      ensures if ok then NoStraddle(list, end) else list == old(list)
    {
      hide Sorted, SameMap, At, NoStraddle, StartsFrom, SplitAt;
      SameRefl(list);
      StartsRefl(list, end);
      var i := 0;
      while i < |list|
        invariant 0 <= i <= |list| && list == old(list)
        invariant forall k :: 0 <= k < i ==> list[k].end <= end
      {
        if list[i].end <= end {
          i := i + 1;
          continue;
        }
        if list[i].start < end {
          Straddles(list, i, end);
          if oom {
            return false;
          }
          SplitKeeps(list, i, end);
          SplitCutsElsewhere(list, i, end, start);
          list := SplitAt(list, i, end);
          return true;
        }
        break;
      }
      NothingToCut(list, i, end);
      return true;
    }

    // ---------------------------------------------------------------- removal

    /** The last loop of vma_delete: every interval of the range is removed. */
    method RemoveRange(start: nat, end: nat)
      requires Valid() && start < end && NoStraddle(list, start) && NoStraddle(list, end)
      modifies this`list
      ensures Valid() && Overrides(old(list), list, start, end, None)
      ensures forall k :: 0 <= k < |list| ==> StartsAt(old(list), list[k].start)
    {
      hide Sorted, At, Overrides, NoStraddle, StartsAt, Without, RangeSoFar;
      ghost var l := list;
      var i := 0;
      ghost var j := 0;
      WithoutNone(l);
      while i < |list|
        invariant i <= j <= |l| && list == Without(l, i, j)
        invariant RangeSoFar(l, i, j, start, end)
        decreases |list| - i
      {
        WithoutStep(l, i, j);
        RangeStep(l, i, j, start, end);
        if list[i].end <= start {
          i, j := i + 1, j + 1;
          continue;
        }
        if list[i].start >= end {
          break;
        }
        list := list[..i] + list[i + 1..];
        j := j + 1;
      }
      WithoutLength(l, i, j);
      RangeDone(l, i, j, start, end);
    }

    /**
     * vma_delete: unmaps exactly the range, and leaves no new mergeable neighbours. oomStart and oomEnd say
     * whether an interval needed for a cut can be allocated; without it the map is unchanged.
     */
    method Delete(start: nat, len: nat, oomStart: bool, oomEnd: bool) returns (r: Status)
      requires Valid() && start < limit && len < limit
      modifies this`list
      ensures Valid()
      ensures r == Failure(EINVAL) <==> len == 0 || limit <= start + len
      ensures r == Failure(EINVAL) ==> list == old(list)
      ensures r == Failure(ENOMEM) ==> SameMap(old(list), list) && (oomStart || oomEnd)
      ensures r == Success ==> Overrides(old(list), list, start, start + len, None)
      ensures r == Success && old(Merged(list)) ==> Merged(list)
      ensures r != Failure(EFAULT)
    {
      hide Sorted, SameMap, Overrides, StartsFrom, StartsAt, NoStraddle, Merged, At;
      if len == 0 {
        return Failure(EINVAL);
      }
      WrapsOnce(start, len, limit);
      var end := (start + len) % limit;
      if end < start {
        return Failure(EINVAL);
      }
      var ok := CutStart(start, end, oomStart);
      if !ok {
        return Failure(ENOMEM);
      }
      ghost var first := list;
      ok := CutEnd(start, end, oomEnd);
      SameThen(old(list), first, list);
      if !ok {
        return Failure(ENOMEM);
      }
      ghost var second := list;
      RemoveRange(start, end);
      SameOverrides(old(list), second, list, start, end, None);
      StartsThen(old(list), first, second, list, start, end);
      if Merged(old(list)) {
        RemoveMerged(old(list), list, start, end);
      }
      r := Success;
    }

    // ---------------------------------------------------------------- protection

    /** The last loop of vma_protect: every interval of the range gets the flags. */
    method FlagRange(start: nat, end: nat, flags: nat)
      requires Valid() && start < end && NoStraddle(list, start) && NoStraddle(list, end)
      requires FullyMapped(list, start, end)
      modifies this`list
      ensures Valid() && Overrides(old(list), list, start, end, Some(flags))
    {
      hide Sorted, At, Overrides, NoStraddle, FullyMapped, Reflagged, FlaggedSoFar;
      ghost var l := list;
      FlagNone(l, start, end, flags);
      var i := 0;
      while i < |list|
        invariant 0 <= i <= |list| == |l|
        invariant FlaggedSoFar(l, list, i, start, end, flags)
      {
        FlagStep(l, list, i, start, end, flags);
        if list[i].end <= start {
          i := i + 1;
          continue;
        }
        if list[i].start >= end {
          break;
        }
        list := list[i := list[i].(flags := flags)];
        i := i + 1;
      }
      FlagDone(l, list, i, start, end, flags);
    }

    /** vma_merge_all: no mergeable neighbours remain, and the map is unchanged. */
    method MergeAll()
      requires Valid()
      modifies this`list
      ensures Valid() && SameMap(old(list), list) && Merged(list)
    {
      hide Sorted, At, SameMap, MergeAt;
      SameRefl(list);
      var i := 0;
      while i + 1 < |list|
        invariant 0 <= i && (list != [] ==> i < |list|)
        invariant Valid() && SameMap(old(list), list)
        invariant forall k :: 0 <= k < i && k + 1 < |list| ==> !Mergeable(list[k], list[k + 1])
        decreases |list| - i
      {
        if Mergeable(list[i], list[i + 1]) {
          MergeKeeps(list, i);
          MergePrefix(list, i);
          SameThen(old(list), list, MergeAt(list, i));
          list := MergeAt(list, i);
        } else {
          i := i + 1;
        }
      }
    }

    /** vma_protect: succeeds on fully mapped ranges only, overrides exactly the range, and leaves the list merged. */
    method Protect(start: nat, len: nat, flags: nat, oomStart: bool, oomEnd: bool) returns (r: Status)
      requires Valid() && start < limit && len < limit
      modifies this`list
      ensures Valid()
      ensures r == Failure(EINVAL) <==> len == 0 || limit <= start + len
      ensures r == Failure(EINVAL) ==> list == old(list)
      ensures r == Failure(ENOMEM) ==> SameMap(old(list), list)
      ensures r == Failure(ENOMEM) && !oomStart && !oomEnd ==> !FullyMapped(old(list), start, start + len)
      ensures r == Success ==> FullyMapped(old(list), start, start + len)
      ensures r == Success ==> Overrides(old(list), list, start, start + len, Some(flags)) && Merged(list)
      ensures r != Failure(EFAULT)
    {
      hide Sorted, SameMap, Overrides, StartsFrom, StartsAt, NoStraddle, FullyMapped, Merged, At;
      if len == 0 {
        return Failure(EINVAL);
      }
      WrapsOnce(start, len, limit);
      var end := (start + len) % limit;
      if end < start {
        return Failure(EINVAL);
      }
      SameRefl(list);
      var mapped := RangeIsMapped(start, end);
      if !mapped {
        return Failure(ENOMEM);
      }
      var ok := CutStart(start, end, oomStart);
      if !ok {
        return Failure(ENOMEM);
      }
      ghost var first := list;
      ok := CutEnd(start, end, oomEnd);
      SameThen(old(list), first, list);
      if !ok {
        return Failure(ENOMEM);
      }
      ghost var second := list;
      SameMapped(old(list), second, start, end);
      FlagRange(start, end, flags);
      SameOverrides(old(list), second, list, start, end, Some(flags));
      ghost var third := list;
      MergeAll();
      OverridesThen(old(list), third, list, start, end, Some(flags));
      r := Success;
    }
  }

  // ---------------------------------------------------------------- lemmas for the loops

  lemma CoveredBy(l: seq<Vma>, i: nat, start: nat, cursor: nat)
    requires Sorted(l) && i < |l| && l[i].start <= cursor && FullyMapped(l, start, cursor)
    ensures FullyMapped(l, start, l[i].end)
  {
    forall a: nat | start <= a < l[i].end ensures At(l, a).Some? {
      if a >= cursor {
        AtIndex(l, i, a);
      }
    }
  }

  lemma SameRefl(l: seq<Vma>)
    ensures SameMap(l, l)
  {
  }

  lemma SameThen(l: seq<Vma>, l': seq<Vma>, l'': seq<Vma>)
    requires SameMap(l, l') && SameMap(l', l'')
    ensures SameMap(l, l'')
  {
    forall a: nat ensures At(l'', a) == At(l, a) {
      assert At(l', a) == At(l, a);
    }
  }

  lemma OverridesThen(l: seq<Vma>, l': seq<Vma>, l'': seq<Vma>, lo: nat, hi: nat, v: Option<nat>)
    requires Overrides(l, l', lo, hi, v) && SameMap(l', l'')
    ensures Overrides(l, l'', lo, hi, v)
  {
    forall a: nat ensures At(l'', a) == if lo <= a < hi then v else At(l, a) {
      assert At(l', a) == if lo <= a < hi then v else At(l, a);
    }
  }

  /** v may be put before the interval at i if all before it end below v and v ends below it. */
  lemma PutAt(l: seq<Vma>, i: nat, v: Vma)
    requires Sorted(l) && i <= |l| && v.start < v.end
    requires forall k :: 0 <= k < i ==> l[k].end <= v.start
    requires i < |l| ==> v.end <= l[i].start
    ensures Sorted(l[..i] + [v] + l[i..]) && NothingMapped(l, v.start, v.end)
    ensures Overrides(l, l[..i] + [v] + l[i..], v.start, v.end, Some(v.flags))
    ensures Merged(l) ==> MergedAround(l[..i] + [v] + l[i..], i)
  {
    assert l == l[..i] + l[i..];
    PutKeeps(l[..i], v, l[i..]);
    PutMerged(l[..i], v, l[i..]);
  }

  lemma AroundFirst(l: seq<Vma>, k: nat)
    requires k < |l|
    ensures MergedAround(l, k) && !(k > 0 && Mergeable(l[k - 1], l[k])) ==> MergedBut(l, k)
  {
    if MergedAround(l, k) && !(k > 0 && Mergeable(l[k - 1], l[k])) {
      forall i | 0 <= i < |l| - 1 && i != k ensures !Mergeable(l[i], l[i + 1]) {
      }
    }
  }

  lemma AroundLast(l: seq<Vma>, k: nat)
    ensures MergedBut(l, k) && !(k + 1 < |l| && Mergeable(l[k], l[k + 1])) ==> Merged(l)
  {
  }

  lemma StartsRefl(l: seq<Vma>, a: nat)
    ensures StartsFrom(l, l, a)
  {
  }

  lemma Straddles(l: seq<Vma>, i: nat, a: nat)
    requires i < |l| && l[i].start < a < l[i].end
    ensures !NoStraddle(l, a)
  {
  }

  lemma NothingToCut(l: seq<Vma>, i: nat, a: nat)
    requires Sorted(l) && i <= |l|
    requires forall k :: 0 <= k < i ==> l[k].end <= a
    requires i < |l| ==> a <= l[i].start
    ensures NoStraddle(l, a)
  {
  }

  /** The list without the intervals i..j. */
  ghost function Without(l: seq<Vma>, i: nat, j: nat): seq<Vma>
    requires i <= j <= |l|
  {
    l[..i] + l[j..]
  }

  lemma WithoutNone(l: seq<Vma>)
    ensures Without(l, 0, 0) == l
    ensures forall start, end :: RangeSoFar(l, 0, 0, start, end)
  {
  }

  lemma WithoutLength(l: seq<Vma>, i: nat, j: nat)
    requires i <= j <= |l|
    ensures |Without(l, i, j)| == i + |l| - j
    ensures j < |l| ==> Without(l, i, j)[i] == l[j]
  {
  }

  lemma WithoutStep(l: seq<Vma>, i: nat, j: nat)
    requires i <= j <= |l| && i < |Without(l, i, j)|
    ensures j < |l| && Without(l, i, j)[i] == l[j]
    ensures Without(l, i, j)[..i] + Without(l, i, j)[i + 1..] == Without(l, i, j + 1)
    ensures i == j ==> Without(l, i, j) == Without(l, i + 1, j + 1)
  {
  }

  /** The intervals before i end below the range, those of i..j lie in it. */
  ghost predicate RangeSoFar(l: seq<Vma>, i: nat, j: nat, start: nat, end: nat) {
    && i <= j <= |l|
    && (forall k :: 0 <= k < i ==> l[k].end <= start)
    && (forall k :: i <= k < j ==> start <= l[k].start && l[k].end <= end)
  }

  lemma RangeStep(l: seq<Vma>, i: nat, j: nat, start: nat, end: nat)
    requires Sorted(l) && j < |l| && start < end && NoStraddle(l, start) && NoStraddle(l, end)
    requires RangeSoFar(l, i, j, start, end)
    ensures l[j].end <= start ==> i == j && RangeSoFar(l, i + 1, j + 1, start, end)
    ensures start < l[j].end && l[j].start < end ==> RangeSoFar(l, i, j + 1, start, end)
  {
    assert i < j ==> l[i].start < l[i].end <= l[j].start;
  }

  lemma RangeDone(l: seq<Vma>, i: nat, j: nat, start: nat, end: nat)
    requires Sorted(l) && RangeSoFar(l, i, j, start, end) && (j < |l| ==> end <= l[j].start)
    ensures Sorted(Without(l, i, j)) && Overrides(l, Without(l, i, j), start, end, None)
    ensures forall k :: 0 <= k < |Without(l, i, j)| ==> StartsAt(l, Without(l, i, j)[k].start)
  {
    hide Overrides, At;
    RemoveKeeps(l, i, j, start, end);
    var l' := Without(l, i, j);
    forall k | 0 <= k < |l'| ensures StartsAt(l, l'[k].start) {
      assert l[if k < i then k else k - i + j] == l'[k];
    }
  }

  lemma WrapsOnce(start: nat, len: nat, limit: nat)
    requires start < limit && 0 < len < limit
    ensures (start + len) % limit == if start + len < limit then start + len else start + len - limit
  {
    if start + len < limit {
      DivModUnique(start + len, limit, 0, start + len);
    } else {
      DivModUnique(start + len, limit, 1, start + len - limit);
    }
  }

  lemma SameOverrides(l: seq<Vma>, l': seq<Vma>, l'': seq<Vma>, lo: nat, hi: nat, v: Option<nat>)
    requires SameMap(l, l') && Overrides(l', l'', lo, hi, v)
    ensures Overrides(l, l'', lo, hi, v)
  {
    forall a: nat ensures At(l'', a) == if lo <= a < hi then v else At(l, a) {
      assert At(l', a) == At(l, a);
    }
  }

  lemma SameMapped(l: seq<Vma>, l': seq<Vma>, lo: nat, hi: nat)
    requires SameMap(l, l') && FullyMapped(l, lo, hi)
    ensures FullyMapped(l', lo, hi)
  {
  }

  lemma StartsThen(l: seq<Vma>, l1: seq<Vma>, l2: seq<Vma>, l3: seq<Vma>, start: nat, end: nat)
    requires StartsFrom(l, l1, start) && StartsFrom(l1, l2, end)
    requires forall k :: 0 <= k < |l3| ==> StartsAt(l2, l3[k].start)
    ensures forall k :: 0 <= k < |l3| ==> l3[k].start == start || l3[k].start == end || StartsAt(l, l3[k].start)
  {
    forall k | 0 <= k < |l3|
      ensures l3[k].start == start || l3[k].start == end || StartsAt(l, l3[k].start)
    {
      assert StartsAt(l2, l3[k].start);
      var j :| 0 <= j < |l2| && l2[j].start == l3[k].start;
      if l2[j].start != end {
        assert StartsAt(l1, l2[j].start);
        var m :| 0 <= m < |l1| && l1[m].start == l2[j].start;
        assert l1[m].start == start || StartsAt(l, l1[m].start);
      }
    }
  }

  /** The first i intervals have been looked at. */
  ghost predicate FlaggedSoFar(l: seq<Vma>, l': seq<Vma>, i: nat, start: nat, end: nat, flags: nat) {
    && i <= |l| == |l'|
    && (forall k :: 0 <= k < i ==> l'[k] == if Inside(l[k], start, end) then l[k].(flags := flags) else l[k])
    && (forall k :: i <= k < |l| ==> l'[k] == l[k])
  }

  lemma FlagNone(l: seq<Vma>, start: nat, end: nat, flags: nat)
    ensures FlaggedSoFar(l, l, 0, start, end, flags)
  {
  }

  lemma FlagStep(l: seq<Vma>, l': seq<Vma>, i: nat, start: nat, end: nat, flags: nat)
    requires Sorted(l) && start < end && NoStraddle(l, start) && NoStraddle(l, end)
    requires FlaggedSoFar(l, l', i, start, end, flags) && i < |l| == |l'|
    ensures l'[i] == l[i]
    ensures l'[i].end <= start ==> FlaggedSoFar(l, l', i + 1, start, end, flags)
    ensures start < l'[i].end && l'[i].start < end
      ==> FlaggedSoFar(l, l'[i := l'[i].(flags := flags)], i + 1, start, end, flags)
  {
    assert l[i].start < l[i].end;
  }

  lemma FlagDone(l: seq<Vma>, l': seq<Vma>, i: nat, start: nat, end: nat, flags: nat)
    requires Sorted(l) && start < end && NoStraddle(l, start) && NoStraddle(l, end)
    requires FullyMapped(l, start, end)
    requires FlaggedSoFar(l, l', i, start, end, flags) && (i < |l| == |l'| ==> end <= l'[i].start)
    ensures Sorted(l') && Overrides(l, l', start, end, Some(flags))
  {
    hide FullyMapped, Overrides, At;
    assert Reflagged(l, l', start, end, flags) by {
      forall k | 0 <= k < |l|
        ensures l'[k] == if Inside(l[k], start, end) then l[k].(flags := flags) else l[k]
      {
        if k >= i {
          assert end <= l[i].start <= l[k].start < l[k].end;
        }
      }
    }
    ReflagKeeps(l, l', start, end, flags);
  }

  lemma MergePrefix(l: seq<Vma>, i: nat)
    requires i + 1 < |l| && Mergeable(l[i], l[i + 1])
    ensures |MergeAt(l, i)| == |l| - 1
    ensures forall k :: 0 <= k < i ==>
      (Mergeable(MergeAt(l, i)[k], MergeAt(l, i)[k + 1]) <==> Mergeable(l[k], l[k + 1]))
  {
    var l' := MergeAt(l, i);
    assert l'[i].start == l[i].start && l'[i].flags == l[i].flags;
    forall k | 0 <= k < i ensures Mergeable(l'[k], l'[k + 1]) <==> Mergeable(l[k], l[k + 1]) {
      assert l'[k] == l[k];
    }
  }

  lemma Meets(l: seq<Vma>, i: nat, v: Vma)
    requires Sorted(l) && i < |l| && v.start < v.end && v.start < l[i].end && l[i].start < v.end
    ensures !NothingMapped(l, v.start, v.end)
  {
    var a := if v.start < l[i].start then l[i].start else v.start;
    AtIndex(l, i, a);
    assert At(l, a).Some?;
  }

  /** Only the pair at k may be mergeable. */
  ghost predicate MergedBut(l: seq<Vma>, k: nat) {
    forall i :: 0 <= i < |l| - 1 && i != k ==> !Mergeable(l[i], l[i + 1])
  }

  /** Only the pairs at k - 1 and k may be mergeable. */
  ghost predicate MergedAround(l: seq<Vma>, k: nat) {
    forall i :: 0 <= i < |l| - 1 && i != k && i != k - 1 ==> !Mergeable(l[i], l[i + 1])
  }

  lemma PutMerged(pre: seq<Vma>, v: Vma, post: seq<Vma>)
    ensures Merged(pre + post) ==> MergedAround(pre + [v] + post, |pre|)
  {
    var l, l' := pre + post, pre + [v] + post;
    if Merged(l) {
      forall i | 0 <= i < |l'| - 1 && i != |pre| && i != |pre| - 1 ensures !Mergeable(l'[i], l'[i + 1]) {
        if i < |pre| {
          assert !Mergeable(l[i], l[i + 1]);
        } else {
          assert !Mergeable(l[i - 1], l[i]);
        }
      }
    }
  }

  lemma MergeOnly(l: seq<Vma>, k: nat)
    requires k + 1 < |l| && Mergeable(l[k], l[k + 1])
    ensures MergedAround(l, k + 1) ==> MergedBut(MergeAt(l, k), k)
    ensures MergedBut(l, k) ==> Merged(MergeAt(l, k))
  {
    var l' := MergeAt(l, k);
    assert forall i :: 0 <= i < k ==> l'[i] == l[i];
    assert forall i :: k < i < |l'| ==> l'[i] == l[i + 1];
    assert forall i :: 0 <= i < k ==> (Mergeable(l'[i], l'[i + 1]) <==> Mergeable(l[i], l[i + 1]));
    assert forall i :: k <= i < |l'| - 1 ==> (Mergeable(l'[i], l'[i + 1]) <==> Mergeable(l[i + 1], l[i + 2]));
  }

  // ---------------------------------------------------------------- laws

  /** Unmapping a new mapping gives back the very list there was before. */
  lemma AddThenDelete(l: seq<Vma>, added: seq<Vma>, l': seq<Vma>, lo: nat, hi: nat, flags: nat)
    requires Sorted(l) && Merged(l) && Sorted(l') && Merged(l')
    requires NothingMapped(l, lo, hi)
    requires Overrides(l, added, lo, hi, Some(flags)) && Overrides(added, l', lo, hi, None)
    ensures l' == l
  {
    forall a: nat ensures At(l', a) == At(l, a) {
      assert At(added, a) == if lo <= a < hi then Some(flags) else At(l, a);
    }
    Canonical(l, l');
  }

  /** Two changes to ranges that do not meet give the same list in either order. */
  lemma ChangesCommute(l: seq<Vma>, x: seq<Vma>, xy: seq<Vma>, y: seq<Vma>, yx: seq<Vma>,
                       lo: nat, hi: nat, v: Option<nat>, lo': nat, hi': nat, v': Option<nat>)
    requires hi <= lo' || hi' <= lo
    requires Sorted(xy) && Merged(xy) && Sorted(yx) && Merged(yx)
    requires Overrides(l, x, lo, hi, v) && Overrides(x, xy, lo', hi', v')
    requires Overrides(l, y, lo', hi', v') && Overrides(y, yx, lo, hi, v)
    ensures xy == yx
  {
    forall a: nat ensures At(yx, a) == At(xy, a) {
      assert At(x, a) == if lo <= a < hi then v else At(l, a);
      assert At(y, a) == if lo' <= a < hi' then v' else At(l, a);
    }
    Canonical(xy, yx);
  }
}
