/** The VMA list of an address space (mm/vma.c): a sorted interval list that refines a map address -> flags. */
module Vma {
  import opened Options

  datatype Vma = Vma(start: nat, end: nat, flags: nat) {
    predicate Has(a: nat) { start <= a < end }
  }

  /** Disjoint non-empty intervals in ascending order. */
  ghost predicate Sorted(list: seq<Vma>) {
    && (forall i :: 0 <= i < |list| ==> list[i].start < list[i].end)
    && (forall i, j :: 0 <= i < j < |list| ==> list[i].end <= list[j].start)
  }

  predicate Mergeable(a: Vma, b: Vma) {
    a.end == b.start && a.flags == b.flags
  }

  ghost predicate Merged(list: seq<Vma>) {
    forall i :: 0 <= i < |list| - 1 ==> !Mergeable(list[i], list[i + 1])
  }

  /** The flags of an address: the meaning of the list. */
  function At(list: seq<Vma>, a: nat): Option<nat> {
    if list == [] then None
    else if list[0].Has(a) then Some(list[0].flags)
    else At(list[1..], a)
  }

  /** Both lists give every address the same flags. */
  ghost predicate SameMap(l: seq<Vma>, l': seq<Vma>) {
    forall a: nat :: At(l', a) == At(l, a)
  }

  /** l' gives [lo, hi) the value v, and every other address what l gives it. */
  ghost predicate Overrides(l: seq<Vma>, l': seq<Vma>, lo: nat, hi: nat, v: Option<nat>) {
    forall a: nat :: At(l', a) == if lo <= a < hi then v else At(l, a)
  }

  /** Every address of [lo, hi) is mapped. */
  ghost predicate FullyMapped(l: seq<Vma>, lo: nat, hi: nat) {
    forall a: nat :: lo <= a < hi ==> At(l, a).Some?
  }

  ghost predicate NothingMapped(l: seq<Vma>, lo: nat, hi: nat) {
    forall a: nat :: lo <= a < hi ==> At(l, a).None?
  }

  // ---------------------------------------------------------------- lookups

  lemma {:induction false} AtConcat(x: seq<Vma>, y: seq<Vma>, a: nat)
    ensures At(x + y, a) == if At(x, a).Some? then At(x, a) else At(y, a)
  {
    if x == [] {
      assert x + y == y;
    } else {
      assert (x + y)[1..] == x[1..] + y;
      AtConcat(x[1..], y, a);
    }
  }

  lemma {:induction false} AtWitness(list: seq<Vma>, a: nat) returns (i: nat)
    requires At(list, a).Some?
    ensures i < |list| && list[i].Has(a) && At(list, a) == Some(list[i].flags)
  {
    if list[0].Has(a) {
      i := 0;
    } else {
      var j := AtWitness(list[1..], a);
      i := j + 1;
    }
  }

  lemma {:induction false} AtIndex(list: seq<Vma>, i: nat, a: nat)
    requires Sorted(list) && i < |list| && list[i].Has(a)
    ensures At(list, a) == Some(list[i].flags)
  {
    if i > 0 {
      assert !list[0].Has(a);
      SortedTail(list);
      AtIndex(list[1..], i - 1, a);
    }
  }

  lemma SortedTail(list: seq<Vma>)
    requires Sorted(list) && list != []
    ensures Sorted(list[1..])
  {
  }

  lemma AtNone(list: seq<Vma>, a: nat)
    requires forall i :: 0 <= i < |list| ==> !list[i].Has(a)
    ensures At(list, a).None?
  {
    if At(list, a).Some? {
      var i := AtWitness(list, a);
      assert false;
    }
  }

  // ---------------------------------------------------------------- canonical form

  /** The first address of a list is the least mapped one. */
  lemma FirstMapped(x: seq<Vma>, y: seq<Vma>)
    requires Sorted(x) && Sorted(y) && SameMap(x, y) && x != []
    ensures y != [] && y[0].start <= x[0].start && y[0].flags == x[0].flags
  {
    var a := x[0].start;
    AtIndex(x, 0, a);
    assert At(y, a) == At(x, a);
    var i := AtWitness(y, a);
    if y[0].start > a {
      assert false;
    }
    var b := y[0].start;
    AtIndex(y, 0, b);
    assert At(y, b) == At(x, b);
    var j := AtWitness(x, b);
    assert j == 0;
  }

  /** The first interval of a merged list ends where the flags first change. */
  lemma FirstEnd(x: seq<Vma>, y: seq<Vma>)
    requires Sorted(x) && Merged(x) && Sorted(y) && SameMap(x, y) && x != [] && y != []
    requires y[0].start == x[0].start && y[0].flags == x[0].flags
    ensures y[0].end <= x[0].end
  {
    if x[0].end < y[0].end {
      var a := x[0].end;
      AtIndex(y, 0, a);
      assert At(y, a) == At(x, a);
      var i := AtWitness(x, a);
      assert false;
    }
  }

  /** Equal maps give equal lists. */
  lemma {:induction false} Canonical(x: seq<Vma>, y: seq<Vma>)
    requires Sorted(x) && Merged(x) && Sorted(y) && Merged(y) && SameMap(x, y)
    ensures x == y
  {
    if x == [] {
      if y != [] {
        FirstMapped(y, x);
        assert false;
      }
    } else {
      FirstMapped(x, y);
      FirstMapped(y, x);
      FirstEnd(x, y);
      FirstEnd(y, x);
      assert x[0] == y[0];
      SortedTail(x);
      SortedTail(y);
      TailsAgree(x, y);
      Canonical(x[1..], y[1..]);
    }
  }

  lemma TailsAgree(x: seq<Vma>, y: seq<Vma>)
    requires Sorted(x) && Sorted(y) && SameMap(x, y) && x != [] && y != [] && x[0] == y[0]
    ensures SameMap(x[1..], y[1..])
    ensures Merged(x) ==> Merged(x[1..])
    ensures Merged(y) ==> Merged(y[1..])
  {
    forall a: nat ensures At(y[1..], a) == At(x[1..], a) {
      assert At(y, a) == At(x, a);
      if x[0].Has(a) {
        AtNone(x[1..], a);
        AtNone(y[1..], a);
      }
    }
  }

  // ---------------------------------------------------------------- splitting and merging

  ghost predicate NoStraddle(l: seq<Vma>, a: nat) {
    forall i :: 0 <= i < |l| ==> !(l[i].start < a < l[i].end)
  }

  /** Every interval of l' starts at a or where an interval of l starts. */
  ghost predicate StartsFrom(l: seq<Vma>, l': seq<Vma>, a: nat) {
    forall i :: 0 <= i < |l'| ==> l'[i].start == a || StartsAt(l, l'[i].start)
  }

  ghost predicate StartsAt(l: seq<Vma>, a: nat) {
    exists j :: 0 <= j < |l| && l[j].start == a
  }

  function SplitAt(l: seq<Vma>, k: nat, a: nat): seq<Vma>
    requires k < |l|
  {
    l[..k] + [l[k].(end := a), l[k].(start := a)] + l[k + 1..]
  }

  function MergeAt(l: seq<Vma>, k: nat): seq<Vma>
    requires k + 1 < |l|
  {
    l[..k] + [l[k].(end := l[k + 1].end)] + l[k + 2..]
  }

  lemma SplitElements(l: seq<Vma>, k: nat, a: nat)
    requires k < |l| && l[k].start < a < l[k].end
    ensures |SplitAt(l, k, a)| == |l| + 1
    ensures forall i :: 0 <= i < k ==> SplitAt(l, k, a)[i] == l[i]
    ensures SplitAt(l, k, a)[k] == l[k].(end := a) && SplitAt(l, k, a)[k + 1] == l[k].(start := a)
    ensures forall i :: k + 1 < i <= |l| ==> SplitAt(l, k, a)[i] == l[i - 1]
  {
  }

  lemma SplitSorted(l: seq<Vma>, k: nat, a: nat)
    requires Sorted(l) && k < |l| && l[k].start < a < l[k].end
    ensures Sorted(SplitAt(l, k, a))
  {
    hide SplitAt;
    var l' := SplitAt(l, k, a);
    SplitElements(l, k, a);
    forall i, j | 0 <= i < j < |l'| ensures l'[i].end <= l'[j].start {
      var i', j' := if i <= k then i else i - 1, if j <= k then j else j - 1;
      assert l'[i].end <= l[i'].end && l[j'].start <= l'[j].start;
      assert i' < j' || (i == k && j == k + 1);
    }
  }

  lemma SplitStarts(l: seq<Vma>, k: nat, a: nat)
    requires k < |l| && l[k].start < a < l[k].end && Sorted(l)
    ensures StartsFrom(l, SplitAt(l, k, a), a) && NoStraddle(SplitAt(l, k, a), a)
  {
    hide SplitAt;
    var l' := SplitAt(l, k, a);
    SplitElements(l, k, a);
    forall i | 0 <= i < |l'| ensures l'[i].start == a || StartsAt(l, l'[i].start) {
      var j := if i <= k then i else i - 1;
      assert l[j].start == l'[i].start || l'[i].start == a;
    }
  }

  lemma SplitCutsElsewhere(l: seq<Vma>, k: nat, a: nat, b: nat)
    requires k < |l| && l[k].start < a < l[k].end && NoStraddle(l, b)
    ensures NoStraddle(SplitAt(l, k, a), b)
  {
    hide SplitAt;
    SplitElements(l, k, a);
  }

  lemma SplitSame(l: seq<Vma>, k: nat, a: nat, x: nat)
    requires k < |l| && l[k].start < a < l[k].end
    ensures At(SplitAt(l, k, a), x) == At(l, x)
  {
    var mid := [l[k].(end := a), l[k].(start := a)];
    AtConcat(l[..k] + mid, l[k + 1..], x);
    AtConcat(l[..k], mid, x);
    AtConcat(l[..k] + [l[k]], l[k + 1..], x);
    AtConcat(l[..k], [l[k]], x);
    assert l == l[..k] + [l[k]] + l[k + 1..];
    assert mid[1..] == [l[k].(start := a)];
    assert At(mid[1..], x) == if a <= x < l[k].end then Some(l[k].flags) else None;
    assert At([l[k]], x) == if l[k].Has(x) then Some(l[k].flags) else None;
  }

  /** A split changes the list and not the map. */
  lemma SplitKeeps(l: seq<Vma>, k: nat, a: nat)
    requires Sorted(l) && k < |l| && l[k].start < a < l[k].end
    ensures Sorted(SplitAt(l, k, a)) && SameMap(l, SplitAt(l, k, a))
    ensures NoStraddle(SplitAt(l, k, a), a) && StartsFrom(l, SplitAt(l, k, a), a)
  {
    hide *;
    SplitSorted(l, k, a);
    SplitStarts(l, k, a);
    assert SameMap(l, SplitAt(l, k, a)) by {
      SplitMaps(l, k, a);
    }
  }

  lemma SplitMaps(l: seq<Vma>, k: nat, a: nat)
    requires k < |l| && l[k].start < a < l[k].end
    ensures SameMap(l, SplitAt(l, k, a))
  {
    hide SplitAt;
    forall x: nat ensures At(SplitAt(l, k, a), x) == At(l, x) {
      SplitSame(l, k, a, x);
    }
  }

  /** A merge changes the list and not the map. */
  lemma MergeKeeps(l: seq<Vma>, k: nat)
    requires Sorted(l) && k + 1 < |l| && Mergeable(l[k], l[k + 1])
    ensures Sorted(MergeAt(l, k)) && SameMap(l, MergeAt(l, k))
  {
    var l' := MergeAt(l, k);
    var a := l[k].end;
    assert l'[k].start < a < l'[k].end;
    assert Sorted(l');
    SplitMaps(l', k, a);
    assert SplitAt(l', k, a) == l by {
      assert l'[k].(end := a) == l[k];
      assert l'[k].(start := a) == l[k + 1];
      assert l'[k + 1..] == l[k + 2..];
      assert l'[..k] == l[..k];
      assert l == l[..k] + [l[k], l[k + 1]] + l[k + 2..];
    }
  }

  lemma TouchingDiffer(l: seq<Vma>, i: nat, j: nat)
    requires Sorted(l) && Merged(l) && i < j < |l| && l[i].end == l[j].start
    ensures l[i].flags != l[j].flags
  {
    assert !Mergeable(l[i], l[i + 1]);
  }

  /** In a merged list two neighbouring addresses with the same flags lie in one interval. */
  lemma InOneInterval(l: seq<Vma>, b: nat)
    requires Sorted(l) && Merged(l) && b > 0
    requires At(l, b - 1).Some? && At(l, b - 1) == At(l, b)
    ensures !StartsAt(l, b)
  {
    var i := AtWitness(l, b - 1);
    var j := AtWitness(l, b);
    if i != j {
      TouchingDiffer(l, i, j);
      assert false;
    }
    forall k | 0 <= k < |l| ensures l[k].start != b {
      assert k < i || k == i || k > i;
    }
  }

  // ---------------------------------------------------------------- insertion

  lemma PutSorted(pre: seq<Vma>, v: Vma, post: seq<Vma>)
    requires Sorted(pre + post) && v.start < v.end
    requires forall i :: 0 <= i < |pre| ==> pre[i].end <= v.start
    requires forall i :: 0 <= i < |post| ==> v.end <= post[i].start
    ensures Sorted(pre + [v] + post)
  {
    var l, old' := pre + [v] + post, pre + post;
    var n := |pre|;
    assert forall i :: 0 <= i < n ==> l[i] == old'[i] && l[i] == pre[i];
    assert forall i :: n < i < |l| ==> l[i] == old'[i - 1] && l[i] == post[i - n - 1];
    forall i | 0 <= i < |l| ensures l[i].start < l[i].end {
      if i > n {
        assert old'[i - 1].start < old'[i - 1].end;
      }
    }
    forall i, j | 0 <= i < j < |l| ensures l[i].end <= l[j].start {
      if i < n && j > n {
        assert old'[i].end <= old'[j - 1].start;
      } else if i > n {
        assert old'[i - 1].end <= old'[j - 1].start;
      }
    }
  }

  /** The list with v put between two halves. */
  lemma PutKeeps(pre: seq<Vma>, v: Vma, post: seq<Vma>)
    requires Sorted(pre + post) && v.start < v.end
    requires forall i :: 0 <= i < |pre| ==> pre[i].end <= v.start
    requires forall i :: 0 <= i < |post| ==> v.end <= post[i].start
    ensures Sorted(pre + [v] + post)
    ensures Overrides(pre + post, pre + [v] + post, v.start, v.end, Some(v.flags))
    ensures NothingMapped(pre + post, v.start, v.end)
  {
    var l := pre + [v] + post;
    PutSorted(pre, v, post);
    forall x: nat
      ensures At(l, x) == if v.Has(x) then Some(v.flags) else At(pre + post, x)
      ensures v.Has(x) ==> At(pre + post, x).None?
    {
      AtConcat(pre + [v], post, x);
      AtConcat(pre, [v], x);
      AtConcat(pre, post, x);
      if v.Has(x) {
        AtNone(pre, x);
        AtNone(post, x);
      }
    }
  }

  // ---------------------------------------------------------------- removal and protection

  /** Taking out the intervals i..j of a list cut at both ends of the range unmaps exactly the range. */
  lemma RemoveKeeps(l: seq<Vma>, i: nat, j: nat, start: nat, end: nat)
    requires Sorted(l) && i <= j <= |l|
    requires forall k :: 0 <= k < i ==> l[k].end <= start
    requires forall k :: i <= k < j ==> start <= l[k].start && l[k].end <= end
    requires forall k :: j <= k < |l| ==> end <= l[k].start
    ensures Sorted(l[..i] + l[j..]) && Overrides(l, l[..i] + l[j..], start, end, None)
  {
    forall x: nat ensures At(l[..i] + l[j..], x) == if start <= x < end then None else At(l, x) {
      assert l == l[..i] + (l[i..j] + l[j..]);
      AtConcat(l[..i], l[j..], x);
      AtConcat(l[..i], l[i..j] + l[j..], x);
      AtConcat(l[i..j], l[j..], x);
      if start <= x < end {
        AtNone(l[..i], x);
        AtNone(l[j..], x);
      } else {
        AtNone(l[i..j], x);
      }
    }
  }

  /** An unmapped range leaves no new mergeable neighbours. */
  lemma RemoveMerged(l: seq<Vma>, l': seq<Vma>, start: nat, end: nat)
    requires Sorted(l) && Merged(l) && Sorted(l') && start < end
    requires Overrides(l, l', start, end, None)
    requires forall i :: 0 <= i < |l'| ==> l'[i].start == start || l'[i].start == end || StartsAt(l, l'[i].start)
    ensures Merged(l')
  {
    forall i | 0 <= i < |l'| - 1 ensures !Mergeable(l'[i], l'[i + 1]) {
      if Mergeable(l'[i], l'[i + 1]) {
        var b := l'[i + 1].start;
        AtIndex(l', i, b - 1);
        AtIndex(l', i + 1, b);
        assert At(l', b - 1) == if start <= b - 1 < end then None else At(l, b - 1);
        assert At(l', b) == if start <= b < end then None else At(l, b);
        InOneInterval(l, b);
        assert false;
      }
    }
  }

  ghost predicate Inside(v: Vma, start: nat, end: nat) {
    start <= v.start && v.end <= end
  }

  ghost predicate Outside(v: Vma, start: nat, end: nat) {
    v.end <= start || end <= v.start
  }

  /** l' is l with new flags on the intervals of the range. */
  ghost predicate Reflagged(l: seq<Vma>, l': seq<Vma>, start: nat, end: nat, flags: nat) {
    && |l'| == |l|
    && (forall k :: 0 <= k < |l| ==> l'[k] == if Inside(l[k], start, end) then l[k].(flags := flags) else l[k])
  }

  /** New flags on the intervals of a fully mapped range override exactly the range. */
  lemma ReflagKeeps(l: seq<Vma>, l': seq<Vma>, start: nat, end: nat, flags: nat)
    requires Sorted(l) && FullyMapped(l, start, end) && Reflagged(l, l', start, end, flags)
    requires forall k :: 0 <= k < |l| ==> Inside(l[k], start, end) || Outside(l[k], start, end)
    ensures Sorted(l') && Overrides(l, l', start, end, Some(flags))
  {
    assert forall k :: 0 <= k < |l| ==> l'[k].start == l[k].start && l'[k].end == l[k].end;
    assert Sorted(l');
    forall x: nat ensures At(l', x) == if start <= x < end then Some(flags) else At(l, x) {
      if At(l, x).Some? {
        var k := AtWitness(l, x);
        AtIndex(l', k, x);
      } else {
        if At(l', x).Some? {
          var k := AtWitness(l', x);
          AtIndex(l, k, x);
          assert false;
        }
      }
    }
  }
}
