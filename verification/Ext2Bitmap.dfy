/**
 The block and inode bitmaps of ext2 with their free counters (fs/ext2/ext2_bitmap.c).

 Blocks and inodes are numbered alike: `first` is the first data block, or 1 for inodes, and the item of bit
 i in group g has the number first + g * perGroup + i.
 */
module Ext2Bitmap {
  import opened Arithmetic
  import opened Options

  datatype Error = EINVAL | EIO

  /** end: one past the last number; the last group may be shorter. */
  datatype Layout = Layout(first: nat, end: nat, perGroup: nat, groups: nat) {
    ghost predicate Valid() {
      && 0 < perGroup && 0 < groups
      && first + (groups - 1) * perGroup < end <= first + groups * perGroup
    }

    /** The number of bits in use of a group's bitmap. */
    function MaxBits(g: nat): nat
      requires perGroup > 0 && first <= end
    {
      if g + 1 == groups then
        var rest := (end - first) % perGroup;
        if rest == 0 then perGroup else rest
      else perGroup
    }

    function Number(g: nat, i: nat): nat {
      first + g * perGroup + i
    }

    function Group(n: nat): nat
      requires perGroup > 0 && first <= n
    {
      ModBelow(n - first, perGroup);
      (n - first) / perGroup
    }

    function Bit(n: nat): nat
      requires perGroup > 0 && first <= n
    {
      (n - first) % perGroup
    }
  }

  // ---------------------------------------------------------------- numbers and bits

  lemma GroupCount(l: Layout)
    requires l.Valid()
    ensures l.first <= l.end
    ensures l.first + (l.groups - 1) * l.perGroup + l.MaxBits(l.groups - 1) == l.end
    ensures 0 < l.MaxBits(l.groups - 1) <= l.perGroup
  {
    var n := l.groups - 1;
    MulOrder(0, n, l.perGroup);
    MulDistribute(n, 1, l.perGroup);
    var rest := l.end - l.first - n * l.perGroup;
    if rest == l.perGroup {
      MultipleMod(n + 1, l.perGroup);
    } else {
      DivModUnique(l.end - l.first, l.perGroup, n, rest);
    }
  }

  /** The number of a bit in use leads back to its group and bit. */
  lemma NumberRoundTrip(l: Layout, g: nat, i: nat)
    requires l.Valid() && l.first <= l.end && g < l.groups && i < l.MaxBits(g)
    ensures l.first <= l.Number(g, i) < l.end
    ensures l.Group(l.Number(g, i)) == g && l.Bit(l.Number(g, i)) == i
  {
    GroupCount(l);
    MulOrder(0, g, l.perGroup);
    if g + 1 < l.groups {
      MulOrder(g + 1, l.groups - 1, l.perGroup);
      MulDistribute(g, 1, l.perGroup);
    }
    DivModUnique(l.Number(g, i) - l.first, l.perGroup, g, i);
  }

  lemma BitRoundTrip(l: Layout, n: nat)
    requires l.Valid() && l.first <= n < l.end
    ensures 0 <= l.Group(n) < l.groups && 0 <= l.Bit(n) < l.MaxBits(l.Group(n))
    ensures l.Number(l.Group(n), l.Bit(n)) == n
  {
    GroupCount(l);
    var g, i := l.Group(n), l.Bit(n);
    ModBelow(n - l.first, l.perGroup);
    assert n - l.first == g * l.perGroup + i;
    if g >= l.groups {
      MulOrder(l.groups, g, l.perGroup);
    }
  }

  // ---------------------------------------------------------------- counting

  /** The clear bits among the first n. */
  function Clear(bits: seq<bool>, n: nat): (c: nat)
    requires n <= |bits|
    ensures c <= n
  {
    if n == 0 then 0 else Clear(bits, n - 1) + (if bits[n - 1] then 0 else 1)
  }

  lemma {:induction false} ClearUpdate(bits: seq<bool>, n: nat, i: nat, v: bool)
    requires n <= |bits| && i < |bits| && bits[i] != v
    ensures Clear(bits[i := v], n) == if i >= n then Clear(bits, n) else if v then Clear(bits, n) - 1
            else Clear(bits, n) + 1
  {
    if n > 0 {
      ClearUpdate(bits, n - 1, i, v);
    }
  }

  lemma {:induction false} ClearZero(bits: seq<bool>, n: nat)
    requires n <= |bits|
    ensures Clear(bits, n) == 0 <==> forall i :: 0 <= i < n ==> bits[i]
  {
    if n > 0 {
      ClearZero(bits, n - 1);
    }
  }

  function Sum(counts: seq<nat>): nat {
    if counts == [] then 0 else Sum(counts[..|counts| - 1]) + counts[|counts| - 1]
  }

  lemma {:induction false} SumUpdate(counts: seq<nat>, g: nat, v: nat)
    requires g < |counts|
    ensures Sum(counts[g := v]) == Sum(counts) - counts[g] + v && Sum(counts) >= counts[g]
  {
    var n := |counts| - 1;
    if g == n {
      assert counts[g := v][..n] == counts[..n];
    } else {
      SumUpdate(counts[..n], g, v);
      assert counts[g := v][..n] == counts[..n][g := v];
    }
  }

  // ---------------------------------------------------------------- scanning

  /** ffz: the lowest clear bit of a word that is not all ones. */
  function Ffz(word: seq<bool>): (i: nat)
    requires exists k :: 0 <= k < |word| && !word[k]
    ensures i < |word| && !word[i] && forall k :: 0 <= k < i ==> word[k]
  {
    if !word[0] then 0
    else
      assert exists k :: 0 <= k < |word[1..]| && !word[1..][k] by {
        var k :| 0 <= k < |word| && !word[k];
        assert !word[1..][k - 1];
      }
      var j := Ffz(word[1..]);
      assert forall k :: 0 < k < j + 1 ==> word[k] == word[1..][k - 1];
      j + 1
  }

  /** scan_bitmap_0: the first clear bit below max, word by word. */
  method ScanBitmap(bits: seq<bool>, width: nat, max: nat) returns (r: Option<nat>)
    requires width > 0 && |bits| % width == 0 && max <= |bits|
    ensures r.None? <==> forall i :: 0 <= i < max ==> bits[i]
    ensures r.Some? ==> r.value < max && !bits[r.value] && forall i :: 0 <= i < r.value ==> bits[i]
  {
    var words := (max + width - 1) / width;
    WordCount(|bits|, width, max);
    var i := 0;
    while i < words
      invariant 0 <= i <= words
      invariant 0 <= i * width && forall k :: 0 <= k < i * width && k < max ==> bits[k]
    {
      WordInside(|bits|, width, max, i);
      var word := bits[i * width..(i + 1) * width];
      if exists k :: 0 <= k < |word| && !word[k] {
        var pos := i * width + Ffz(word);
        FirstInWord(bits, i * width, word, pos, max);
        if pos < max {
          return Some(pos);
        }
      } else {
        AllInWord(bits, i * width, word);
      }
      i := i + 1;
    }
    return None;
  }

  lemma WordCount(total: nat, width: nat, max: nat)
    requires width > 0 && total % width == 0 && max <= total
    ensures 0 <= (max + width - 1) / width && max <= (max + width - 1) / width * width <= total
  {
    AlignFacts(max, width);
    var up := AlignUp(max, width);
    assert up == (max + width - 1) / width * width;
    ModBelow(max + width - 1, width);
    if total < up {
      MultiplesApart(total, up, width);
    }
  }

  lemma WordInside(total: nat, width: nat, max: nat, i: nat)
    requires width > 0 && total % width == 0 && max <= total && i < (max + width - 1) / width
    ensures 0 <= i * width && (i + 1) * width == i * width + width <= total
  {
    WordCount(total, width, max);
    MulOrder(i + 1, (max + width - 1) / width, width);
    MulOrder(0, i, width);
    MulDistribute(i, 1, width);
  }

  lemma FirstInWord(bits: seq<bool>, base: nat, word: seq<bool>, pos: nat, max: nat)
    requires base + |word| <= |bits| && max <= |bits| && word == bits[base..base + |word|]
    requires base <= pos < base + |word| && !word[pos - base] && forall k :: 0 <= k < pos - base ==> word[k]
    requires forall k :: 0 <= k < base && k < max ==> bits[k]
    ensures !bits[pos] && forall k :: 0 <= k < pos && k < max ==> bits[k]
    ensures pos >= max ==> forall k :: 0 <= k < base + |word| && k < max ==> bits[k]
  {
    forall k | base <= k < pos ensures bits[k] {
      assert word[k - base];
    }
  }

  lemma AllInWord(bits: seq<bool>, base: nat, word: seq<bool>)
    requires base + |word| <= |bits| && word == bits[base..base + |word|]
    requires forall k :: 0 <= k < |word| ==> word[k]
    ensures forall k :: base <= k < base + |word| ==> bits[k]
  {
    forall k | base <= k < base + |word| ensures bits[k] {
      assert word[k - base];
    }
  }

  // ---------------------------------------------------------------- the bitmaps of all groups

  ghost predicate Shaped(l: Layout, width: nat, bits: seq<seq<bool>>) {
    && l.Valid() && width > 0 && |bits| == l.groups && l.first <= l.end
    && (forall g :: 0 <= g < l.groups ==> |bits[g]| % width == 0 && l.perGroup <= |bits[g]|)
  }

  lemma MaxBitsBound(l: Layout, g: nat)
    requires l.Valid() && g < l.groups
    ensures l.first <= l.end && 0 < l.MaxBits(g) <= l.perGroup
  {
    GroupCount(l);
  }

  /** Every counter is the number of clear bits it counts. */
  ghost predicate Counted(l: Layout, width: nat, bits: seq<seq<bool>>, groupFree: seq<nat>, free: nat) {
    && Shaped(l, width, bits) && |groupFree| == l.groups
    && (forall g :: 0 <= g < l.groups ==> CountedAt(l, bits[g], groupFree[g], g))
    && free == Sum(groupFree)
  }

  ghost predicate CountedAt(l: Layout, bits: seq<bool>, count: nat, g: nat) {
    && l.perGroup > 0 && l.first <= l.end && l.MaxBits(g) <= |bits|
    && count == Clear(bits, l.MaxBits(g))
  }

  /** The item n is marked used. */
  ghost predicate Marked(l: Layout, bits: seq<seq<bool>>, n: nat) {
    && l.perGroup > 0 && l.first <= n
    && l.Group(n) < |bits| && l.Bit(n) < |bits[l.Group(n)]| && bits[l.Group(n)][l.Bit(n)]
  }

  ghost predicate Available(l: Layout, bits: seq<seq<bool>>, n: nat) {
    l.first <= n < l.end && !Marked(l, bits, n)
  }

  /** A bit is set: the counters go down by one. */
  lemma MarkBit(l: Layout, width: nat, bits: seq<seq<bool>>, groupFree: seq<nat>, free: nat, g: nat, i: nat)
    requires Counted(l, width, bits, groupFree, free) && g < l.groups && i < l.MaxBits(g)
    requires i < |bits[g]| && !bits[g][i]
    ensures 0 < groupFree[g] <= free
    ensures Counted(l, width, bits[g := bits[g][i := true]], groupFree[g := groupFree[g] - 1], free - 1)
  {
    hide Layout.Valid, Layout.MaxBits, CountedAt;
    CountChange(l, bits[g], groupFree[g], g, i, true);
    SumUpdate(groupFree, g, groupFree[g]);
    SumUpdate(groupFree, g, groupFree[g] - 1);
  }

  /** A bit is cleared: the counters go up by one. */
  lemma ClearBit(l: Layout, width: nat, bits: seq<seq<bool>>, groupFree: seq<nat>, free: nat, g: nat, i: nat)
    requires Counted(l, width, bits, groupFree, free) && g < l.groups && i < l.MaxBits(g)
    requires i < |bits[g]| && bits[g][i]
    ensures Counted(l, width, bits[g := bits[g][i := false]], groupFree[g := groupFree[g] + 1], free + 1)
  {
    hide Layout.Valid, Layout.MaxBits, CountedAt;
    CountChange(l, bits[g], groupFree[g], g, i, false);
    SumUpdate(groupFree, g, groupFree[g] + 1);
  }

  lemma CountChange(l: Layout, bits: seq<bool>, count: nat, g: nat, i: nat, v: bool)
    requires CountedAt(l, bits, count, g) && i < l.MaxBits(g) && bits[i] != v
    ensures v ==> 0 < count && CountedAt(l, bits[i := v], count - 1, g)
    ensures !v ==> CountedAt(l, bits[i := v], count + 1, g)
  {
    ClearUpdate(bits, l.MaxBits(g), i, v);
  }

  lemma SetBitMarks(l: Layout, bits: seq<seq<bool>>, g: nat, i: nat, v: bool)
    requires l.Valid() && l.first <= l.end && |bits| == l.groups && g < l.groups && i < l.MaxBits(g) && i < |bits[g]|
    ensures
      var bits' := bits[g := bits[g][i := v]];
      && (forall n: nat :: n != l.Number(g, i) ==> (Marked(l, bits', n) <==> Marked(l, bits, n)))
      && Marked(l, bits, l.Number(g, i)) == bits[g][i] && Marked(l, bits', l.Number(g, i)) == v
  {
    var bits' := bits[g := bits[g][i := v]];
    NumberRoundTrip(l, g, i);
    forall n: nat | n != l.Number(g, i) ensures Marked(l, bits', n) <==> Marked(l, bits, n) {
      if l.first <= n {
        assert n - l.first == l.Group(n) * l.perGroup + l.Bit(n);
      }
    }
  }

  /** The counter of a group is 0 exactly if no item of it is available. */
  lemma GroupExhausted(l: Layout, width: nat, bits: seq<seq<bool>>, groupFree: seq<nat>, free: nat, g: nat, n: nat)
    requires Counted(l, width, bits, groupFree, free) && g < l.groups
    requires Available(l, bits, n) && l.Group(n) == g
    ensures 0 < groupFree[g] && 0 <= l.Bit(n) < l.MaxBits(g) && !bits[g][l.Bit(n)]
  {
    BitRoundTrip(l, n);
    assert CountedAt(l, bits[g], groupFree[g], g);
    ClearZero(bits[g], l.MaxBits(g));
  }

  class Bitmap {
    const l: Layout
    const width: nat
    var bits: seq<seq<bool>>
    var groupFree: seq<nat>
    var free: nat

    /** The bitmaps and counters of a mounted file system. */
    constructor (l: Layout, width: nat, bits: seq<seq<bool>>, groupFree: seq<nat>, free: nat)
      requires Counted(l, width, bits, groupFree, free)
      ensures Valid() && this.l == l && this.bits == bits
    {
      this.l, this.width := l, width;
      this.bits, this.groupFree, this.free := bits, groupFree, free;
    }

    ghost predicate Valid()
      reads this
    {
      Counted(l, width, bits, groupFree, free)
    }

    ghost predicate IsFree(n: nat)
      reads this`bits
    {
      Available(l, bits, n)
    }

    /** n has been taken, and nothing else has changed. */
    twostate predicate Took(n: nat)
      reads this`bits
    {
      && old(IsFree(n))
      && (forall m :: IsFree(m) <==> old(IsFree(m)) && m != n)
    }

    /**
     * ext2_alloc_bno and ext2_alloc_ino: the available item with the least number in the groups whose bitmap
     * can be read; 0 is failure. If the group descriptors and the superblock cannot be written the caller
     * gets 0, although the item stays marked.
     */
    method Alloc(readOk: seq<bool>, writeOk: bool, syncOk: bool) returns (r: nat)
      requires Valid() && |readOk| == l.groups
      modifies this`bits, this`groupFree, this`free
      ensures Valid()
      ensures r != 0 ==> writeOk && syncOk && Took(r)
      ensures r != 0 ==> forall m :: old(Readable(l, bits, readOk, m)) ==> r <= m
      ensures r == 0 && writeOk && syncOk && !old(IsFree(0)) ==>
        && bits == old(bits) && groupFree == old(groupFree) && free == old(free)
        && forall m :: !Readable(l, bits, readOk, m)
    {
      hide Counted, Readable, Available, Marked, Layout.MaxBits, Layout.Valid, Layout.Number;
      CountedFacts(l, width, bits, groupFree, free);
      NoneBelow(l, bits, readOk);
      var g := 0;
      while g < l.groups
        invariant 0 <= g <= l.groups && bits == old(bits) && groupFree == old(groupFree) && free == old(free)
        invariant NoneReadable(l, bits, readOk, g)
      {
        GroupFacts(l, width, bits, groupFree, free, g);
        if groupFree[g] == 0 || !readOk[g] {
          SkipGroup(l, width, bits, groupFree, free, readOk, g);
          g := g + 1;
          continue;
        }
        var bit := ScanBitmap(bits[g], width, l.MaxBits(g));
        if bit.None? {
          g := g + 1;
          continue;
        }
        if !writeOk {
          return 0;
        }
        var i := bit.value;
        MarkBit(l, width, bits, groupFree, free, g, i);
        TakeLeast(l, bits, readOk, g, i);
        r := l.Number(g, i);
        bits := bits[g := bits[g][i := true]];
        groupFree, free := groupFree[g := groupFree[g] - 1], free - 1;
        if !syncOk {
          r := 0;
        }
        return;
      }
      AllGroups(l, bits, readOk);
      return 0;
    }

    /** n has been given back, and nothing else has changed. */
    twostate predicate Gave(n: nat)
      reads this`bits
    {
      && IsFree(n)
      && (forall m :: old(IsFree(m)) <==> IsFree(m) && m != n)
    }

    /**
     * ext2_release_bno: clears the bit and counts the block as free without a look at the old bit. The
     * counters still count the clear bits if and only if the block was in use.
     */
    method Release(n: nat, readOk: bool, writeOk: bool, syncOk: bool) returns (r: Option<Error>)
      requires Valid() && n < l.end
      modifies this`bits, this`groupFree, this`free
      ensures r == Some(EINVAL) <==> n < l.first
      ensures r == Some(EIO) <==> l.first <= n && !(readOk && writeOk && syncOk)
      ensures r.None? <==> l.first <= n && readOk && writeOk && syncOk
      ensures n < l.first || !readOk || !writeOk ==>
        bits == old(bits) && groupFree == old(groupFree) && free == old(free)
      ensures l.first <= n && readOk && writeOk ==> IsFree(n) && (Valid() <==> !old(IsFree(n)))
      ensures l.first <= n && readOk && writeOk && !old(IsFree(n)) ==> Gave(n)
    {
      hide Counted, Available, Marked, Layout.MaxBits, Layout.Valid;
      CountedFacts(l, width, bits, groupFree, free);
      if n < l.first {
        return Some(EINVAL);
      }
      var g, i := l.Group(n), l.Bit(n);
      ReleaseBit(l, width, bits, groupFree, free, n);
      if !readOk || !writeOk {
        return Some(EIO);
      }
      bits := bits[g := bits[g][i := false]];
      groupFree, free := groupFree[g := groupFree[g] + 1], free + 1;
      r := if syncOk then None else Some(EIO);
    }

    /** ext2_release_ino, with its check on the number. */
    method ReleaseInode(ino: nat, readOk: bool, writeOk: bool, syncOk: bool) returns (r: Option<Error>)
      requires Valid() && l.first == 1
      modifies this`bits, this`groupFree, this`free
      ensures r == Some(EINVAL) <==> ino == 0 || l.end <= ino
      ensures r == Some(EIO) <==> 0 < ino < l.end && !(readOk && writeOk && syncOk)
      ensures r == Some(EINVAL) || !readOk || !writeOk ==>
        bits == old(bits) && groupFree == old(groupFree) && free == old(free)
      ensures 0 < ino < l.end && readOk && writeOk ==> IsFree(ino) && (Valid() <==> !old(IsFree(ino)))
      ensures 0 < ino < l.end && readOk && writeOk && !old(IsFree(ino)) ==> Gave(ino)
    {
      hide Counted, Available, Marked, Layout.Valid;
      if ino == 0 || ino >= l.end {
        return Some(EINVAL);
      }
      r := Release(ino, readOk, writeOk, syncOk);
    }
  }

  /** One group with every item in use: an item released twice is counted twice. */
  method ReleasedTwice(n: nat) returns (b: Bitmap, once: Option<Error>, twice: Option<Error>)
    requires n > 0 && n % 32 == 0
    ensures fresh(b) && b.l == Layout(1, n + 1, n, 1) && once.None? && twice.None? && !b.Valid()
  {
    hide Counted, Available, Marked, Layout.Valid;
    var l, bits := Layout(1, n + 1, n, 1), [seq(n, _ => true)];
    AllUsed(l, bits);
    b := new Bitmap(l, 32, bits, [0], 0);
    once := b.Release(1, true, true, true);
    twice := b.Release(1, true, true, true);
  }

  lemma AllUsed(l: Layout, bits: seq<seq<bool>>)
    requires |bits| == 1 && 0 < |bits[0]| && |bits[0]| % 32 == 0 && (forall i :: 0 <= i < |bits[0]| ==> bits[0][i])
    requires l == Layout(1, |bits[0]| + 1, |bits[0]|, 1)
    ensures Counted(l, 32, bits, [0], 0) && !Available(l, bits, 1)
  {
    MultipleMod(1, l.perGroup);
    ClearZero(bits[0], |bits[0]|);
    assert Sum([0]) == Sum([]);
    DivModUnique(0, l.perGroup, 0, 0);
  }

  /** The available items in groups that can be read. */
  ghost predicate Readable(l: Layout, bits: seq<seq<bool>>, readOk: seq<bool>, m: nat) {
    && Available(l, bits, m) && l.perGroup > 0
    && l.Group(m) < |readOk| && readOk[l.Group(m)]
  }

  ghost predicate NoneReadable(l: Layout, bits: seq<seq<bool>>, readOk: seq<bool>, g: nat)
    requires l.perGroup > 0
  {
    forall m :: Readable(l, bits, readOk, m) ==> l.first <= m && l.Group(m) >= g
  }

  lemma CountedFacts(l: Layout, width: nat, bits: seq<seq<bool>>, groupFree: seq<nat>, free: nat)
    requires Counted(l, width, bits, groupFree, free)
    ensures l.Valid() && l.perGroup > 0 && width > 0 && l.first <= l.end && |bits| == |groupFree| == l.groups
  {
  }

  lemma NoneBelow(l: Layout, bits: seq<seq<bool>>, readOk: seq<bool>)
    requires l.perGroup > 0
    ensures NoneReadable(l, bits, readOk, 0)
  {
  }

  lemma GroupFacts(l: Layout, width: nat, bits: seq<seq<bool>>, groupFree: seq<nat>, free: nat, g: nat)
    requires Counted(l, width, bits, groupFree, free) && g < l.groups
    ensures l.perGroup > 0 && width > 0 && |bits[g]| % width == 0 && l.first <= l.end && l.MaxBits(g) <= |bits[g]|
    ensures groupFree[g] == 0 <==> forall i :: 0 <= i < l.MaxBits(g) ==> bits[g][i]
  {
    assert CountedAt(l, bits[g], groupFree[g], g);
    ClearZero(bits[g], l.MaxBits(g));
  }

  lemma SkipGroup(l: Layout, width: nat, bits: seq<seq<bool>>, groupFree: seq<nat>, free: nat, readOk: seq<bool>,
                  g: nat)
    requires Counted(l, width, bits, groupFree, free) && g < l.groups == |readOk|
    requires NoneReadable(l, bits, readOk, g)
    requires readOk[g] ==> l.MaxBits(g) <= |bits[g]| && forall i :: 0 <= i < l.MaxBits(g) ==> bits[g][i]
    ensures NoneReadable(l, bits, readOk, g + 1)
  {
    forall m | Readable(l, bits, readOk, m) ensures l.first <= m && l.Group(m) >= g + 1 {
      if l.Group(m) == g {
        GroupExhausted(l, width, bits, groupFree, free, g, m);
      }
    }
  }

  /** The first clear bit of the first group that has one is the least available number. */
  lemma TakeLeast(l: Layout, bits: seq<seq<bool>>, readOk: seq<bool>, g: nat, i: nat)
    requires l.Valid() && l.first <= l.end && |bits| == l.groups && g < l.groups == |readOk| && readOk[g]
    requires i < l.MaxBits(g) && i < |bits[g]| && !bits[g][i] && forall k :: 0 <= k < i ==> bits[g][k]
    requires NoneReadable(l, bits, readOk, g)
    ensures
      var n := l.Number(g, i);
      && Available(l, bits, n)
      && (forall m :: Available(l, bits[g := bits[g][i := true]], m) <==> Available(l, bits, m) && m != n)
      && (forall m :: Readable(l, bits, readOk, m) ==> n <= m)
  {
    hide Layout.Valid;
    SetBitMarks(l, bits, g, i, true);
    NumberRoundTrip(l, g, i);
    forall m | Readable(l, bits, readOk, m) ensures l.Number(g, i) <= m {
      assert l.Group(m) >= g;
      LaterGroup(l, m, g, i, |bits[g]|, bits);
    }
  }

  lemma LaterGroup(l: Layout, m: nat, g: nat, i: nat, n: nat, bits: seq<seq<bool>>)
    requires l.Valid() && l.first <= l.end && |bits| == l.groups && g < l.groups && n == |bits[g]|
    requires i < n && i < l.MaxBits(g) && forall k :: 0 <= k < i ==> bits[g][k]
    requires Available(l, bits, m) && l.Group(m) >= g
    ensures l.Number(g, i) <= m
  {
    BitRoundTrip(l, m);
    if l.Group(m) > g {
      MulOrder(g + 1, l.Group(m), l.perGroup);
      MulDistribute(g, 1, l.perGroup);
      MaxBitsBound(l, g);
    }
  }

  lemma AllGroups(l: Layout, bits: seq<seq<bool>>, readOk: seq<bool>)
    requires l.Valid() && NoneReadable(l, bits, readOk, l.groups)
    ensures forall m :: !Readable(l, bits, readOk, m)
  {
    forall m ensures !Readable(l, bits, readOk, m) {
      if Readable(l, bits, readOk, m) {
        BitRoundTrip(l, m);
      }
    }
  }

  lemma ReleaseBit(l: Layout, width: nat, bits: seq<seq<bool>>, groupFree: seq<nat>, free: nat, n: nat)
    requires Counted(l, width, bits, groupFree, free) && l.first <= n < l.end
    ensures l.Group(n) < |bits| == |groupFree| && l.Bit(n) < |bits[l.Group(n)]|
    ensures
      var g, i := l.Group(n), l.Bit(n);
      var bits' := bits[g := bits[g][i := false]];
      && Available(l, bits', n)
      && (Counted(l, width, bits', groupFree[g := groupFree[g] + 1], free + 1) <==> !Available(l, bits, n))
      && (!Available(l, bits, n) ==> forall m :: Available(l, bits, m) <==> Available(l, bits', m) && m != n)
  {
    hide Layout.Valid, Layout.MaxBits;
    BitRoundTrip(l, n);
    var g, i := l.Group(n), l.Bit(n);
    GroupFacts(l, width, bits, groupFree, free, g);
    SetBitMarks(l, bits, g, i, false);
    var bits' := bits[g := bits[g][i := false]];
    if bits[g][i] {
      ClearBit(l, width, bits, groupFree, free, g, i);
    } else {
      assert bits' == bits by {
        assert bits[g][i := false] == bits[g];
      }
      assert CountedAt(l, bits[g], groupFree[g], g);
      assert !CountedAt(l, bits'[g], groupFree[g] + 1, g);
    }
  }
}
