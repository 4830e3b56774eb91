/** The blocks below a block, and what is left of a volume while an inode's blocks are released (fs/ext2/ext2_blk.c). */
module Ext2Release {
  import opened Arithmetic
  import opened Ext2Tree
  import opened Ext2Blocks
  import Ext2Bitmap

  /** The block v and all blocks below it; d is its level. */
  ghost function Sub(disk: Disk, v: nat, d: nat): set<nat>
    decreases d, 1, 0
  {
    if v == 0 then {}
    else if d == 0 then {v}
    else {v} + SubWords(disk, if v in disk then disk[v] else [], d - 1)
  }

  ghost function SubWords(disk: Disk, words: seq<nat>, d: nat): set<nat>
    decreases d, 2, |words|
  {
    if words == [] then {}
    else SubWords(disk, words[..|words| - 1], d) + Sub(disk, words[|words| - 1], d)
  }

  lemma {:induction false} SubWordsAt(disk: Disk, words: seq<nat>, d: nat, x: nat)
    ensures x in SubWords(disk, words, d) <==> exists i :: 0 <= i < |words| && x in Sub(disk, words[i], d)
    decreases |words|
  {
    if words != [] {
      var n := |words| - 1;
      SubWordsAt(disk, words[..n], d, x);
      if x in SubWords(disk, words[..n], d) {
        var i :| 0 <= i < n && x in Sub(disk, words[..n][i], d);
        assert x in Sub(disk, words[i], d);
      }
      if i :| 0 <= i < |words| && x in Sub(disk, words[i], d) {
        assert i < n ==> words[..n][i] == words[i];
      }
    }
  }

  /** The block at level d above x. */
  ghost function Above(info: Owners, x: nat, d: nat): nat
    decreases if x in info && info[x].level < d then d - info[x].level else 0
  {
    if x !in info || info[x].level > d then 0
    else if info[x].level == d then x
    else if info[x].pos.Child? && info[x].pos.parent in info && info[info[x].pos.parent].level == info[x].level + 1
    then Above(info, info[x].pos.parent, d)
    else 0
  }

  lemma {:induction false} AboveStep(per: nat, disk: Disk, inodes: Inodes, info: Owners, x: nat, d: nat, w: nat, v: nat)
    requires TreeOk(per, disk, inodes, info) && x in info && info[x].level <= d && Above(info, x, d) == w
    requires w in info && info[w].level == d && info[w].pos.Child? && info[w].pos.parent == v
    ensures Above(info, x, d + 1) == v
    decreases d - info[x].level
  {
    OwnedOf(per, disk, inodes, info, w);
    if info[x].level < d {
      OwnedOf(per, disk, inodes, info, x);
      AboveStep(per, disk, inodes, info, info[x].pos.parent, d, w, v);
    }
  }

  /** The blocks below v know it as theirs. */
  lemma {:induction false} SubAbove(per: nat, disk: Disk, inodes: Inodes, info: Owners, v: nat, d: nat, x: nat)
    requires TreeOk(per, disk, inodes, info) && v in info && info[v].level == d && x in Sub(disk, v, d)
    ensures x in info && info[x].level <= d && Above(info, x, d) == v && info[x].ino == info[v].ino
    decreases d
  {
    hide TreeOk;
    if x != v {
      ShapeOf(per, disk, inodes, info);
      SubWordsAt(disk, disk[v], d - 1, x);
      var i :| 0 <= i < |disk[v]| && x in Sub(disk, disk[v][i], d - 1);
      var w := disk[v][i];
      KnownChild(per, disk, inodes, info, v, i);
      SubAbove(per, disk, inodes, info, w, d - 1, x);
      AboveStep(per, disk, inodes, info, x, d - 1, w, v);
    }
  }

  lemma ShapeOf(per: nat, disk: Disk, inodes: Inodes, info: Owners)
    requires TreeOk(per, disk, inodes, info)
    ensures forall b :: b in info ==> b in disk && |disk[b]| == per && b != 0
  {
  }

  lemma KnownChild(per: nat, disk: Disk, inodes: Inodes, info: Owners, v: nat, i: nat)
    requires TreeOk(per, disk, inodes, info) && v in info && info[v].level > 0 && i < per
    ensures v in disk && |disk[v]| == per
    ensures
      var w := disk[v][i];
      w != 0 ==>
        && w in info && info[w].pos == Child(v, i)
        && info[w].level == info[v].level - 1 && info[w].ino == info[v].ino
  {
    assert KnownAt(per, disk, inodes, info, Child(v, i));
    var w := disk[v][i];
    if w != 0 {
      OwnedOf(per, disk, inodes, info, w);
    }
  }

  /** Two blocks of one level have no block below them in common. */
  lemma SubsApart(per: nat, disk: Disk, inodes: Inodes, info: Owners, v: nat, v': nat, d: nat)
    requires TreeOk(per, disk, inodes, info) && v in info && v' in info && v != v'
    requires info[v].level == d && info[v'].level == d
    ensures Sub(disk, v, d) !! Sub(disk, v', d)
  {
    if x :| x in Sub(disk, v, d) && x in Sub(disk, v', d) {
      SubAbove(per, disk, inodes, info, v, d, x);
      SubAbove(per, disk, inodes, info, v', d, x);
    }
  }

  /** The words of an indirect block lead to different blocks. */
  lemma WordsApart(per: nat, disk: Disk, inodes: Inodes, info: Owners, b: nat, d: nat, i: nat)
    requires TreeOk(per, disk, inodes, info) && b in info && info[b].level == d && d > 0
    requires b in disk && i < |disk[b]| == per
    ensures SubWords(disk, disk[b][..i], d - 1) !! Sub(disk, disk[b][i], d - 1)
  {
    hide TreeOk, Sub;
    var words, w := disk[b], disk[b][i];
    var before, below := SubWords(disk, words[..i], d - 1), Sub(disk, w, d - 1);
    if x :| x in before && x in below {
      SubWordsAt(disk, words[..i], d - 1, x);
      var j :| 0 <= j < i && x in Sub(disk, words[..i][j], d - 1);
      KnownChild(per, disk, inodes, info, b, i);
      KnownChild(per, disk, inodes, info, b, j);
      SubSome(disk, w, d - 1, x);
      SubSome(disk, words[j], d - 1, x);
      SubsApart(per, disk, inodes, info, w, words[j], d - 1);
    }
  }

  lemma SubSome(disk: Disk, v: nat, d: nat, x: nat)
    requires x in Sub(disk, v, d)
    ensures v != 0
  {
  }

  lemma WordsInside(disk: Disk, b: nat, d: nat, i: nat)
    requires d > 0 && b in disk && b != 0 && i < |disk[b]|
    ensures SubWords(disk, disk[b][..i + 1], d - 1) == SubWords(disk, disk[b][..i], d - 1)
            + Sub(disk, disk[b][i], d - 1)
    ensures Sub(disk, disk[b][i], d - 1) <= Sub(disk, b, d)
    ensures Sub(disk, b, d) == {b} + SubWords(disk, disk[b], d - 1)
  {
    var words := disk[b];
    assert words[..i + 1][..i] == words[..i];
    var below := Sub(disk, words[i], d - 1);
    forall x | x in below ensures x in SubWords(disk, words, d - 1) {
      SubWordsAt(disk, words, d - 1, x);
    }
  }

  /** An indirect block is not below itself. */
  lemma NotBelowItself(per: nat, disk: Disk, inodes: Inodes, info: Owners, b: nat, d: nat)
    requires TreeOk(per, disk, inodes, info) && b in info && info[b].level == d && d > 0 && b in disk
             && |disk[b]| == per
    ensures b !in SubWords(disk, disk[b], d - 1)
  {
    hide TreeOk, Sub;
    if b in SubWords(disk, disk[b], d - 1) {
      SubWordsAt(disk, disk[b], d - 1, b);
      var j :| 0 <= j < |disk[b]| && b in Sub(disk, disk[b][j], d - 1);
      SubSome(disk, disk[b][j], d - 1, b);
      KnownChild(per, disk, inodes, info, b, j);
      SubAbove(per, disk, inodes, info, disk[b][j], d - 1, b);
    }
  }

  // ---------------------------------------------------------------- all blocks of an inode

  /** The blocks below the first n pointers of an inode. */
  ghost function Below(disk: Disk, inodes: Inodes, ino: nat, n: nat): set<nat> {
    if n == 0 then {} else Below(disk, inodes, ino, n - 1) + Sub(disk, Pointer(inodes, ino, n - 1), RootLevel(n - 1))
  }

  lemma {:induction false} BelowAt(disk: Disk, inodes: Inodes, ino: nat, n: nat, x: nat)
    ensures x in Below(disk, inodes, ino, n) <==> exists k: nat :: k < n && InRoot(disk, inodes, ino, k, x)
  {
    if n > 0 {
      BelowAt(disk, inodes, ino, n - 1, x);
      if x in Sub(disk, Pointer(inodes, ino, n - 1), RootLevel(n - 1)) {
        assert InRoot(disk, inodes, ino, n - 1, x);
      }
    }
  }

  ghost predicate InRoot(disk: Disk, inodes: Inodes, ino: nat, k: nat, x: nat) {
    x in Sub(disk, Pointer(inodes, ino, k), RootLevel(k))
  }

  /** A block below one pointer of an inode is below no other. */
  lemma RootsApart(per: nat, disk: Disk, inodes: Inodes, info: Owners, ino: nat, k: nat)
    requires TreeOk(per, disk, inodes, info) && ino in inodes && k < N_BLOCKS
    ensures Below(disk, inodes, ino, k) !! Sub(disk, Pointer(inodes, ino, k), RootLevel(k))
  {
    if x :| x in Below(disk, inodes, ino, k) && x in Sub(disk, Pointer(inodes, ino, k), RootLevel(k)) {
      assert InRoot(disk, inodes, ino, k, x);
      BelowAt(disk, inodes, ino, k, x);
      var j: nat :| j < k && InRoot(disk, inodes, ino, j, x);
      TopIs(per, disk, inodes, info, ino, k, x);
      TopIs(per, disk, inodes, info, ino, j, x);
    }
  }

  /** The pointer of an inode a block hangs from. */
  ghost function Top(info: Owners, x: nat, fuel: nat): Pos
    decreases fuel
  {
    if x !in info || fuel == 0 then Root(0, 0)
    else if info[x].pos.Root? then info[x].pos
    else Top(info, info[x].pos.parent, fuel - 1)
  }

  lemma {:induction false} TopUp(per: nat, disk: Disk, inodes: Inodes, info: Owners, x: nat, v: nat, d: nat, fuel: nat)
    requires TreeOk(per, disk, inodes, info) && x in info && info[x].level <= d && Above(info, x, d) == v
    requires v in info && info[v].level == d && info[v].pos.Root? && fuel > d - info[x].level
    ensures Top(info, x, fuel) == info[v].pos
    decreases d - info[x].level
  {
    if info[x].level < d {
      OwnedOf(per, disk, inodes, info, x);
      TopUp(per, disk, inodes, info, info[x].pos.parent, v, d, fuel - 1);
    }
  }

  lemma TopIs(per: nat, disk: Disk, inodes: Inodes, info: Owners, ino: nat, k: nat, x: nat)
    requires TreeOk(per, disk, inodes, info) && ino in inodes && k < N_BLOCKS && InRoot(disk, inodes, ino, k, x)
    ensures Top(info, x, 4) == Root(ino, k) && x in info && info[x].ino == ino
  {
    var v := Pointer(inodes, ino, k);
    RootOwned(per, disk, inodes, info, ino, k);
    SubAbove(per, disk, inodes, info, v, RootLevel(k), x);
    TopUp(per, disk, inodes, info, x, v, RootLevel(k), 4);
  }

  /** A block is below each block above it. */
  lemma {:induction false} SubParent(per: nat, disk: Disk, inodes: Inodes, info: Owners, v: nat, d: nat, w: nat, x: nat)
    requires TreeOk(per, disk, inodes, info) && v in info && info[v].level == d
    requires w in info && x in info && info[x].pos.Child? && info[x].pos.parent == w && w in Sub(disk, v, d)
    ensures x in Sub(disk, v, d)
    decreases d
  {
    hide TreeOk;
    ShapeOf(per, disk, inodes, info);
    OwnedOf(per, disk, inodes, info, x);
    var i := info[x].pos.index;
    if w == v {
      assert disk[v][i] == x;
      assert x in Sub(disk, x, d - 1);
      SubWordsAt(disk, disk[v], d - 1, x);
    } else {
      SubWordsAt(disk, disk[v], d - 1, w);
      var j :| 0 <= j < |disk[v]| && w in Sub(disk, disk[v][j], d - 1);
      KnownChild(per, disk, inodes, info, v, j);
      SubParent(per, disk, inodes, info, disk[v][j], d - 1, w, x);
      SubWordsAt(disk, disk[v], d - 1, x);
    }
  }

  /** Every block in use hangs from a pointer of the inode that owns it. */
  lemma {:induction false} OwnedIsBelow(per: nat, disk: Disk, inodes: Inodes, info: Owners, x: nat)
    requires TreeOk(per, disk, inodes, info) && x in info
    ensures info[x].level <= 3 && info[x].ino in inodes
    ensures exists k: nat :: k < N_BLOCKS && InRoot(disk, inodes, info[x].ino, k, x)
    decreases 3 - info[x].level
  {
    OwnedOf(per, disk, inodes, info, x);
    ShapeOf(per, disk, inodes, info);
    match info[x].pos {
      case Root(ino, k) =>
        assert InRoot(disk, inodes, ino, k, x);
      case Child(w, i) =>
        OwnedOf(per, disk, inodes, info, w);
        OwnedIsBelow(per, disk, inodes, info, w);
        var k: nat :| k < N_BLOCKS && InRoot(disk, inodes, info[w].ino, k, w);
        RootOwned(per, disk, inodes, info, info[w].ino, k);
        SubParent(per, disk, inodes, info, Pointer(inodes, info[w].ino, k), RootLevel(k), w, x);
        assert InRoot(disk, inodes, info[x].ino, k, x);
    }
  }

  /** The blocks an inode owns are those below its pointers. */
  lemma AllOwned(per: nat, disk: Disk, inodes: Inodes, info: Owners, ino: nat)
    requires TreeOk(per, disk, inodes, info) && ino in inodes
    ensures Below(disk, inodes, ino, N_BLOCKS) == OwnedBy(info, ino)
  {
    forall x ensures x in Below(disk, inodes, ino, N_BLOCKS) <==> x in OwnedBy(info, ino) {
      BelowAt(disk, inodes, ino, N_BLOCKS, x);
      if x in OwnedBy(info, ino) {
        OwnedIsBelow(per, disk, inodes, info, x);
      }
      if k: nat :| k < N_BLOCKS && InRoot(disk, inodes, ino, k, x) {
        TopIs(per, disk, inodes, info, ino, k, x);
      }
    }
  }

  // ---------------------------------------------------------------- in the middle of a release

  /** The volume when the release of an inode's blocks began. */
  datatype Origin = Origin(inodes: Inodes, iblocks: map<nat, nat>, bits: seq<seq<bool>>)

  /** Exactly the blocks `freed` of the inode have been given back so far. */
  ghost predicate Released(sectors: nat, l: Ext2Bitmap.Layout, o: Origin, bits: seq<seq<bool>>, iblocks: map<nat, nat>,
                           entries: seq<Entry>, info: Owners, ino: nat, freed: set<nat>)
  {
    && freed <= OwnedBy(info, ino)
    && (forall m :: Ext2Bitmap.Available(l, bits, m) <==> Ext2Bitmap.Available(l, o.bits, m) || m in freed)
    && |freed| <= |OwnedBy(info, ino)|
    && iblocks == o.iblocks[ino := (|OwnedBy(info, ino)| - |freed|) * sectors]
    && (forall b :: b in freed && b in info && info[b].level > 0 ==> NotCached(entries, b))
    && (forall b :: b in info ==> l.first <= b < l.end && !Ext2Bitmap.Available(l, o.bits, b))
  }

  lemma NothingReleased(sectors: nat, l: Ext2Bitmap.Layout, o: Origin, entries: seq<Entry>, disk: Disk, info: Owners,
                        ino: nat)
    requires BlocksCounted(sectors, o.inodes, o.iblocks, info) && UsedMarked(l, o.bits, disk, info) && ino in o.inodes
    ensures Released(sectors, l, o, o.bits, o.iblocks, entries, info, ino, {})
  {
    assert o.iblocks == o.iblocks[ino := |OwnedBy(info, ino)| * sectors];
  }

  lemma SubsetSize(a: set<nat>, b: set<nat>)
    requires a <= b
    ensures |a| <= |b|
  {
    assert b == a + (b - a);
  }

  /** What the release of one more block needs. */
  lemma CanRelease(sectors: nat, l: Ext2Bitmap.Layout, o: Origin, bits: seq<seq<bool>>, iblocks: map<nat, nat>,
                   entries: seq<Entry>, info: Owners, ino: nat, freed: set<nat>, b: nat)
    requires Released(sectors, l, o, bits, iblocks, entries, info, ino, freed)
    requires b in info && info[b].ino == ino && b !in freed
    ensures ino in iblocks && sectors <= iblocks[ino] && l.first <= b < l.end && !Ext2Bitmap.Available(l, bits, b)
  {
    hide Ext2Bitmap.Available;
    var owned := OwnedBy(info, ino);
    assert b in owned;
    assert |owned| > |freed| by {
      assert freed + {b} <= owned;
      SubsetSize(freed + {b}, owned);
    }
    MulOrder(1, |owned| - |freed|, sectors);
  }

  lemma OneReleased(sectors: nat, l: Ext2Bitmap.Layout, o: Origin, bits: seq<seq<bool>>, bits': seq<seq<bool>>,
                    iblocks: map<nat, nat>, entries: seq<Entry>, info: Owners, ino: nat, freed: set<nat>, b: nat)
    requires Released(sectors, l, o, bits, iblocks, entries, info, ino, freed)
    requires b in info && info[b].ino == ino && b !in freed && (info[b].level > 0 ==> NotCached(entries, b))
    requires ino in iblocks && sectors <= iblocks[ino]
    requires Ext2Bitmap.Available(l, bits', b)
    requires forall m :: Ext2Bitmap.Available(l, bits, m) <==> Ext2Bitmap.Available(l, bits', m) && m != b
    ensures Released(sectors, l, o, bits', iblocks[ino := iblocks[ino] - sectors], entries, info, ino, freed + {b})
  {
    hide Ext2Bitmap.Available;
    var owned := OwnedBy(info, ino);
    assert owned == freed + (owned - freed);
    assert owned - freed == {b} + (owned - freed - {b});
    assert |freed + {b}| == |freed| + 1;
    MulDistribute(|owned| - |freed| - 1, 1, sectors);
    assert iblocks[ino := iblocks[ino] - sectors] == o.iblocks[ino := (|owned| - |freed + {b}|) * sectors];
    forall m ensures Ext2Bitmap.Available(l, bits', m) <==> Ext2Bitmap.Available(l, o.bits, m) || m in freed + {b} {
      assert Ext2Bitmap.Available(l, bits, m) <==> Ext2Bitmap.Available(l, o.bits, m) || m in freed;
    }
  }

  lemma FewerCached(sectors: nat, l: Ext2Bitmap.Layout, o: Origin, bits: seq<seq<bool>>, iblocks: map<nat, nat>,
                    entries: seq<Entry>, entries': seq<Entry>, info: Owners, ino: nat, freed: set<nat>)
    requires Released(sectors, l, o, bits, iblocks, entries, info, ino, freed)
    requires forall c :: NotCached(entries, c) ==> NotCached(entries', c)
    ensures Released(sectors, l, o, bits, iblocks, entries', info, ino, freed)
  {
    hide Ext2Bitmap.Available;
  }

  /** The trees without an inode's blocks. */
  ghost function Without(info: Owners, ino: nat): Owners {
    map b | b in info && info[b].ino != ino :: info[b]
  }

  lemma WithoutTree(per: nat, disk: Disk, inodes: Inodes, info: Owners, ino: nat)
    requires TreeOk(per, disk, inodes, info) && ino in inodes
    ensures TreeOk(per, disk, inodes[ino := Zeros(N_BLOCKS)], Without(info, ino))
  {
    var inodes', info' := inodes[ino := Zeros(N_BLOCKS)], Without(info, ino);
    forall b | b in info' ensures OwnedAt(per, disk, inodes', info', b) {
      OwnedOf(per, disk, inodes, info, b);
    }
    forall pos ensures KnownAt(per, disk, inodes', info', pos) {
      assert KnownAt(per, disk, inodes, info, pos);
      if PosOk(per, inodes', info', pos) && Ptr(disk, inodes', pos) != 0 {
        OwnedOf(per, disk, inodes, info, Ptr(disk, inodes, pos));
      }
    }
  }

  /** When all blocks of the inode have been released, the rest is a volume again. */
  lemma AllReleased(per: nat, sectors: nat, l: Ext2Bitmap.Layout, o: Origin, bits: seq<seq<bool>>,
                    iblocks: map<nat, nat>, entries: seq<Entry>, disk: Disk, info: Owners, ino: nat)
    requires TreeOk(per, disk, o.inodes, info) && CacheOk(entries, disk, info) && ino in o.inodes
    requires BlocksCounted(sectors, o.inodes, o.iblocks, info) && UsedMarked(l, o.bits, disk, info)
    requires Released(sectors, l, o, bits, iblocks, entries, info, ino, OwnedBy(info, ino))
    ensures CacheOk(entries, disk, Without(info, ino))
    ensures BlocksCounted(sectors, o.inodes[ino := Zeros(N_BLOCKS)], iblocks, Without(info, ino))
    ensures UsedMarked(l, bits, disk, Without(info, ino)) && iblocks == o.iblocks[ino := 0]
  {
    hide TreeOk, Ext2Bitmap.Available;
    var info', inodes' := Without(info, ino), o.inodes[ino := Zeros(N_BLOCKS)];
    forall i | 0 <= i < |entries| && entries[i].valid ensures EntryOk(entries[i], disk, info') {
      assert EntryOk(entries[i], disk, info);
    }
    InDisk(per, disk, o.inodes, info);
    assert !Ext2Bitmap.Available(l, bits, 0) by {
      assert 0 !in OwnedBy(info, ino);
    }
    assert inodes'.Keys == o.inodes.Keys;
    forall j | j in inodes' ensures iblocks[j] == |OwnedBy(info', j)| * sectors {
      if j == ino {
        assert OwnedBy(info', j) == {};
      } else {
        assert OwnedBy(info', j) == OwnedBy(info, j);
      }
    }
  }
}
