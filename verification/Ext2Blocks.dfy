/** Mapping, growing and freeing the block trees of a mounted ext2 volume (ext2_blk.c, ext2_cache.c in fs/ext2). */
module Ext2Blocks {
  import opened Arithmetic
  import opened Ext2Tree
  import Ext2Bitmap

  const CACHE_SIZE: nat := 64
  const UINT32_MAX: nat := 0xffff_ffff

  datatype Error = EINVAL | ENOMEM | EIO | ENOSPC | EFBIG

  datatype Result = Ok(value: nat) | Err(error: Error)

  /** An entry of the indirect-block cache; hasPage: its buffer has been allocated. */
  datatype Entry = Entry(block: nat, data: seq<nat>, lastUsed: nat, valid: bool, hasPage: bool)

  /** Every valid entry is a copy of an indirect block in use, and no block has two. */
  ghost predicate CacheOk(entries: seq<Entry>, disk: Disk, info: Owners) {
    && |entries| == CACHE_SIZE
    && (forall i :: 0 <= i < |entries| && entries[i].valid ==> EntryOk(entries[i], disk, info))
    && (forall i, j :: 0 <= i < j < |entries| && entries[i].valid && entries[j].valid ==>
          entries[i].block != entries[j].block)
  }

  ghost predicate EntryOk(e: Entry, disk: Disk, info: Owners) {
    e.block in info && info[e.block].level > 0 && e.block in disk && e.data == disk[e.block]
  }

  ghost predicate NotCached(entries: seq<Entry>, b: nat) {
    forall i :: 0 <= i < |entries| && entries[i].valid ==> entries[i].block != b
  }

  ghost function OwnedBy(info: Owners, ino: nat): set<nat> {
    set b | b in info && info[b].ino == ino
  }

  /** i_blocks counts the sectors of the blocks an inode owns. */
  ghost predicate BlocksCounted(sectors: nat, inodes: Inodes, iblocks: map<nat, nat>, info: Owners) {
    && iblocks.Keys == inodes.Keys
    && (forall ino :: ino in inodes ==> iblocks[ino] == |OwnedBy(info, ino)| * sectors)
  }

  /** Blocks in use are marked in the bitmaps, and 0 is no block. */
  ghost predicate UsedMarked(l: Ext2Bitmap.Layout, bits: seq<seq<bool>>, disk: Disk, info: Owners) {
    && (forall b :: b in info ==> l.first <= b < l.end && !Ext2Bitmap.Available(l, bits, b))
    && (forall b :: l.first <= b < l.end ==> b in disk)
    && !Ext2Bitmap.Available(l, bits, 0)
  }

  /** Every file block of every inode is where it was. */
  ghost predicate SameMaps(per: nat, disk: Disk, inodes: Inodes, disk': Disk, inodes': Inodes) {
    forall ino, k, path :: RouteOk(per, inodes, ino, k, path) && |path| == RootLevel(k) ==>
      MapAt(disk', inodes', ino, k, path) == MapAt(disk, inodes, ino, k, path)
  }

  /** One file block of one inode is v now; every other one is where it was. */
  ghost predicate OneMap(per: nat, disk: Disk, inodes: Inodes, disk': Disk, inodes': Inodes, ino: nat, r: Route,
                         v: nat) {
    forall ino', k, path :: RouteOk(per, inodes, ino', k, path) && |path| == RootLevel(k) ==>
      MapAt(disk', inodes', ino', k, path) ==
        if ino' == ino && Route(k, path) == r then v else MapAt(disk, inodes, ino', k, path)
  }

  /** The contents of data blocks are unchanged. */
  ghost predicate DataKept(info: Owners, disk: Disk, disk': Disk) {
    forall b :: b in info && b in disk && info[b].level == 0 ==> b in disk' && disk'[b] == disk[b]
  }

  lemma SameMapsThen(per: nat, d1: Disk, i1: Inodes, d2: Disk, i2: Inodes, d3: Disk, i3: Inodes)
    requires SameMaps(per, d1, i1, d2, i2) && SameMaps(per, d2, i2, d3, i3) && i1.Keys == i2.Keys
    ensures SameMaps(per, d1, i1, d3, i3)
  {
    forall ino, k, path | RouteOk(per, i1, ino, k, path) && |path| == RootLevel(k)
      ensures MapAt(d3, i3, ino, k, path) == MapAt(d1, i1, ino, k, path)
    {
      assert RouteOk(per, i2, ino, k, path);
      assert MapAt(d2, i2, ino, k, path) == MapAt(d1, i1, ino, k, path);
    }
  }

  lemma SameThenOne(per: nat, d1: Disk, i1: Inodes, d2: Disk, i2: Inodes, d3: Disk, i3: Inodes, ino: nat, r: Route,
                    v: nat)
    requires SameMaps(per, d1, i1, d2, i2) && OneMap(per, d2, i2, d3, i3, ino, r, v) && i1.Keys == i2.Keys
    ensures OneMap(per, d1, i1, d3, i3, ino, r, v)
  {
    forall ino', k, path | RouteOk(per, i1, ino', k, path) && |path| == RootLevel(k)
      ensures MapAt(d3, i3, ino', k, path) ==
        if ino' == ino && Route(k, path) == r then v else MapAt(d1, i1, ino', k, path)
    {
      assert RouteOk(per, i2, ino', k, path);
      assert MapAt(d2, i2, ino', k, path) == MapAt(d1, i1, ino', k, path);
    }
  }

  lemma SameRefl(per: nat, disk: Disk, inodes: Inodes)
    ensures SameMaps(per, disk, inodes, disk, inodes)
  {
  }

  /** Attaching an indirect block changes no mapping: holes stay holes. */
  lemma AttachInner(per: nat, disk: Disk, inodes: Inodes, info: Owners, v: nat, ino: nat, k: nat, path: seq<nat>)
    requires RouteOk(per, inodes, ino, k, path) && |path| < RootLevel(k)
    requires path != [] ==> MapAt(disk, inodes, ino, k, path[..|path| - 1]) != 0
    requires CanAttach(per, disk, inodes, info, PathPos(disk, inodes, ino, k, path), v)
    ensures
      var pos := PathPos(disk, inodes, ino, k, path);
      var disk', inodes' := AttachDisk(per, disk, pos, v), AttachInodes(inodes, pos, v);
      SameMaps(per, disk, inodes, disk', inodes') && MapAt(disk', inodes', ino, k, path) == v
  {
    hide TreeOk, AttachDisk, AttachInodes, MapAt, RouteOk, PathPos;
    var pos := PathPos(disk, inodes, ino, k, path);
    var disk', inodes' := AttachDisk(per, disk, pos, v), AttachInodes(inodes, pos, v);
    AttachMaps(per, disk, inodes, info, pos, v, ino, k, path);
    forall ino', k', path' | RouteOk(per, inodes, ino', k', path') && |path'| == RootLevel(k')
      ensures MapAt(disk', inodes', ino', k', path') == MapAt(disk, inodes, ino', k', path')
    {
      AttachMaps(per, disk, inodes, info, pos, v, ino', k', path');
      if PathPos(disk, inodes, ino', k', path') == pos {
        PathPosUnique(per, disk, inodes, info, ino, k, path, ino', k', path');
      }
    }
  }

  /** Attaching a data block changes the mapping of its file block only. */
  lemma AttachLeaf(per: nat, disk: Disk, inodes: Inodes, info: Owners, v: nat, ino: nat, k: nat, path: seq<nat>)
    requires RouteOk(per, inodes, ino, k, path) && |path| == RootLevel(k)
    requires path != [] ==> MapAt(disk, inodes, ino, k, path[..|path| - 1]) != 0
    requires CanAttach(per, disk, inodes, info, PathPos(disk, inodes, ino, k, path), v)
    ensures
      var pos := PathPos(disk, inodes, ino, k, path);
      var disk', inodes' := AttachDisk(per, disk, pos, v), AttachInodes(inodes, pos, v);
      OneMap(per, disk, inodes, disk', inodes', ino, Route(k, path), v) && MapAt(disk', inodes', ino, k, path) == v
  {
    hide TreeOk, AttachDisk, AttachInodes, MapAt, RouteOk, PathPos;
    var pos := PathPos(disk, inodes, ino, k, path);
    var disk', inodes' := AttachDisk(per, disk, pos, v), AttachInodes(inodes, pos, v);
    AttachMaps(per, disk, inodes, info, pos, v, ino, k, path);
    forall ino', k', path' | RouteOk(per, inodes, ino', k', path') && |path'| == RootLevel(k')
      ensures MapAt(disk', inodes', ino', k', path') ==
        if ino' == ino && Route(k', path') == Route(k, path) then v else MapAt(disk, inodes, ino', k', path')
    {
      AttachMaps(per, disk, inodes, info, pos, v, ino', k', path');
      if PathPos(disk, inodes, ino', k', path') == pos {
        PathPosUnique(per, disk, inodes, info, ino, k, path, ino', k', path');
      }
    }
  }

  /** What an attachment does to the cache, the counts and the marks. */
  lemma AttachRest(per: nat, disk: Disk, inodes: Inodes, info: Owners, pos: Pos, v: nat, entries: seq<Entry>)
    requires CanAttach(per, disk, inodes, info, pos, v) && CacheOk(entries, disk, info)
    requires pos.Child? ==> NotCached(entries, pos.parent)
    ensures LevelAt(info, pos) >= 0
    ensures CacheOk(entries, AttachDisk(per, disk, pos, v), AttachInfo(info, pos, v)) && NotCached(entries, v)
    ensures DataKept(info, disk, AttachDisk(per, disk, pos, v))
  {
    hide TreeOk;
    AttachShape(per, disk, inodes, info, pos, v);
    InDisk(per, disk, inodes, info);
    var disk' := AttachDisk(per, disk, pos, v);
    assert forall b :: b in disk && b != v && (pos.Child? ==> b != pos.parent) ==> disk'[b] == disk[b];
    forall i | 0 <= i < |entries| && entries[i].valid
      ensures EntryOk(entries[i], disk', AttachInfo(info, pos, v)) && entries[i].block != v
    {
      assert EntryOk(entries[i], disk, info);
    }
  }

  lemma AttachCounts(info: Owners, v: nat, i: Info, ino: nat)
    requires v !in info
    ensures |OwnedBy(info[v := i], ino)| == |OwnedBy(info, ino)| + (if i.ino == ino then 1 else 0)
  {
    var s, s' := OwnedBy(info, ino), OwnedBy(info[v := i], ino);
    if i.ino == ino {
      assert s' == s + {v} && v !in s;
    } else {
      assert s' == s;
    }
  }

  lemma AttachMarks(per: nat, l: Ext2Bitmap.Layout, bits: seq<seq<bool>>, bits': seq<seq<bool>>, disk: Disk,
                    inodes: Inodes, info: Owners, pos: Pos, v: nat)
    requires CanAttach(per, disk, inodes, info, pos, v) && UsedMarked(l, bits, disk, info)
    requires Ext2Bitmap.Available(l, bits, v)
    requires forall m :: Ext2Bitmap.Available(l, bits', m) <==> Ext2Bitmap.Available(l, bits, m) && m != v
    ensures LevelAt(info, pos) >= 0
    ensures UsedMarked(l, bits', AttachDisk(per, disk, pos, v), AttachInfo(info, pos, v))
  {
    hide TreeOk, Ext2Bitmap.Marked;
    AttachShape(per, disk, inodes, info, pos, v);
  }

  lemma AttachBlocks(sectors: nat, inodes: Inodes, iblocks: map<nat, nat>, info: Owners, pos: Pos, v: nat,
                     inodes': Inodes)
    requires BlocksCounted(sectors, inodes, iblocks, info) && v !in info && LevelAt(info, pos) >= 0
    requires inodes'.Keys == inodes.Keys && InoAt(info, pos) in inodes
    ensures
      var ino := InoAt(info, pos);
      BlocksCounted(sectors, inodes', iblocks[ino := iblocks[ino] + sectors], AttachInfo(info, pos, v))
  {
    var ino, info' := InoAt(info, pos), AttachInfo(info, pos, v);
    var iblocks' := iblocks[ino := iblocks[ino] + sectors];
    forall j | j in inodes' ensures iblocks'[j] == |OwnedBy(info', j)| * sectors {
      AttachCounts(info, v, Info(pos, LevelAt(info, pos), ino), j);
      MulDistribute(|OwnedBy(info, j)|, 1, sectors);
    }
  }

  /** An attachment keeps everything that holds of a volume. */
  lemma AttachAll(per: nat, sectors: nat, l: Ext2Bitmap.Layout, bits: seq<seq<bool>>, bits': seq<seq<bool>>,
                  disk: Disk, inodes: Inodes, iblocks: map<nat, nat>, entries: seq<Entry>, info: Owners, pos: Pos,
                    v: nat)
    requires TreeOk(per, disk, inodes, info) && CacheOk(entries, disk, info)
    requires BlocksCounted(sectors, inodes, iblocks, info) && UsedMarked(l, bits, disk, info)
    requires PosOk(per, inodes, info, pos) && Ptr(disk, inodes, pos) == 0 && InoAt(info, pos) in inodes
    requires pos.Child? ==> NotCached(entries, pos.parent)
    requires v != 0 && Ext2Bitmap.Available(l, bits, v)
    requires forall m :: Ext2Bitmap.Available(l, bits', m) <==> Ext2Bitmap.Available(l, bits, m) && m != v
    ensures CanAttach(per, disk, inodes, info, pos, v) && LevelAt(info, pos) >= 0 && InoAt(info, pos) in iblocks
    ensures
      var ino := InoAt(info, pos);
      var disk', inodes', info' := AttachDisk(per, disk, pos, v), AttachInodes(inodes, pos, v),
          AttachInfo(info, pos, v);
      && TreeOk(per, disk', inodes', info') && CacheOk(entries, disk', info')
      && BlocksCounted(sectors, inodes', iblocks[ino := iblocks[ino] + sectors], info')
      && UsedMarked(l, bits', disk', info') && DataKept(info, disk, disk')
  {
    assert CanAttach(per, disk, inodes, info, pos, v) by {
      FreeIsUnowned(l, bits, disk, info, v);
    }
    hide TreeOk, CacheOk, BlocksCounted, UsedMarked, PosOk, Ptr, AttachDisk, AttachInodes, AttachInfo, DataKept,
         CanAttach;
    AttachTree(per, disk, inodes, info, pos, v);
    AttachShape(per, disk, inodes, info, pos, v);
    AttachRest(per, disk, inodes, info, pos, v, entries);
    AttachMarks(per, l, bits, bits', disk, inodes, info, pos, v);
    Unowned(per, disk, inodes, info, pos, v);
    CountKeys(sectors, inodes, iblocks, info);
    AttachBlocks(sectors, inodes, iblocks, info, pos, v, AttachInodes(inodes, pos, v));
  }

  lemma FreeIsUnowned(l: Ext2Bitmap.Layout, bits: seq<seq<bool>>, disk: Disk, info: Owners, v: nat)
    requires UsedMarked(l, bits, disk, info) && Ext2Bitmap.Available(l, bits, v)
    ensures v in disk && v !in info
  {
  }

  lemma Unowned(per: nat, disk: Disk, inodes: Inodes, info: Owners, pos: Pos, v: nat)
    requires CanAttach(per, disk, inodes, info, pos, v)
    ensures v !in info
  {
  }

  lemma CountKeys(sectors: nat, inodes: Inodes, iblocks: map<nat, nat>, info: Owners)
    requires BlocksCounted(sectors, inodes, iblocks, info)
    ensures iblocks.Keys == inodes.Keys
  {
  }

  /** The place holds v: it did before, or a free block has been attached there; v = 0 is failure. */
  ghost predicate Ensured(per: nat, disk: Disk, inodes: Inodes, info: Owners,
                          disk': Disk, inodes': Inodes, info': Owners, pos: Pos, v: nat)
  {
    if v == 0 || Ptr(disk, inodes, pos) != 0 then
      disk' == disk && inodes' == inodes && info' == info && Ptr(disk, inodes, pos) == v
    else
      && CanAttach(per, disk, inodes, info, pos, v) && LevelAt(info, pos) >= 0
      && disk' == AttachDisk(per, disk, pos, v) && inodes' == AttachInodes(inodes, pos, v)
      && info' == AttachInfo(info, pos, v)
  }

  /** The effect on all mappings of making sure that a path leads to a block v; v = 0 is failure. */
  ghost predicate Mapped(per: nat, disk: Disk, inodes: Inodes, disk': Disk, inodes': Inodes,
                         ino: nat, k: nat, path: seq<nat>, v: nat)
  {
    if v == 0 then SameMaps(per, disk, inodes, disk', inodes')
    else
      && MapAt(disk', inodes', ino, k, path) == v
      && (if |path| < RootLevel(k) then SameMaps(per, disk, inodes, disk', inodes')
          else OneMap(per, disk, inodes, disk', inodes', ino, Route(k, path), v))
  }

  lemma EnsuredMapped(per: nat, disk: Disk, inodes: Inodes, info: Owners, disk': Disk, inodes': Inodes, info': Owners,
                      ino: nat, k: nat, path: seq<nat>, v: nat)
    requires TreeOk(per, disk, inodes, info) && RouteOk(per, inodes, ino, k, path)
    requires path != [] ==> MapAt(disk, inodes, ino, k, path[..|path| - 1]) != 0
    requires Ensured(per, disk, inodes, info, disk', inodes', info', PathPos(disk, inodes, ino, k, path), v)
    ensures Mapped(per, disk, inodes, disk', inodes', ino, k, path, v)
    ensures v != 0 && MapAt(disk, inodes, ino, k, path) != 0 ==> MapAt(disk, inodes, ino, k, path) == v
    ensures v == 0 ==> MapAt(disk, inodes, ino, k, path) == 0
    ensures MapAt(disk, inodes, ino, k, path) == Ptr(disk, inodes, PathPos(disk, inodes, ino, k, path))
  {
    hide TreeOk, AttachDisk, AttachInodes, AttachInfo, MapAt, PathPos, RouteOk, SameMaps, OneMap;
    MapIsPtr(disk, inodes, ino, k, path);
    SameRefl(per, disk, inodes);
    RouteLength(per, inodes, ino, k, path);
    if v != 0 {
      if MapAt(disk, inodes, ino, k, path) != 0 {
        SameIsOne(per, disk, inodes, ino, k, path);
      } else if |path| < RootLevel(k) {
        AttachInner(per, disk, inodes, info, v, ino, k, path);
      } else {
        AttachLeaf(per, disk, inodes, info, v, ino, k, path);
      }
    }
  }

  lemma RouteLength(per: nat, inodes: Inodes, ino: nat, k: nat, path: seq<nat>)
    requires RouteOk(per, inodes, ino, k, path)
    ensures |path| <= RootLevel(k)
  {
  }

  lemma SameIsOne(per: nat, disk: Disk, inodes: Inodes, ino: nat, k: nat, path: seq<nat>)
    ensures OneMap(per, disk, inodes, disk, inodes, ino, Route(k, path), MapAt(disk, inodes, ino, k, path))
  {
  }

  /** No block has become free. */
  ghost predicate FreeShrinks(l: Ext2Bitmap.Layout, bits: seq<seq<bool>>, bits': seq<seq<bool>>) {
    forall m :: Ext2Bitmap.Available(l, bits', m) ==> Ext2Bitmap.Available(l, bits, m)
  }

  lemma FreeShrinksRefl(l: Ext2Bitmap.Layout, bits: seq<seq<bool>>)
    ensures FreeShrinks(l, bits, bits)
  {
  }

  lemma FreeShrinksThen(l: Ext2Bitmap.Layout, b1: seq<seq<bool>>, b2: seq<seq<bool>>, b3: seq<seq<bool>>)
    requires FreeShrinks(l, b1, b2) && FreeShrinks(l, b2, b3)
    ensures FreeShrinks(l, b1, b3)
  {
  }

  /** What the mappings of a volume depend on. */
  datatype Snapshot = Snapshot(disk: Disk, inodes: Inodes, info: Owners, bits: seq<seq<bool>>)

  ghost predicate InfoKept(info: Owners, info': Owners) {
    forall b :: b in info ==> b in info' && info'[b].level == info[b].level
  }

  /** From s to s' a path has been made to lead to a block v: nothing else is mapped anew, moved or overwritten. */
  ghost predicate Step(per: nat, l: Ext2Bitmap.Layout, s: Snapshot, s': Snapshot, ino: nat, k: nat, path: seq<nat>,
                       v: nat) {
    && s'.inodes.Keys == s.inodes.Keys && InfoKept(s.info, s'.info)
    && DataKept(s.info, s.disk, s'.disk) && FreeShrinks(l, s.bits, s'.bits)
    && Mapped(per, s.disk, s.inodes, s'.disk, s'.inodes, ino, k, path, v)
    && (v != 0 && |path| == RootLevel(k) ==> Placed(per, l, s, s', MapAt(s.disk, s.inodes, ino, k, path), v))
  }

  /** A file block that was mapped keeps its block; a new block was free and reads as zeros. */
  ghost predicate Placed(per: nat, l: Ext2Bitmap.Layout, s: Snapshot, s': Snapshot, before: nat, v: nat) {
    if before != 0 then v == before
    else Ext2Bitmap.Available(l, s.bits, v) && v in s'.disk && s'.disk[v] == Zeros(per)
  }

  /** An indirect block first, then the rest of the path. */
  lemma StepThen(per: nat, l: Ext2Bitmap.Layout, s1: Snapshot, s2: Snapshot, s3: Snapshot,
                 ino: nat, k: nat, q: seq<nat>, b: nat, path: seq<nat>, v: nat)
    requires Step(per, l, s1, s2, ino, k, q, b) && b != 0 && |q| < RootLevel(k)
    requires Step(per, l, s2, s3, ino, k, path, v) && RouteOk(per, s1.inodes, ino, k, path)
    ensures Step(per, l, s1, s3, ino, k, path, v)
  {
    hide RouteOk, MapAt, Ext2Bitmap.Available, SameMaps, OneMap, DataKept, FreeShrinks;
    DataThen(s1.info, s1.disk, s2.info, s2.disk, s3.disk);
    FreeShrinksThen(l, s1.bits, s2.bits, s3.bits);
    RouteLength(per, s1.inodes, ino, k, path);
    if v == 0 || |path| < RootLevel(k) {
      SameMapsThen(per, s1.disk, s1.inodes, s2.disk, s2.inodes, s3.disk, s3.inodes);
    } else {
      SameThenOne(per, s1.disk, s1.inodes, s2.disk, s2.inodes, s3.disk, s3.inodes, ino, Route(k, path), v);
      SameMapsAt(per, s1.disk, s1.inodes, s2.disk, s2.inodes, ino, k, path);
      if v != 0 {
        PlacedThen(per, l, s1, s2, s3, MapAt(s1.disk, s1.inodes, ino, k, path), v);
      }
    }
  }

  lemma SameMapsAt(per: nat, disk: Disk, inodes: Inodes, disk': Disk, inodes': Inodes, ino: nat, k: nat, path: seq<nat>)
    requires SameMaps(per, disk, inodes, disk', inodes') && RouteOk(per, inodes, ino, k, path) && |path| == RootLevel(k)
    ensures MapAt(disk', inodes', ino, k, path) == MapAt(disk, inodes, ino, k, path)
  {
  }

  lemma PlacedThen(per: nat, l: Ext2Bitmap.Layout, s1: Snapshot, s2: Snapshot, s3: Snapshot, before: nat, v: nat)
    requires FreeShrinks(l, s1.bits, s2.bits) && Placed(per, l, s2, s3, before, v)
    ensures Placed(per, l, s1, s3, before, v)
  {
  }

  lemma DataThen(i1: Owners, d1: Disk, i2: Owners, d2: Disk, d3: Disk)
    requires DataKept(i1, d1, d2) && DataKept(i2, d2, d3) && InfoKept(i1, i2)
    ensures DataKept(i1, d1, d3)
  {
  }

  lemma InfoRefl(info: Owners)
    ensures InfoKept(info, info)
  {
  }

  lemma AttachInfoKept(info: Owners, pos: Pos, v: nat)
    requires v !in info && LevelAt(info, pos) >= 0
    ensures InfoKept(info, AttachInfo(info, pos, v))
  {
  }
}
