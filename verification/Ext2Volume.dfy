/** A mounted volume: the indirect-block cache and the block trees, updated in place (fs/ext2). */
module Ext2Volume {
  import opened Options
  import opened Ext2Tree
  import opened Ext2Blocks
  import opened Ext2Release
  import Ext2Bitmap

  class Volume {
    /** The block numbers in a block, and the sectors of a block. */
    const per: nat
    const sectors: nat
    const alloc: Ext2Bitmap.Bitmap
    var disk: Disk
    var inodes: Inodes
    var iblocks: map<nat, nat>
    var entries: seq<Entry>
    var clock: nat
    ghost var info: Owners

    /** A volume as the mount finds it. */
    constructor (per: nat, sectors: nat, alloc: Ext2Bitmap.Bitmap, disk: Disk, inodes: Inodes,
                 iblocks: map<nat, nat>, ghost info: Owners)
      requires per > 0 && sectors > 0 && alloc.Valid() && TreeOk(per, disk, inodes, info)
      requires BlocksCounted(sectors, inodes, iblocks, info) && UsedMarked(alloc.l, alloc.bits, disk, info)
      ensures Valid() && this.alloc == alloc && this.disk == disk && this.inodes == inodes && this.info == info
    {
      hide TreeOk, BlocksCounted, UsedMarked, CacheOk, Ext2Bitmap.Counted;
      EmptyCache(disk, info);
      this.per, this.sectors, this.alloc := per, sectors, alloc;
      this.disk, this.inodes, this.iblocks, this.info := disk, inodes, iblocks, info;
      entries := NoEntries();
      clock := 0;
    }

    ghost predicate Valid()
      reads this, alloc
    {
      && per > 0 && sectors > 0 && alloc.Valid()
      && TreeOk(per, disk, inodes, info) && CacheOk(entries, disk, info)
      && BlocksCounted(sectors, inodes, iblocks, info)
      && UsedMarked(alloc.l, alloc.bits, disk, info)
    }

    // ---------------------------------------------------------------- the indirect-block cache

    /** ext2_indirect_cache_find. */
    method CacheFind(b: nat) returns (r: Option<nat>)
      requires |entries| == CACHE_SIZE
      ensures r.Some? ==> r.value < |entries| && entries[r.value].valid && entries[r.value].block == b
      ensures r.None? <==> NotCached(entries, b)
    {
      var i := 0;
      while i < CACHE_SIZE
        invariant 0 <= i <= CACHE_SIZE
        invariant forall k :: 0 <= k < i && entries[k].valid ==> entries[k].block != b
      {
        if entries[i].valid && entries[i].block == b {
          return Some(i);
        }
        i := i + 1;
      }
      return None;
    }

    /** ext2_indirect_cache_select_victim: an unused entry, or else the least recently used one. */
    method SelectVictim() returns (r: nat)
      requires |entries| == CACHE_SIZE
      ensures r < |entries|
      ensures entries[r].valid ==>
        forall i :: 0 <= i < |entries| ==> entries[i].valid && entries[r].lastUsed <= entries[i].lastUsed
    {
      r := 0;
      var i := 0;
      while i < CACHE_SIZE
        invariant 0 <= i <= CACHE_SIZE && (if i > 0 then r < i else r == 0)
        invariant forall k :: 0 <= k < i ==> entries[k].valid && entries[r].lastUsed <= entries[k].lastUsed
      {
        if !entries[i].valid {
          return i;
        }
        if entries[i].lastUsed < entries[r].lastUsed {
          r := i;
        }
        i := i + 1;
      }
    }

    /** ext2_indirect_cache_read: a word of an indirect block as it is on the disk. */
    method CacheRead(b: nat, i: nat, oom: bool, ioOk: bool) returns (r: Result)
      requires Valid() && (b == 0 || (b in info && info[b].level > 0))
      modifies this`entries, this`clock
      ensures Valid()
      ensures b == 0 ==> r == Ok(0)
      ensures b != 0 && i >= per ==> r == Err(EINVAL)
      ensures r.Ok? ==> r.value == if b == 0 then 0 else Word(disk, b, i)
      ensures i < per && !oom && ioOk ==> r.Ok?
      ensures i < per && !NotCached(old(entries), b) ==> r.Ok?
      ensures r != Err(EFBIG)
      ensures b == 0 || r == Err(EINVAL) || r == Err(ENOMEM) ==> entries == old(entries)
      ensures b != 0 && r.Ok? ==> clock == old(clock) + 1 && exists at :: Brought(old(entries), entries, at, b, clock)
      ensures r == Err(EIO) ==> exists at :: GaveWay(old(entries), entries, at, b)
    {
      hide TreeOk, BlocksCounted, UsedMarked, CacheOk, NotCached, Ext2Bitmap.Counted, Brought, GaveWay;
      if b == 0 {
        return Ok(0);
      }
      if i >= per {
        return Err(EINVAL);
      }
      CacheShape(per, disk, inodes, info, entries);
      var at: nat;
      var es := entries;
      var found := CacheFind(b);
      if found.Some? {
        at := found.value;
      } else {
        at := SelectVictim();
        if !es[at].hasPage {
          if oom {
            return Err(ENOMEM);
          }
          CacheDrop(es, disk, info, at, es[at].(hasPage := true), b);
          es := es[at := es[at].(hasPage := true)];
        }
        CacheDrop(es, disk, info, at, es[at].(valid := false), b);
        es := es[at := es[at].(valid := false)];
        GivesWay(entries, es, at, b);
        if !ioOk {
          entries := es;
          return Err(EIO);
        }
        CacheFill(es, disk, info, at, b);
        es := es[at := es[at].(data := disk[b], block := b, valid := true)];
      }
      CacheTouch(es, disk, info, at, clock + 1);
      clock := clock + 1;
      Brings(entries, es, at, b, clock);
      entries := es[at := es[at].(lastUsed := clock)];
      r := Ok(es[at].data[i]);
    }

    /** ext2_indirect_cache_invalidate. */
    method CacheInvalidate(b: nat)
      requires CacheOk(entries, disk, info)
      modifies this`entries
      ensures CacheOk(entries, disk, info) && (b != 0 ==> NotCached(entries, b))
      ensures forall c :: old(NotCached(entries, c)) ==> NotCached(entries, c)
    {
      hide CacheOk, NotCached;
      if b == 0 {
        return;
      }
      CacheLength(entries, disk, info);
      var found := CacheFind(b);
      if found.Some? {
        CacheForget(entries, disk, info, found.value, b);
        CacheFewer(entries, found.value);
        entries := entries[found.value := entries[found.value].(valid := false)];
      }
    }

    /** ext2_indirect_cache_write: the copy is dropped and the block written; d is the disk the cache mirrors. */
    method CacheWrite(b: nat, data: seq<nat>, ghost d: Disk)
      requires b != 0 && CacheOk(entries, d, info)
      modifies this`entries, this`disk
      ensures CacheOk(entries, d, info) && NotCached(entries, b) && disk == old(disk)[b := data]
      ensures forall c :: old(NotCached(entries, c)) ==> NotCached(entries, c)
    {
      hide CacheOk, NotCached;
      CacheLength(entries, d, info);
      var found := CacheFind(b);
      if found.Some? {
        CacheForget(entries, d, info, found.value, b);
        CacheFewer(entries, found.value);
        entries := entries[found.value := entries[found.value].(valid := false)];
      }
      disk := disk[b := data];
    }

    // ---------------------------------------------------------------- growing a tree

    /** ext2_alloc_inode_block: 0 if the volume is full or the count of the inode's sectors would overflow. */
    method AllocInodeBlock(ino: nat) returns (v: nat)
      requires alloc.Valid() && ino in iblocks && !alloc.IsFree(0)
      modifies this`iblocks, alloc`bits, alloc`groupFree, alloc`free
      ensures alloc.Valid()
      ensures v == 0 ==> iblocks == old(iblocks) && alloc.bits == old(alloc.bits)
      ensures v == 0 <==> old(NoSpaceFor(ino))
      ensures v == 0 <==> old(iblocks[ino]) + sectors > 0xffff_ffff
                          || forall m :: !Ext2Bitmap.Available(alloc.l, old(alloc.bits), m)
      ensures v != 0 ==> iblocks == old(iblocks)[ino := old(iblocks)[ino] + sectors]
      ensures v != 0 ==> old(alloc.IsFree(v))
      ensures v != 0 ==> forall m :: Ext2Bitmap.Available(alloc.l, alloc.bits, m) <==>
        Ext2Bitmap.Available(alloc.l, old(alloc.bits), m) && m != v
    {
      hide Ext2Bitmap.Counted, Ext2Bitmap.Available, Ext2Bitmap.Readable, Ext2Bitmap.Layout.Valid;
      if iblocks[ino] + sectors > UINT32_MAX {
        return 0;
      }
      Ext2Bitmap.CountedFacts(alloc.l, alloc.width, alloc.bits, alloc.groupFree, alloc.free);
      AllReadable(alloc.l, alloc.bits);
      ghost var bits := alloc.bits;
      v := alloc.Alloc(seq(alloc.l.groups, _ => true), true, true);
      if v != 0 {
        forall m
          ensures Ext2Bitmap.Available(alloc.l, alloc.bits, m) <==> Ext2Bitmap.Available(alloc.l, bits, m) && m != v
        {
          assert alloc.IsFree(m) <==> old(alloc.IsFree(m)) && m != v;
        }
        iblocks := iblocks[ino := iblocks[ino] + sectors];
      }
    }

    /** No block can be added to the inode. */
    ghost predicate NoSpaceFor(ino: nat)
      reads this`iblocks, alloc`bits
    {
      (ino in iblocks && iblocks[ino] + sectors > UINT32_MAX)
       || forall m :: !Ext2Bitmap.Available(alloc.l, alloc.bits, m)
    }

    ghost function Snap(): Snapshot
      reads this`disk, this`inodes, this`info, alloc`bits
    {
      Snapshot(disk, inodes, info, alloc.bits)
    }

    /** read_or_alloc_block, and the direct case of ext2_block_set_mapping: a pointer of the inode is filled. */
    method EnsureRoot(ino: nat, k: nat) returns (v: nat)
      requires Valid() && ino in inodes && k < N_BLOCKS
      modifies this`disk, this`inodes, this`iblocks, this`entries, this`info, alloc`bits, alloc`groupFree, alloc`free
      ensures Valid() && Step(per, alloc.l, old(Snap()), Snap(), ino, k, [], v)
      ensures v == 0 ==> NoSpaceFor(ino)
    {
      hide TreeOk, BlocksCounted, UsedMarked, CacheOk, NotCached, Ext2Bitmap.Counted, DataKept, Ext2Bitmap.Available;
      hide AttachDisk, AttachInodes, AttachInfo, CanAttach, Step, NoSpaceFor;
      ghost var pos, s := Root(ino, k), Snap();
      VolumeShape(per, sectors, alloc.l, alloc.bits, disk, inodes, iblocks, info);
      v := inodes[ino][k];
      if v != 0 {
        EnsuredStep(per, alloc.l, s, Snap(), ino, k, [], v);
        return;
      }
      v := AllocInodeBlock(ino);
      if v == 0 {
        EnsuredStep(per, alloc.l, s, Snap(), ino, k, [], v);
        return;
      }
      AttachAll(per, sectors, alloc.l, s.bits, alloc.bits, s.disk, inodes, old(iblocks), entries, info, pos, v);
      AttachIs(per, disk, inodes, info, pos, v);
      if k < NDIR_BLOCKS {
        disk := disk[v := Zeros(per)];
      } else {
        CacheWrite(v, Zeros(per), s.disk);
        AttachAll(per, sectors, alloc.l, s.bits, alloc.bits, s.disk, inodes, old(iblocks), entries, info, pos, v);
      }
      inodes := inodes[ino := SetWord(inodes[ino], k, v)];
      info := AttachInfo(info, pos, v);
      EnsuredStep(per, alloc.l, s, Snap(), ino, k, [], v);
    }

    /** The repeated part of ext2_block_set_mapping: word i of the indirect block b is filled. */
    method EnsureChild(ino: nat, ghost k: nat, ghost q: seq<nat>, b: nat, i: nat, indirect: bool) returns (v: nat)
      requires Valid() && ino in inodes && RouteOk(per, inodes, ino, k, q + [i])
      requires b != 0 && MapAt(disk, inodes, ino, k, q) == b && (indirect <==> |q| + 1 < RootLevel(k))
      modifies this`disk, this`inodes, this`iblocks, this`entries, this`info, alloc`bits, alloc`groupFree, alloc`free
      ensures Valid() && Step(per, alloc.l, old(Snap()), Snap(), ino, k, q + [i], v)
      ensures v == 0 ==> NoSpaceFor(ino)
    {
      hide TreeOk, BlocksCounted, UsedMarked, CacheOk, NotCached, Ext2Bitmap.Counted, DataKept, Ext2Bitmap.Available;
      hide AttachDisk, AttachInodes, AttachInfo, CanAttach, Step, NoSpaceFor, MapAt, RouteOk;
      ghost var pos, s := Child(b, i), Snap();
      VolumeShape(per, sectors, alloc.l, alloc.bits, disk, inodes, iblocks, info);
      ChildPlace(per, disk, inodes, info, ino, k, q, b, i);
      v := disk[b][i];
      if v != 0 {
        EnsuredStep(per, alloc.l, s, Snap(), ino, k, q + [i], v);
        return;
      }
      v := AllocInodeBlock(ino);
      if v == 0 {
        EnsuredStep(per, alloc.l, s, Snap(), ino, k, q + [i], v);
        return;
      }
      CacheWrite(b, SetWord(disk[b], i, v), s.disk);
      AttachAll(per, sectors, alloc.l, s.bits, alloc.bits, s.disk, inodes, old(iblocks), entries, info, pos, v);
      AttachIs(per, s.disk, inodes, info, pos, v);
      if indirect {
        CacheWrite(v, Zeros(per), s.disk);
        AttachAll(per, sectors, alloc.l, s.bits, alloc.bits, s.disk, inodes, old(iblocks), entries, info, pos, v);
      } else {
        disk := disk[v := Zeros(per)];
      }
      info := AttachInfo(info, pos, v);
      EnsuredStep(per, alloc.l, s, Snap(), ino, k, q + [i], v);
    }

    // ---------------------------------------------------------------- the interface

    /** A step along a path of indirect blocks, through the cache. */
    method Descend(ino: nat, ghost k: nat, ghost q: seq<nat>, b: nat, i: nat, oom: bool, ioOk: bool) returns (r: Result)
      requires Valid() && ino in inodes && RouteOk(per, inodes, ino, k, q + [i])
      requires MapAt(disk, inodes, ino, k, q) == b
      modifies this`entries, this`clock
      ensures Valid()
      ensures r.Ok? ==> r.value == MapAt(disk, inodes, ino, k, q + [i])
      ensures !oom && ioOk ==> r.Ok?
      ensures r != Err(EFBIG)
    {
      hide TreeOk, BlocksCounted, UsedMarked, CacheOk, Ext2Bitmap.Counted, MapAt, RouteOk;
      WalkSnocMap(disk, inodes, ino, k, q, i);
      if b != 0 {
        ChildPlace(per, disk, inodes, info, ino, k, q, b, i);
      }
      LastInRange(per, inodes, ino, k, q, i);
      r := CacheRead(b, i, oom, ioOk);
    }

    /**
     * ext2_block_mapping: the block of a file block, 0 for a hole, as a walk over the disk finds it. The
     * outcome of each of the up to three reads is given by oom and ioOk.
     */
    method Mapping(ino: nat, index: nat, oom: seq<bool>, ioOk: seq<bool>) returns (r: Result)
      requires Valid() && ino in inodes && |oom| == 3 && |ioOk| == 3
      modifies this`entries, this`clock
      ensures Valid()
      ensures r == Err(EFBIG) <==> index >= 12 + per + per * per + per * per * per
      ensures r.Ok? ==>
        && per > 0 && r.value == FileBlock(per, disk, inodes, ino, index)
        && |inodes[ino]| == N_BLOCKS && MapsTo(per, disk, inodes[ino], index, r.value)
      ensures r.Err? && oom == [false, false, false] && ioOk == [true, true, true] ==> r == Err(EFBIG)
    {
      hide TreeOk, BlocksCounted, UsedMarked, CacheOk, Ext2Bitmap.Counted, MapAt, RouteOk, MapsTo;
      VolumeShape(per, sectors, alloc.l, alloc.bits, disk, inodes, iblocks, info);
      FileBlockWords(per, disk, inodes, ino, index);
      if index < 12 {
        RootMap(disk, inodes, ino, index);
        return Ok(inodes[ino][index]);
      }
      if RouteOf(per, index).Some? {
        RouteIsPath(per, inodes, ino, index);
      }
      RootMap(disk, inodes, ino, 12);
      assert [] + [index - 12] == [index - 12];
      if index - 12 < per {
        r := Descend(ino, 12, [], inodes[ino][12], index - 12, oom[0], ioOk[0]);
      } else if index - 12 - per < per * per {
        r := MapDouble(ino, index - 12 - per, oom, ioOk);
      } else if index - 12 - per - per * per < per * per * per {
        r := MapTriple(ino, index - 12 - per - per * per, oom, ioOk);
      } else {
        r := Err(EFBIG);
      }
    }

    /** The double indirect case. */
    method MapDouble(ino: nat, x: nat, oom: seq<bool>, ioOk: seq<bool>) returns (r: Result)
      requires Valid() && ino in inodes && |oom| == 3 && |ioOk| == 3
      requires x < per * per && RouteOk(per, inodes, ino, 13, [x / per, x % per])
      modifies this`entries, this`clock
      ensures Valid() && r != Err(EFBIG)
      ensures r.Ok? ==> r.value == MapAt(disk, inodes, ino, 13, [x / per, x % per])
      ensures oom == [false, false, false] && ioOk == [true, true, true] ==> r.Ok?
    {
      hide TreeOk, BlocksCounted, UsedMarked, CacheOk, Ext2Bitmap.Counted, MapAt, RouteOk;
      VolumeShape(per, sectors, alloc.l, alloc.bits, disk, inodes, iblocks, info);
      Digits(x, per, per);
      var i, j := x / per, x % per;
      RootMap(disk, inodes, ino, 13);
      RoutePrefix(per, inodes, ino, 13, [i, j], 1);
      assert [i, j][..1] == [i] && [] + [i] == [i] && [i] + [j] == [i, j];
      r := Descend(ino, 13, [], inodes[ino][13], i, oom[0], ioOk[0]);
      if r.Err? || r.value == 0 {
        if r.Ok? {
          HoleBelow(disk, inodes, ino, 13, [i, j], 1);
        }
        return;
      }
      r := Descend(ino, 13, [i], r.value, j, oom[1], ioOk[1]);
    }

    /** The triple indirect case. */
    method MapTriple(ino: nat, x: nat, oom: seq<bool>, ioOk: seq<bool>) returns (r: Result)
      requires Valid() && ino in inodes && |oom| == 3 && |ioOk| == 3 && x < per * per * per
      requires RouteOk(per, inodes, ino, 14, [x / (per * per), (x % (per * per)) / per, x % per])
      modifies this`entries, this`clock
      ensures Valid() && r != Err(EFBIG)
      ensures r.Ok? ==> r.value == MapAt(disk, inodes, ino, 14, [x / (per * per), (x % (per * per)) / per, x % per])
      ensures oom == [false, false, false] && ioOk == [true, true, true] ==> r.Ok?
    {
      hide TreeOk, BlocksCounted, UsedMarked, CacheOk, Ext2Bitmap.Counted, MapAt, RouteOk;
      VolumeShape(per, sectors, alloc.l, alloc.bits, disk, inodes, iblocks, info);
      Digits(x, per, per * per);
      Digits(x % (per * per), per, per);
      var i, j, m := x / (per * per), (x % (per * per)) / per, x % per;
      ghost var path := [i, j, m];
      assert [] + [i] == [i] && [i] + [j] == [i, j] && [i, j] + [m] == path && path[..1] == [i] && path[..2] == [i, j];
      RootMap(disk, inodes, ino, 14);
      RoutePrefix(per, inodes, ino, 14, path, 1);
      RoutePrefix(per, inodes, ino, 14, path, 2);
      r := Descend(ino, 14, [], inodes[ino][14], i, oom[0], ioOk[0]);
      if r.Err? || r.value == 0 {
        if r.Ok? {
          HoleBelow(disk, inodes, ino, 14, path, 1);
        }
        return;
      }
      r := Descend(ino, 14, [i], r.value, j, oom[1], ioOk[1]);
      if r.Err? || r.value == 0 {
        if r.Ok? {
          HoleBelow(disk, inodes, ino, 14, path, 2);
        }
        return;
      }
      r := Descend(ino, 14, [i, j], r.value, m, oom[2], ioOk[2]);
    }

    /**
     * ext2_block_set_mapping: the file block is mapped, to its old block or to a new one that reads as zeros;
     * every other file block of every inode stays where it is, and no data block is overwritten. On failure
     * indirect blocks may have been added, which changes no mapping.
     */
    method SetMapping(ino: nat, index: nat, oom: bool) returns (r: Result)
      requires Valid() && ino in inodes
      modifies this`disk, this`inodes, this`iblocks, this`entries, this`info, alloc`bits, alloc`groupFree, alloc`free
      ensures Valid()
      ensures r == Err(ENOMEM) <==> oom
      ensures r == Err(EFBIG) <==> !oom && index >= 12 + per + per * per + per * per * per
      ensures r == Err(ENOMEM) || r == Err(EFBIG) ==> Snap() == old(Snap()) && iblocks == old(iblocks)
      ensures r.Ok? ==>
        ino in inodes && |inodes[ino]| == N_BLOCKS && MapsTo(per, disk, inodes[ino], index, r.value)
      ensures !oom && RouteOf(per, index).Some? ==>
        var t, v := RouteOf(per, index).value, if r.Ok? then r.value else 0;
        && Step(per, alloc.l, old(Snap()), Snap(), ino, t.slot, t.path, v)
        && (r.Ok? ==> v != 0) && (r.Err? ==> r == Err(ENOSPC) && NoSpaceFor(ino))
    {
      hide TreeOk, BlocksCounted, UsedMarked, CacheOk, Ext2Bitmap.Counted, MapAt, RouteOk, Step, NoSpaceFor, MapsTo;
      if oom {
        return Err(ENOMEM);
      }
      VolumeShape(per, sectors, alloc.l, alloc.bits, disk, inodes, iblocks, info);
      RouteNumbers(per, index);
      if RouteOf(per, index).Some? {
        RouteIsPath(per, inodes, ino, index);
      }
      var v: nat;
      if index < 12 {
        v := EnsureRoot(ino, index);
      } else if index - 12 < per {
        v := SetSingle(ino, index - 12);
      } else if index - 12 - per < per * per {
        v := SetDouble(ino, index - 12 - per);
      } else if index - 12 - per - per * per < per * per * per {
        v := SetTriple(ino, index - 12 - per - per * per);
      } else {
        return Err(EFBIG);
      }
      r := if v == 0 then Err(ENOSPC) else Ok(v);
      if v != 0 {
        VolumeShape(per, sectors, alloc.l, alloc.bits, disk, inodes, iblocks, info);
        StepKeys(per, alloc.l, old(Snap()), Snap(), ino, RouteOf(per, index).value, v);
        StepWords(per, alloc.l, old(Snap()), Snap(), ino, index, v);
      }
    }

    /** The single indirect case. */
    method SetSingle(ino: nat, i: nat) returns (v: nat)
      requires Valid() && ino in inodes && RouteOk(per, inodes, ino, 12, [i])
      modifies this`disk, this`inodes, this`iblocks, this`entries, this`info, alloc`bits, alloc`groupFree, alloc`free
      ensures Valid() && Step(per, alloc.l, old(Snap()), Snap(), ino, 12, [i], v)
      ensures v == 0 ==> NoSpaceFor(ino)
    {
      hide TreeOk, BlocksCounted, UsedMarked, CacheOk, Ext2Bitmap.Counted, MapAt, RouteOk, Step, NoSpaceFor;
      ghost var s := Snap();
      assert [] + [i] == [i];
      var b := EnsureRoot(ino, 12);
      ghost var s1 := Snap();
      if b == 0 {
        StepFails(per, alloc.l, s, s1, ino, 12, [], [i]);
        return 0;
      }
      StepKeeps(per, alloc.l, s, s1, ino, 12, [], b, [i]);
      v := EnsureChild(ino, 12, [], b, i, false);
      StepThen(per, alloc.l, s, s1, Snap(), ino, 12, [], b, [i], v);
    }

    /** The double indirect case. */
    method SetDouble(ino: nat, x: nat) returns (v: nat)
      requires Valid() && ino in inodes && x < per * per && RouteOk(per, inodes, ino, 13, [x / per, x % per])
      modifies this`disk, this`inodes, this`iblocks, this`entries, this`info, alloc`bits, alloc`groupFree, alloc`free
      ensures Valid() && Step(per, alloc.l, old(Snap()), Snap(), ino, 13, [x / per, x % per], v)
      ensures v == 0 ==> NoSpaceFor(ino)
    {
      hide TreeOk, BlocksCounted, UsedMarked, CacheOk, Ext2Bitmap.Counted, MapAt, RouteOk, Step, NoSpaceFor;
      ghost var s := Snap();
      Digits(x, per, per);
      var i, j := x / per, x % per;
      assert [] + [i] == [i] && [i] + [j] == [i, j];
      var b := EnsureRoot(ino, 13);
      ghost var s1 := Snap();
      if b == 0 {
        StepFails(per, alloc.l, s, s1, ino, 13, [], [i, j]);
        return 0;
      }
      StepKeeps(per, alloc.l, s, s1, ino, 13, [], b, [i, j]);
      RoutePrefix(per, inodes, ino, 13, [i, j], 1);
      b := EnsureChild(ino, 13, [], b, i, true);
      ghost var s2 := Snap();
      if b == 0 {
        StepFails(per, alloc.l, s1, s2, ino, 13, [i], [i, j]);
        StepThen(per, alloc.l, s, s1, s2, ino, 13, [], MapAt(s1.disk, s1.inodes, ino, 13, []), [i, j], 0);
        return 0;
      }
      StepKeeps(per, alloc.l, s1, s2, ino, 13, [i], b, [i, j]);
      v := EnsureChild(ino, 13, [i], b, j, false);
      StepThen(per, alloc.l, s1, s2, Snap(), ino, 13, [i], b, [i, j], v);
      StepThen(per, alloc.l, s, s1, Snap(), ino, 13, [], MapAt(s1.disk, s1.inodes, ino, 13, []), [i, j], v);
    }

    /** The triple indirect case. */
    method SetTriple(ino: nat, x: nat) returns (v: nat)
      requires Valid() && ino in inodes && x < per * per * per
      requires RouteOk(per, inodes, ino, 14, [x / (per * per), (x % (per * per)) / per, x % per])
      modifies this`disk, this`inodes, this`iblocks, this`entries, this`info, alloc`bits, alloc`groupFree, alloc`free
      ensures Valid()
      ensures Step(per, alloc.l, old(Snap()), Snap(), ino, 14, [x / (per * per), (x % (per * per)) / per, x % per], v)
      ensures v == 0 ==> NoSpaceFor(ino)
    {
      hide TreeOk, BlocksCounted, UsedMarked, CacheOk, Ext2Bitmap.Counted, MapAt, RouteOk, Step, NoSpaceFor;
      ghost var s := Snap();
      Digits(x, per, per * per);
      Digits(x % (per * per), per, per);
      var i, j, m := x / (per * per), (x % (per * per)) / per, x % per;
      ghost var path := [i, j, m];
      assert [] + [i] == [i] && [i] + [j] == [i, j] && [i, j] + [m] == path && path[..1] == [i] && path[..2] == [i, j];
      var b := EnsureRoot(ino, 14);
      ghost var s1, b1 := Snap(), b;
      if b == 0 {
        StepFails(per, alloc.l, s, s1, ino, 14, [], path);
        return 0;
      }
      StepKeeps(per, alloc.l, s, s1, ino, 14, [], b, path);
      RoutePrefix(per, inodes, ino, 14, path, 1);
      b := EnsureChild(ino, 14, [], b, i, true);
      ghost var s2, b2 := Snap(), b;
      if b == 0 {
        StepFails(per, alloc.l, s1, s2, ino, 14, [i], path);
        StepThen(per, alloc.l, s, s1, s2, ino, 14, [], b1, path, 0);
        return 0;
      }
      StepKeeps(per, alloc.l, s1, s2, ino, 14, [i], b, path);
      RoutePrefix(per, inodes, ino, 14, path, 2);
      b := EnsureChild(ino, 14, [i], b, j, true);
      ghost var s3 := Snap();
      if b == 0 {
        StepFails(per, alloc.l, s2, s3, ino, 14, [i, j], path);
        StepThen(per, alloc.l, s1, s2, s3, ino, 14, [i], b2, path, 0);
        StepThen(per, alloc.l, s, s1, s3, ino, 14, [], b1, path, 0);
        return 0;
      }
      StepKeeps(per, alloc.l, s2, s3, ino, 14, [i, j], b, path);
      v := EnsureChild(ino, 14, [i, j], b, m, false);
      StepThen(per, alloc.l, s2, s3, Snap(), ino, 14, [i, j], b, path, v);
      StepThen(per, alloc.l, s1, s2, Snap(), ino, 14, [i], b2, path, v);
      StepThen(per, alloc.l, s, s1, Snap(), ino, 14, [], b1, path, v);
    }

    /** A file's data is written to one of its blocks: the trees and the cache are not concerned. */
    method WriteData(b: nat, data: seq<nat>)
      requires Valid() && b in info && info[b].level == 0 && |data| == per
      modifies this`disk
      ensures Valid() && disk == old(disk)[b := data] && SameMaps(per, old(disk), inodes, disk, inodes)
    {
      hide TreeOk, BlocksCounted, UsedMarked, CacheOk, Ext2Bitmap.Counted, SameMaps;
      DataWrite(per, alloc.l, alloc.bits, disk, inodes, info, entries, b, data);
      disk := disk[b := data];
    }

    // ---------------------------------------------------------------- releasing an inode's blocks

    /** The blocks `freed` of the inode have been released; the trees are still those of the beginning. */
    ghost predicate Releasing(ino: nat, o: Origin, freed: set<nat>)
      reads this`disk, this`info, this`entries, this`iblocks, alloc
    {
      && sectors > 0 && alloc.Valid() && ino in o.inodes
      && TreeOk(per, disk, o.inodes, info) && CacheOk(entries, disk, info)
      && Released(sectors, alloc.l, o, alloc.bits, iblocks, entries, info, ino, freed)
    }

    /** ext2_release_inode_block: its check on i_blocks cannot fail. */
    method ReleaseInodeBlock(ino: nat, b: nat, ghost o: Origin, ghost freed: set<nat>) returns (ok: bool)
      requires Releasing(ino, o, freed) && b in info && info[b].ino == ino && b !in freed
      requires info[b].level > 0 ==> NotCached(entries, b)
      modifies this`iblocks, alloc`bits, alloc`groupFree, alloc`free
      ensures ok && Releasing(ino, o, freed + {b})
    {
      hide TreeOk, CacheOk, Released, Ext2Bitmap.Counted, Ext2Bitmap.Available, NotCached;
      CanRelease(sectors, alloc.l, o, alloc.bits, iblocks, entries, info, ino, freed, b);
      if iblocks[ino] < sectors {
        return false;
      }
      ghost var bits := alloc.bits;
      var r := alloc.Release(b, true, true, true);
      if r.Some? {
        return false;
      }
      forall m
        ensures Ext2Bitmap.Available(alloc.l, bits, m) <==> Ext2Bitmap.Available(alloc.l, alloc.bits, m) && m != b
      {
        assert old(alloc.IsFree(m)) <==> alloc.IsFree(m) && m != b;
      }
      OneReleased(sectors, alloc.l, o, bits, alloc.bits, iblocks, entries, info, ino, freed, b);
      iblocks := iblocks[ino := iblocks[ino] - sectors];
      ok := true;
    }

    /** ext2_release_indirect_branch: every block below b, and b itself, exactly once. */
    method ReleaseBranch(ino: nat, b: nat, depth: nat, ghost o: Origin, ghost freed: set<nat>) returns (ok: bool)
      requires Releasing(ino, o, freed) && b in info && info[b].ino == ino && info[b].level == depth && depth > 0
      requires Sub(disk, b, depth) !! freed
      modifies this`iblocks, this`entries, alloc`bits, alloc`groupFree, alloc`free
      ensures ok && Releasing(ino, o, freed + Sub(disk, b, depth))
      decreases depth
    {
      hide TreeOk, CacheOk, Released, Ext2Bitmap.Counted, Sub, SubWords, NotCached;
      ShapeOf(per, disk, o.inodes, info);
      var words := disk[b];
      ghost var done := freed;
      NoWords(disk, words, depth - 1, freed);
      var i := 0;
      while i < per
        invariant 0 <= i <= per && words == disk[b] && |words| == per
        invariant done == freed + SubWords(disk, words[..i], depth - 1)
        invariant Releasing(ino, o, done)
        modifies this`iblocks, this`entries, alloc`bits, alloc`groupFree, alloc`free
      {
        WordsInside(disk, b, depth, i);
        ghost var more := Sub(disk, words[i], depth - 1);
        if words[i] != 0 {
          KnownChild(per, disk, o.inodes, info, b, i);
          WordsApart(per, disk, o.inodes, info, b, depth, i);
          if depth == 1 {
            SubLeaf(disk, words[i]);
            ok := ReleaseInodeBlock(ino, words[i], o, done);
          } else {
            ok := ReleaseBranch(ino, words[i], depth - 1, o, done);
          }
          if !ok {
            return false;
          }
        } else {
          SubNull(disk, depth - 1);
          assert done + more == done;
        }
        done := done + more;
        i := i + 1;
      }
      assert words[..i] == words;
      SubIs(disk, b, depth);
      NotBelowItself(per, disk, o.inodes, info, b, depth);
      ghost var es := entries;
      CacheInvalidate(b);
      FewerCached(sectors, alloc.l, o, alloc.bits, iblocks, es, entries, info, ino, done);
      ok := ReleaseInodeBlock(ino, b, o, done);
      assert done + {b} == freed + Sub(disk, b, depth);
    }

    /**
     * ext2_free_inode_blocks, without the page cache: all blocks of the inode become free, and nothing else
     * changes.
     */
    method FreeInodeBlocks(ino: nat) returns (ok: bool)
      requires Valid() && ino in inodes
      modifies this`inodes, this`iblocks, this`entries, this`info, alloc`bits, alloc`groupFree, alloc`free
      ensures ok && Valid() && disk == old(disk)
      ensures inodes == old(inodes)[ino := Zeros(N_BLOCKS)] && iblocks == old(iblocks)[ino := 0]
      ensures info == Without(old(info), ino) && OwnedBy(info, ino) == {}
      ensures forall m :: Ext2Bitmap.Available(alloc.l, alloc.bits, m) <==>
        Ext2Bitmap.Available(alloc.l, old(alloc.bits), m) || m in OwnedBy(old(info), ino)
    {
      hide TreeOk, CacheOk, Released, Ext2Bitmap.Counted, Sub, BlocksCounted, UsedMarked, Ext2Bitmap.Available,
           OwnedBy, Without, Below;
      ghost var o := Origin(inodes, iblocks, alloc.bits);
      NothingReleased(sectors, alloc.l, o, entries, disk, info, ino);
      VolumeShape(per, sectors, alloc.l, alloc.bits, disk, inodes, iblocks, info);
      BelowNone(disk, inodes, ino);
      var data := inodes[ino];
      var k := 0;
      while k < N_BLOCKS
        invariant 0 <= k <= N_BLOCKS == |data|
        invariant inodes == o.inodes[ino := data] && info == old(info)
        invariant Releasing(ino, o, Below(disk, o.inodes, ino, k))
        invariant forall j :: 0 <= j < k ==> data[j] == 0
        invariant forall j :: k <= j < N_BLOCKS ==> data[j] == o.inodes[ino][j]
      {
        ghost var freed := Below(disk, o.inodes, ino, k);
        BelowNext(disk, o.inodes, ino, k);
        RootOwned(per, disk, o.inodes, info, ino, k);
        RootsApart(per, disk, o.inodes, info, ino, k);
        if data[k] != 0 {
          if k < NDIR_BLOCKS {
            SubLeaf(disk, data[k]);
            ok := ReleaseInodeBlock(ino, data[k], o, freed);
          } else {
            ok := ReleaseBranch(ino, data[k], k - NDIR_BLOCKS + 1, o, freed);
          }
          if !ok {
            return false;
          }
          data := SetWord(data, k, 0);
          inodes := inodes[ino := data];
          assert inodes == o.inodes[ino := data];
        } else {
          SubNull(disk, RootLevel(k));
        }
        k := k + 1;
      }
      assert data == Zeros(N_BLOCKS);
      AllOwned(per, disk, o.inodes, info, ino);
      AllReleased(per, sectors, alloc.l, o, alloc.bits, iblocks, entries, disk, info, ino);
      WithoutTree(per, disk, o.inodes, info, ino);
      ReleasedFree(sectors, alloc.l, o, alloc.bits, iblocks, entries, info, ino);
      info := Without(info, ino);
      ok := true;
    }
  }

  /** A place that is filled makes a step of its path. */
  lemma EnsuredStep(per: nat, l: Ext2Bitmap.Layout, s: Snapshot, s': Snapshot, ino: nat, k: nat, path: seq<nat>, v: nat)
    requires TreeOk(per, s.disk, s.inodes, s.info) && RouteOk(per, s.inodes, ino, k, path)
    requires path != [] ==> MapAt(s.disk, s.inodes, ino, k, path[..|path| - 1]) != 0
    requires Ensured(per, s.disk, s.inodes, s.info, s'.disk, s'.inodes, s'.info,
             PathPos(s.disk, s.inodes, ino, k, path), v)
    requires v == 0 || Ptr(s.disk, s.inodes, PathPos(s.disk, s.inodes, ino, k, path)) != 0 ==> s'.bits == s.bits
    requires v != 0 && Ptr(s.disk, s.inodes, PathPos(s.disk, s.inodes, ino, k, path)) == 0 ==>
      && DataKept(s.info, s.disk, s'.disk) && Ext2Bitmap.Available(l, s.bits, v)
      && forall m :: Ext2Bitmap.Available(l, s'.bits, m) <==> Ext2Bitmap.Available(l, s.bits, m) && m != v
    ensures Step(per, l, s, s', ino, k, path, v)
  {
    hide TreeOk, RouteOk, MapAt, PathPos, Ptr, Mapped, AttachInodes, AttachDisk, AttachInfo, Ext2Bitmap.Available,
         DataKept, InfoKept;
    EnsuredMapped(per, s.disk, s.inodes, s.info, s'.disk, s'.inodes, s'.info, ino, k, path, v);
    DataRefl(s.info, s.disk);
    InfoRefl(s.info);
    FreeShrinksRefl(l, s.bits);
    if v != 0 && Ptr(s.disk, s.inodes, PathPos(s.disk, s.inodes, ino, k, path)) == 0 {
      AttachIs(per, s.disk, s.inodes, s.info, PathPos(s.disk, s.inodes, ino, k, path), v);
      AttachInfoKept(s.info, PathPos(s.disk, s.inodes, ino, k, path), v);
    }
  }

  /** The word at the end of a path is a place of the inode. */
  lemma ChildPlace(per: nat, disk: Disk, inodes: Inodes, info: Owners, ino: nat, k: nat, q: seq<nat>, b: nat, i: nat)
    requires TreeOk(per, disk, inodes, info) && RouteOk(per, inodes, ino, k, q + [i])
    requires b != 0 && MapAt(disk, inodes, ino, k, q) == b
    ensures b in info && i < per && info[b].level == RootLevel(k) - |q| && info[b].level > 0 && info[b].ino == ino
    ensures PathPos(disk, inodes, ino, k, q + [i]) == Child(b, i) && (q + [i])[..|q + [i]| - 1] == q
  {
    assert (q + [i])[|q|] == i;
    assert PathOk(per, q) by {
      assert forall j :: 0 <= j < |q| ==> q[j] == (q + [i])[j];
    }
    assert (q + [i])[..|q|] == q;
    MapOwned(per, disk, inodes, info, ino, k, q);
  }

  function NoEntries(): seq<Entry> {
    seq(CACHE_SIZE, _ => Entry(0, [], 0, false, false))
  }

  lemma EmptyCache(disk: Disk, info: Owners)
    ensures CacheOk(NoEntries(), disk, info)
  {
  }

  lemma CacheLength(entries: seq<Entry>, disk: Disk, info: Owners)
    requires CacheOk(entries, disk, info)
    ensures |entries| == CACHE_SIZE
  {
  }

  lemma CacheShape(per: nat, disk: Disk, inodes: Inodes, info: Owners, entries: seq<Entry>)
    requires TreeOk(per, disk, inodes, info) && CacheOk(entries, disk, info)
    ensures |entries| == CACHE_SIZE
    ensures forall b :: b in info ==> b in disk && |disk[b]| == per
  {
  }

  /** An entry may be given up, or get a buffer. */
  lemma CacheDrop(entries: seq<Entry>, disk: Disk, info: Owners, at: nat, e: Entry, b: nat)
    requires CacheOk(entries, disk, info) && at < |entries| && NotCached(entries, b)
    requires e == entries[at].(valid := false) || e == entries[at].(hasPage := true)
    ensures CacheOk(entries[at := e], disk, info) && NotCached(entries[at := e], b)
  {
    var entries' := entries[at := e];
    forall i | 0 <= i < |entries'| && entries'[i].valid ensures EntryOk(entries'[i], disk, info)
      && entries'[i].block != b {
      assert EntryOk(entries[i], disk, info);
    }
  }

  lemma CacheForget(entries: seq<Entry>, disk: Disk, info: Owners, at: nat, b: nat)
    requires CacheOk(entries, disk, info) && at < |entries| && entries[at].valid && entries[at].block == b
    ensures CacheOk(entries[at := entries[at].(valid := false)], disk, info)
    ensures NotCached(entries[at := entries[at].(valid := false)], b)
  {
    var entries' := entries[at := entries[at].(valid := false)];
    forall i | 0 <= i < |entries'| && entries'[i].valid ensures EntryOk(entries'[i], disk, info)
      && entries'[i].block != b {
      assert EntryOk(entries[i], disk, info);
      assert i < at || at < i;
    }
  }

  lemma CacheFill(entries: seq<Entry>, disk: Disk, info: Owners, at: nat, b: nat)
    requires CacheOk(entries, disk, info) && at < |entries| && !entries[at].valid && NotCached(entries, b)
    requires b in info && info[b].level > 0 && b in disk
    ensures CacheOk(entries[at := entries[at].(data := disk[b], block := b, valid := true)], disk, info)
  {
    var entries' := entries[at := entries[at].(data := disk[b], block := b, valid := true)];
    forall i | 0 <= i < |entries'| && entries'[i].valid ensures EntryOk(entries'[i], disk, info) {
      assert i != at ==> EntryOk(entries[i], disk, info);
    }
  }

  lemma CacheTouch(entries: seq<Entry>, disk: Disk, info: Owners, at: nat, t: nat)
    requires CacheOk(entries, disk, info) && at < |entries| && entries[at].valid
    ensures CacheOk(entries[at := entries[at].(lastUsed := t)], disk, info)
    ensures entries[at].block in disk && entries[at].data == disk[entries[at].block]
  {
    var entries' := entries[at := entries[at].(lastUsed := t)];
    forall i | 0 <= i < |entries'| && entries'[i].valid ensures EntryOk(entries'[i], disk, info) {
      assert EntryOk(entries[i], disk, info);
    }
    assert EntryOk(entries[at], disk, info);
  }

  lemma CacheFewer(entries: seq<Entry>, at: nat)
    requires at < |entries|
    ensures forall c :: NotCached(entries, c) ==> NotCached(entries[at := entries[at].(valid := false)], c)
  {
  }

  lemma AllReadable(l: Ext2Bitmap.Layout, bits: seq<seq<bool>>)
    requires l.Valid()
    ensures forall m :: Ext2Bitmap.Available(l, bits, m) <==>
      Ext2Bitmap.Readable(l, bits, seq(l.groups, _ => true), m)
  {
    forall m ensures Ext2Bitmap.Available(l, bits, m) <==> Ext2Bitmap.Readable(l, bits, seq(l.groups, _ => true), m) {
      if Ext2Bitmap.Available(l, bits, m) {
        Ext2Bitmap.BitRoundTrip(l, m);
      }
    }
  }

  lemma VolumeShape(per: nat, sectors: nat, l: Ext2Bitmap.Layout, bits: seq<seq<bool>>, disk: Disk, inodes: Inodes,
                    iblocks: map<nat, nat>, info: Owners)
    requires TreeOk(per, disk, inodes, info) && BlocksCounted(sectors, inodes, iblocks, info)
    requires UsedMarked(l, bits, disk, info)
    ensures iblocks.Keys == inodes.Keys && !Ext2Bitmap.Available(l, bits, 0)
    ensures forall ino :: ino in inodes ==> |inodes[ino]| == N_BLOCKS
    ensures forall b :: b in info ==> b in disk && |disk[b]| == per && b != 0
  {
  }

  lemma DataRefl(info: Owners, disk: Disk)
    ensures DataKept(info, disk, disk)
  {
  }

  /** What the methods write is an attachment. */
  lemma AttachIs(per: nat, disk: Disk, inodes: Inodes, info: Owners, pos: Pos, v: nat)
    requires CanAttach(per, disk, inodes, info, pos, v)
    ensures v in AttachDisk(per, disk, pos, v) && AttachDisk(per, disk, pos, v)[v] == Zeros(per)
    ensures AttachInodes(inodes, pos, v).Keys == inodes.Keys
    ensures pos.Root? ==> AttachDisk(per, disk, pos, v) == disk[v := Zeros(per)]
    ensures pos.Root? ==>
      && pos.ino in inodes && pos.slot < |inodes[pos.ino]|
      && AttachInodes(inodes, pos, v) == inodes[pos.ino := SetWord(inodes[pos.ino], pos.slot, v)]
    ensures pos.Child? ==> AttachInodes(inodes, pos, v) == inodes
    ensures pos.Child? ==>
      && pos.parent in disk && pos.index < |disk[pos.parent]|
      && AttachDisk(per, disk, pos, v) == disk[pos.parent := SetWord(disk[pos.parent], pos.index, v)][v := Zeros(per)]
  {
    if pos.Child? {
      assert pos.parent != v;
    }
  }

  lemma WalkSnocMap(disk: Disk, inodes: Inodes, ino: nat, k: nat, q: seq<nat>, i: nat)
    ensures MapAt(disk, inodes, ino, k, q + [i]) ==
      if MapAt(disk, inodes, ino, k, q) == 0 then 0 else Word(disk, MapAt(disk, inodes, ino, k, q), i)
  {
    WalkSnoc(disk, Pointer(inodes, ino, k), q, i);
  }

  lemma RootMap(disk: Disk, inodes: Inodes, ino: nat, k: nat)
    requires ino in inodes && k < |inodes[ino]|
    ensures MapAt(disk, inodes, ino, k, []) == inodes[ino][k]
  {
  }

  lemma LastInRange(per: nat, inodes: Inodes, ino: nat, k: nat, q: seq<nat>, i: nat)
    requires RouteOk(per, inodes, ino, k, q + [i])
    ensures i < per
  {
    assert (q + [i])[|q|] == i;
  }

  /** The path of a file block is a path of the inode, to a data block. */
  lemma RouteIsPath(per: nat, inodes: Inodes, ino: nat, index: nat)
    requires per > 0 && ino in inodes && RouteOf(per, index).Some?
    ensures
      var t := RouteOf(per, index).value;
      RouteOk(per, inodes, ino, t.slot, t.path) && |t.path| == RootLevel(t.slot)
  {
    RouteFacts(per, index);
  }

  lemma StepFails(per: nat, l: Ext2Bitmap.Layout, s: Snapshot, s': Snapshot, ino: nat, k: nat, q: seq<nat>,
                  path: seq<nat>)
    requires Step(per, l, s, s', ino, k, q, 0)
    ensures Step(per, l, s, s', ino, k, path, 0)
  {
  }

  /** After an indirect block has been added, the path leads on from it. */
  lemma StepKeeps(per: nat, l: Ext2Bitmap.Layout, s: Snapshot, s': Snapshot, ino: nat, k: nat, q: seq<nat>, b: nat,
                  path: seq<nat>)
    requires Step(per, l, s, s', ino, k, q, b) && b != 0 && RouteOk(per, s.inodes, ino, k, path)
    ensures MapAt(s'.disk, s'.inodes, ino, k, q) == b && RouteOk(per, s'.inodes, ino, k, path) && ino in s'.inodes
  {
  }

  lemma RoutePrefix(per: nat, inodes: Inodes, ino: nat, k: nat, path: seq<nat>, n: nat)
    requires RouteOk(per, inodes, ino, k, path) && n <= |path|
    ensures RouteOk(per, inodes, ino, k, path[..n])
  {
  }

  lemma DataWrite(per: nat, l: Ext2Bitmap.Layout, bits: seq<seq<bool>>, disk: Disk, inodes: Inodes, info: Owners,
                  entries: seq<Entry>, b: nat, data: seq<nat>)
    requires TreeOk(per, disk, inodes, info) && CacheOk(entries, disk, info) && UsedMarked(l, bits, disk, info)
    requires b in info && info[b].level == 0 && |data| == per
    ensures
      var disk' := disk[b := data];
      && TreeOk(per, disk', inodes, info) && CacheOk(entries, disk', info) && UsedMarked(l, bits, disk', info)
      && SameMaps(per, disk, inodes, disk', inodes)
  {
    var disk' := disk[b := data];
    forall pos | PosOk(per, inodes, info, pos) ensures Ptr(disk', inodes, pos) == Ptr(disk, inodes, pos) {
    }
    assert TreeOk(per, disk', inodes, info) by {
      forall c | c in info ensures OwnedAt(per, disk', inodes, info, c) {
        assert OwnedAt(per, disk, inodes, info, c);
      }
      forall pos ensures KnownAt(per, disk', inodes, info, pos) {
        assert KnownAt(per, disk, inodes, info, pos);
      }
    }
    assert CacheOk(entries, disk', info) by {
      forall i | 0 <= i < |entries| && entries[i].valid ensures EntryOk(entries[i], disk', info) {
        assert EntryOk(entries[i], disk, info);
      }
    }
    forall ino, k, path | RouteOk(per, inodes, ino, k, path) && |path| == RootLevel(k)
      ensures MapAt(disk', inodes, ino, k, path) == MapAt(disk, inodes, ino, k, path)
    {
      RootOwned(per, disk, inodes, info, ino, k);
      if Pointer(inodes, ino, k) != 0 {
        DataWalk(per, disk, inodes, info, b, data, Pointer(inodes, ino, k), path);
      }
    }
  }

  lemma {:induction false} DataWalk(per: nat, disk: Disk, inodes: Inodes, info: Owners, b: nat, data: seq<nat>,
                                    v: nat, path: seq<nat>)
    requires TreeOk(per, disk, inodes, info) && b in info && info[b].level == 0
    requires v in info && PathOk(per, path) && |path| <= info[v].level
    ensures Walk(disk[b := data], v, path) == Walk(disk, v, path)
    decreases path
  {
    if path != [] {
      assert KnownAt(per, disk, inodes, info, Child(v, path[0]));
      var w := Word(disk, v, path[0]);
      if w != 0 {
        assert OwnedAt(per, disk, inodes, info, w);
        DataWalk(per, disk, inodes, info, b, data, w, path[1..]);
      }
    }
  }

  lemma NoWords(disk: Disk, words: seq<nat>, d: nat, freed: set<nat>)
    ensures freed == freed + SubWords(disk, words[..0], d)
  {
  }

  lemma SubLeaf(disk: Disk, v: nat)
    requires v != 0
    ensures Sub(disk, v, 0) == {v}
  {
  }

  lemma SubNull(disk: Disk, d: nat)
    ensures Sub(disk, 0, d) == {}
  {
  }

  lemma SubIs(disk: Disk, b: nat, d: nat)
    requires b in disk && b != 0 && d > 0
    ensures Sub(disk, b, d) == {b} + SubWords(disk, disk[b], d - 1)
  {
  }

  lemma BelowNone(disk: Disk, inodes: Inodes, ino: nat)
    ensures Below(disk, inodes, ino, 0) == {}
  {
  }

  lemma BelowNext(disk: Disk, inodes: Inodes, ino: nat, k: nat)
    ensures Below(disk, inodes, ino, k + 1) ==
      Below(disk, inodes, ino, k) + Sub(disk, Pointer(inodes, ino, k), RootLevel(k))
  {
  }

  lemma ReleasedFree(sectors: nat, l: Ext2Bitmap.Layout, o: Origin, bits: seq<seq<bool>>, iblocks: map<nat, nat>,
                     entries: seq<Entry>, info: Owners, ino: nat)
    requires Released(sectors, l, o, bits, iblocks, entries, info, ino, OwnedBy(info, ino))
    ensures forall m :: Ext2Bitmap.Available(l, bits, m) <==>
      Ext2Bitmap.Available(l, o.bits, m) || m in OwnedBy(info, ino)
    ensures OwnedBy(Without(info, ino), ino) == {}
  {
    hide Ext2Bitmap.Available;
  }

  // ---------------------------------------------------------------- in terms of file block numbers

  /** The block of a file block; 0 for a hole and beyond the largest file. */
  function FileBlock(per: nat, disk: Disk, inodes: Inodes, ino: nat, index: nat): nat
    requires per > 0
  {
    match RouteOf(per, index)
    case None => 0
    case Some(t) => MapAt(disk, inodes, ino, t.slot, t.path)
  }

  /** Entry `at` gives way to block b: it is one that is not in use, or else the least recently used one. */
  ghost predicate GaveWay(es: seq<Entry>, es': seq<Entry>, at: nat, b: nat) {
    && at < |es| == |es'| && NotCached(es, b) && !es'[at].valid
    && (forall i :: 0 <= i < |es| && i != at ==> es'[i] == es[i])
    && (es[at].valid ==> forall i :: 0 <= i < |es| ==> es[i].valid && es[at].lastUsed <= es[i].lastUsed)
  }

  /** Entry `at` holds block b as the one used last: it held it before, or has given way to it. */
  ghost predicate Brought(es: seq<Entry>, es': seq<Entry>, at: nat, b: nat, clock: nat) {
    && at < |es| == |es'| && es'[at].valid && es'[at].block == b && es'[at].lastUsed == clock
    && (forall i :: 0 <= i < |es| && i != at ==> es'[i] == es[i])
    && if NotCached(es, b) then GaveWay(es, es'[at := es'[at].(valid := false)], at, b)
       else es[at].valid && es[at].block == b
  }

  lemma GivesWay(es: seq<Entry>, es': seq<Entry>, at: nat, b: nat)
    requires at < |es| == |es'| && NotCached(es, b) && !es'[at].valid
    requires forall i :: 0 <= i < |es| && i != at ==> es'[i] == es[i]
    requires es[at].valid ==> forall i :: 0 <= i < |es| ==> es[i].valid && es[at].lastUsed <= es[i].lastUsed
    ensures GaveWay(es, es', at, b)
  {
  }

  lemma Brings(es: seq<Entry>, es': seq<Entry>, at: nat, b: nat, clock: nat)
    requires at < |es| == |es'| && es'[at].valid && es'[at].block == b
    requires forall i :: 0 <= i < |es| && i != at ==> es'[i] == es[i]
    requires if NotCached(es, b)
             then es[at].valid ==> forall i :: 0 <= i < |es| ==> es[i].valid && es[at].lastUsed <= es[i].lastUsed
             else es[at].valid && es[at].block == b
    ensures Brought(es, es'[at := es'[at].(lastUsed := clock)], at, b, clock)
  {
  }

  /** It is what the words of the inode and of the indirect blocks say. */
  lemma FileBlockWords(per: nat, disk: Disk, inodes: Inodes, ino: nat, index: nat)
    requires per > 0 && ino in inodes && |inodes[ino]| == N_BLOCKS
    ensures RouteOf(per, index).Some? <==> index < 12 + per + per * per + per * per * per
    ensures index < 12 + per + per * per + per * per * per ==>
      MapsTo(per, disk, inodes[ino], index, FileBlock(per, disk, inodes, ino, index))
  {
    hide MapAt, RouteOf;
    RouteNumbers(per, index);
    if RouteOf(per, index).Some? {
      RouteMapsTo(per, disk, inodes, ino, index);
    }
  }

  lemma StepKeys(per: nat, l: Ext2Bitmap.Layout, s: Snapshot, s': Snapshot, ino: nat, t: Route, v: nat)
    requires Step(per, l, s, s', ino, t.slot, t.path, v)
    ensures s'.inodes.Keys == s.inodes.Keys
  {
  }

  /** The file block a step maps is found there afterwards. */
  lemma StepWords(per: nat, l: Ext2Bitmap.Layout, s: Snapshot, s': Snapshot, ino: nat, index: nat, v: nat)
    requires per > 0 && RouteOf(per, index).Some? && ino in s.inodes && v != 0
    requires var t := RouteOf(per, index).value; Step(per, l, s, s', ino, t.slot, t.path, v)
    requires ino in s'.inodes && |s'.inodes[ino]| == N_BLOCKS
    ensures MapsTo(per, s'.disk, s'.inodes[ino], index, v)
  {
    hide MapAt, RouteOf, MapsTo;
    SetMappingFrame(per, l, s, s', ino, index, v, ino, index);
    FileBlockWords(per, s'.disk, s'.inodes, ino, index);
  }

  /** Every other file block of every inode is read where it was. */
  lemma SetMappingWords(per: nat, l: Ext2Bitmap.Layout, s: Snapshot, s': Snapshot, ino: nat, index: nat, v: nat,
                        ino': nat, index': nat, w: nat)
    requires per > 0 && RouteOf(per, index).Some? && ino in s.inodes && ino' in s.inodes
    requires var t := RouteOf(per, index).value; Step(per, l, s, s', ino, t.slot, t.path, v)
    requires |s.inodes[ino']| == N_BLOCKS && ino' in s'.inodes && |s'.inodes[ino']| == N_BLOCKS
    requires ino' != ino || index' != index
    requires index' < 12 + per + per * per + per * per * per && MapsTo(per, s.disk, s.inodes[ino'], index', w)
    ensures MapsTo(per, s'.disk, s'.inodes[ino'], index', w)
  {
    hide MapAt, RouteOf, MapsTo;
    SetMappingFrame(per, l, s, s', ino, index, v, ino', index');
    FileBlockWords(per, s.disk, s.inodes, ino', index');
    FileBlockWords(per, s'.disk, s'.inodes, ino', index');
    MapsToOne(per, s.disk, s.inodes[ino'], index', w, FileBlock(per, s.disk, s.inodes, ino', index'));
  }

  /** Mapping one file block leaves every other file block of every inode alone. */
  lemma SetMappingFrame(per: nat, l: Ext2Bitmap.Layout, s: Snapshot, s': Snapshot, ino: nat, index: nat, v: nat,
                        ino': nat, index': nat)
    requires per > 0 && RouteOf(per, index).Some? && ino in s.inodes && ino' in s.inodes
    requires
      var t := RouteOf(per, index).value; Step(per, l, s, s', ino, t.slot, t.path, v)
    ensures v != 0 ==> FileBlock(per, s'.disk, s'.inodes, ino, index) == v
    ensures v == 0 || (ino', index') != (ino, index) ==>
      FileBlock(per, s'.disk, s'.inodes, ino', index') == FileBlock(per, s.disk, s.inodes, ino', index')
  {
    hide MapAt, RouteOf;
    RouteIsPath(per, s.inodes, ino, index);
    if RouteOf(per, index').Some? {
      RouteIsPath(per, s.inodes, ino', index');
      if RouteOf(per, index') == RouteOf(per, index) {
        RouteInjective(per, index, index');
      }
    }
  }

  /** Two file blocks never share a block. */
  lemma FileBlocksDistinct(per: nat, disk: Disk, inodes: Inodes, info: Owners, ino: nat, index: nat, ino': nat,
                           index': nat)
    requires per > 0 && TreeOk(per, disk, inodes, info) && ino in inodes && ino' in inodes
    requires FileBlock(per, disk, inodes, ino, index) != 0
    requires FileBlock(per, disk, inodes, ino, index) == FileBlock(per, disk, inodes, ino', index')
    ensures ino == ino' && index == index'
  {
    hide TreeOk, RouteOf;
    var t, t' := RouteOf(per, index).value, RouteOf(per, index').value;
    RouteIsPath(per, inodes, ino, index);
    RouteIsPath(per, inodes, ino', index');
    RootOwned(per, disk, inodes, info, ino, t.slot);
    RootOwned(per, disk, inodes, info, ino', t'.slot);
    WalkUnique(per, disk, inodes, info, Pointer(inodes, ino, t.slot), t.path, Pointer(inodes, ino', t'.slot), t'.path);
    RouteInjective(per, index, index');
  }
}
