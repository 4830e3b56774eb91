/** Page-cache pages and disk blocks: the batched transfers of ext2 (fs/ext2/ext2_dir.c, include/fs/pagecache.h). */
module PageIo {
  import opened Arithmetic
  import opened Bytes
  import opened Options

  datatype Error = EINVAL | EIO | EMAPPING

  /** The contents of a file system block. */
  type Block = seq<byte>

  type Disk = map<nat, Block>

  // ---------------------------------------------------------------- dirty blocks of a page

  /** The dirty flag and dirty_blocks of a page: dirty without bits is a page dirty as a whole. */
  datatype DirtyState = DirtyState(flag: bool, bits: set<nat>) {
    /** Block i must be written back. */
    predicate Covers(i: nat) {
      flag && (bits == {} || i in bits)
    }
  }

  predicate SizesOk(pageSize: nat, blockSize: nat) {
    512 <= blockSize <= pageSize && pageSize % blockSize == 0 && pageSize / blockSize <= 8
  }

  /** pagecache_mark_dirty_range: the blocks the range touches are dirty too, and no others become dirty. */
  method MarkDirtyRange(s: DirtyState, offset: nat, length: nat, pageSize: nat, blockSize: nat)
    returns (r: Option<Error>, s': DirtyState)
    requires !s.flag ==> s.bits == {}
    ensures r == Some(EINVAL) <==>
      || blockSize < 512 || blockSize > pageSize || pageSize % blockSize != 0 || pageSize / blockSize > 8
      || offset + length > pageSize
    ensures r.Some? ==> r == Some(EINVAL) && s' == s
    ensures !s'.flag ==> s'.bits == {}
    ensures r.None? ==> forall i: nat :: s'.Covers(i) <==> s.Covers(i) || Touches(i, offset, length, blockSize)
  {
    if blockSize < 512 || blockSize > pageSize || pageSize % blockSize != 0 || pageSize / blockSize > 8
       || offset > pageSize || length > pageSize - offset {
      return Some(EINVAL), s;
    }
    if length == 0 {
      return None, s;
    }
    if s.flag && s.bits == {} {
      return None, s;
    }
    ModBelow(offset, blockSize);
    ModBelow(offset + length - 1, blockSize);
    var first, last := offset / blockSize, (offset + length - 1) / blockSize;
    DivOrder(offset, offset + length - 1, blockSize);
    var bits: set<nat> := s.bits;
    var i: nat := first;
    while i <= last
      invariant first <= i <= last + 1
      invariant forall k: nat :: k in bits <==> k in s.bits || first <= k < i
    {
      bits := bits + {i};
      i := i + 1;
    }
    assert first in bits;
    s' := DirtyState(true, bits);
    forall k: nat ensures s'.Covers(k) <==> s.Covers(k) || Touches(k, offset, length, blockSize) {
      TouchedBlocks(k, offset, length, blockSize);
    }
    r := None;
  }

  /** Some byte of the range lies in block i. */
  ghost predicate Touches(i: nat, offset: nat, length: nat, blockSize: nat) {
    exists x: nat :: offset <= x < offset + length && InBlock(x, i, blockSize)
  }

  predicate InBlock(x: nat, i: nat, blockSize: nat) {
    i * blockSize <= x < (i + 1) * blockSize
  }

  lemma DivOrder(a: nat, b: nat, d: nat)
    requires d > 0 && a <= b
    ensures 0 <= a / d <= b / d
  {
    ModBelow(a, d);
    if b / d < a / d {
      MulOrder(b / d + 1, a / d, d);
      MulDistribute(b / d, 1, d);
    }
  }

  lemma BlockOfByte(x: nat, k: nat, d: nat)
    requires d > 0 && InBlock(x, k, d)
    ensures x / d == k
  {
    MulDistribute(k, 1, d);
    DivModUnique(x, d, k, x - k * d);
  }

  lemma ByteBounds(x: nat, d: nat)
    requires d > 0
    ensures 0 <= x / d && InBlock(x, x / d, d)
  {
    ModBelow(x, d);
    MulDistribute(x / d, 1, d);
  }

  lemma TouchedBlocks(k: nat, offset: nat, length: nat, d: nat)
    requires d > 0 && length > 0
    ensures Touches(k, offset, length, d) <==> offset / d <= k <= (offset + length - 1) / d
  {
    var end := offset + length - 1;
    if Touches(k, offset, length, d) {
      var x: nat :| offset <= x < offset + length && InBlock(x, k, d);
      BlockOfByte(x, k, d);
      DivOrder(offset, x, d);
      DivOrder(x, end, d);
    }
    if offset / d <= k <= end / d {
      TouchedBetween(k, offset, end, d);
      assert Touches(k, offset, length, d);
    }
  }

  lemma TouchedBetween(k: nat, offset: nat, end: nat, d: nat)
    requires d > 0 && offset <= end && offset / d <= k <= end / d
    ensures exists x: nat :: offset <= x < end + 1 && InBlock(x, k, d)
  {
    hide InBlock;
    ByteBounds(offset, d);
    ByteBounds(end, d);
    BlockEdges(k, offset, offset / d, d);
    BlockEdges(k, end, end / d, d);
    var x: nat := if k * d < offset then offset else k * d;
    EdgeInside(k, offset, d, x);
  }

  /** A block before, or after, the block of x begins before, or ends after, x. */
  lemma BlockEdges(k: nat, x: nat, i: nat, d: nat)
    requires d > 0 && InBlock(x, i, d)
    ensures k <= i ==> k * d <= x
    ensures i <= k ==> x < (k + 1) * d
    ensures 0 <= k * d < (k + 1) * d
  {
    MulDistribute(k, 1, d);
    if k <= i {
      MulOrder(k, i, d);
    }
    if i <= k {
      MulOrder(i + 1, k + 1, d);
    }
    MulOrder(0, k, d);
  }

  lemma EdgeInside(k: nat, offset: nat, d: nat, x: nat)
    requires k * d < (k + 1) * d && offset < (k + 1) * d && x == (if k * d < offset then offset else k * d)
    ensures InBlock(x, k, d)
  {
  }

  // ---------------------------------------------------------------- one page, batch by batch

  /** Block i takes part in a transfer; a write with dirty bits is restricted to those. */
  predicate Selected(write: bool, bits: set<nat>, i: nat) {
    !(write && bits != {} && i !in bits)
  }

  /** The disk blocks of a page's blocks, 0 for a hole: different for different blocks. */
  ghost predicate MapsOk(maps: seq<nat>, disk: Disk) {
    && (forall i :: 0 <= i < |maps| && maps[i] != 0 ==> maps[i] in disk)
    && (forall i, j :: 0 <= i < j < |maps| && maps[i] != 0 ==> maps[i] != maps[j])
  }

  /** The first n selected blocks have been written, and nothing else. */
  ghost predicate Written(disk: Disk, disk': Disk, page: seq<Block>, maps: seq<nat>, bits: set<nat>, n: nat) {
    && |page| == |maps| && n <= |maps| && disk'.Keys == disk.Keys
    && (forall i :: 0 <= i < n && Selected(true, bits, i) && maps[i] != 0 && maps[i] in disk' ==>
       disk'[maps[i]] == page[i])
    && (forall b :: b in disk && NoTarget(maps, bits, n, b) ==> disk'[b] == disk[b])
  }

  /** b is not the block of one of the first n selected blocks. */
  ghost predicate NoTarget(maps: seq<nat>, bits: set<nat>, n: nat, b: nat) {
    forall i :: 0 <= i < n && i < |maps| && Selected(true, bits, i) ==> maps[i] != b
  }

  /** What a block-by-block read of the first n blocks gives; the rest is still zero. */
  ghost predicate Filled(disk: Disk, page: seq<Block>, maps: seq<nat>, zero: Block, n: nat) {
    && |page| == |maps| && n <= |maps|
    && (forall i :: 0 <= i < n && maps[i] != 0 && maps[i] in disk ==> page[i] == disk[maps[i]])
    && (forall i :: 0 <= i < |page| && (i >= n || maps[i] == 0) ==> page[i] == zero)
  }

  /** n disk blocks from db on hold the page blocks from pb on. */
  ghost predicate Batch(maps: seq<nat>, write: bool, bits: set<nat>, pb: nat, db: nat, n: nat) {
    && pb + n <= |maps|
    && forall i :: pb <= i < pb + n ==> maps[i] == db + (i - pb) && maps[i] != 0 && Selected(write, bits, i)
  }

  /** ext2_submit_page_batch, writing: one request for n contiguous blocks. */
  method WriteBatch(disk: Disk, page: seq<Block>, pb: nat, db: nat, n: nat) returns (disk': Disk)
    requires pb + n <= |page| && forall b: nat :: db <= b < db + n ==> b in disk
    ensures disk'.Keys == disk.Keys
    ensures forall b :: b in disk ==> disk'[b] == if db <= b < db + n then page[pb + (b - db)] else disk[b]
  {
    disk' := disk;
    var j := 0;
    while j < n
      invariant 0 <= j <= n && disk'.Keys == disk.Keys
      invariant forall b :: b in disk ==> disk'[b] == if db <= b < db + j then page[pb + (b - db)] else disk[b]
    {
      assert db + j in disk;
      disk' := disk'[db + j := page[pb + j]];
      j := j + 1;
    }
  }

  /** ext2_submit_page_batch, reading. */
  method ReadBatch(disk: Disk, page: seq<Block>, pb: nat, db: nat, n: nat) returns (page': seq<Block>)
    requires pb + n <= |page| && forall b: nat :: db <= b < db + n ==> b in disk
    ensures |page'| == |page|
    ensures forall i :: 0 <= i < |page| ==> page'[i] == if pb <= i < pb + n then disk[db + (i - pb)] else page[i]
  {
    page' := page;
    var j := 0;
    while j < n
      invariant 0 <= j <= n && |page'| == |page|
      invariant forall i :: 0 <= i < |page| ==> page'[i] == if pb <= i < pb + j then disk[db + (i - pb)] else page[i]
    {
      assert db + j in disk;
      page' := page'[pb + j := disk[db + j]];
      j := j + 1;
    }
  }

  /** A batch is written: the blocks before its end have been written. */
  lemma BatchWritten(disk0: Disk, disk: Disk, disk': Disk, page: seq<Block>, maps: seq<nat>, bits: set<nat>,
                     pb: nat, db: nat, n: nat)
    requires MapsOk(maps, disk0) && Written(disk0, disk, page, maps, bits, pb) && Batch(maps, true, bits, pb, db, n)
    requires disk'.Keys == disk.Keys
    requires forall b :: b in disk ==> disk'[b] == if db <= b < db + n then page[pb + (b - db)] else disk[b]
    ensures Written(disk0, disk', page, maps, bits, pb + n)
  {
    forall i | 0 <= i < pb + n && Selected(true, bits, i) && maps[i] != 0 && maps[i] in disk'
      ensures disk'[maps[i]] == page[i]
    {
      assert maps[i] in disk;
      if i < pb && db <= maps[i] < db + n {
        InBatch(maps, true, bits, pb, db, n, maps[i]);
      }
    }
    forall b | b in disk0 && NoTarget(maps, bits, pb + n, b) ensures disk'[b] == disk0[b] {
      assert NoTarget(maps, bits, pb, b);
      if db <= b < db + n {
        InBatch(maps, true, bits, pb, db, n, b);
      }
    }
  }

  lemma InBatch(maps: seq<nat>, write: bool, bits: set<nat>, pb: nat, db: nat, n: nat, b: nat)
    requires Batch(maps, write, bits, pb, db, n) && db <= b < db + n
    ensures maps[pb + (b - db)] == b && b != 0 && Selected(write, bits, pb + (b - db))
  {
  }

  lemma BatchFilled(disk: Disk, page: seq<Block>, page': seq<Block>, maps: seq<nat>, zero: Block, bits: set<nat>,
                    pb: nat, db: nat, n: nat)
    requires Filled(disk, page, maps, zero, pb) && Batch(maps, false, bits, pb, db, n) && |page'| == |page|
    requires forall b: nat :: db <= b < db + n ==> b in disk
    requires forall i :: 0 <= i < |page| ==> page'[i] == if pb <= i < pb + n then disk[db + (i - pb)] else page[i]
    ensures Filled(disk, page', maps, zero, pb + n)
  {
  }

  /** The state of a transfer: the blocks before `at` are done. */
  ghost predicate Progress(write: bool, disk0: Disk, disk: Disk, page0: seq<Block>, page: seq<Block>, maps: seq<nat>,
                           bits: set<nat>, zero: Block, at: nat)
  {
    if write then page == page0 && Written(disk0, disk, page, maps, bits, at)
    else disk == disk0 && Filled(disk, page, maps, zero, at)
  }

  /** ext2_submit_page_batch: a batch that starts where the transfer stands moves it to the end of the batch. */
  method Submit(write: bool, page: seq<Block>, disk: Disk, pb: nat, db: nat, n: nat, ghost disk0: Disk,
                ghost page0: seq<Block>, ghost maps: seq<nat>, ghost bits: set<nat>, ghost zero: Block)
    returns (page': seq<Block>, disk': Disk)
    requires MapsOk(maps, disk0) && Batch(maps, write, bits, pb, db, n)
    requires Progress(write, disk0, disk, page0, page, maps, bits, zero, pb)
    ensures Progress(write, disk0, disk', page0, page', maps, bits, zero, pb + n)
  {
    page', disk' := page, disk;
    if n == 0 {
      return;
    }
    forall b: nat | db <= b < db + n ensures b in disk {
      InBatch(maps, write, bits, pb, db, n, b);
    }
    if write {
      disk' := WriteBatch(disk, page, pb, db, n);
      BatchWritten(disk0, disk, disk', page, maps, bits, pb, db, n);
    } else {
      page' := ReadBatch(disk, page, pb, db, n);
      BatchFilled(disk, page, page', maps, zero, bits, pb, db, n);
    }
  }

  /** A block that is not selected, or a hole, needs no transfer. */
  lemma Pass(write: bool, disk0: Disk, disk: Disk, page0: seq<Block>, page: seq<Block>, maps: seq<nat>,
             bits: set<nat>, zero: Block, at: nat)
    requires Progress(write, disk0, disk, page0, page, maps, bits, zero, at) && at < |maps|
    requires maps[at] == 0 || !Selected(write, bits, at)
    requires MapsOk(maps, disk0)
    ensures maps[at] == 0 || write ==> Progress(write, disk0, disk, page0, page, maps, bits, zero, at + 1)
  {
    if write {
      forall b | b in disk0 && NoTarget(maps, bits, at + 1, b) ensures disk[b] == disk0[b] {
        assert NoTarget(maps, bits, at, b);
      }
    }
  }

  /** Where the pending batch begins. */
  function Start(pb: nat, n: nat, i: nat): nat {
    if n > 0 then pb else i
  }

  /** The selected blocks before n have mappings a transfer can use. */
  ghost predicate Usable(write: bool, bits: set<nat>, maps: seq<nat>, bad: set<nat>, n: nat) {
    forall i :: 0 <= i < n && i < |maps| && Selected(write, bits, i) ==>
      i !in bad && (write && bits != {} ==> maps[i] != 0)
  }

  /**
   * ext2_rwpage: a read gives what block-by-block reads would, a write updates exactly the mapped blocks that
   * dirty_blocks names, all of them if it is 0. bad are the blocks whose mapping fails.
   */
  method RwPage(page: seq<Block>, zero: Block, write: bool, bits: set<nat>, maps: seq<nat>, bad: set<nat>, disk: Disk,
                pageSize: nat, blockSize: nat) returns (r: Option<Error>, page': seq<Block>, disk': Disk)
    requires MapsOk(maps, disk) && |page| == |maps|
    requires SizesOk(pageSize, blockSize) ==> |maps| == pageSize / blockSize
    ensures r == Some(EINVAL) <==>
      blockSize < 512 || blockSize > pageSize || pageSize % blockSize != 0 || pageSize / blockSize > 8
    ensures r == Some(EINVAL) ==> page' == page && disk' == disk
    ensures r != Some(EINVAL) ==> (r.None? <==> Usable(write, bits, maps, bad, |maps|))
    ensures r.None? && write ==> page' == page && Written(disk, disk', page, maps, bits, |maps|)
    ensures r.None? && !write ==> disk' == disk && Filled(disk, page', maps, zero, |maps|)
    ensures r.Some? ==> disk'.Keys == disk.Keys && forall b :: b in disk && NoTarget(maps, bits, |maps|, b) ==>
            disk'[b] == disk[b]
  {
    hide Written, Filled, Batch, MapsOk, NoTarget, Usable, Progress;
    page', disk' := page, disk;
    if blockSize < 512 || blockSize > pageSize || pageSize % blockSize != 0 || pageSize / blockSize > 8 {
      return Some(EINVAL), page', disk';
    }
    var count := |maps|;
    if !write {
      page' := seq(count, _ => zero);
    }
    Begin(write, disk, page, page', maps, bits, zero);
    var pb: nat, db: nat, n: nat := 0, 0, 0;
    var i: nat := 0;
    UsableNone(write, bits, maps, bad);
    while i < count
      invariant i <= count && (n > 0 ==> pb + n == i && Batch(maps, write, bits, pb, db, n))
      invariant Progress(write, disk, disk', page, page', maps, bits, zero, Start(pb, n, i))
      invariant Usable(write, bits, maps, bad, i)
    {
      ErrorState(write, disk, disk', page, page', maps, bits, zero, Start(pb, n, i));
      UsableStep(write, bits, maps, bad, i);
      NoBatch(maps, write, bits, i, db);
      if write && bits != {} && i !in bits {
        page', disk' := Submit(write, page', disk', Start(pb, n, i), db, n, disk, page, maps, bits, zero);
        Pass(write, disk, disk', page, page', maps, bits, zero, i);
        n := 0;
        i := i + 1;
        continue;
      }
      if i in bad {
        return Some(EMAPPING), page', disk';
      }
      var block := maps[i];
      if write && bits != {} && block == 0 {
        return Some(EIO), page', disk';
      }
      if block != 0 && n != 0 && block == db + n {
        BatchGrows(maps, write, bits, pb, db, n);
        n := n + 1;
        i := i + 1;
        continue;
      }
      page', disk' := Submit(write, page', disk', Start(pb, n, i), db, n, disk, page, maps, bits, zero);
      n := 0;
      if block != 0 {
        BatchBegins(maps, write, bits, i);
        pb, db, n := i, block, 1;
      } else {
        Pass(write, disk, disk', page, page', maps, bits, zero, i);
      }
      i := i + 1;
    }
    NoBatch(maps, write, bits, i, db);
    page', disk' := Submit(write, page', disk', Start(pb, n, i), db, n, disk, page, maps, bits, zero);
    Finished(write, disk, disk', page, page', maps, bits, zero);
    r := None;
  }

  lemma Finished(write: bool, disk0: Disk, disk: Disk, page0: seq<Block>, page: seq<Block>, maps: seq<nat>,
                 bits: set<nat>, zero: Block)
    requires Progress(write, disk0, disk, page0, page, maps, bits, zero, |maps|)
    ensures if write then page == page0 && Written(disk0, disk, page, maps, bits, |maps|)
            else disk == disk0 && Filled(disk, page, maps, zero, |maps|)
  {
  }

  lemma Begin(write: bool, disk: Disk, page0: seq<Block>, page: seq<Block>, maps: seq<nat>, bits: set<nat>, zero: Block)
    requires |page0| == |maps| == |page| && (if write then page == page0 else forall i :: 0 <= i < |page| ==>
             page[i] == zero)
    ensures Progress(write, disk, disk, page0, page, maps, bits, zero, 0)
  {
  }

  lemma UsableNone(write: bool, bits: set<nat>, maps: seq<nat>, bad: set<nat>)
    ensures Usable(write, bits, maps, bad, 0)
  {
  }

  lemma UsableStep(write: bool, bits: set<nat>, maps: seq<nat>, bad: set<nat>, i: nat)
    requires Usable(write, bits, maps, bad, i) && i < |maps|
    ensures Usable(write, bits, maps, bad, i + 1) <==>
      (Selected(write, bits, i) ==> i !in bad && (write && bits != {} ==> maps[i] != 0))
    ensures !Usable(write, bits, maps, bad, i + 1) ==> !Usable(write, bits, maps, bad, |maps|)
  {
  }

  lemma NoBatch(maps: seq<nat>, write: bool, bits: set<nat>, i: nat, db: nat)
    requires i <= |maps|
    ensures Batch(maps, write, bits, i, db, 0)
  {
  }

  lemma BatchGrows(maps: seq<nat>, write: bool, bits: set<nat>, pb: nat, db: nat, n: nat)
    requires Batch(maps, write, bits, pb, db, n) && pb + n < |maps| && maps[pb + n] == db + n != 0
    requires Selected(write, bits, pb + n)
    ensures Batch(maps, write, bits, pb, db, n + 1)
  {
  }

  lemma BatchBegins(maps: seq<nat>, write: bool, bits: set<nat>, i: nat)
    requires i < |maps| && maps[i] != 0 && Selected(write, bits, i)
    ensures Batch(maps, write, bits, i, maps[i], 1)
  {
  }

  /** Whatever has been written, only selected blocks have. */
  lemma ErrorState(write: bool, disk0: Disk, disk: Disk, page0: seq<Block>, page: seq<Block>, maps: seq<nat>,
                   bits: set<nat>, zero: Block, at: nat)
    requires Progress(write, disk0, disk, page0, page, maps, bits, zero, at)
    ensures disk.Keys == disk0.Keys
    ensures forall b :: b in disk0 && NoTarget(maps, bits, |maps|, b) ==> disk[b] == disk0[b]
  {
    if write {
      forall b | b in disk0 && NoTarget(maps, bits, |maps|, b) ensures disk[b] == disk0[b] {
        assert NoTarget(maps, bits, at, b);
      }
    }
  }

  /** The block of the page has a disk block, which holds it. */
  ghost predicate OnDisk(disk: Disk, page: seq<Block>, maps: seq<nat>, i: nat)
    requires i < |maps| == |page|
  {
    maps[i] != 0 && maps[i] in disk && disk[maps[i]] == page[i]
  }

  /**
   * After a successful write every dirty block is on the disk if and only if blocks were marked one by one or the page
   * has no hole: a hole of a page that is dirty as a whole is dropped.
   */
  lemma DirtyReachesDisk(s: DirtyState, disk: Disk, disk': Disk, page: seq<Block>, maps: seq<nat>, bad: set<nat>)
    requires s.flag && MapsOk(maps, disk) && Usable(true, s.bits, maps, bad, |maps|)
    requires Written(disk, disk', page, maps, s.bits, |maps|)
    ensures (forall i :: 0 <= i < |maps| && s.Covers(i) ==> OnDisk(disk', page, maps, i)) <==>
            s.bits != {} || forall i :: 0 <= i < |maps| ==> maps[i] != 0
  {
    if s.bits != {} || forall i :: 0 <= i < |maps| ==> maps[i] != 0 {
      forall i | 0 <= i < |maps| && s.Covers(i) ensures OnDisk(disk', page, maps, i) {
        assert Selected(true, s.bits, i);
      }
    } else {
      var i :| 0 <= i < |maps| && maps[i] == 0;
      assert s.Covers(i) && !OnDisk(disk', page, maps, i);
    }
  }

  /** A page dirty as a whole with three holes: its write succeeds and the second block is not on the disk. */
  method HoleDropped(block: Block, zero: Block) returns (r: Option<Error>, page: seq<Block>, disk: Disk)
    ensures r.None? && |page| == 4 && DirtyState(true, {}).Covers(1)
    ensures !OnDisk(disk, page, [7, 0, 0, 0], 1)
  {
    hide Written, Filled;
    var maps, none: set<nat> := [7, 0, 0, 0], {};
    r, page, disk := RwPage([block, block, block, block], zero, true, none, maps, none, map[7 := zero], 4096, 1024);
  }
}
