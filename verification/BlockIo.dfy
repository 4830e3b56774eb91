/** Byte-granular I/O on a device that transfers whole logical blocks (fs/blkdev.c). */
module BlockIo {
  import opened Arithmetic
  import opened Bytes
  import opened Options

  const SECTOR_SIZE: nat := 512

  datatype Error = EINVAL | ENOSPC | EOVERFLOW | EIO

  /** A part of a page of memory. */
  datatype Vec = Vec(page: nat, offset: nat, len: nat)

  // ---------------------------------------------------------------- vectors of a buffer

  /** The vectors are the memory [addr, addr + len) page by page. */
  ghost predicate Covers(vecs: seq<Vec>, page: nat, addr: nat, len: nat)
    requires page > 0
    decreases |vecs|
  {
    if vecs == [] then len == 0
    else
      var v := vecs[0];
      && v.page * page + v.offset == addr && 0 < v.len <= len && v.offset + v.len <= page
      && Covers(vecs[1..], page, addr + v.len, len - v.len)
  }

  lemma {:induction false} CoversAppend(vecs: seq<Vec>, page: nat, addr: nat, len: nat, v: Vec)
    requires page > 0 && Covers(vecs, page, addr, len)
    requires v.page * page + v.offset == addr + len && 0 < v.len && v.offset + v.len <= page
    ensures Covers(vecs + [v], page, addr, len + v.len)
    decreases |vecs|
  {
    if vecs == [] {
      assert ([] + [v])[1..] == [];
    } else {
      assert (vecs + [v])[1..] == vecs[1..] + [v];
      CoversAppend(vecs[1..], page, addr + vecs[0].len, len - vecs[0].len, v);
    }
  }

  /** bio_map_kern_buf: with the vector count its callers compute it never runs out of vectors. */
  method MapBuffer(page: nat, addr: nat, len: nat, maxVecs: nat) returns (r: Option<Error>, vecs: seq<Vec>)
    requires page > 0
    ensures r.None? ==> Covers(vecs, page, addr, len) && |vecs| <= maxVecs
    ensures r.None? <==> len == 0 || (addr % page + len + page - 1) / page <= maxVecs
    ensures r.Some? ==> r == Some(ENOSPC)
  {
    vecs := [];
    var cursor, left := addr, len;
    ghost var base := addr - addr % page;
    ModBelow(addr, page);
    NeedAtLeast(addr % page, len, page);
    while left != 0
      invariant cursor == addr + len - left && 0 <= left <= len && |vecs| <= maxVecs
      invariant Covers(vecs, page, addr, len - left)
      invariant vecs == [] ==> cursor == addr
      invariant vecs != [] ==> cursor == base + |vecs| * page || left == 0
      invariant left == 0 && vecs != [] ==> base + (|vecs| - 1) * page < addr + len <= base + |vecs| * page
      decreases left
    {
      var offset := cursor % page;
      var chunk := page - offset;
      if chunk > left {
        chunk := left;
      }
      CursorAt(addr, page, cursor, |vecs|);
      if |vecs| >= maxVecs {
        TooFew(addr, len, page, |vecs|, cursor);
        return Some(ENOSPC), vecs;
      }
      ghost var n := |vecs|;
      CoversAppend(vecs, page, addr, len - left, Vec(cursor / page, offset, chunk));
      vecs := vecs + [Vec(cursor / page, offset, chunk)];
      cursor := cursor + chunk;
      left := left - chunk;
      MulDistribute(n, 1, page);
    }
    if len > 0 {
      Enough(addr, len, page, |vecs|);
    }
    return None, vecs;
  }

  lemma NeedAtLeast(offset: nat, len: nat, page: nat)
    requires page > 0
    ensures (offset + len + page - 1) / page >= 0
  {
    ModBelow(offset + len + page - 1, page);
  }

  lemma CursorAt(addr: nat, page: nat, cursor: nat, n: nat)
    requires page > 0
    requires if n == 0 then cursor == addr else cursor == addr - addr % page + n * page
    ensures cursor / page >= 0 && cursor / page * page + cursor % page == cursor && 0 <= cursor % page < page
    ensures cursor % page == (if n == 0 then addr % page else 0)
  {
    ModBelow(cursor, page);
    if n > 0 {
      MultipleMod(addr / page + n, page);
      MulDistribute(addr / page, n, page);
      assert addr - addr % page == addr / page * page;
    }
  }

  lemma TooFew(addr: nat, len: nat, page: nat, n: nat, cursor: nat)
    requires page > 0 && cursor < addr + len
    requires if n == 0 then cursor == addr else cursor == addr - addr % page + n * page
    ensures n < (addr % page + len + page - 1) / page
  {
    var total := addr % page + len + page - 1;
    var q := total / page;
    MulDistribute(n, 1, page);
    if q <= n {
      MulOrder(q, n, page);
    }
  }

  lemma Enough(addr: nat, len: nat, page: nat, n: nat)
    requires page > 0 && n > 0 && len > 0
    requires addr - addr % page + (n - 1) * page < addr + len <= addr - addr % page + n * page
    ensures (addr % page + len + page - 1) / page == n
  {
    var total := addr % page + len + page - 1;
    MulDistribute(n, 1, page);
    DivModUnique(total, page, n, total - n * page);
  }

  // ---------------------------------------------------------------- whole blocks and parts of blocks

  lemma OverlayJoin(buf: seq<byte>, o: nat, x: seq<byte>, y: seq<byte>)
    requires o + |x| + |y| <= |buf|
    ensures Overlay(Overlay(buf, o, x), o + |x|, y) == Overlay(buf, o, x + y)
  {
  }

  /** A part of a block written over the block, and the block over the disk. */
  lemma OverlayInside(buf: seq<byte>, o: nat, n: nat, at: nat, x: seq<byte>)
    requires o + n <= |buf| && at + |x| <= n
    ensures Overlay(buf, o, Overlay(buf[o..o + n], at, x)) == Overlay(buf, o + at, x)
  {
    var whole := Overlay(buf, o, Overlay(buf[o..o + n], at, x));
    var part := Overlay(buf, o + at, x);
    forall i | 0 <= i < |buf| ensures whole[i] == part[i] {
      OverlayAt(buf, o, Overlay(buf[o..o + n], at, x), i);
      OverlayAt(buf, o + at, x, i);
      if o <= i < o + n {
        OverlayAt(buf[o..o + n], at, x, i - o);
      }
    }
  }

  lemma SliceOfSlice(buf: seq<byte>, o: nat, n: nat, at: nat, len: nat)
    requires o + n <= |buf| && at + len <= n
    ensures buf[o..o + n][at..at + len] == buf[o + at..o + at + len]
  {
    var x, y := buf[o..o + n][at..at + len], buf[o + at..o + at + len];
    forall i | 0 <= i < len ensures x[i] == y[i] {
      assert x[i] == buf[o..o + n][at + i];
    }
  }

  lemma OverlayNothing(buf: seq<byte>, o: nat, src: seq<byte>)
    requires o <= |buf|
    ensures Overlay(buf, o, src[..0]) == buf && (src == [] ==> Overlay(buf, o, src) == buf)
  {
    assert src == [] ==> src[..0] == src;
  }

  /** The bytes [i, j). */
  function Slice(buf: seq<byte>, i: nat, j: nat): seq<byte>
    requires i <= j <= |buf|
  {
    buf[i..j]
  }

  lemma SliceJoin(buf: seq<byte>, i: nat, j: nat, k: nat)
    requires i <= j <= k <= |buf|
    ensures Slice(buf, i, i) == [] && Slice(buf, i, j) + Slice(buf, j, k) == Slice(buf, i, k)
  {
  }

  /** The bytes m..n of src are written behind the first m. */
  lemma OverlayNext(buf: seq<byte>, o: nat, src: seq<byte>, m: nat, n: nat)
    requires m <= n <= |src| && o + |src| <= |buf|
    ensures Overlay(Overlay(buf, o, src[..m]), o + m, src[m..n]) == Overlay(buf, o, src[..n])
  {
    OverlayJoin(buf, o, src[..m], src[m..n]);
    assert src[..m] + src[m..n] == src[..n];
  }

  /** Whole blocks on a block boundary. */
  predicate Aligned(block: nat, pos: nat, len: nat)
    requires block > 0
  {
    pos % block == 0 && len % block == 0
  }

  /** A part of one block. */
  predicate PartFits(block: nat, pos: nat, len: nat)
    requires block > 0
  {
    0 < len <= block - pos % block
  }

  /** The bytes before the first block boundary. */
  function HeadLen(block: nat, pos: nat, len: nat): nat
    requires block > 0
  {
    if pos % block == 0 then 0 else if block - pos % block > len then len else block - pos % block
  }

  /** The bytes of src that go before the first block boundary. */
  function Head(block: nat, src: seq<byte>, pos: nat): (h: seq<byte>)
    requires block > 0
    ensures |h| <= |src|
  {
    src[..HeadLen(block, pos, |src|)]
  }

  /** The whole blocks of a length. */
  function WholeLen(block: nat, len: nat): nat
    requires block > 0
  {
    ModBelow(len, block);
    len - len % block
  }

  lemma HeadFacts(block: nat, pos: nat, len: nat)
    requires block > 0 && len > 0
    ensures HeadLen(block, pos, len) <= len
    ensures HeadLen(block, pos, len) > 0 ==> PartFits(block, pos, HeadLen(block, pos, len))
    ensures HeadLen(block, pos, len) < len ==> (pos + HeadLen(block, pos, len)) % block == 0
  {
    AlignFacts(pos, block);
    MultipleMod(1, block);
    ModAdd(pos - pos % block, block, block);
  }

  lemma WholeFacts(block: nat, at: nat, len: nat)
    requires block > 0 && at % block == 0 && len > 0
    ensures 0 <= WholeLen(block, len) <= len && len - WholeLen(block, len) < block
    ensures Aligned(block, at, WholeLen(block, len))
    ensures WholeLen(block, len) < len ==> PartFits(block, at + WholeLen(block, len), len - WholeLen(block, len))
    ensures len < block ==> PartFits(block, at, len)
  {
    AlignFacts(len, block);
    ModAdd(at, WholeLen(block, len), block);
  }

  /** The block that holds a position lies on the disk. */
  lemma BlockOf(block: nat, size: nat, pos: nat)
    requires block > 0 && size % block == 0 && pos < size
    ensures 0 <= pos % block < block && (pos - pos % block) % block == 0
    ensures 0 <= pos - pos % block && pos - pos % block + block <= size
    ensures Aligned(block, pos - pos % block, block)
  {
    MultipleMod(1, block);
    ModBelow(pos, block);
    AlignFacts(pos, block);
    MultiplesApart(pos - pos % block, size, block);
  }

  /** What keeps blkdev_read_aligned and blkdev_write_aligned from sending a request: 32-bit size, 16-bit count. */
  function RequestError(page: nat, addr: nat, len: nat): Option<Error>
    requires page > 0
  {
    if len > 0xffff_ffff then Some(EOVERFLOW)
    else if (addr % page + len + page - 1) / page > 0xffff then Some(EINVAL) else None
  }

  /** The error of the whole blocks of a transfer from or to the memory at addr. */
  function MiddleError(block: nat, page: nat, addr: nat, pos: nat, len: nat): Option<Error>
    requires block > 0 && page > 0
  {
    var head := HeadLen(block, pos, len);
    if len < head + block then None else RequestError(page, addr + head, WholeLen(block, len - head))
  }

  /** Up to two pages less than the count allows, every transfer goes through, wherever its buffer begins. */
  lemma SmallTransfer(block: nat, page: nat, addr: nat, pos: nat, len: nat)
    requires block > 0 && page > 0 && len <= 0xffff_ffff && len <= 0xfffe * page
    ensures MiddleError(block, page, addr, pos, len).None?
  {
    hide HeadLen, WholeLen;
    var head := HeadLen(block, pos, len);
    if len >= head + block {
      var whole := WholeLen(block, len - head);
      WholeFacts(block, 0, len - head);
      VectorCount((addr + head) % page, whole, page);
    }
  }

  lemma VectorCount(offset: nat, len: nat, page: nat)
    requires offset < page && len <= 0xfffe * page
    ensures (offset + len + page - 1) / page <= 0xffff
  {
    var q := (offset + len + page - 1) / page;
    ModBelow(offset + len + page - 1, page);
    if q > 0xffff {
      MulOrder(0x1_0000, q, page);
    }
  }

  /** 256 MiB in pages of 4 KiB need one vector too many. */
  lemma LargeTransfer()
    ensures MiddleError(512, 4096, 0, 0, 0x1000_0000) == Some(EINVAL)
  {
    assert HeadLen(512, 0, 0x1000_0000) == 0;
    assert WholeLen(512, 0x1000_0000) == 0x1000_0000;
  }

  // ---------------------------------------------------------------- positions of a partition

  const WORD: nat := 0x1_0000_0000_0000_0000

  /** The check of blkdev_read and blkdev_write, in 64-bit arithmetic. */
  predicate PastEnd(sectors: nat, len: nat, pos: nat) {
    (pos + len) % WORD > sectors * SECTOR_SIZE
  }

  /** The position on the disk, in 64-bit arithmetic. */
  function DiskPos(start: nat, pos: nat): nat {
    (start * SECTOR_SIZE + pos) % WORD
  }

  /** What the caller and the partition table guarantee; a disk has less than 2^63 bytes, and so has a buffer. */
  predicate PartitionOk(start: nat, sectors: nat, size: nat, len: nat, pos: nat) {
    (start + sectors) * SECTOR_SIZE <= size <= WORD / 2 && len <= WORD / 2 && pos < WORD
  }

  /** A transfer that passes the check stays in the partition exactly if its end does not wrap around. */
  lemma InPartition(start: nat, sectors: nat, size: nat, len: nat, pos: nat)
    requires PartitionOk(start, sectors, size, len, pos) && !PastEnd(sectors, len, pos)
    ensures
      start * SECTOR_SIZE <= DiskPos(start, pos) && DiskPos(start, pos) + len <= (start + sectors) * SECTOR_SIZE <==>
      pos + len < WORD
    ensures pos + len < WORD ==> DiskPos(start, pos) == start * SECTOR_SIZE + pos
    ensures DiskPos(start, pos) + len <= size || size <= DiskPos(start, pos)
  {
    if pos + len < WORD {
      DivModUnique(pos + len, WORD, 0, pos + len);
      DivModUnique(start * SECTOR_SIZE + pos, WORD, 0, start * SECTOR_SIZE + pos);
    } else {
      DivModUnique(pos + len, WORD, 1, pos + len - WORD);
      if start * SECTOR_SIZE + pos < WORD {
        DivModUnique(start * SECTOR_SIZE + pos, WORD, 0, start * SECTOR_SIZE + pos);
      } else {
        DivModUnique(start * SECTOR_SIZE + pos, WORD, 1, start * SECTOR_SIZE + pos - WORD);
      }
    }
  }

  class Disk {
    const block: nat
    var bytes: seq<byte>

    constructor (block: nat, bytes: seq<byte>)
      requires 0 < block && |bytes| % block == 0
      ensures Valid() && this.block == block && this.bytes == bytes
    {
      this.block, this.bytes := block, bytes;
    }

    ghost predicate Valid()
      reads this`bytes
    {
      0 < block && |bytes| % block == 0
    }

    /** A read request: whole blocks on a block boundary, inside the disk. */
    method SubmitRead(pos: nat, len: nat) returns (data: seq<byte>)
      requires Valid() && Aligned(block, pos, len) && pos + len <= |bytes|
      ensures data == Slice(bytes, pos, pos + len)
    {
      data := bytes[pos..pos + len];
    }

    /** A write request: whole blocks on a block boundary, inside the disk. */
    method SubmitWrite(pos: nat, data: seq<byte>)
      requires Valid() && Aligned(block, pos, |data|) && pos + |data| <= |bytes|
      modifies this`bytes
      ensures Valid() && bytes == Overlay(old(bytes), pos, data)
    {
      bytes := Overlay(bytes, pos, data);
    }

    /** blkdev_read_partial_block: through a bounce page that holds the whole block. */
    method ReadPartial(len: nat, pos: nat) returns (r: Option<Error>, data: seq<byte>)
      requires Valid() && pos + len <= |bytes|
      ensures r.None? <==> 0 < len <= block - pos % block
      ensures r.None? ==> data == Slice(bytes, pos, pos + len)
      ensures r.Some? ==> r == Some(EINVAL)
    {
      if len == 0 {
        return Some(EINVAL), [];
      }
      BlockOf(block, |bytes|, pos);
      var offset := pos % block;
      var blockPos := pos - offset;
      if len > block - offset {
        return Some(EINVAL), [];
      }
      hide PartFits;
      var bounce := SubmitRead(blockPos, block);
      data := bounce[offset..offset + len];
      SliceOfSlice(bytes, blockPos, block, offset, len);
      r := None;
    }

    /** blkdev_write_partial_block: read, modify, write. */
    method WritePartial(src: seq<byte>, pos: nat) returns (r: Option<Error>)
      requires Valid() && pos < |bytes| && pos + |src| <= |bytes|
      modifies this`bytes
      ensures Valid()
      ensures r.None? <==> |src| <= block - pos % block
      ensures r.Some? ==> r == Some(EINVAL) && bytes == old(bytes)
      ensures r.None? ==> bytes == Overlay(old(bytes), pos, src)
    {
      BlockOf(block, |bytes|, pos);
      var offset := pos % block;
      var blockPos := pos - offset;
      if |src| > block - offset {
        return Some(EINVAL);
      }
      var bounce := SubmitRead(blockPos, block);
      OverlayInside(bytes, blockPos, block, offset, src);
      bounce := Overlay(bounce, offset, src);
      SubmitWrite(blockPos, bounce);
      return None;
    }

    /** blkdev_read_aligned: one request for whole blocks, unless it is too large for one. */
    method ReadAligned(page: nat, addr: nat, len: nat, pos: nat) returns (r: Option<Error>, data: seq<byte>)
      requires Valid() && page > 0 && len > 0 && Aligned(block, pos, len) && pos + len <= |bytes|
      ensures r == RequestError(page, addr, len)
      ensures r.None? ==> data == Slice(bytes, pos, pos + len)
    {
      if len > 0xffff_ffff {
        return Some(EOVERFLOW), [];
      }
      var count := (addr % page + len + page - 1) / page;
      if count > 0xffff {
        return Some(EINVAL), [];
      }
      NeedAtLeast(addr % page, len, page);
      var vecs;
      r, vecs := MapBuffer(page, addr, len, count);
      data := SubmitRead(pos, len);
    }

    /** blkdev_write_aligned */
    method WriteAligned(page: nat, addr: nat, src: seq<byte>, pos: nat) returns (r: Option<Error>)
      requires Valid() && page > 0 && src != [] && Aligned(block, pos, |src|) && pos + |src| <= |bytes|
      modifies this`bytes
      ensures Valid() && r == RequestError(page, addr, |src|)
      ensures bytes == if r.None? then Overlay(old(bytes), pos, src) else old(bytes)
    {
      if |src| > 0xffff_ffff {
        return Some(EOVERFLOW);
      }
      var count := (addr % page + |src| + page - 1) / page;
      if count > 0xffff {
        return Some(EINVAL);
      }
      NeedAtLeast(addr % page, |src|, page);
      var vecs;
      r, vecs := MapBuffer(page, addr, |src|, count);
      SubmitWrite(pos, src);
    }

    /** __blkdev_read_raw: head, whole blocks and tail give exactly the bytes asked for, if the blocks fit a request. */
    method ReadRaw(page: nat, addr: nat, len: nat, pos: nat) returns (r: Option<Error>, data: seq<byte>)
      requires Valid() && page > 0 && pos + len <= |bytes|
      ensures r == MiddleError(block, page, addr, pos, len)
      ensures r.None? ==> data == Slice(bytes, pos, pos + len)
    {
      hide HeadLen, WholeLen, PartFits, Aligned, Slice, RequestError;
      data := [];
      SliceJoin(bytes, pos, pos, pos);
      if len == 0 {
        NoHead(block, pos);
        return None, [];
      }
      HeadFacts(block, pos, len);
      var head := HeadLen(block, pos, len);
      if head != 0 {
        r, data := ReadPartial(head, pos);
        if r.Some? {
          return;
        }
      }
      var at, done := pos + head, head;
      assert data == Slice(bytes, pos, at);
      if done == len {
        return None, data;
      }
      WholeFacts(block, at, len - done);
      if len - done >= block {
        var whole := WholeLen(block, len - done);
        var middle;
        r, middle := ReadAligned(page, addr + done, whole, at);
        if r.Some? {
          return;
        }
        data := data + middle;
        SliceJoin(bytes, pos, at, at + whole);
        at, done := at + whole, done + whole;
      }
      if done < len {
        var tail;
        r, tail := ReadPartial(len - done, at);
        if r.Some? {
          return;
        }
        data := data + tail;
        SliceJoin(bytes, pos, at, pos + len);
      }
      r := None;
    }

    /** __blkdev_write_raw: exactly the bytes at pos are written; only the head of them if the blocks do not fit. */
    method WriteRaw(page: nat, addr: nat, src: seq<byte>, pos: nat) returns (r: Option<Error>)
      requires Valid() && page > 0 && pos + |src| <= |bytes|
      modifies this`bytes
      ensures Valid() && r == MiddleError(block, page, addr, pos, |src|)
      ensures bytes == Overlay(old(bytes), pos, if r.None? then src else Head(block, src, pos))
    {
      hide HeadLen, WholeLen, PartFits, Aligned, Overlay, RequestError;
      var len := |src|;
      ghost var was := bytes;
      OverlayNothing(was, pos, src);
      if len == 0 {
        NoHead(block, pos);
        return None;
      }
      HeadFacts(block, pos, len);
      var head := HeadLen(block, pos, len);
      if head != 0 {
        r := WritePartial(src[..head], pos);
        if r.Some? {
          return;
        }
      }
      var at, done := pos + head, head;
      assert bytes == Overlay(was, pos, src[..done]);
      if done == len {
        assert src[..done] == src;
        return None;
      }
      WholeFacts(block, at, len - done);
      if len - done >= block {
        var whole := WholeLen(block, len - done);
        r := WriteAligned(page, addr + done, src[done..done + whole], at);
        if r.Some? {
          return;
        }
        OverlayNext(was, pos, src, done, done + whole);
        at, done := at + whole, done + whole;
      }
      if done < len {
        r := WritePartial(src[done..len], at);
        if r.Some? {
          return;
        }
        OverlayNext(was, pos, src, done, len);
      }
      assert src[..len] == src;
      r := None;
    }

    /** blkdev_read on a partition. */
    method ReadPartition(start: nat, sectors: nat, page: nat, addr: nat, len: nat, pos: nat)
      returns (r: Option<Error>, data: seq<byte>)
      requires Valid() && page > 0 && PartitionOk(start, sectors, |bytes|, len, pos)
      ensures pos + len < WORD && pos + len > sectors * SECTOR_SIZE ==> r == Some(EINVAL)
      ensures pos + len <= sectors * SECTOR_SIZE && r.Some? ==>
        r == MiddleError(block, page, addr, start * SECTOR_SIZE + pos, len)
      ensures PastEnd(sectors, len, pos) ==> r == Some(EINVAL)
      ensures !PastEnd(sectors, len, pos) ==>
        var at := DiskPos(start, pos);
        if at >= |bytes| && len > 0 then r.Some?
        else at + len <= |bytes| && r == MiddleError(block, page, addr, at, len)
             && (r.None? ==> data == Slice(bytes, at, at + len))
    {
      hide MiddleError, Slice, DiskPos;
      if (pos + len) % WORD > sectors * SECTOR_SIZE {
        return Some(EINVAL), [];
      }
      InPartition(start, sectors, |bytes|, len, pos);
      var at := DiskPos(start, pos);
      if at >= |bytes| && len > 0 {
        return Some(EIO), [];
      }
      r, data := ReadRaw(page, addr, len, at);
    }

    /** blkdev_write on a partition: nothing outside it changes, unless the end of the range wraps around. */
    method WritePartition(start: nat, sectors: nat, page: nat, addr: nat, src: seq<byte>, pos: nat)
      returns (r: Option<Error>)
      requires Valid() && page > 0 && PartitionOk(start, sectors, |bytes|, |src|, pos)
      modifies this`bytes
      ensures Valid() && |bytes| == |old(bytes)|
      ensures pos + |src| < WORD && pos + |src| > sectors * SECTOR_SIZE ==> r == Some(EINVAL) && bytes == old(bytes)
      ensures pos + |src| <= sectors * SECTOR_SIZE && r.Some? ==>
        r == MiddleError(block, page, addr, start * SECTOR_SIZE + pos, |src|)
      ensures PastEnd(sectors, |src|, pos) ==> r == Some(EINVAL) && bytes == old(bytes)
      ensures !PastEnd(sectors, |src|, pos) ==>
        var at := DiskPos(start, pos);
        if at >= |bytes| && src != [] then r.Some? && bytes == old(bytes)
        else at + |src| <= |bytes| && r == MiddleError(block, page, addr, at, |src|)
             && bytes == Overlay(old(bytes), at, if r.None? then src else Head(block, src, at))
      ensures pos + |src| < WORD ==>
        forall i :: 0 <= i < |bytes| && !(start * SECTOR_SIZE <= i < (start + sectors) * SECTOR_SIZE) ==>
          bytes[i] == old(bytes)[i]
    {
      hide MiddleError, DiskPos, Head;
      if (pos + |src|) % WORD > sectors * SECTOR_SIZE {
        return Some(EINVAL);
      }
      InPartition(start, sectors, |bytes|, |src|, pos);
      var at := DiskPos(start, pos);
      if at >= |bytes| && src != [] {
        return Some(EIO);
      }
      r := WriteRaw(page, addr, src, at);
    }
  }

  lemma NoHead(block: nat, pos: nat)
    requires block > 0
    ensures HeadLen(block, pos, 0) == 0
  {
  }

  /** A write to a partition of one sector, behind the first: its end wraps to 0 and it lands on the first sector. */
  method PartitionEscaped(was: seq<byte>, sector: seq<byte>) returns (d: Disk, r: Option<Error>)
    requires |was| == 1024 && |sector| == 512
    ensures fresh(d) && r.None? && d.bytes == Overlay(was, 0, sector)
  {
    hide DiskPos, PastEnd, MiddleError, Overlay, PartitionOk, Head;
    EscapePosition();
    SmallTransfer(512, 4096, 0, 0, 512);
    d := new Disk(512, was);
    r := d.WritePartition(1, 1, 4096, 0, sector, 0xffff_ffff_ffff_fe00);
  }

  lemma EscapePosition()
    ensures !PastEnd(1, 512, 0xffff_ffff_ffff_fe00) && DiskPos(1, 0xffff_ffff_ffff_fe00) == 0
    ensures PartitionOk(1, 1, 1024, 512, 0xffff_ffff_ffff_fe00)
  {
  }
}
