/** The printk ring buffer and its readers (kernel/printk.c). */
module LogRing {
  import opened Bytes
  import opened LogRecord
  import opened LogLayout
  import opened Options

  const MAX_LOG_TAKE_PART: nat := 4
  const LOG_NEWLINE: nat := 2

  /** "<truncated>" */
  const TRUNC_MSG: seq<byte> := [60, 116, 114, 117, 110, 99, 97, 116, 101, 100, 62]

  /** truncate_msg: keep a quarter of the buffer of text, drop the dictionary, add the warning. */
  function Truncated(r: Record, len: nat): (t: Record)
    ensures |t.text| >= 11 && t.text[|t.text| - 11..] == TRUNC_MSG && t.text[..|t.text| - 11] <= r.text
    ensures |t.text| - 11 == len / 4 < |r.text| || |t.text| - 11 == |r.text| <= len / 4
    ensures t.dict == [] && t.(text := r.text, dict := r.dict) == r
  {
    var max := len / MAX_LOG_TAKE_PART;
    r.(text := (if |r.text| > max then r.text[..max] else r.text) + TRUNC_MSG, dict := [])
  }

  /** The text of the truncated form fits its sixteen-bit field; the only caller of log_store has at most 1023 bytes. */
  predicate TextFits(r: Record) {
    UsedSize(|r.text| + |TRUNC_MSG|, 0) < 0x10000
  }

  /** What printk_read_record copies out. */
  datatype View = View(ts: seq<byte>, text: seq<byte>, level: nat, newline: bool)

  function ViewOf(r: Record): (v: View)
    ensures v.ts == r.ts && v.text == r.text && v.level == r.level
    ensures v.newline <==> r.flags % 4 == 2 || r.flags % 4 == 3
  {
    View(r.ts, r.text, r.level, (r.flags / LOG_NEWLINE) % 2 == 1)
  }

  class Cursor {
    var seqNo: nat
    var idx: nat

    constructor () { seqNo := 0; idx := 0; }
  }

  class Ring {
    const buf: array<byte>
    var firstSeq: nat
    var firstIdx: nat
    var nextSeq: nat
    var nextIdx: nat
    /** Every record ever stored, and how the retained ones stand in the buffer. */
    ghost var log: seq<Record>
    ghost var shape: Shape

    ghost predicate Valid()
      reads this, buf
    {
      && firstSeq <= nextSeq == |log|
      && Layout(buf[..], firstIdx, nextIdx, log[firstSeq..], shape)
    }

    /** (s, i) is what a reader that has read everything before s, or fell behind, may hold. */
    ghost predicate CursorAt(s: nat, i: nat)
      requires firstSeq <= |log|
      reads this
    {
      s <= |log| && (firstSeq <= s ==> i == Pointer(firstIdx, log[firstSeq..], shape, s - firstSeq))
    }

    /** Where record k stands, or where the next one goes. */
    ghost function IdxOf(k: nat): nat
      requires firstSeq <= k <= |log|
      reads this
    {
      Pointer(firstIdx, log[firstSeq..], shape, k - firstSeq)
    }

    /** A record of the given size has room once the records before k are gone. */
    ghost predicate RoomFrom(k: nat, size: nat)
      reads this
    {
      firstSeq <= k <= |log| && HasSpace(buf.Length, IdxOf(k), nextIdx, size, k == |log|)
    }

    /** ... and not before: the records from k on are the most that can be kept. */
    ghost predicate FirstRoom(k: nat, size: nat)
      reads this
    {
      RoomFrom(k, size) && forall j :: firstSeq <= j < k ==> !RoomFrom(j, size)
    }

    constructor (len: nat)
      requires len >= HEADER
      ensures Valid() && log == [] && buf.Length == len && firstSeq == 0 && firstIdx == nextIdx == 0 && fresh(buf)
    {
      buf := new byte[len](_ => 0);
      firstSeq, firstIdx, nextSeq, nextIdx := 0, 0, 0, 0;
      log, shape := [], Straight;
    }

    /** memcpy and memset into the buffer. */
    method Write(i: nat, data: seq<byte>)
      requires i + |data| <= buf.Length
      modifies buf
      ensures buf[..] == Overlay(old(buf[..]), i, data)
    {
      var k := 0;
      while k < |data|
        invariant 0 <= k <= |data|
        invariant buf[..] == Overlay(old(buf[..]), i, data[..k])
      {
        buf[i + k] := data[k];
        k := k + 1;
      }
      assert data[..k] == data;
    }

    /** log_make_free_space: drop the oldest records until the new one fits, and no more of them. */
    method MakeFreeSpace(size: nat) returns (ok: bool)
      requires Valid()
      modifies this`firstSeq, this`firstIdx, this`shape
      ensures Valid() && firstSeq >= old(firstSeq)
      ensures ok <==> HasSpace(buf.Length, firstIdx, nextIdx, size, firstSeq == nextSeq)
      ensures ok ==> var k := firstSeq; old(FirstRoom(k, size))
      ensures !ok ==> firstSeq == nextSeq && forall k :: !old(RoomFrom(k, size))
      ensures forall s, i :: old(CursorAt(s, i)) ==> CursorAt(s, i)
      ensures forall k :: firstSeq <= k <= |log| ==> IdxOf(k) == old(IdxOf(k))
    {
      hide Layout, Pointer, HasSpace;
      while firstSeq < nextSeq
        invariant Valid() && old(firstSeq) <= firstSeq
        invariant forall k :: firstSeq <= k <= |log| ==> IdxOf(k) == old(IdxOf(k))
        invariant forall k :: old(firstSeq) <= k < firstSeq ==> !old(RoomFrom(k, size))
        invariant forall s, i :: old(CursorAt(s, i)) ==> CursorAt(s, i)
        decreases nextSeq - firstSeq
      {
        PointerEnd(buf[..], firstIdx, nextIdx, log[firstSeq..], shape);
        if HasSpace(buf.Length, firstIdx, nextIdx, size, false) {
          return true;
        }
        DropOne();
      }
      PointerEnd(buf[..], firstIdx, nextIdx, log[firstSeq..], shape);
      ok := HasSpace(buf.Length, firstIdx, nextIdx, size, true);
    }

    method DropOne()
      requires Valid() && firstSeq < nextSeq
      modifies this`firstSeq, this`firstIdx, this`shape
      ensures Valid() && firstSeq == old(firstSeq) + 1
      ensures forall s, i :: old(CursorAt(s, i)) ==> CursorAt(s, i)
      ensures forall k :: firstSeq <= k <= |log| ==> IdxOf(k) == old(IdxOf(k))
    {
      hide Layout, Pointer, NextIdx, DropShape;
      DropFirst(buf[..], firstIdx, nextIdx, log[firstSeq..], shape);
      ghost var recs := log[firstSeq..];
      assert recs[1..] == log[firstSeq + 1..];
      shape := DropShape(shape);
      firstIdx := NextIdx(buf[..], firstIdx);
      firstSeq := firstSeq + 1;
    }

    /** The last record was stored at `at` and does not fit its length field: the next index lies inside it. */
    ghost predicate Oversized(at: nat, next: nat)
      reads this, buf
    {
      && firstSeq < |log| == nextSeq
      && var r := log[|log| - 1];
         && Size(r) >= 0x10000 && StoredAt(buf[..], at, r) && (at == next || at == 0)
         && nextIdx == at + Size(r) % 0x10000
         && Layout(buf[..], firstIdx, next, log[firstSeq..|log| - 1], shape)
    }

    /**
     * log_store: returns the stored text length, or 0 when the buffer is too small even for the truncated record.
     * The ring stays a ring if and only if the size of what is stored fits its length field; otherwise all older
     * records are still in place, and the next one will be written over the new one.
     */
    method Store(r: Record) returns (n: nat, ghost at: nat)
      requires Valid() && Storable(r) && TextFits(r)
      modifies this, buf
      ensures old(firstSeq) <= firstSeq <= old(nextSeq)
      ensures log == old(log) || log == old(log) + [r] || log == old(log) + [Truncated(r, buf.Length)]
      ensures log == old(log) ==> n == 0 && firstSeq == nextSeq
      ensures log == old(log) + [r] ==> var k := firstSeq; old(FirstRoom(k, Size(r)))
      ensures log != old(log) + [r] ==> firstSeq == old(nextSeq) && forall k :: !old(RoomFrom(k, Size(r)))
      ensures log != old(log) + [r] ==>
        (log != old(log) <==> old(RoomFrom(nextSeq, Size(Truncated(r, buf.Length)))))
      ensures log != old(log) ==> n == |log[|log| - 1].text|
      ensures 2 * (Size(r) + HEADER) <= buf.Length ==> log == old(log) + [r]
      ensures Valid() <==> log == old(log) || Size(log[|log| - 1]) < 0x10000
      ensures Valid() ==> forall s, i :: old(CursorAt(s, i)) ==> CursorAt(s, i)
      ensures !Valid() ==> log == old(log) + [r] && Oversized(at, old(nextIdx))
    {
      hide Layout, Pointer, HasSpace, UsedSize, Truncated, StoredAt;
      var stored := r;
      at := 0;
      var ok := MakeFreeSpace(Size(stored));
      if !ok {
        EmptyHasHalf(buf[..], firstIdx, nextIdx, log[firstSeq..], shape, Size(r));
        TruncatedFits(r, buf.Length);
        stored := Truncated(r, buf.Length);
        assert RoomFrom(nextSeq, Size(stored)) <==> old(RoomFrom(nextSeq, Size(stored)));
        ok := MakeFreeSpace(Size(stored));
        assert ok <==> old(RoomFrom(nextSeq, Size(stored)));
        if !ok {
          return 0, 0;
        }
      }
      at := Append(stored);
      n := |stored.text|;
    }

    /** The end of log_store: wrap if needed, write the record, advance by the length field. */
    method WriteRecord(r: Record) returns (at: nat)
      requires Storable(r) && nextIdx + HEADER <= buf.Length && Size(r) <= buf.Length
      modifies this`nextIdx, this`nextSeq, buf
      ensures nextSeq == old(nextSeq) + 1 && nextIdx == at + Size(r) % 0x10000
      ensures
        if old(nextIdx) + Size(r) + HEADER > buf.Length then
          at == 0 && buf[..] == Overlay(Overlay(old(buf[..]), old(nextIdx), ZeroBytes(HEADER)), 0, Encode(r))
        else
          at == old(nextIdx) && buf[..] == Overlay(old(buf[..]), old(nextIdx), Encode(r))
    {
      hide UsedSize, Encode, Overlay;
      if nextIdx + Size(r) + HEADER > buf.Length {
        Write(nextIdx, ZeroBytes(HEADER));
        nextIdx := 0;
      }
      at := nextIdx;
      Write(nextIdx, Encode(r));
      nextIdx := nextIdx + Size(r) % 0x10000;
      nextSeq := nextSeq + 1;
    }

    /** A record that has its space is written. */
    method Append(r: Record) returns (at: nat)
      requires Valid() && Storable(r)
      requires HasSpace(buf.Length, firstIdx, nextIdx, Size(r), firstSeq == nextSeq)
      modifies this, buf
      ensures firstSeq == old(firstSeq) && log == old(log) + [r]
      ensures Valid() <==> Size(r) < 0x10000
      ensures Valid() ==> forall s, i :: old(CursorAt(s, i)) ==> CursorAt(s, i)
      ensures !Valid() ==> Oversized(at, old(nextIdx))
    {
      hide Layout, Pointer, HasSpace, UsedSize, Encode, Overlay, LenAt, StoredAt;
      ghost var recs, first, next, oldShape, before := log[firstSeq..], firstIdx, nextIdx, shape, buf[..];
      SpaceMeans(before, first, next, recs, shape, Size(r));
      NextFits(before, first, next, recs, shape);
      PointerEnd(before, first, next, recs, shape);
      at := WriteRecord(r);
      WrittenThere(before, next, r, at, buf[..]);
      LogGrown(log, firstSeq, r);
      log := log + [r];
      if next + Size(r) + HEADER > buf.Length {
        WrapShape(before, first, next, recs, shape, Size(r));
        WrappedKeeps(before, first, next, recs, r);
        if Size(r) < 0x10000 {
          StoreWrapped(before, first, next, recs, r);
          shape := Wrapped(next, |recs|);
        }
      } else {
        AheadKeeps(before, first, next, recs, shape, Encode(r));
        if Size(r) < 0x10000 {
          StoreAhead(before, first, next, recs, shape, r);
        }
      }
      if Size(r) < 0x10000 {
        CursorsKept(first, recs, oldShape, r, shape);
      } else {
        NoLayout(buf[..], firstIdx, nextIdx, recs + [r], shape, |recs|);
      }
    }

    /** printk_cursor_init */
    method CursorInit(cursor: Cursor)
      requires Valid()
      modifies cursor
      ensures cursor.seqNo == firstSeq && CursorAt(cursor.seqNo, cursor.idx)
    {
      PointerEnd(buf[..], firstIdx, nextIdx, log[firstSeq..], shape);
      cursor.seqNo, cursor.idx := firstSeq, firstIdx;
    }

    /** printk_read_record: the next retained record, or None when the reader has caught up. */
    method ReadRecord(cursor: Cursor) returns (r: Option<View>)
      requires Valid() && CursorAt(cursor.seqNo, cursor.idx)
      modifies cursor
      ensures CursorAt(cursor.seqNo, cursor.idx)
      ensures var s := if old(cursor.seqNo) < firstSeq then firstSeq else old(cursor.seqNo);
              if r.None? then s == |log| == cursor.seqNo
              else s < |log| && r.value == ViewOf(log[s]) && cursor.seqNo == s + 1
    {
      hide Layout, Pointer, NextIdx, FromIdx, ReadView, ViewOf, Readable;
      if cursor.seqNo >= nextSeq {
        return None;
      }
      var bytes := buf[..];
      ghost var recs := log[firstSeq..];
      PointerEnd(bytes, firstIdx, nextIdx, recs, shape);
      var s, i := cursor.seqNo, cursor.idx;
      if s < firstSeq {
        s, i := firstSeq, firstIdx;
      }
      if s == nextSeq {
        cursor.seqNo, cursor.idx := s, i;
        return None;
      }
      ReadAtPointer(bytes, firstIdx, nextIdx, recs, shape, s - firstSeq);
      r := Some(ReadView(bytes, FromIdx(bytes, i)));
      cursor.seqNo, cursor.idx := s + 1, NextIdx(bytes, i);
    }
  }

  lemma LogGrown(log: seq<Record>, first: nat, r: Record)
    requires first <= |log|
    ensures (log + [r])[first..] == log[first..] + [r] && (log + [r])[first..|log|] == log[first..]
  {
  }

  predicate Readable(buf: seq<byte>, p: nat) {
    p + HEADER <= |buf| && p + HEADER + TextLenAt(buf, p) <= |buf|
  }

  /** The fields and text copied from the record at index p. */
  function ReadView(buf: seq<byte>, p: nat): View
    requires Readable(buf, p)
  {
    View(buf[p..p + 8], buf[p + HEADER..p + HEADER + TextLenAt(buf, p)], LevelAt(buf, p),
         (FlagsAt(buf, p) / LOG_NEWLINE) % 2 == 1)
  }

  lemma ReadViewOf(buf: seq<byte>, p: nat, r: Record)
    requires StoredAt(buf, p, r)
    ensures Readable(buf, p) && ReadView(buf, p) == ViewOf(r)
  {
    ReadBack(buf, p, r);
  }

  /** Reading through the pointer of a retained record gives that record and the pointer of the next. */
  lemma ReadAtPointer(buf: seq<byte>, first: nat, next: nat, recs: seq<Record>, shape: Shape, k: nat)
    requires Layout(buf, first, next, recs, shape) && k < |recs|
    ensures var p := Pointer(first, recs, shape, k);
            && p + HEADER <= |buf| && Readable(buf, FromIdx(buf, p))
            && ReadView(buf, FromIdx(buf, p)) == ViewOf(recs[k])
            && NextIdx(buf, p) == Pointer(first, recs, shape, k + 1)
  {
    hide Layout, Pointer, NextIdx, StoredAt, ReadView, ViewOf, Readable, FromIdx;
    PointerReads(buf, first, next, recs, shape, k);
    ReadViewOf(buf, FromIdx(buf, Pointer(first, recs, shape, k)), recs[k]);
  }

  lemma NextFits(buf: seq<byte>, first: nat, next: nat, recs: seq<Record>, shape: Shape)
    requires Layout(buf, first, next, recs, shape)
    ensures next + HEADER <= |buf| && first <= |buf|
  {
  }

  lemma WrapShape(buf: seq<byte>, first: nat, next: nat, recs: seq<Record>, shape: Shape, size: nat)
    requires Layout(buf, first, next, recs, shape)
    requires shape.Wrapped? ==> next + size + HEADER <= first
    requires next + size + HEADER > |buf|
    ensures shape.Straight?
  {
    if shape.Wrapped? {
      assert false;
    }
  }

  lemma WrittenThere(before: seq<byte>, next: nat, r: Record, at: nat, buf: seq<byte>)
    requires Storable(r) && next + HEADER <= |before| && Size(r) <= |before|
    requires
      if next + Size(r) + HEADER > |before| then
        at == 0 && buf == Overlay(Overlay(before, next, ZeroBytes(HEADER)), 0, Encode(r))
      else
        at == next && buf == Overlay(before, next, Encode(r))
    ensures StoredAt(buf, at, r)
  {
    var mid := if next + Size(r) + HEADER > |before| then Overlay(before, next, ZeroBytes(HEADER)) else before;
    OverlayKeeps(mid, at, Encode(r));
  }

  lemma CursorsKept(first: nat, recs: seq<Record>, shape: Shape, r: Record, shape': Shape)
    requires PointersKept(first, recs, shape, r, shape')
    ensures forall k :: 0 <= k <= |recs| ==> Pointer(first, recs + [r], shape', k) == Pointer(first, recs, shape, k)
  {
  }

  /** In an empty buffer at least half of it is free in one piece. */
  lemma EmptyHasHalf(buf: seq<byte>, first: nat, next: nat, recs: seq<Record>, shape: Shape, size: nat)
    requires Layout(buf, first, next, recs, shape) && recs == []
    requires !HasSpace(|buf|, first, next, size, true)
    ensures 2 * (size + HEADER) > |buf|
  {
  }

  lemma TruncatedFits(r: Record, len: nat)
    requires Storable(r) && TextFits(r)
    ensures Storable(Truncated(r, len)) && Size(Truncated(r, len)) < 0x10000
  {
  }
}
