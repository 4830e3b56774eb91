/** Where the retained records stand in the ring: contiguous, or split by one wrap marker. */
module LogLayout {
  import opened Bytes
  import opened LogRecord

  /** The records stand one after the other from index i to index j. */
  ghost predicate Contig(buf: seq<byte>, i: nat, recs: seq<Record>, j: nat)
    decreases |recs|
  {
    if recs == [] then i == j
    else StoredAt(buf, i, recs[0]) && Size(recs[0]) < 0x10000 && i + Size(recs[0]) <= j
         && Contig(buf, i + Size(recs[0]), recs[1..], j)
  }

  function Total(recs: seq<Record>): nat {
    if recs == [] then 0 else Size(recs[0]) + Total(recs[1..])
  }

  /** Straight: first_idx up to next_idx.  Wrapped: `tail` records up to the marker, the others from index 0. */
  datatype Shape = Straight | Wrapped(marker: nat, tail: nat)

  ghost predicate Layout(buf: seq<byte>, first: nat, next: nat, recs: seq<Record>, shape: Shape) {
    && next + HEADER <= |buf|
    && match shape
       case Straight => first <= next && Contig(buf, first, recs, next)
       case Wrapped(m, a) =>
         && a < |recs| && first <= m && m + HEADER <= |buf| && LenAt(buf, m) == 0
         && Contig(buf, first, recs[..a], m)
         && Contig(buf, 0, recs[a..], next)
         && next + HEADER <= first
  }

  /** log_next */
  function NextIdx(buf: seq<byte>, i: nat): nat
    requires i + HEADER <= |buf|
  {
    if LenAt(buf, i) == 0 then LenAt(buf, 0) else i + LenAt(buf, i)
  }

  /** The index log_from_idx reads the record at. */
  function FromIdx(buf: seq<byte>, i: nat): nat
    requires i + HEADER <= |buf|
  {
    if LenAt(buf, i) == 0 then 0 else i
  }

  // ---------------------------------------------------------------- contiguous records

  lemma {:induction false} ContigLength(buf: seq<byte>, i: nat, recs: seq<Record>, j: nat)
    requires Contig(buf, i, recs, j)
    ensures j == i + Total(recs)
    decreases |recs|
  {
    if recs != [] {
      ContigLength(buf, i + Size(recs[0]), recs[1..], j);
    }
  }

  /** Bytes outside [i, j) do not matter. */
  lemma {:induction false} ContigFrame(buf: seq<byte>, buf': seq<byte>, i: nat, recs: seq<Record>, j: nat)
    requires Contig(buf, i, recs, j) && j <= |buf| && j <= |buf'|
    requires forall k :: i <= k < j ==> buf[k] == buf'[k]
    ensures Contig(buf', i, recs, j)
    decreases |recs|
  {
    if recs != [] {
      var m := i + Size(recs[0]);
      ContigFrame(buf, buf', m, recs[1..], j);
      assert buf'[i..m] == buf[i..m];
    }
  }

  lemma {:induction false} ContigAppend(buf: seq<byte>, i: nat, recs: seq<Record>, j: nat, r: Record)
    requires Contig(buf, i, recs, j) && StoredAt(buf, j, r) && Size(r) < 0x10000
    ensures Contig(buf, i, recs + [r], j + Size(r))
    decreases |recs|
  {
    if recs == [] {
      assert (recs + [r])[1..] == [];
    } else {
      ContigAppend(buf, i + Size(recs[0]), recs[1..], j, r);
      assert (recs + [r])[1..] == recs[1..] + [r];
    }
  }

  lemma {:induction false} ContigAt(buf: seq<byte>, i: nat, recs: seq<Record>, j: nat, k: nat)
    requires Contig(buf, i, recs, j) && k < |recs|
    ensures StoredAt(buf, i + Total(recs[..k]), recs[k])
    ensures Size(recs[k]) < 0x10000 && i + Total(recs[..k]) + Size(recs[k]) <= j
    decreases |recs|
  {
    if k == 0 {
      assert recs[..0] == [];
    } else {
      ContigAt(buf, i + Size(recs[0]), recs[1..], j, k - 1);
      assert recs[..k][1..] == recs[1..][..k - 1];
    }
  }

  lemma {:induction false} TotalAppend(recs: seq<Record>, r: Record)
    ensures Total(recs + [r]) == Total(recs) + Size(r)
    decreases |recs|
  {
    if recs != [] {
      TotalAppend(recs[1..], r);
      assert (recs + [r])[1..] == recs[1..] + [r];
    } else {
      assert (recs + [r])[1..] == [];
    }
  }

  lemma TotalStep(recs: seq<Record>, k: nat)
    requires k < |recs|
    ensures Total(recs[..k + 1]) == Total(recs[..k]) + Size(recs[k])
  {
    assert recs[..k + 1] == recs[..k] + [recs[k]];
    TotalAppend(recs[..k], recs[k]);
  }

  // ---------------------------------------------------------------- pointers

  /** The index a reader holds for retained record k; for k == |recs| the next index. */
  function Pointer(first: nat, recs: seq<Record>, shape: Shape, k: nat): nat
    requires k <= |recs|
  {
    match shape
    case Straight => first + Total(recs[..k])
    case Wrapped(_, a) =>
      if k <= a then first + Total(recs[..k]) else Total(recs[a..k])
  }

  lemma ReadLen(buf: seq<byte>, i: nat, r: Record)
    requires StoredAt(buf, i, r) && Size(r) < 0x10000
    ensures i + HEADER <= |buf| && LenAt(buf, i) == Size(r) > 0
    ensures NextIdx(buf, i) == i + Size(r) && FromIdx(buf, i) == i
  {
    ReadBack(buf, i, r);
  }

  /** log_from_idx on the pointer of a retained record finds its bytes, and log_next leads to the next pointer. */
  lemma PointerReads(buf: seq<byte>, first: nat, next: nat, recs: seq<Record>, shape: Shape, k: nat)
    requires Layout(buf, first, next, recs, shape) && k < |recs|
    ensures var p := Pointer(first, recs, shape, k);
            && p + HEADER <= |buf|
            && FromIdx(buf, p) + HEADER <= |buf|
            && StoredAt(buf, FromIdx(buf, p), recs[k])
            && NextIdx(buf, p) == Pointer(first, recs, shape, k + 1)
  {
    hide StoredAt, LenAt, UsedSize, Contig;
    var p := Pointer(first, recs, shape, k);
    TotalStep(recs, k);
    match shape
    case Straight =>
      ContigAt(buf, first, recs, next, k);
      ReadLen(buf, p, recs[k]);
    case Wrapped(m, a) =>
      if k < a {
        ContigAt(buf, first, recs[..a], m, k);
        assert recs[..a][..k] == recs[..k];
        ReadLen(buf, p, recs[k]);
      } else {
        ContigAt(buf, 0, recs[a..], next, k - a);
        assert recs[a..][..k - a] == recs[a..k];
        assert recs[a..][..k - a + 1] == recs[a..k + 1];
        TotalStep(recs[a..], k - a);
        if k == a {
          ContigLength(buf, first, recs[..a], m);
          assert recs[a..a] == [];
          ReadLen(buf, 0, recs[k]);
        } else {
          ReadLen(buf, p, recs[k]);
        }
      }
  }

  /** After the last record the pointer is the next index. */
  lemma PointerEnd(buf: seq<byte>, first: nat, next: nat, recs: seq<Record>, shape: Shape)
    requires Layout(buf, first, next, recs, shape)
    ensures Pointer(first, recs, shape, |recs|) == next && Pointer(first, recs, shape, 0) == first
  {
    assert recs[..|recs|] == recs && recs[..0] == [];
    match shape
    case Straight => ContigLength(buf, first, recs, next);
    case Wrapped(m, a) =>
      ContigLength(buf, 0, recs[a..], next);
      assert recs[a..|recs|] == recs[a..];
  }

  // ---------------------------------------------------------------- dropping the oldest record

  function DropShape(shape: Shape): Shape {
    match shape
    case Straight => Straight
    case Wrapped(m, a) => if a == 0 then Straight else Wrapped(m, a - 1)
  }

  lemma DropFirst(buf: seq<byte>, first: nat, next: nat, recs: seq<Record>, shape: Shape)
    requires Layout(buf, first, next, recs, shape) && recs != []
    ensures first + HEADER <= |buf|
    ensures Layout(buf, NextIdx(buf, first), next, recs[1..], DropShape(shape))
    ensures forall k :: 1 <= k <= |recs| ==>
              Pointer(NextIdx(buf, first), recs[1..], DropShape(shape), k - 1) == Pointer(first, recs, shape, k)
  {
    hide Layout, Pointer, NextIdx, FromIdx, StoredAt, LenAt;
    PointerEnd(buf, first, next, recs, shape);
    PointerReads(buf, first, next, recs, shape, 0);
    DropLayout(buf, first, next, recs, shape);
    forall k | 1 <= k <= |recs|
      ensures Pointer(NextIdx(buf, first), recs[1..], DropShape(shape), k - 1) == Pointer(first, recs, shape, k)
    {
      DropPointer(buf, first, next, recs, shape, k);
    }
  }

  lemma ContigRest(buf: seq<byte>, i: nat, recs: seq<Record>, j: nat)
    requires Contig(buf, i, recs, j) && recs != []
    ensures i + HEADER <= |buf| && LenAt(buf, i) == Size(recs[0]) > 0 && i + Size(recs[0]) <= j
    ensures Contig(buf, i + Size(recs[0]), recs[1..], j)
  {
    ReadLen(buf, i, recs[0]);
  }

  lemma DropLayout(buf: seq<byte>, first: nat, next: nat, recs: seq<Record>, shape: Shape)
    requires Layout(buf, first, next, recs, shape) && recs != []
    ensures first + HEADER <= |buf| && Layout(buf, NextIdx(buf, first), next, recs[1..], DropShape(shape))
  {
    match shape
    case Straight =>
      ContigRest(buf, first, recs, next);
    case Wrapped(m, a) =>
      if a == 0 {
        assert recs[..0] == [] && recs[0..] == recs;
        assert Contig(buf, first, [], m);
        hide StoredAt, LenAt, UsedSize, Contig;
        ContigRest(buf, 0, recs, next);
      } else {
        assert recs[..a][1..] == recs[1..][..a - 1];
        assert recs[a..] == recs[1..][a - 1..];
        hide StoredAt, LenAt, UsedSize, Contig;
        ContigRest(buf, first, recs[..a], m);
      }
  }

  lemma DropPointer(buf: seq<byte>, first: nat, next: nat, recs: seq<Record>, shape: Shape, k: nat)
    requires Layout(buf, first, next, recs, shape) && 1 <= k <= |recs| && first + HEADER <= |buf|
    requires NextIdx(buf, first) == Pointer(first, recs, shape, 1)
    ensures Pointer(NextIdx(buf, first), recs[1..], DropShape(shape), k - 1) == Pointer(first, recs, shape, k)
  {
    assert recs[..k][1..] == recs[1..][..k - 1];
    assert recs[..1][1..] == [];
    assert Total(recs[..1]) == Size(recs[0]);
    match shape
    case Straight =>
    case Wrapped(m, a) =>
      if a == 0 {
        assert recs[0..k] == recs[..k];
        assert recs[0..1] == recs[..1];
      } else if k > a {
        assert recs[a..k] == recs[1..][a - 1..k - 1];
      }
  }

  // ---------------------------------------------------------------- storing a record

  lemma OverlayKeeps(buf: seq<byte>, i: nat, data: seq<byte>)
    requires i + |data| <= |buf|
    ensures Overlay(buf, i, data)[i..i + |data|] == data
    ensures forall k :: 0 <= k < |buf| && (k < i || i + |data| <= k) ==> Overlay(buf, i, data)[k] == buf[k]
  {
  }

  /** The pointers of retained records, and of the one being stored, survive the store. */
  ghost predicate PointersKept(first: nat, recs: seq<Record>, shape: Shape, r: Record, shape': Shape) {
    forall k :: 0 <= k <= |recs| ==> Pointer(first, recs + [r], shape', k) == Pointer(first, recs, shape, k)
  }

  /** Storing at the next index, in front of the first retained byte. */
  lemma StoreAhead(buf: seq<byte>, first: nat, next: nat, recs: seq<Record>, shape: Shape, r: Record)
    requires Layout(buf, first, next, recs, shape) && Storable(r) && Size(r) < 0x10000
    requires next + Size(r) + HEADER <= |buf|
    requires shape.Wrapped? ==> next + Size(r) + HEADER <= first
    ensures Layout(Overlay(buf, next, Encode(r)), first, next + Size(r), recs + [r], shape)
    ensures PointersKept(first, recs, shape, r, shape)
  {
    KeepPointers(first, recs, shape, r);
    OverlayKeeps(buf, next, Encode(r));
    hide Encode, UsedSize, Overlay, Contig, LenAt, PointersKept;
    var buf' := Overlay(buf, next, Encode(r));
    match shape
    case Straight =>
      ContigFrame(buf, buf', first, recs, next);
      ContigAppend(buf', first, recs, next, r);
    case Wrapped(m, a) =>
      LenFrame(buf, buf', m);
      ContigFrame(buf, buf', first, recs[..a], m);
      ContigFrame(buf, buf', 0, recs[a..], next);
      ContigAppend(buf', 0, recs[a..], next, r);
      assert (recs + [r])[..a] == recs[..a];
      assert (recs + [r])[a..] == recs[a..] + [r];
  }

  lemma LenFrame(buf: seq<byte>, buf': seq<byte>, m: nat)
    requires m + HEADER <= |buf| == |buf'|
    requires forall k :: m <= k < m + HEADER ==> buf'[k] == buf[k]
    ensures LenAt(buf', m) == LenAt(buf, m)
  {
  }

  lemma KeepPointers(first: nat, recs: seq<Record>, shape: Shape, r: Record)
    ensures PointersKept(first, recs, shape, r, shape)
  {
    forall k | 0 <= k <= |recs| ensures Pointer(first, recs + [r], shape, k) == Pointer(first, recs, shape, k) {
      assert (recs + [r])[..k] == recs[..k];
      if shape.Wrapped? && shape.tail < k {
        assert (recs + [r])[shape.tail..k] == recs[shape.tail..k];
      }
    }
  }

  lemma MarkerWritten(buf: seq<byte>, first: nat, next: nat, r: Record)
    requires Storable(r) && Size(r) + HEADER <= first <= next && next + HEADER <= |buf|
    ensures var buf' := Overlay(Overlay(buf, next, ZeroBytes(HEADER)), 0, Encode(r));
            && LenAt(buf', next) == 0 && buf'[0..Size(r)] == Encode(r)
            && (forall k :: first <= k < next ==> buf'[k] == buf[k])
  {
    var mid := Overlay(buf, next, ZeroBytes(HEADER));
    var buf' := Overlay(mid, 0, Encode(r));
    OverlayKeeps(buf, next, ZeroBytes(HEADER));
    OverlayKeeps(mid, 0, Encode(r));
    hide Encode, UsedSize, Overlay;
    assert buf'[next + 8] == mid[next..next + HEADER][8] && buf'[next + 9] == mid[next..next + HEADER][9];
  }

  /** Storing at index 0 behind a marker at the next index. */
  lemma StoreWrapped(buf: seq<byte>, first: nat, next: nat, recs: seq<Record>, r: Record)
    requires Layout(buf, first, next, recs, Straight) && Storable(r) && Size(r) < 0x10000
    requires Size(r) + HEADER <= first
    ensures Layout(Overlay(Overlay(buf, next, ZeroBytes(HEADER)), 0, Encode(r)), first, Size(r), recs + [r],
            Wrapped(next, |recs|))
    ensures PointersKept(first, recs, Straight, r, Wrapped(next, |recs|))
  {
    MarkerWritten(buf, first, next, r);
    var mid := Overlay(buf, next, ZeroBytes(HEADER));
    var buf' := Overlay(mid, 0, Encode(r));
    assert Contig(buf', 0, [], 0);
    hide Encode, UsedSize, Overlay, LenAt, Contig;
    ContigFrame(buf, buf', first, recs, next);
    assert (recs + [r])[..|recs|] == recs;
    assert (recs + [r])[|recs|..] == [r];
    ContigAppend(buf', 0, [], 0, r);
    assert [] + [r] == [r];
    forall k | 0 <= k <= |recs|
      ensures Pointer(first, recs + [r], Wrapped(next, |recs|), k) == Pointer(first, recs, Straight, k)
    {
      assert (recs + [r])[..k] == recs[..k];
    }
  }

  /** A store ahead of the retained records leaves them where they are, whatever its size. */
  lemma AheadKeeps(buf: seq<byte>, first: nat, next: nat, recs: seq<Record>, shape: Shape, data: seq<byte>)
    requires Layout(buf, first, next, recs, shape) && next + |data| <= |buf|
    requires shape.Wrapped? ==> next + |data| <= first
    ensures Layout(Overlay(buf, next, data), first, next, recs, shape)
  {
    OverlayKeeps(buf, next, data);
    hide Overlay, Contig, LenAt;
    var buf' := Overlay(buf, next, data);
    match shape
    case Straight =>
      ContigFrame(buf, buf', first, recs, next);
    case Wrapped(m, a) =>
      LenFrame(buf, buf', m);
      ContigFrame(buf, buf', first, recs[..a], m);
      ContigFrame(buf, buf', 0, recs[a..], next);
  }

  /** So does a store at the start of the buffer, behind a marker. */
  lemma WrappedKeeps(buf: seq<byte>, first: nat, next: nat, recs: seq<Record>, r: Record)
    requires Layout(buf, first, next, recs, Straight) && Storable(r) && Size(r) + HEADER <= first
    ensures Layout(Overlay(Overlay(buf, next, ZeroBytes(HEADER)), 0, Encode(r)), first, next, recs, Straight)
  {
    MarkerWritten(buf, first, next, r);
    hide Encode, UsedSize, Overlay, LenAt, Contig;
    ContigFrame(buf, Overlay(Overlay(buf, next, ZeroBytes(HEADER)), 0, Encode(r)), first, recs, next);
  }

  /** A record whose size does not fit the length field has no place in any layout. */
  lemma NoLayout(buf: seq<byte>, first: nat, next: nat, recs: seq<Record>, shape: Shape, k: nat)
    requires k < |recs| && Size(recs[k]) >= 0x10000
    ensures !Layout(buf, first, next, recs, shape)
  {
    if Layout(buf, first, next, recs, shape) {
      hide Contig, Size;
      match shape
      case Straight => ContigAt(buf, first, recs, next, k);
      case Wrapped(m, a) =>
        if k < a {
          ContigAt(buf, first, recs[..a], m, k);
        } else {
          ContigAt(buf, 0, recs[a..], next, k - a);
        }
    }
  }

  /** logbuf_has_space */
  predicate HasSpace(len: nat, first: nat, next: nat, size: nat, empty: bool) {
    if next > first || empty then len - next >= size + HEADER || first >= size + HEADER
    else first - next >= size + HEADER
  }

  /** What the test means: the record fits ahead, or it fits at the start of the buffer. */
  lemma SpaceMeans(buf: seq<byte>, first: nat, next: nat, recs: seq<Record>, shape: Shape, size: nat)
    requires Layout(buf, first, next, recs, shape)
    ensures shape.Wrapped? <==> !(next > first || recs == [])
    ensures HasSpace(|buf|, first, next, size, recs == []) <==>
              if shape.Wrapped? then next + size + HEADER <= first
              else next + size + HEADER <= |buf| || size + HEADER <= first
  {
    if shape.Straight? && recs != [] {
      ContigRest(buf, first, recs, next);
    }
  }
}
