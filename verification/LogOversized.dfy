/**
 Records whose padded size does not fit the sixteen-bit length field (kernel/printk.c). vprintk_emit lets dictionaries
 of up to 65535 bytes through, so there are such records.
 */
module LogOversized {
  import opened Bytes
  import opened LogRecord
  import opened LogLayout
  import opened LogRing

  /** What the length field holds. */
  function Field(r: Record): nat { Size(r) % 0x10000 }

  /** The length field is the size of the record if and only if that is below 2^16. */
  lemma LengthFieldFaithful(buf: seq<byte>, i: nat, r: Record)
    requires StoredAt(buf, i, r)
    ensures i + HEADER <= |buf| && (LenAt(buf, i) == Size(r) <==> Size(r) < 0x10000)
  {
    ReadBack(buf, i, r);
  }

  /** Behind an oversized record the next header lies inside it. */
  lemma NextInside(r: Record)
    requires Size(r) >= 0x10000
    ensures Field(r) + HEADER <= Size(r) && Field(r) % LOG_ALIGN == 0
  {
  }

  /** Until the next store a record is found at its index, unless the field is 0: that reads as the wrap marker. */
  lemma ReadOnce(buf: seq<byte>, i: nat, r: Record)
    requires StoredAt(buf, i, r)
    ensures i + HEADER <= |buf|
    ensures FromIdx(buf, i) == if Field(r) == 0 then 0 else i
    ensures NextIdx(buf, i) == if Field(r) == 0 then LenAt(buf, 0) else i + Field(r)
    ensures Field(r) != 0 ==> Readable(buf, i) && ReadView(buf, i) == ViewOf(r)
  {
    ReadBack(buf, i, r);
    ReadViewOf(buf, i, r);
  }

  /** The buffer after the next store, which starts where the length field ends. */
  function Overwritten(buf: seq<byte>, i: nat, r: Record, q: Record): seq<byte>
    requires Storable(q) && i + Field(r) + Size(q) <= |buf|
  {
    Overlay(buf, i + Field(r), Encode(q))
  }

  /** A reader that holds the index of r still gets r after q has been stored. */
  ghost predicate Survives(buf: seq<byte>, i: nat, r: Record, q: Record)
    requires Storable(q) && i + Field(r) + Size(q) <= |buf| && i + HEADER <= |buf|
  {
    var after := Overwritten(buf, i, r, q);
    Readable(after, FromIdx(after, i)) && ReadView(after, FromIdx(after, i)) == ViewOf(r)
  }

  /** An oversized record survives every next store if and only if its text ends before the field does. */
  lemma TextSurvives(buf: seq<byte>, i: nat, r: Record)
    requires StoredAt(buf, i, r) && Size(r) >= 0x10000
    ensures (forall q :: Storable(q) && i + Field(r) + Size(q) <= |buf| ==> Survives(buf, i, r, q)) <==>
            HEADER + |r.text| <= Field(r)
  {
    hide Survives, Size, StoredAt, Storable;
    if HEADER + |r.text| <= Field(r) {
      forall q | Storable(q) && i + Field(r) + Size(q) <= |buf| ensures Survives(buf, i, r, q) {
        Untouched(buf, i, r, q);
      }
    } else {
      NextInside(r);
      ReadBack(buf, i, r);
      Fits(buf, i, r);
      var q := Witness(r);
      WitnessWrites(buf, i, r);
      assert !Survives(buf, i, r, q);
    }
  }

  lemma Fits(buf: seq<byte>, i: nat, r: Record)
    requires StoredAt(buf, i, r)
    ensures i + Size(r) <= |buf| && Storable(r)
  {
  }

  lemma Untouched(buf: seq<byte>, i: nat, r: Record, q: Record)
    requires StoredAt(buf, i, r) && Storable(q) && i + Field(r) + Size(q) <= |buf|
    requires HEADER + |r.text| <= Field(r)
    ensures Survives(buf, i, r, q)
  {
    ReadBack(buf, i, r);
    ReadViewOf(buf, i, r);
    var after := Overwritten(buf, i, r, q);
    OverlayKeeps(buf, i + Field(r), Encode(q));
    hide Encode, Overlay, Size, ViewOf, StoredAt;
    var end := i + HEADER + |r.text|;
    assert after[i..i + 8] == buf[i..i + 8];
    assert after[i + HEADER..end] == buf[i + HEADER..end];
    assert forall k :: i <= k < i + HEADER ==> after[k] == buf[k];
  }

  /** A byte that differs. */
  function Other(b: byte): byte { if b == 0 then 1 else 0 }

  /** A record without text whose timestamp spoils r, wherever in r it comes to lie. */
  function Witness(r: Record): (q: Record)
    requires Storable(r) && Field(r) < HEADER + |r.text|
    ensures |q.ts| == 8 && q.text == [] && q.dict == [] && q.facility == q.flags == q.level == 0
  {
    var other := 32 * ((r.level + 1) % 8);
    var ts: seq<byte> :=
      if Field(r) == 12 then [0, 0, 0, other, 0, 0, 0, 0]
      else if Field(r) == 8 then [1, 0, 0, 0, 0, 0, 0, other]
      else if Field(r) == 4 then [Other(r.ts[4]), 0, 0, 0, 1, 0, 0, 0]
      else if Field(r) == 0 then [Other(r.ts[0]), 0, 0, 0, 0, 0, 0, 0]
      else if Field(r) >= HEADER then [Other(r.text[Field(r) - HEADER]), 0, 0, 0, 0, 0, 0, 0]
      else [0, 0, 0, 0, 0, 0, 0, 0];
    Record(ts, 0, 0, 0, [], [])
  }

  /** The bytes of a record without text. */
  lemma EncodeEmpty(q: Record)
    requires |q.ts| == 8 && q.text == [] && q.dict == [] && q.facility == q.flags == q.level == 0
    ensures Storable(q) && Size(q) == HEADER
    ensures Encode(q) == q.ts + [16, 0, 0, 0, 0, 0, 0, 0]
  {
  }

  lemma WitnessWrites(buf: seq<byte>, i: nat, r: Record)
    requires Storable(r) && i + Size(r) <= |buf| && StoredAt(buf, i, r)
    requires Field(r) < HEADER + |r.text| && Field(r) + HEADER <= Size(r) && Field(r) % LOG_ALIGN == 0
    ensures Storable(Witness(r)) && i + HEADER <= |buf| && i + Field(r) + Size(Witness(r)) <= |buf|
    ensures !Survives(buf, i, r, Witness(r))
  {
    var q := Witness(r);
    EncodeEmpty(q);
    ReadBack(buf, i, r);
    var e, after := Encode(q), Overwritten(buf, i, r, q);
    OverlayKeeps(buf, i + Field(r), e);
    hide Encode, Overlay, StoredAt;
    assert forall k :: 0 <= k < HEADER ==> after[i + Field(r)..i + Field(r) + HEADER][k] == e[k];
    assert forall k :: 0 <= k < HEADER ==> after[i + Field(r) + k] == e[k];
    if Field(r) >= HEADER {
      TextSpoiled(buf, after, i, r);
    } else {
      HeaderSpoiled(buf, after, i, r, e);
    }
  }

  lemma TextSpoiled(buf: seq<byte>, after: seq<byte>, i: nat, r: Record)
    requires i + HEADER + |r.text| <= |buf| == |after| && HEADER <= Field(r) < HEADER + |r.text|
    requires LenAt(buf, i) == Field(r) && TextLenAt(buf, i) == |r.text|
    requires forall k :: 0 <= k < |buf| && k < i + Field(r) ==> after[k] == buf[k]
    requires after[i + Field(r)] != r.text[Field(r) - HEADER]
    ensures FromIdx(after, i) == i && Readable(after, i) && ReadView(after, i) != ViewOf(r)
  {
    hide Size;
    assert ReadView(after, i).text[Field(r) - HEADER] == after[i + Field(r)];
  }

  lemma HeaderSpoiled(buf: seq<byte>, after: seq<byte>, i: nat, r: Record, e: seq<byte>)
    requires Storable(r) && i + HEADER + |r.text| <= |buf| == |after| && Field(r) < HEADER && Field(r) % LOG_ALIGN == 0
    requires i + Field(r) + HEADER <= |buf| && |e| == HEADER && e == Witness(r).ts + [16, 0, 0, 0, 0, 0, 0, 0]
    requires LenAt(buf, i) == Field(r) && TextLenAt(buf, i) == |r.text| && buf[i..i + 8] == r.ts
    requires forall k :: 0 <= k < |buf| && k < i + Field(r) ==> after[k] == buf[k]
    requires forall k :: 0 <= k < HEADER ==> after[i + Field(r) + k] == e[k]
    ensures FromIdx(after, i) == i && Readable(after, i) && ReadView(after, i) != ViewOf(r)
  {
    hide Size;
    var n, v := Field(r), ViewOf(r);
    assert forall k :: 0 <= k < HEADER - n ==> after[i + n + k] == e[k];
    assert n == 0 || n == 4 || n == 8 || n == 12;
    if n == 0 {
      assert after[i] == e[0] && after[i + 8] == e[8] && after[i + 10] == e[10] && after[i + 11] == e[11];
      assert ReadView(after, i).ts[0] == after[i];
    } else if n == 4 {
      assert after[i + 4] == e[0] && after[i + 8] == e[4] && after[i + 10] == e[6] && after[i + 11] == e[7];
      assert ReadView(after, i).ts[4] == after[i + 4];
    } else if n == 8 {
      assert after[i + 8] == e[0] && after[i + 10] == e[2] && after[i + 11] == e[3] && after[i + 15] == e[7];
    } else {
      assert after[i + 15] == e[3];
      assert after[i + 8] == buf[i + 8] && after[i + 9] == buf[i + 9];
      assert after[i + 10] == buf[i + 10] && after[i + 11] == buf[i + 11];
    }
  }

  const LOG_BUF_LEN: nat := 0x40000

  /** A store behind an oversized record in a new ring of the kernel's size writes over it, as in Overwritten. */
  method StoreTwice(r: Record, q: Record) returns (ring: Ring, ghost buf: seq<byte>)
    requires Storable(r) && TextFits(r) && 0x10000 <= Size(r) && 2 * (Size(r) + HEADER) <= LOG_BUF_LEN
    requires Field(r) != 0 && Storable(q) && Size(q) <= 0x10000
    ensures fresh(ring) && ring.buf.Length == LOG_BUF_LEN && ring.firstSeq == 0 && ring.nextSeq == 2
    ensures StoredAt(buf, 0, r) && Field(r) + Size(q) <= |buf| && ring.buf[..] == Overwritten(buf, 0, r, q)
  {
    hide Encode, Layout, Overlay, StoredAt, Size, Storable, TextFits, HasSpace, Truncated;
    ring := new Ring(LOG_BUF_LEN);
    var n, at := ring.Store(r);
    ghost var rest := ring.log[ring.firstSeq..|ring.log| - 1];
    assert |rest| == 0;
    FirstIs(ring.buf[..], ring.firstIdx, rest, ring.shape);
    // The second log_store: there is space, so nothing is dropped before the record is written.
    SpaceBehind(ring.nextIdx, Size(q));
    assert HasSpace(ring.buf.Length, ring.firstIdx, ring.nextIdx, Size(q), false);
    buf := ring.buf[..];
    var second := ring.WriteRecord(q);
  }

  lemma FirstIs(buf: seq<byte>, first: nat, recs: seq<Record>, shape: Shape)
    requires Layout(buf, first, 0, recs, shape) && |recs| == 0
    ensures first == 0
  {
  }

  lemma SpaceBehind(next: nat, size: nat)
    requires 0 < next < 0x10000 && size <= 0x10000
    ensures HasSpace(LOG_BUF_LEN, 0, next, size, false)
  {
  }

  /** Sixteen bytes of text and a dictionary of 65520. */
  function LongRecord(): (r: Record)
    ensures Storable(r) && TextFits(r) && Size(r) == 0x10010 && |r.text| == 16 && r.text[0] == 65
  {
    Record(ZeroBytes(8), 0, 0, 0, seq(16, _ => 65), ZeroBytes(0xFFF0))
  }

  /** Its text begins where the next record is written: one without text and with timestamp 0 changes it. */
  lemma LongRecordLost(buf: seq<byte>, i: nat, r: Record, q: Record)
    requires r == LongRecord() && q == Record(ZeroBytes(8), 0, 0, 0, [], []) && StoredAt(buf, i, r)
    ensures Field(r) == HEADER && Storable(q) && i + HEADER <= |buf| && i + Field(r) + Size(q) <= |buf|
    ensures !Survives(buf, i, r, q)
  {
    hide LongRecord, StoredAt, Survives, Size, Storable, Encode;
    Fits(buf, i, r);
    NextInside(r);
    EncodeEmpty(q);
    assert Witness(r).ts == ZeroBytes(8);
    WitnessWrites(buf, i, r);
  }
}
