/** The byte layout of one printk record (struct printk_log in kernel/printk.c). */
module LogRecord {
  import opened Bytes

  /** sizeof(struct printk_log): ts_nsec 8, len 2, text_len 2, dict_len 2, facility 1, flags and level 1. */
  const HEADER: nat := 16
  const LOG_ALIGN: nat := 4

  /** `ts` holds the eight bytes of the timestamp; flags has five bits and level three. */
  datatype Record = Record(ts: seq<byte>, facility: byte, flags: nat, level: nat, text: seq<byte>, dict: seq<byte>)

  ghost predicate Storable(r: Record) {
    |r.ts| == 8 && r.flags < 32 && r.level < 8 && |r.text| < 0x10000 && |r.dict| < 0x10000
  }

  /** msg_used_size */
  function UsedSize(textLen: nat, dictLen: nat): (s: nat)
    ensures s >= HEADER + textLen + dictLen && s % LOG_ALIGN == 0
    ensures s < HEADER + textLen + dictLen + LOG_ALIGN
  {
    var size := HEADER + textLen + dictLen;
    size + (LOG_ALIGN - size % LOG_ALIGN) % LOG_ALIGN
  }

  function Size(r: Record): (s: nat)
    ensures s >= HEADER
  {
    UsedSize(|r.text|, |r.dict|)
  }

  /** The stored bytes.  The length field has sixteen bits, so a longer record wraps it. */
  function Encode(r: Record): (s: seq<byte>)
    requires Storable(r)
    ensures |s| == Size(r)
  {
    EncodeHeader(r) + r.text + r.dict + ZeroBytes(Size(r) - HEADER - |r.text| - |r.dict|)
  }

  function EncodeHeader(r: Record): (s: seq<byte>)
    requires Storable(r)
    ensures |s| == HEADER
  {
    r.ts + PutU16(Size(r) % 0x10000) + PutU16(|r.text|) + PutU16(|r.dict|) + [r.facility, r.flags + 32 * r.level]
  }

  // The fields the readers use.

  function LenAt(buf: seq<byte>, i: nat): nat
    requires i + HEADER <= |buf|
  {
    GetU16(buf, i + 8)
  }

  function TextLenAt(buf: seq<byte>, i: nat): nat
    requires i + HEADER <= |buf|
  {
    GetU16(buf, i + 10)
  }

  function LevelAt(buf: seq<byte>, i: nat): nat
    requires i + HEADER <= |buf|
  {
    buf[i + 15] / 32
  }

  function FlagsAt(buf: seq<byte>, i: nat): nat
    requires i + HEADER <= |buf|
  {
    buf[i + 15] % 32
  }

  /** The bytes of `r` stand in the buffer from index i on. */
  ghost predicate StoredAt(buf: seq<byte>, i: nat, r: Record) {
    Storable(r) && i + Size(r) <= |buf| && buf[i..i + Size(r)] == Encode(r)
  }

  /** Reading a stored record gives its fields back. */
  lemma ReadBack(buf: seq<byte>, i: nat, r: Record)
    requires StoredAt(buf, i, r)
    ensures LenAt(buf, i) == Size(r) % 0x10000
    ensures TextLenAt(buf, i) == |r.text|
    ensures LevelAt(buf, i) == r.level && FlagsAt(buf, i) == r.flags
    ensures buf[i..i + 8] == r.ts
    ensures buf[i + HEADER..i + HEADER + |r.text|] == r.text
  {
    var e, h := Encode(r), EncodeHeader(r);
    assert forall k :: 0 <= k < |e| ==> buf[i + k] == e[k];
    assert forall k :: 0 <= k < HEADER ==> e[k] == h[k];
    assert h[8..10] == PutU16(Size(r) % 0x10000) && h[10..12] == PutU16(|r.text|);
    assert h[8] == h[8..10][0] && h[9] == h[8..10][1] && h[10] == h[10..12][0] && h[11] == h[10..12][1];
    assert h[15] == r.flags + 32 * r.level;
    forall k | 0 <= k < 8 ensures buf[i + k] == r.ts[k] {
      assert h[k] == r.ts[k];
    }
    forall k | 0 <= k < |r.text| ensures buf[i + HEADER + k] == r.text[k] {
      assert e[HEADER + k] == r.text[k];
    }
  }
}
