/** Bytes and little-endian fields. */
module Bytes {
  type byte = x: int | 0 <= x < 256

  function PutU16(n: nat): (s: seq<byte>)
    requires n < 0x10000
    ensures |s| == 2
  {
    [n % 256, n / 256]
  }

  function GetU16(s: seq<byte>, i: nat): nat
    requires i + 2 <= |s|
  {
    s[i] as int + 256 * (s[i + 1] as int)
  }

  lemma U16RoundTrip(n: nat)
    requires n < 0x10000
    ensures GetU16(PutU16(n), 0) == n
  {
  }

  function PutU32(n: nat): (s: seq<byte>)
    requires n < 0x1_0000_0000
    ensures |s| == 4
  {
    PutU16(n % 0x10000) + PutU16(n / 0x10000)
  }

  function GetU32(s: seq<byte>, i: nat): nat
    requires i + 4 <= |s|
  {
    GetU16(s, i) + 0x10000 * GetU16(s, i + 2)
  }

  lemma U32RoundTrip(n: nat)
    requires n < 0x1_0000_0000
    ensures GetU32(PutU32(n), 0) == n
  {
    var lo, hi := n % 0x10000, n / 0x10000;
    U16RoundTrip(lo);
    U16RoundTrip(hi);
    var s := PutU32(n);
    assert s[0] == PutU16(lo)[0] && s[1] == PutU16(lo)[1] && s[2] == PutU16(hi)[0] && s[3] == PutU16(hi)[1];
  }

  function ZeroBytes(n: nat): (s: seq<byte>)
    ensures |s| == n
  {
    seq(n, _ => 0)
  }

  /** The buffer with data written over it from offset o on. */
  function Overlay(buf: seq<byte>, o: nat, data: seq<byte>): (r: seq<byte>)
    requires o + |data| <= |buf|
    ensures |r| == |buf|
  {
    buf[..o] + data + buf[o + |data|..]
  }

  lemma OverlayAt(buf: seq<byte>, o: nat, data: seq<byte>, i: nat)
    requires o + |data| <= |buf| && i < |buf|
    ensures Overlay(buf, o, data)[i] == if o <= i < o + |data| then data[i - o] else buf[i]
  {
  }
}
