/**
 The bytes of a directory page (fs/ext2/ext2_dir.c): entries of an inode number, a record length, a name
 length, a file type and the name; each record length leads to the next entry.
 */
module DirPage {
  import opened Arithmetic
  import opened Bytes

  const HEADER: nat := 8

  datatype Entry = Entry(off: nat, inode: nat, rec: nat, kind: byte, name: seq<byte>) {
    predicate Used() { inode != 0 }
  }

  /** EXT2_DIR_REC_LEN: the space of an entry with a name of n bytes. */
  function RecLen(n: nat): (r: nat)
    ensures HEADER + n <= r < HEADER + n + 4 && r % 4 == 0
  {
    AlignFacts(n + HEADER, 4);
    AlignUp(n + HEADER, 4)
  }

  function InodeAt(p: seq<byte>, o: nat): nat
    requires o + HEADER <= |p|
  {
    GetU32(p, o)
  }

  function RecAt(p: seq<byte>, o: nat): nat
    requires o + HEADER <= |p|
  {
    GetU16(p, o + 4)
  }

  function NameLenAt(p: seq<byte>, o: nat): nat
    requires o + HEADER <= |p|
  {
    p[o + 6]
  }

  function KindAt(p: seq<byte>, o: nat): byte
    requires o + HEADER <= |p|
  {
    p[o + 7]
  }

  /** A whole entry that ends at or before `end`, with room for its name if it is in use. */
  predicate EntryOk(p: seq<byte>, o: nat, end: nat) {
    && o + HEADER <= end <= |p| && HEADER <= RecAt(p, o) && o + RecAt(p, o) <= end
    && (InodeAt(p, o) != 0 ==> RecLen(NameLenAt(p, o)) <= RecAt(p, o))
  }

  function EntryAt(p: seq<byte>, o: nat): Entry
    requires EntryOk(p, o, |p|)
  {
    if InodeAt(p, o) == 0 then Entry(o, 0, RecAt(p, o), 0, [])
    else Entry(o, InodeAt(p, o), RecAt(p, o), KindAt(p, o), p[o + HEADER..o + HEADER + NameLenAt(p, o)])
  }

  /** Entries fill the bytes from o to end exactly. */
  ghost predicate ChainOk(p: seq<byte>, o: nat, end: nat)
    decreases end - o
  {
    && o <= end <= |p|
    && (o == end || (EntryOk(p, o, end) && ChainOk(p, o + RecAt(p, o), end)))
  }

  ghost function Chain(p: seq<byte>, o: nat, end: nat): seq<Entry>
    requires ChainOk(p, o, end)
    decreases end - o
  {
    if o == end then [] else [EntryAt(p, o)] + Chain(p, o + RecAt(p, o), end)
  }

  datatype Pair = Pair(name: seq<byte>, inode: nat)

  /** The names the entries in use bind. */
  ghost function Pairs(chain: seq<Entry>): seq<Pair> {
    if chain == [] then []
    else Pairs(chain[..|chain| - 1]) + PairsOf(chain[|chain| - 1])
  }

  ghost function PairsOf(e: Entry): seq<Pair> {
    if e.Used() then [Pair(e.name, e.inode)] else []
  }

  lemma {:induction false} PairsJoin(a: seq<Entry>, b: seq<Entry>)
    ensures Pairs(a + b) == Pairs(a) + Pairs(b)
    decreases |b|
  {
    hide PairsOf;
    if b == [] {
      assert a + b == a;
    } else {
      var n := |b| - 1;
      PairsJoin(a, b[..n]);
      assert (a + b)[..|a + b| - 1] == a + b[..n];
      assert (a + b)[|a + b| - 1] == b[n];
      assert Pairs(a + b) == Pairs(a + b[..n]) + PairsOf(b[n]);
    }
  }

  lemma PairsOne(e: Entry)
    ensures Pairs([e]) == PairsOf(e)
  {
    assert [e][..0] == [];
  }

  lemma PairsTwo(e: Entry, f: Entry)
    ensures Pairs([e, f]) == PairsOf(e) + PairsOf(f)
  {
    PairsOne(e);
    PairsOne(f);
    PairsJoin([e], [f]);
    assert [e] + [f] == [e, f];
  }

  /** No pair has the name. */
  ghost predicate Absent(ps: seq<Pair>, name: seq<byte>) {
    forall i :: 0 <= i < |ps| ==> ps[i].name != name
  }

  // ---------------------------------------------------------------- reading

  ghost predicate SameBytes(p: seq<byte>, p': seq<byte>, o: nat, end: nat) {
    |p'| == |p| && end <= |p| && forall i :: o <= i < end ==> p'[i] == p[i]
  }

  lemma EntrySame(p: seq<byte>, p': seq<byte>, o: nat, end: nat)
    requires EntryOk(p, o, end) && SameBytes(p, p', o, o + RecAt(p, o))
    ensures EntryOk(p', o, end) && EntryAt(p', o) == EntryAt(p, o)
  {
    assert forall i :: o <= i < o + HEADER ==> p'[i] == p[i];
    if InodeAt(p, o) != 0 {
      var n := NameLenAt(p, o);
      assert p'[o + HEADER..o + HEADER + n] == p[o + HEADER..o + HEADER + n];
    }
  }

  lemma {:induction false} ChainSame(p: seq<byte>, p': seq<byte>, o: nat, end: nat)
    requires ChainOk(p, o, end) && SameBytes(p, p', o, end)
    ensures ChainOk(p', o, end) && Chain(p', o, end) == Chain(p, o, end)
    decreases end - o
  {
    if o < end {
      EntrySame(p, p', o, end);
      ChainSame(p, p', o + RecAt(p, o), end);
    }
  }

  /** Chains join where one ends and the next begins. */
  lemma {:induction false} ChainJoin(p: seq<byte>, o: nat, mid: nat, end: nat)
    requires ChainOk(p, o, mid) && ChainOk(p, mid, end)
    ensures ChainOk(p, o, end) && Chain(p, o, end) == Chain(p, o, mid) + Chain(p, mid, end)
    decreases mid - o
  {
    hide Chain, ChainOk, EntryOk, EntryAt;
    ChainBounds(p, o, mid);
    ChainBounds(p, mid, end);
    if o < mid {
      ChainHead(p, o, mid);
      EntryMore(p, o, mid, end);
      ChainJoin(p, o + RecAt(p, o), mid, end);
      ChainCons(p, o, end);
    } else {
      ChainNil(p, o);
    }
  }

  lemma ChainBounds(p: seq<byte>, o: nat, end: nat)
    requires ChainOk(p, o, end)
    ensures o <= end <= |p|
  {
  }

  lemma EntryMore(p: seq<byte>, o: nat, mid: nat, end: nat)
    requires EntryOk(p, o, mid) && mid <= end <= |p|
    ensures o + HEADER <= |p| && EntryOk(p, o, end) && o < o + RecAt(p, o) <= mid
  {
  }

  lemma ChainCons(p: seq<byte>, o: nat, end: nat)
    requires o + HEADER <= |p| && EntryOk(p, o, end) && ChainOk(p, o + RecAt(p, o), end)
    ensures EntryOk(p, o, |p|) && ChainOk(p, o, end)
            && Chain(p, o, end) == [EntryAt(p, o)] + Chain(p, o + RecAt(p, o), end)
  {
  }

  lemma ChainNil(p: seq<byte>, o: nat)
    requires o <= |p|
    ensures ChainOk(p, o, o) && Chain(p, o, o) == []
  {
  }

  lemma ChainOne(p: seq<byte>, o: nat)
    requires EntryOk(p, o, |p|)
    ensures ChainOk(p, o, o + RecAt(p, o)) && Chain(p, o, o + RecAt(p, o)) == [EntryAt(p, o)]
  {
    assert ChainOk(p, o + RecAt(p, o), o + RecAt(p, o));
    assert Chain(p, o + RecAt(p, o), o + RecAt(p, o)) == [];
  }

  /** A chain with the entry at o in the middle. */
  lemma ChainAt(p: seq<byte>, o: nat, end: nat)
    requires ChainOk(p, 0, o) && ChainOk(p, o, end) && o < end
    ensures ChainOk(p, 0, end) && EntryOk(p, o, end) && ChainOk(p, o + RecAt(p, o), end)
    ensures ChainOk(p, 0, o + RecAt(p, o)) && Chain(p, 0, o + RecAt(p, o)) == Chain(p, 0, o) + [EntryAt(p, o)]
    ensures Chain(p, 0, end) == Chain(p, 0, o) + [EntryAt(p, o)] + Chain(p, o + RecAt(p, o), end)
  {
    hide Chain, ChainOk, EntryOk, EntryAt;
    ChainHead(p, o, end);
    ChainJoin(p, 0, o, end);
    ChainOne(p, o);
    ChainJoin(p, 0, o, o + RecAt(p, o));
  }

  lemma ChainHead(p: seq<byte>, o: nat, end: nat)
    requires ChainOk(p, o, end) && o < end
    ensures o + HEADER <= |p| && EntryOk(p, o, end) && EntryOk(p, o, |p|) && ChainOk(p, o + RecAt(p, o), end)
    ensures Chain(p, o, end) == [EntryAt(p, o)] + Chain(p, o + RecAt(p, o), end)
  {
  }

  // ---------------------------------------------------------------- writing

  function SetRec(p: seq<byte>, o: nat, rec: nat): (r: seq<byte>)
    requires o + HEADER <= |p| && rec < 0x10000
    ensures |r| == |p|
  {
    Overlay(p, o + 4, PutU16(rec))
  }

  function SetInode(p: seq<byte>, o: nat, ino: nat): (r: seq<byte>)
    requires o + HEADER <= |p| && ino < 0x1_0000_0000
    ensures |r| == |p|
  {
    Overlay(p, o, PutU32(ino))
  }

  /** ext2_init_dir_entry */
  function InitEntry(p: seq<byte>, o: nat, ino: nat, rec: nat, kind: byte, name: seq<byte>): (r: seq<byte>)
    requires o + HEADER + |name| <= |p| && ino < 0x1_0000_0000 && rec < 0x10000 && |name| < 256
    ensures |r| == |p|
  {
    Overlay(p, o, PutU32(ino) + PutU16(rec) + [|name|, kind] + name)
  }

  lemma SetRecReads(p: seq<byte>, o: nat, rec: nat)
    requires o + HEADER <= |p| && rec < 0x10000
    ensures
      var p' := SetRec(p, o, rec);
      && RecAt(p', o) == rec && InodeAt(p', o) == InodeAt(p, o) && NameLenAt(p', o) == NameLenAt(p, o)
      && SameBytes(p, p', 0, o) && SameBytes(p, p', o + 6, |p|)
  {
    var p' := SetRec(p, o, rec);
    U16RoundTrip(rec);
    forall i | 0 <= i < |p| ensures p'[i] == if o + 4 <= i < o + 6 then PutU16(rec)[i - o - 4] else p[i] {
      OverlayAt(p, o + 4, PutU16(rec), i);
    }
  }

  lemma SetInodeReads(p: seq<byte>, o: nat, ino: nat)
    requires o + HEADER <= |p| && ino < 0x1_0000_0000
    ensures
      var p' := SetInode(p, o, ino);
      InodeAt(p', o) == ino && RecAt(p', o) == RecAt(p, o) && SameBytes(p, p', 0, o) && SameBytes(p, p', o + 4, |p|)
  {
    var p' := SetInode(p, o, ino);
    U32RoundTrip(ino);
    forall i | 0 <= i < |p| ensures p'[i] == if o <= i < o + 4 then PutU32(ino)[i - o] else p[i] {
      OverlayAt(p, o, PutU32(ino), i);
    }
  }

  lemma InitReads(p: seq<byte>, o: nat, ino: nat, rec: nat, kind: byte, name: seq<byte>)
    requires o + HEADER + |name| <= |p| && ino < 0x1_0000_0000 && rec < 0x10000 && |name| < 256
    ensures
      var p' := InitEntry(p, o, ino, rec, kind, name);
      && RecAt(p', o) == rec && InodeAt(p', o) == ino && NameLenAt(p', o) == |name| && KindAt(p', o) == kind
      && p'[o + HEADER..o + HEADER + |name|] == name
      && SameBytes(p, p', 0, o) && SameBytes(p, p', o + HEADER + |name|, |p|)
  {
    var data := PutU32(ino) + PutU16(rec) + [|name|, kind] + name;
    var p' := InitEntry(p, o, ino, rec, kind, name);
    U32RoundTrip(ino);
    U16RoundTrip(rec);
    forall i | 0 <= i < |p| ensures p'[i] == if o <= i < o + |data| then data[i - o] else p[i] {
      OverlayAt(p, o, data, i);
    }
    assert forall k :: 0 <= k < 4 ==> p'[o + k] == PutU32(ino)[k];
    assert p'[o + 4] == PutU16(rec)[0] && p'[o + 5] == PutU16(rec)[1] && p'[o + 6] == |name| && p'[o + 7] == kind;
    assert forall k :: 0 <= k < |name| ==> data[HEADER + k] == name[k];
  }

  // ---------------------------------------------------------------- what the directory operations write

  /** The entries `was` between o and next have become `is`; the entries around them are the same. */
  ghost predicate Became(p: seq<byte>, p': seq<byte>, o: nat, next: nat, end: nat, was: seq<Entry>, is': seq<Entry>) {
    && ChainOk(p, 0, o) && ChainOk(p, next, end) && ChainOk(p, 0, end) && ChainOk(p', 0, end)
    && Chain(p, 0, end) == Chain(p, 0, o) + was + Chain(p, next, end)
    && Chain(p', 0, end) == Chain(p, 0, o) + is' + Chain(p, next, end)
  }

  /** A free entry with room for a name. */
  predicate CanFill(p: seq<byte>, o: nat, name: seq<byte>) {
    && EntryOk(p, o, |p|) && InodeAt(p, o) == 0 && RecLen(|name|) <= RecAt(p, o) && |name| < 256
  }

  function FillPage(p: seq<byte>, o: nat, ino: nat, kind: byte, name: seq<byte>): seq<byte>
    requires CanFill(p, o, name) && 0 < ino < 0x1_0000_0000
  {
    RecBound(p, o);
    InitEntry(p, o, ino, RecAt(p, o), kind, name)
  }

  lemma RecBound(p: seq<byte>, o: nat)
    requires o + HEADER <= |p|
    ensures RecAt(p, o) < 0x10000
  {
  }

  /** A free entry becomes the new one. */
  lemma FillEntry(p: seq<byte>, o: nat, end: nat, ino: nat, kind: byte, name: seq<byte>)
    requires ChainOk(p, 0, o) && ChainOk(p, o, end) && o < end && CanFill(p, o, name) && 0 < ino < 0x1_0000_0000
    ensures Became(p, FillPage(p, o, ino, kind, name), o, o + RecAt(p, o), end,
                   [EntryAt(p, o)], [Entry(o, ino, RecAt(p, o), kind, name)])
  {
    hide Chain, ChainOk, InitEntry;
    var rec := RecAt(p, o);
    var p' := FillPage(p, o, ino, kind, name);
    RecBound(p, o);
    ChainAt(p, o, end);
    InitReads(p, o, ino, rec, kind, name);
    Replaced(p, p', o, o + rec, end);
    OneEntry(p', o, o + rec, end);
  }

  /** The parts of a chain before and after some bytes that change. */
  lemma Replaced(p: seq<byte>, p': seq<byte>, o: nat, next: nat, end: nat)
    requires ChainOk(p, 0, o) && ChainOk(p, next, end) && o <= next
    requires SameBytes(p, p', 0, o) && SameBytes(p, p', next, |p|)
    ensures ChainOk(p', 0, o) && Chain(p', 0, o) == Chain(p, 0, o)
    ensures ChainOk(p', next, end) && Chain(p', next, end) == Chain(p, next, end)
  {
    ChainBounds(p, next, end);
    ChainSame(p, p', 0, o);
    ChainSame(p, p', next, end);
  }

  /** An entry in use with room for a second one behind its name. */
  predicate CanSplit(p: seq<byte>, o: nat, name: seq<byte>) {
    && EntryOk(p, o, |p|) && InodeAt(p, o) != 0 && |name| < 256
    && RecLen(NameLenAt(p, o)) + RecLen(|name|) <= RecAt(p, o)
  }

  function SplitPage(p: seq<byte>, o: nat, ino: nat, kind: byte, name: seq<byte>): seq<byte>
    requires CanSplit(p, o, name) && 0 < ino < 0x1_0000_0000
  {
    RecBound(p, o);
    var keep := RecLen(NameLenAt(p, o));
    InitEntry(SetRec(p, o, keep), o + keep, ino, RecAt(p, o) - keep, kind, name)
  }

  /** An entry in use gives up the space behind its name. */
  lemma SplitEntry(p: seq<byte>, o: nat, end: nat, ino: nat, kind: byte, name: seq<byte>)
    requires ChainOk(p, 0, o) && ChainOk(p, o, end) && o < end && CanSplit(p, o, name) && 0 < ino < 0x1_0000_0000
    ensures
      var rec, keep := RecAt(p, o), RecLen(NameLenAt(p, o));
      Became(p, SplitPage(p, o, ino, kind, name), o, o + rec, end,
             [EntryAt(p, o)], [EntryAt(p, o).(rec := keep), Entry(o + keep, ino, rec - keep, kind, name)])
  {
    hide Chain, ChainOk, SplitPage, EntryAt;
    var rec, keep := RecAt(p, o), RecLen(NameLenAt(p, o));
    var p' := SplitPage(p, o, ino, kind, name);
    ChainAt(p, o, end);
    SplitBytes(p, o, ino, kind, name);
    Replaced(p, p', o, o + rec, end);
    TwoEntries(p', o, o + keep, o + rec, end);
  }

  lemma SplitBytes(p: seq<byte>, o: nat, ino: nat, kind: byte, name: seq<byte>)
    requires CanSplit(p, o, name) && 0 < ino < 0x1_0000_0000
    ensures
      var rec, keep := RecAt(p, o), RecLen(NameLenAt(p, o));
      var p' := SplitPage(p, o, ino, kind, name);
      && |p'| == |p|
      && SameBytes(p, p', 0, o) && SameBytes(p, p', o + rec, |p|)
      && EntryOk(p', o, |p'|) && EntryAt(p', o) == EntryAt(p, o).(rec := keep)
      && EntryOk(p', o + keep, |p'|) && EntryAt(p', o + keep) == Entry(o + keep, ino, rec - keep, kind, name)
      && RecAt(p', o) == keep && RecAt(p', o + keep) == rec - keep
  {
    hide InitEntry, SetRec, RecLen;
    RecBound(p, o);
    var rec, keep := RecAt(p, o), RecLen(NameLenAt(p, o));
    SetRecReads(p, o, keep);
    var q := SetRec(p, o, keep);
    var p' := InitEntry(q, o + keep, ino, rec - keep, kind, name);
    InitReads(q, o + keep, ino, rec - keep, kind, name);
    Shortened(p, q, o, keep);
    EntrySame(q, p', o, |p|);
  }

  /** Two entries between two chains. */
  lemma TwoEntries(p: seq<byte>, o: nat, mid: nat, next: nat, end: nat)
    requires ChainOk(p, 0, o) && EntryOk(p, o, |p|) && mid == o + RecAt(p, o)
    requires EntryOk(p, mid, |p|) && next == mid + RecAt(p, mid) && ChainOk(p, next, end)
    ensures ChainOk(p, 0, end)
    ensures Chain(p, 0, end) == Chain(p, 0, o) + [EntryAt(p, o), EntryAt(p, mid)] + Chain(p, next, end)
  {
    hide Chain, ChainOk, EntryAt;
    ChainOne(p, o);
    ChainOne(p, mid);
    ChainJoin(p, 0, o, mid);
    ChainJoin(p, 0, mid, next);
    ChainJoin(p, 0, next, end);
  }

  lemma Shortened(p: seq<byte>, q: seq<byte>, o: nat, rec: nat)
    requires EntryOk(p, o, |p|) && |q| == |p| && o + rec <= |p| && InodeAt(p, o) != 0
    requires RecAt(q, o) == rec && InodeAt(q, o) == InodeAt(p, o) && NameLenAt(q, o) == NameLenAt(p, o)
    requires SameBytes(p, q, o + 6, |p|) && RecLen(NameLenAt(p, o)) <= rec
    ensures EntryOk(q, o, |q|) && EntryAt(q, o) == EntryAt(p, o).(rec := rec)
  {
    var n := NameLenAt(p, o);
    assert q[o + HEADER..o + HEADER + n] == p[o + HEADER..o + HEADER + n];
  }

  /** An entry takes over the space of the next one. */
  lemma MergeEntry(p: seq<byte>, q: nat, o: nat, end: nat)
    requires ChainOk(p, 0, q) && ChainOk(p, q, end) && q < end && q + HEADER <= |p| && o == q + RecAt(p, q) && o < end
    requires o + HEADER <= |p| && RecAt(p, q) + RecAt(p, o) < 0x10000
    ensures EntryOk(p, q, |p|) && EntryOk(p, o, |p|)
    ensures Became(p, SetRec(p, q, RecAt(p, q) + RecAt(p, o)), q, o + RecAt(p, o), end,
                   [EntryAt(p, q), EntryAt(p, o)], [EntryAt(p, q).(rec := RecAt(p, q) + RecAt(p, o))])
  {
    hide Chain, ChainOk, SetRec, EntryOk, EntryAt, RecLen;
    ChainHead(p, q, end);
    ChainHead(p, o, end);
    var next, sum := o + RecAt(p, o), RecAt(p, q) + RecAt(p, o);
    var p' := SetRec(p, q, sum);
    TwoEntries(p, q, o, next, end);
    ChainBounds(p, next, end);
    MergeBytes(p, q, sum, next);
    Replaced(p, p', q, next, end);
    OneEntry(p', q, next, end);
  }

  lemma MergeBytes(p: seq<byte>, q: nat, sum: nat, next: nat)
    requires EntryOk(p, q, |p|) && RecAt(p, q) <= sum < 0x10000 && next == q + sum <= |p|
    ensures
      var p' := SetRec(p, q, sum);
      && EntryOk(p', q, |p'|) && EntryAt(p', q) == EntryAt(p, q).(rec := sum) && RecAt(p', q) == sum
      && SameBytes(p, p', 0, q) && SameBytes(p, p', next, |p|)
  {
    hide SetRec, RecLen;
    SetRecReads(p, q, sum);
    var p' := SetRec(p, q, sum);
    if InodeAt(p, q) != 0 {
      Shortened(p, p', q, sum);
    }
  }

  lemma OneEntry(p: seq<byte>, o: nat, next: nat, end: nat)
    requires ChainOk(p, 0, o) && EntryOk(p, o, |p|) && next == o + RecAt(p, o) && ChainOk(p, next, end)
    ensures ChainOk(p, 0, end) && Chain(p, 0, end) == Chain(p, 0, o) + [EntryAt(p, o)] + Chain(p, next, end)
  {
    hide Chain, ChainOk, EntryAt;
    ChainOne(p, o);
    ChainJoin(p, 0, o, next);
    ChainJoin(p, 0, next, end);
  }

  /** The first entry of a page is marked unused. */
  lemma ClearEntry(p: seq<byte>, end: nat)
    requires ChainOk(p, 0, end) && 0 < end && HEADER <= |p|
    ensures EntryOk(p, 0, |p|)
    ensures Became(p, SetInode(p, 0, 0), 0, RecAt(p, 0), end, [EntryAt(p, 0)], [Entry(0, 0, RecAt(p, 0), 0, [])])
  {
    hide Chain, ChainOk, SetInode;
    ChainHead(p, 0, end);
    SetInodeReads(p, 0, 0);
    var p' := SetInode(p, 0, 0);
    ChainNil(p, 0);
    ChainNil(p', 0);
    Replaced(p, p', 0, RecAt(p, 0), end);
    OneEntry(p', 0, RecAt(p, 0), end);
  }
}
