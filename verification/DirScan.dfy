/** The scans over one directory page (fs/ext2/ext2_dir.c). */
module DirScan {
  import opened Bytes
  import opened DirBlocks
  import opened DirEntries
  import opened DirPage
  import opened Options

  /** o is the offset of an entry of the page. */
  ghost predicate OnChain(p: seq<byte>, o: nat, end: nat) {
    ChainOk(p, 0, o) && ChainOk(p, o, end) && o < end
  }

  /** The entry at o is in use and has the name. */
  predicate IsNamed(p: seq<byte>, o: nat, name: seq<byte>)
    requires o + HEADER <= |p|
  {
    && InodeAt(p, o) != 0 && NameLenAt(p, o) == |name|
    && o + HEADER + |name| <= |p| && p[o + HEADER..o + HEADER + |name|] == name
  }

  lemma NamedIs(p: seq<byte>, o: nat, name: seq<byte>)
    requires EntryOk(p, o, |p|)
    ensures IsNamed(p, o, name) <==> EntryAt(p, o).Used() && EntryAt(p, o).name == name
  {
  }

  lemma NotNamed(p: seq<byte>, o: nat, name: seq<byte>)
    requires EntryOk(p, o, |p|) && !IsNamed(p, o, name)
    ensures Absent(PairsOf(EntryAt(p, o)), name)
  {
    NamedIs(p, o, name);
  }

  lemma AbsentJoin(a: seq<Pair>, b: seq<Pair>, name: seq<byte>)
    ensures Absent(a + b, name) <==> Absent(a, name) && Absent(b, name)
  {
    if Absent(a + b, name) {
      forall i | 0 <= i < |a| ensures a[i].name != name {
        assert (a + b)[i] == a[i];
      }
      forall i | 0 <= i < |b| ensures b[i].name != name {
        assert (a + b)[|a| + i] == b[i];
      }
    }
  }

  /** The inode the first pair with the name gives. */
  ghost function LookUp(ps: seq<Pair>, name: seq<byte>): Option<nat> {
    if ps == [] then None else if ps[0].name == name then Some(ps[0].inode) else LookUp(ps[1..], name)
  }

  lemma {:induction false} LookUpJoin(a: seq<Pair>, b: seq<Pair>, name: seq<byte>)
    ensures LookUp(a + b, name) == if LookUp(a, name).Some? then LookUp(a, name) else LookUp(b, name)
  {
    if a == [] {
      assert a + b == b;
    } else {
      assert (a + b)[1..] == a[1..] + b;
      LookUpJoin(a[1..], b, name);
    }
  }

  lemma {:induction false} LookUpAbsent(ps: seq<Pair>, name: seq<byte>)
    ensures LookUp(ps, name).None? <==> Absent(ps, name)
  {
    if ps != [] {
      LookUpAbsent(ps[1..], name);
      assert ps == [ps[0]] + ps[1..];
      AbsentJoin([ps[0]], ps[1..], name);
    }
  }

  /** The scan has come one entry further without a match. */
  lemma PassEntry(p: seq<byte>, o: nat, end: nat, name: seq<byte>)
    requires OnChain(p, o, end) && Absent(Pairs(Chain(p, 0, o)), name) && o + HEADER <= |p|
    requires !IsNamed(p, o, name)
    ensures o < o + RecAt(p, o) <= end && ChainOk(p, 0, o + RecAt(p, o)) && ChainOk(p, o + RecAt(p, o), end)
    ensures Absent(Pairs(Chain(p, 0, o + RecAt(p, o))), name)
  {
    hide Chain, ChainOk, Pairs, Absent, IsNamed, EntryAt;
    ChainAt(p, o, end);
    ChainHead(p, o, end);
    PairsJoin(Chain(p, 0, o), [EntryAt(p, o)]);
    PairsOne(EntryAt(p, o));
    NotNamed(p, o, name);
    AbsentJoin(Pairs(Chain(p, 0, o)), PairsOf(EntryAt(p, o)), name);
  }

  /** An entry with the name needs room for it. */
  lemma {:induction false} NoRoom(p: seq<byte>, o: nat, end: nat, name: seq<byte>)
    requires ChainOk(p, o, end) && end < o + RecLen(|name|)
    ensures Absent(Pairs(Chain(p, o, end)), name)
    decreases end - o
  {
    hide Chain, ChainOk, Pairs, PairsOf, EntryAt;
    ChainBounds(p, o, end);
    if o == end {
      ChainNil(p, o);
      NoPairs();
    } else {
      ChainHead(p, o, end);
      var next := o + RecAt(p, o);
      NoRoom(p, next, end, name);
      PairsJoin([EntryAt(p, o)], Chain(p, next, end));
      PairsOne(EntryAt(p, o));
      TooShort(p, o, end, name);
      AbsentJoin(PairsOf(EntryAt(p, o)), Pairs(Chain(p, next, end)), name);
    }
  }

  lemma NoPairs()
    ensures Pairs([]) == []
  {
  }

  lemma TooShort(p: seq<byte>, o: nat, end: nat, name: seq<byte>)
    requires EntryOk(p, o, end) && end < o + RecLen(|name|) && EntryOk(p, o, |p|)
    ensures Absent(PairsOf(EntryAt(p, o)), name)
  {
  }

  lemma NothingYet(p: seq<byte>, end: nat, name: seq<byte>)
    requires ChainOk(p, 0, end)
    ensures ChainOk(p, 0, 0) && Absent(Pairs(Chain(p, 0, 0)), name)
  {
  }

  lemma ScanDone(p: seq<byte>, o: nat, end: nat, name: seq<byte>)
    requires ChainOk(p, 0, o) && ChainOk(p, o, end) && Absent(Pairs(Chain(p, 0, o)), name)
    requires end < o + RecLen(|name|)
    ensures ChainOk(p, 0, end) && Absent(Pairs(Chain(p, 0, end)), name)
  {
    hide Chain, ChainOk;
    NoRoom(p, o, end, name);
    ChainJoin(p, 0, o, end);
    PairsJoin(Chain(p, 0, o), Chain(p, o, end));
    AbsentJoin(Pairs(Chain(p, 0, o)), Pairs(Chain(p, o, end)), name);
  }

  lemma OnChainHeader(p: seq<byte>, o: nat, end: nat)
    requires OnChain(p, o, end)
    ensures o + HEADER <= end <= |p| && EntryOk(p, o, end) && EntryOk(p, o, |p|)
  {
    ChainHead(p, o, end);
  }

  /** The inner loop of ext2_find_entry: the offset of the entry with the name, if the page has one. */
  method FindInPage(p: seq<byte>, end: nat, name: seq<byte>) returns (r: Option<nat>)
    requires ChainOk(p, 0, end)
    ensures r.Some? ==> OnChain(p, r.value, end) && r.value + HEADER <= |p| && IsNamed(p, r.value, name)
    ensures r.Some? ==> LookUp(Pairs(Chain(p, 0, end)), name) == Some(InodeAt(p, r.value))
    ensures r.None? <==> Absent(Pairs(Chain(p, 0, end)), name)
  {
    hide Chain, ChainOk, EntryOk, Pairs, Absent, IsNamed, RecLen, LookUp;
    ChainBounds(p, 0, end);
    NothingYet(p, end, name);
    var need := RecLen(|name|);
    if end < need {
      ScanDone(p, 0, end, name);
      return None;
    }
    var offset := 0;
    while offset <= end - need
      invariant ChainOk(p, 0, offset) && ChainOk(p, offset, end) && offset <= end
      invariant Absent(Pairs(Chain(p, 0, offset)), name)
      decreases end - offset
    {
      OnChainHeader(p, offset, end);
      if IsNamed(p, offset, name) {
        FoundPair(p, offset, end, name);
        FirstMatch(p, offset, end, name);
        return Some(offset);
      }
      PassEntry(p, offset, end, name);
      offset := offset + RecAt(p, offset);
    }
    ScanDone(p, offset, end, name);
    return None;
  }

  lemma FirstMatch(p: seq<byte>, o: nat, end: nat, name: seq<byte>)
    requires OnChain(p, o, end) && o + HEADER <= |p| && IsNamed(p, o, name) && Absent(Pairs(Chain(p, 0, o)), name)
    ensures ChainOk(p, 0, end) && LookUp(Pairs(Chain(p, 0, end)), name) == Some(InodeAt(p, o))
  {
    hide Chain, ChainOk, Absent, Pairs;
    ChainAt(p, o, end);
    ChainHead(p, o, end);
    NamedIs(p, o, name);
    var pre, e, post := Chain(p, 0, o), EntryAt(p, o), Chain(p, o + RecAt(p, o), end);
    PairsJoin(pre + [e], post);
    PairsJoin(pre, [e]);
    PairsOne(e);
    LookUpAbsent(Pairs(pre), name);
    LookUpJoin(Pairs(pre) + PairsOf(e), Pairs(post), name);
    LookUpJoin(Pairs(pre), PairsOf(e), name);
  }

  lemma FoundPair(p: seq<byte>, o: nat, end: nat, name: seq<byte>)
    requires OnChain(p, o, end) && o + HEADER <= |p| && IsNamed(p, o, name)
    ensures ChainOk(p, 0, end) && !Absent(Pairs(Chain(p, 0, end)), name)
    ensures Pair(name, InodeAt(p, o)) in Pairs(Chain(p, 0, end))
  {
    hide Chain, ChainOk;
    ChainAt(p, o, end);
    ChainHead(p, o, end);
    NamedIs(p, o, name);
    var pre, post := Chain(p, 0, o), Chain(p, o + RecAt(p, o), end);
    PairsJoin(pre + [EntryAt(p, o)], post);
    PairsJoin(pre, [EntryAt(p, o)]);
    PairsOne(EntryAt(p, o));
    var ps := Pairs(Chain(p, 0, end));
    assert ps[|Pairs(pre)|] == Pair(name, InodeAt(p, o));
  }

  // ---------------------------------------------------------------- changes

  ghost predicate Added(ps: seq<Pair>, ps': seq<Pair>, x: Pair) {
    exists n :: 0 <= n <= |ps| && ps' == ps[..n] + [x] + ps[n..]
  }

  /** The first pair with the name is gone. */
  ghost predicate Removed(ps: seq<Pair>, ps': seq<Pair>, name: seq<byte>) {
    exists n :: 0 <= n < |ps| && ps[n].name == name && Absent(ps[..n], name) && ps' == ps[..n] + ps[n + 1..]
  }

  lemma AddedBetween(a: seq<Pair>, b: seq<Pair>, x: Pair)
    ensures Added(a + b, a + [x] + b, x)
  {
    assert (a + b)[..|a|] == a && (a + b)[|a|..] == b;
  }

  lemma RemovedBetween(a: seq<Pair>, x: Pair, b: seq<Pair>)
    requires Absent(a, x.name)
    ensures Removed(a + [x] + b, a + b, x.name)
  {
    var ps := a + [x] + b;
    assert ps[|a|] == x && ps[..|a|] == a && ps[|a| + 1..] == b;
  }

  lemma AddedParts(ps: seq<Pair>, ps': seq<Pair>, x: Pair) returns (a: seq<Pair>, b: seq<Pair>)
    requires Added(ps, ps', x)
    ensures ps == a + b && ps' == a + [x] + b
  {
    var n :| 0 <= n <= |ps| && ps' == ps[..n] + [x] + ps[n..];
    a, b := ps[..n], ps[n..];
  }

  lemma RemovedParts(ps: seq<Pair>, ps': seq<Pair>, name: seq<byte>) returns (a: seq<Pair>, x: Pair, b: seq<Pair>)
    requires Removed(ps, ps', name)
    ensures ps == a + [x] + b && ps' == a + b && x.name == name && Absent(a, name)
  {
    var n :| 0 <= n < |ps| && ps[n].name == name && Absent(ps[..n], name) && ps' == ps[..n] + ps[n + 1..];
    a, x, b := ps[..n], ps[n], ps[n + 1..];
  }

  /** What a change of some entries does to the pairs. */
  lemma BecamePairs(p: seq<byte>, p': seq<byte>, o: nat, next: nat, end: nat, was: seq<Entry>, is': seq<Entry>)
    requires Became(p, p', o, next, end, was, is')
    ensures ChainOk(p, 0, o) && ChainOk(p, next, end) && ChainOk(p, 0, end) && ChainOk(p', 0, end)
    ensures Pairs(Chain(p, 0, end)) == Pairs(Chain(p, 0, o)) + Pairs(was) + Pairs(Chain(p, next, end))
    ensures Pairs(Chain(p', 0, end)) == Pairs(Chain(p, 0, o)) + Pairs(is') + Pairs(Chain(p, next, end))
  {
    hide Chain, ChainOk, Pairs;
    var pre, post := Chain(p, 0, o), Chain(p, next, end);
    PairsJoin(pre + was, post);
    PairsJoin(pre, was);
    PairsJoin(pre + is', post);
    PairsJoin(pre, is');
  }

  /** Where a new entry can go; prev is the entry to be shortened and its new length. */
  datatype Slot = Slot(offset: nat, prev: Option<(nat, nat)>, free: nat)

  ghost predicate SlotOk(p: seq<byte>, end: nat, n: nat, slot: Slot) {
    match slot.prev
    case None =>
      && OnChain(p, slot.offset, end) && slot.offset + HEADER <= |p| && InodeAt(p, slot.offset) == 0
      && RecLen(n) <= RecAt(p, slot.offset) == slot.free
    case Some(q) =>
      && OnChain(p, q.0, end) && q.0 + HEADER <= |p| && InodeAt(p, q.0) != 0
      && q.1 == RecLen(NameLenAt(p, q.0)) && slot.offset == q.0 + q.1
      && RecLen(n) <= slot.free == RecAt(p, q.0) - q.1
  }

  /** The slot is the first room of the page. */
  ghost predicate FirstRoom(p: seq<byte>, n: nat, slot: Slot) {
    var o := if slot.prev.Some? then slot.prev.value.0 else slot.offset;
    ChainOk(p, 0, o) && AllUsed(Chain(p, 0, o)) && AllTooSmall(Chain(p, 0, o), n)
  }

  /** The inner loop of ext2_find_slot: room for a name of n bytes; the first unused entry ends the search. */
  method SlotInPage(p: seq<byte>, end: nat, n: nat) returns (r: Option<Slot>)
    requires ChainOk(p, 0, end)
    ensures r.Some? ==> SlotOk(p, end, n, r.value) && FirstRoom(p, n, r.value)
    ensures r.None? <==> GivenUp(Chain(p, 0, end), n)
  {
    hide Chain, ChainOk, EntryOk, RecLen, GivenUp, AllUsed, AllTooSmall, TooSmall, EntryAt;
    ChainBounds(p, 0, end);
    ChainNil(p, 0);
    NoneSmall(n);
    var need := RecLen(n);
    var offset := 0;
    while offset + need <= end
      invariant ChainOk(p, 0, offset) && ChainOk(p, offset, end) && offset <= end
      invariant AllUsed(Chain(p, 0, offset)) && AllTooSmall(Chain(p, 0, offset), n)
      decreases end - offset
    {
      OnChainHeader(p, offset, end);
      ChainAt(p, offset, end);
      SmallMeans(p, offset, n);
      Decides(Chain(p, 0, offset), EntryAt(p, offset), Chain(p, offset + RecAt(p, offset), end), n);
      if InodeAt(p, offset) == 0 {
        var free := RecAt(p, offset);
        if free < need {
          return None;
        }
        return Some(Slot(offset, None, free));
      }
      var keep := RecLen(NameLenAt(p, offset));
      if RecAt(p, offset) >= keep + need {
        return Some(Slot(offset + keep, Some((offset, keep)), RecAt(p, offset) - keep));
      }
      OneMore(Chain(p, 0, offset), EntryAt(p, offset), n);
      offset := offset + RecAt(p, offset);
    }
    RestSmall(p, offset, end, n);
    ChainJoin(p, 0, offset, end);
    SmallJoin(Chain(p, 0, offset), Chain(p, offset, end), n);
    return None;
  }

  lemma SmallMeans(p: seq<byte>, o: nat, n: nat)
    requires EntryOk(p, o, |p|)
    ensures EntryAt(p, o).Used() <==> InodeAt(p, o) != 0
    ensures TooSmall(EntryAt(p, o), n) <==>
            RecAt(p, o) < RecLen(n) + (if InodeAt(p, o) != 0 then RecLen(NameLenAt(p, o)) else 0)
  {
    hide RecLen;
  }

  /** Entries that begin too close to the end have no room. */
  lemma {:induction false} RestSmall(p: seq<byte>, o: nat, end: nat, n: nat)
    requires ChainOk(p, o, end) && end < o + RecLen(n)
    ensures AllTooSmall(Chain(p, o, end), n)
    decreases end - o
  {
    hide RecLen, Chain, EntryAt, TooSmall, AllTooSmall;
    if o < end {
      ChainHead(p, o, end);
      RestSmall(p, o + RecAt(p, o), end, n);
      SmallMeans(p, o, n);
      SmallCons(EntryAt(p, o), Chain(p, o + RecAt(p, o), end), n);
    } else {
      NoneLeft(p, o, end, n);
    }
  }

  lemma NoneLeft(p: seq<byte>, o: nat, end: nat, n: nat)
    requires ChainOk(p, o, end) && o >= end
    ensures AllTooSmall(Chain(p, o, end), n)
  {
    hide RecLen;
  }

  lemma NextEntry(p: seq<byte>, o: nat, end: nat)
    requires OnChain(p, o, end) && o + HEADER <= |p|
    ensures o < o + RecAt(p, o) <= end && ChainOk(p, 0, o + RecAt(p, o)) && ChainOk(p, o + RecAt(p, o), end)
  {
    ChainAt(p, o, end);
  }

  /** ext2_add_entry_to_slot: the entry is added, and the page is a chain again. */
  method AddInPage(p: seq<byte>, end: nat, slot: Slot, ino: nat, kind: byte, name: seq<byte>, ghost block: nat)
    returns (p': seq<byte>)
    requires block > 0
    requires ChainOk(p, 0, end) && SlotOk(p, end, |name|, slot) && 0 < ino < 0x1_0000_0000 && |name| < 256
    ensures |p'| == |p| && ChainOk(p', 0, end)
    ensures Added(Pairs(Chain(p, 0, end)), Pairs(Chain(p', 0, end)), Pair(name, ino))
    ensures BlockChains(p, end, block) ==> BlockChains(p', end, block)
    ensures FirstRoom(p, |name|, slot) ==> Insert(Chain(p, 0, end), ino, kind, name) == Some(Chain(p', 0, end))
  {
    hide Chain, ChainOk, Pairs, InitEntry, SetRec, Became, Added, EntryAt, RecLen, BlockChains, Insert, TooSmall,
         AllUsed, AllTooSmall;
    SlotRoom(p, end, |name|, slot);
    p' := p;
    if slot.prev.Some? {
      p' := SetRec(p', slot.prev.value.0, slot.prev.value.1);
    }
    p' := InitEntry(p', slot.offset, ino, slot.free, kind, name);
    if slot.prev.Some? {
      ghost var o := slot.prev.value.0;
      SplitEntry(p, o, end, ino, kind, name);
      BecamePairs(p, p', o, o + RecAt(p, o), end, [EntryAt(p, o)],
                  [EntryAt(p, o).(rec := slot.prev.value.1), Entry(slot.offset, ino, slot.free, kind, name)]);
      SplitPairs(p, o, end, Pairs(Chain(p, 0, o)), Pairs(Chain(p, o + RecAt(p, o), end)), slot.prev.value.1,
                 slot.offset, slot.free, ino, kind, name);
      EntryOff(p, o);
      InsertIs(p, p', o, end, ino, kind, name,
               [EntryAt(p, o).(rec := slot.prev.value.1), Entry(slot.offset, ino, slot.free, kind, name)]);
      if BlockChains(p, end, block) {
        KeepsBlocks(p, p', o, o + RecAt(p, o), end, EntryAt(p, o),
                    [EntryAt(p, o).(rec := slot.prev.value.1), Entry(slot.offset, ino, slot.free, kind, name)], block);
      }
    } else {
      ghost var o := slot.offset;
      FillEntry(p, o, end, ino, kind, name);
      BecamePairs(p, p', o, o + RecAt(p, o), end, [EntryAt(p, o)], [Entry(o, ino, slot.free, kind, name)]);
      FillPairs(p, o, Pairs(Chain(p, 0, o)), Pairs(Chain(p, o + RecAt(p, o), end)), slot.free, ino, kind, name);
      EntryOff(p, o);
      InsertIs(p, p', o, end, ino, kind, name, [Entry(o, ino, slot.free, kind, name)]);
      if BlockChains(p, end, block) {
        KeepsBlocks(p, p', o, o + RecAt(p, o), end, EntryAt(p, o), [Entry(o, ino, slot.free, kind, name)], block);
      }
    }
  }

  /** The change of the bytes is the insertion into the list of entries. */
  lemma InsertIs(p: seq<byte>, p': seq<byte>, o: nat, end: nat, ino: nat, kind: byte, name: seq<byte>, is': seq<Entry>)
    requires EntryOk(p, o, |p|) && Became(p, p', o, o + RecAt(p, o), end, [EntryAt(p, o)], is')
    requires
      var e, keep := EntryAt(p, o), RecLen(NameLenAt(p, o));
      if InodeAt(p, o) != 0 then
        && is' == [e.(rec := keep), Entry(o + keep, ino, RecAt(p, o) - keep, kind, name)]
        && RecLen(|name|) <= RecAt(p, o) - keep
      else is' == [Entry(o, ino, RecAt(p, o), kind, name)] && RecLen(|name|) <= RecAt(p, o)
    ensures ChainOk(p, 0, o) && ChainOk(p, 0, end) && ChainOk(p', 0, end)
    ensures AllUsed(Chain(p, 0, o)) && AllTooSmall(Chain(p, 0, o), |name|) ==>
      Insert(Chain(p, 0, end), ino, kind, name) == Some(Chain(p', 0, end))
  {
    hide Chain, ChainOk, Insert, RecLen;
    var e := EntryAt(p, o);
    SmallMeans(p, o, |name|);
    hide TooSmall;
    assert is' == Share(e, ino, kind, name);
    if AllUsed(Chain(p, 0, o)) && AllTooSmall(Chain(p, 0, o), |name|) {
      InsertAt(Chain(p, 0, o), e, Chain(p, o + RecAt(p, o), end), ino, kind, name);
    }
  }

  lemma EntryOff(p: seq<byte>, o: nat)
    requires EntryOk(p, o, |p|)
    ensures EntryAt(p, o).off == o
  {
  }

  lemma SlotRoom(p: seq<byte>, end: nat, n: nat, slot: Slot)
    requires SlotOk(p, end, n, slot)
    ensures slot.offset + HEADER + n <= |p| && slot.free < 0x10000
    ensures slot.prev.None? ==> EntryOk(p, slot.offset, |p|)
    ensures slot.prev.Some? ==> EntryOk(p, slot.prev.value.0, |p|) && slot.prev.value.1 < 0x10000
  {
    if slot.prev.Some? {
      OnChainHeader(p, slot.prev.value.0, end);
      RecBound(p, slot.prev.value.0);
    } else {
      OnChainHeader(p, slot.offset, end);
      RecBound(p, slot.offset);
    }
  }

  lemma SplitPairs(p: seq<byte>, o: nat, end: nat, a: seq<Pair>, b: seq<Pair>, keep: nat, off: nat, free: nat,
                   ino: nat, kind: byte, name: seq<byte>)
    requires EntryOk(p, o, |p|) && ino != 0
    ensures Added(a + Pairs([EntryAt(p, o)]) + b,
                  a + Pairs([EntryAt(p, o).(rec := keep), Entry(off, ino, free, kind, name)]) + b, Pair(name, ino))
  {
    hide EntryAt;
    var e := EntryAt(p, o);
    PairsOne(e);
    PairsTwo(e.(rec := keep), Entry(off, ino, free, kind, name));
    AddedBetween(a + PairsOf(e), b, Pair(name, ino));
    assert a + (PairsOf(e) + [Pair(name, ino)]) + b == a + PairsOf(e) + [Pair(name, ino)] + b;
  }

  lemma FillPairs(p: seq<byte>, o: nat, a: seq<Pair>, b: seq<Pair>, free: nat, ino: nat, kind: byte, name: seq<byte>)
    requires EntryOk(p, o, |p|) && InodeAt(p, o) == 0 && ino != 0
    ensures Added(a + Pairs([EntryAt(p, o)]) + b, a + Pairs([Entry(o, ino, free, kind, name)]) + b, Pair(name, ino))
  {
    PairsOne(EntryAt(p, o));
    PairsOne(Entry(o, ino, free, kind, name));
    AddedBetween(a, b, Pair(name, ino));
    assert a + [] + b == a + b;
  }

  /** The entry at o is the first of the page with the name. */
  ghost predicate FirstNamed(p: seq<byte>, o: nat, end: nat, name: seq<byte>) {
    OnChain(p, o, end) && o + HEADER <= |p| && IsNamed(p, o, name) && Absent(Pairs(Chain(p, 0, o)), name)
  }

  /**
   * The inner loop of ext2_delete_entry: the first entry with the name is gone, its space goes to the one before it.
   * That one may be in the block before: the blocks stay chains if and only if the entry was the first of the page or
   * not the first of a block.
   */
  method DeleteInPage(p: seq<byte>, end: nat, name: seq<byte>, ghost block: nat)
    returns (r: Option<seq<byte>>, ghost at: nat)
    requires ChainOk(p, 0, end) && end < 0x10000 && block > 0
    ensures r.Some? ==> FirstNamed(p, at, end, name)
    ensures match r
            case None => Erase(Chain(p, 0, end), name).None?
            case Some(p') => ChainOk(p', 0, end) && Erase(Chain(p, 0, end), name) == Some(Chain(p', 0, end))
    ensures r.Some? ==>
      (BlockChains(r.value, end, block) <==> BlockChains(p, end, block) && (at == 0 || at % block != 0))
    ensures r.None? <==> Absent(Pairs(Chain(p, 0, end)), name)
    ensures r.Some? ==> |r.value| == |p| && ChainOk(r.value, 0, end)
    ensures r.Some? ==> Removed(Pairs(Chain(p, 0, end)), Pairs(Chain(r.value, 0, end)), name)
  {
    hide Chain, ChainOk, EntryOk, Pairs, Absent, IsNamed, RecLen, Removed, SetRec, SetInode, BlockChains, Erase;
    ChainBounds(p, 0, end);
    NothingYet(p, end, name);
    r, at := None, 0;
    var offset: nat, prev: Option<nat> := 0, None;
    while offset < end
      invariant ChainOk(p, 0, offset) && ChainOk(p, offset, end) && offset <= end
      invariant Absent(Pairs(Chain(p, 0, offset)), name)
      invariant match prev
                case None => offset == 0
                case Some(q) => OnChain(p, q, end) && q + HEADER <= |p| && offset == q + RecAt(p, q)
      decreases end - offset
    {
      OnChainHeader(p, offset, end);
      NextEntry(p, offset, end);
      if RecAt(p, offset) == 0 {
        return;
      }
      if IsNamed(p, offset, name) {
        FoundPair(p, offset, end, name);
        if prev.Some? {
          DeleteMerge(p, prev.value, offset, end, name, block);
          return Some(SetRec(p, prev.value, RecAt(p, prev.value) + RecAt(p, offset))), offset;
        }
        DeleteFirst(p, end, name, block);
        return Some(SetInode(p, offset, 0)), 0;
      }
      PassEntry(p, offset, end, name);
      prev := Some(offset);
      offset := offset + RecAt(p, offset);
    }
    ScanDone(p, offset, end, name);
    AbsentNamed(Chain(p, 0, end), name);
    EraseNone(Chain(p, 0, end), name);
    return None, 0;
  }

  lemma DeleteMerge(p: seq<byte>, q: nat, o: nat, end: nat, name: seq<byte>, block: nat)
    requires block > 0
    requires OnChain(p, q, end) && OnChain(p, o, end) && q + HEADER <= |p| && o == q + RecAt(p, q) && end < 0x10000
    requires o + HEADER <= |p| && IsNamed(p, o, name) && Absent(Pairs(Chain(p, 0, o)), name)
    ensures RecAt(p, q) + RecAt(p, o) < 0x10000 && ChainOk(p, 0, end)
    ensures
      var p' := SetRec(p, q, RecAt(p, q) + RecAt(p, o));
      && |p'| == |p| && ChainOk(p', 0, end) && Removed(Pairs(Chain(p, 0, end)), Pairs(Chain(p', 0, end)), name)
      && 0 < o && (BlockChains(p', end, block) <==> BlockChains(p, end, block) && o % block != 0)
      && Erase(Chain(p, 0, end), name) == Some(Chain(p', 0, end))
  {
    hide Chain, ChainOk, EntryOk, Pairs, Absent, RecLen, Removed, SetRec, Became, EntryAt, IsNamed, BlockChains, Erase;
    NextEntry(p, o, end);
    NextEntry(p, q, end);
    MergeEntry(p, q, o, end);
    var sum := RecAt(p, q) + RecAt(p, o);
    var p' := SetRec(p, q, sum);
    var e, f := EntryAt(p, q), EntryAt(p, o);
    BecamePairs(p, p', q, o + RecAt(p, o), end, [e, f], [e.(rec := sum)]);
    EntryOff(p, q);
    EntryOff(p, o);
    MergeBlocks(p, p', q, o, o + RecAt(p, o), end, e, f, sum, block);
    EraseLater(p, p', q, o, end, name, e, f);
    PairsTwo(e, f);
    PairsOne(e.(rec := sum));
    NamedIs(p, o, name);
    var a, b := Pairs(Chain(p, 0, q)), Pairs(Chain(p, o + RecAt(p, o), end));
    ChainAt(p, q, end);
    PairsJoin(Chain(p, 0, q), [e]);
    PairsOne(e);
    RemovedBetween(a + PairsOf(e), Pair(name, f.inode), b);
    assert a + (PairsOf(e) + [Pair(name, f.inode)]) + b == a + PairsOf(e) + [Pair(name, f.inode)] + b;
  }

  lemma {:induction false} AbsentNamed(chain: seq<Entry>, name: seq<byte>)
    ensures Absent(Pairs(chain), name) <==> NoneNamed(chain, name)
  {
    if chain != [] {
      var n := |chain| - 1;
      AbsentNamed(chain[..n], name);
      AbsentJoin(Pairs(chain[..n]), PairsOf(chain[n]), name);
      assert forall i :: 0 <= i < n ==> chain[..n][i] == chain[i];
      assert Absent(PairsOf(chain[n]), name) <==> !Named(chain[n], name) by {
        if chain[n].Used() {
          assert PairsOf(chain[n])[0].name == chain[n].name;
        }
      }
    }
  }

  lemma EraseLater(p: seq<byte>, p': seq<byte>, q: nat, o: nat, end: nat, name: seq<byte>, e: Entry, f: Entry)
    requires OnChain(p, q, end) && EntryOk(p, q, |p|) && EntryOk(p, o, |p|) && o == q + RecAt(p, q)
    requires e == EntryAt(p, q) && f == EntryAt(p, o) && IsNamed(p, o, name)
    requires ChainOk(p, 0, o) && Absent(Pairs(Chain(p, 0, o)), name)
    requires Became(p, p', q, o + RecAt(p, o), end, [e, f], [e.(rec := RecAt(p, q) + RecAt(p, o))])
    ensures ChainOk(p, 0, end) && ChainOk(p', 0, end) && Erase(Chain(p, 0, end), name) == Some(Chain(p', 0, end))
  {
    hide Chain, ChainOk, EntryOk, Pairs, Absent, Erase, RecLen;
    NamedIs(p, o, name);
    hide IsNamed;
    ChainAt(p, q, end);
    AbsentNamed(Chain(p, 0, o), name);
    EraseAt(Chain(p, 0, q), e, f, Chain(p, o + RecAt(p, o), end), name);
  }

  lemma EraseFirst(p: seq<byte>, p': seq<byte>, end: nat, name: seq<byte>)
    requires EntryOk(p, 0, |p|) && IsNamed(p, 0, name)
    requires Became(p, p', 0, RecAt(p, 0), end, [EntryAt(p, 0)], [Entry(0, 0, RecAt(p, 0), 0, [])])
    ensures ChainOk(p, 0, end) && ChainOk(p', 0, end) && Erase(Chain(p, 0, end), name) == Some(Chain(p', 0, end))
  {
    hide Chain, ChainOk, Pairs, RecLen, IsNamed, Erase;
    NamedIs(p, 0, name);
    ChainNil(p, 0);
    var e, rest := EntryAt(p, 0), Chain(p, RecAt(p, 0), end);
    assert Chain(p, 0, end) == [e] + rest && Chain(p', 0, end) == [Entry(0, 0, RecAt(p, 0), 0, [])] + rest;
    EraseHead(e, rest, name);
  }

  lemma DeleteFirst(p: seq<byte>, end: nat, name: seq<byte>, block: nat)
    requires block > 0
    requires OnChain(p, 0, end) && HEADER <= |p| && IsNamed(p, 0, name)
    ensures ChainOk(p, 0, end)
    ensures
      var p' := SetInode(p, 0, 0);
      && |p'| == |p| && ChainOk(p', 0, end) && Removed(Pairs(Chain(p, 0, end)), Pairs(Chain(p', 0, end)), name)
      && (BlockChains(p', end, block) <==> BlockChains(p, end, block))
      && Erase(Chain(p, 0, end), name) == Some(Chain(p', 0, end))
  {
    hide Chain, ChainOk, Pairs, Absent, RecLen, Removed, SetInode, Became, EntryAt, IsNamed, BlockChains, Erase;
    ClearEntry(p, end);
    var p', e := SetInode(p, 0, 0), EntryAt(p, 0);
    BecamePairs(p, p', 0, RecAt(p, 0), end, [e], [Entry(0, 0, RecAt(p, 0), 0, [])]);
    EntryOff(p, 0);
    SameBlocks(p, p', 0, RecAt(p, 0), end, e, Entry(0, 0, RecAt(p, 0), 0, []), block);
    EraseFirst(p, p', end, name);
    PairsOne(e);
    PairsOne(Entry(0, 0, RecAt(p, 0), 0, []));
    NamedIs(p, 0, name);
    NothingYet(p, end, name);
    var a, b := Pairs(Chain(p, 0, 0)), Pairs(Chain(p, RecAt(p, 0), end));
    RemovedBetween(a, Pair(name, e.inode), b);
    assert a + [] + b == a + b;
  }
}
