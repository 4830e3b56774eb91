/** A directory refines a map from names to inodes (fs/ext2/ext2_dir.c). */
module Directory {
  import opened Arithmetic
  import opened Bytes
  import opened DirBlocks
  import opened DirEntries
  import opened DirPage
  import opened DirScan
  import opened Options

  // ---------------------------------------------------------------- the map

  ghost predicate Unique(ps: seq<Pair>) {
    forall i, j :: 0 <= i < j < |ps| ==> ps[i].name != ps[j].name
  }

  /** After an addition the new name is bound, and every other name as before. */
  lemma AddedLookUp(ps: seq<Pair>, ps': seq<Pair>, x: Pair, name: seq<byte>)
    requires Added(ps, ps', x) && Absent(ps, x.name)
    ensures LookUp(ps', name) == if name == x.name then Some(x.inode) else LookUp(ps, name)
    ensures Unique(ps) ==> Unique(ps')
  {
    hide Added, Absent, Unique;
    var a, b := AddedParts(ps, ps', x);
    LookUpJoin(a + [x], b, name);
    LookUpJoin(a, [x], name);
    LookUpJoin(a, b, name);
    LookUpAbsent(a, x.name);
    AbsentJoin(a, b, x.name);
    if Unique(ps) {
      StillUnique(a, x, b);
    }
  }

  lemma StillUnique(a: seq<Pair>, x: Pair, b: seq<Pair>)
    requires Unique(a + b) && Absent(a + b, x.name)
    ensures Unique(a + [x] + b)
  {
    var ps, ps', n := a + b, a + [x] + b, |a|;
    forall i, j | 0 <= i < j < |ps'| ensures ps'[i].name != ps'[j].name {
      assert i < n ==> ps'[i] == ps[i];
      assert i > n ==> ps'[i] == ps[i - 1];
      assert j < n ==> ps'[j] == ps[j];
      assert j > n ==> ps'[j] == ps[j - 1];
    }
  }

  /** After a removal from a map the name is not bound, and every other name as before. */
  lemma RemovedLookUp(ps: seq<Pair>, ps': seq<Pair>, gone: seq<byte>, name: seq<byte>)
    requires Removed(ps, ps', gone) && Unique(ps)
    ensures LookUp(ps', name) == if name == gone then None else LookUp(ps, name)
    ensures Unique(ps')
  {
    hide Removed, Absent, Unique;
    var a, x, b := RemovedParts(ps, ps', gone);
    LookUpJoin(a, b, name);
    LookUpJoin(a + [x], b, name);
    LookUpJoin(a, [x], name);
    LookUpAbsent(a, gone);
    OthersDiffer(a, x, b);
    LookUpAbsent(b, gone);
  }

  lemma OthersDiffer(a: seq<Pair>, x: Pair, b: seq<Pair>)
    requires Unique(a + [x] + b)
    ensures Absent(b, x.name) && Unique(a + b)
  {
    var ps := a + [x] + b;
    var n := |a|;
    assert ps[n] == x;
    forall i | 0 <= i < |b| ensures b[i].name != x.name {
      assert ps[n + 1 + i] == b[i];
    }
    forall i, j | 0 <= i < j < |a + b| ensures (a + b)[i].name != (a + b)[j].name {
      assert (a + b)[i] == ps[if i < n then i else i + 1] && (a + b)[j] == ps[if j < n then j else j + 1];
    }
  }

  // ---------------------------------------------------------------- the pages

  /** last_valid_byte */
  function ValidEnd(page: nat, size: nat, i: nat): int {
    var last := size - i * page;
    if last > page then page else last
  }

  ghost predicate PageOk(page: nat, size: nat, p: seq<byte>, i: nat) {
    && |p| == page && 0 <= ValidEnd(page, size, i) && ChainOk(p, 0, ValidEnd(page, size, i))
  }

  /** The sizes fit: whole blocks, blocks with room for the longest name, and no page too many. */
  ghost predicate SizeOk(page: nat, block: nat, count: nat, size: nat) {
    && RecLen(255) <= block && page > 0 && page % block == 0 && page < 0x10000 && size % block == 0
    && (count == 0 ==> size == 0) && (count > 0 ==> (count - 1) * page < size <= count * page)
  }

  ghost predicate DirOk(page: nat, block: nat, pages: seq<seq<byte>>, size: nat) {
    && SizeOk(page, block, |pages|, size)
    && (forall i :: 0 <= i < |pages| ==> PageOk(page, size, pages[i], i))
  }

  /** Each block of the page is a chain of its own. */
  ghost predicate PageBlocks(page: nat, block: nat, size: nat, p: seq<byte>, i: nat) {
    block > 0 && 0 <= ValidEnd(page, size, i) && BlockChains(p, ValidEnd(page, size, i), block)
  }

  ghost predicate BlocksOk(page: nat, block: nat, pages: seq<seq<byte>>, size: nat) {
    forall i :: 0 <= i < |pages| ==> PageBlocks(page, block, size, pages[i], i)
  }

  /** A page changes: the other pages keep their say. */
  lemma ChangeBlocks(page: nat, block: nat, pages: seq<seq<byte>>, size: nat, i: nat, p: seq<byte>)
    requires i < |pages|
    ensures BlocksOk(page, block, pages, size) && PageBlocks(page, block, size, p, i) ==>
            BlocksOk(page, block, pages[i := p], size)
    ensures BlocksOk(page, block, pages[i := p], size) && PageBlocks(page, block, size, pages[i], i) ==>
            BlocksOk(page, block, pages, size)
    ensures BlocksOk(page, block, pages, size) ==> PageBlocks(page, block, size, pages[i], i)
    ensures BlocksOk(page, block, pages[i := p], size) ==> PageBlocks(page, block, size, p, i)
  {
    hide PageBlocks;
    if BlocksOk(page, block, pages[i := p], size) {
      assert forall k :: 0 <= k < |pages| && k != i ==> pages[i := p][k] == pages[k];
      assert pages[i := p][i] == p;
    }
  }

  ghost function PagePairs(p: seq<byte>, end: int): seq<Pair> {
    if 0 <= end && ChainOk(p, 0, end) then Pairs(Chain(p, 0, end)) else []
  }

  ghost function PageEntries(p: seq<byte>, end: int): seq<Entry> {
    if 0 <= end && ChainOk(p, 0, end) then Chain(p, 0, end) else []
  }

  /** The entries of the pages. */
  ghost function Entries(page: nat, size: nat, pages: seq<seq<byte>>): (es: seq<seq<Entry>>)
    ensures |es| == |pages|
  {
    seq(|pages|, i requires 0 <= i < |pages| => PageEntries(pages[i], ValidEnd(page, size, i)))
  }

  ghost predicate NoneBefore(es: seq<seq<Entry>>, ino: nat, kind: byte, name: seq<byte>, i: nat) {
    i <= |es| && forall k :: 0 <= k < i ==> Insert(es[k], ino, kind, name).None?
  }

  /** Every page before i has given up, and page i takes the name into its first room. */
  ghost predicate InsertedAt(es: seq<seq<Entry>>, es': seq<seq<Entry>>, ino: nat, kind: byte, name: seq<byte>, i: nat) {
    && i < |es| && NoneBefore(es, ino, kind, name, i)
    && Insert(es[i], ino, kind, name).Some? && es' == es[i := Insert(es[i], ino, kind, name).value]
  }

  /** The entry has a new last block to itself. */
  ghost predicate Grown(es: seq<seq<Entry>>, es': seq<seq<Entry>>, page: nat, block: nat, size: nat, ino: nat,
                        kind: byte, name: seq<byte>)
    requires page > 0
  {
    var index, offset := size / page, size % page;
    && 0 <= index <= |es| <= index + 1
    && es' == es[..index] + [(if index < |es| then es[index] else []) + [Entry(offset, ino, block, kind, name)]]
  }

  /** The pages before i do not have the name. */
  ghost predicate NoneErased(es: seq<seq<Entry>>, name: seq<byte>, i: nat) {
    i <= |es| && forall k :: 0 <= k < i ==> Erase(es[k], name).None?
  }

  /** Page i is the first with the name, and loses it. */
  ghost predicate ErasedAt(es: seq<seq<Entry>>, es': seq<seq<Entry>>, name: seq<byte>, i: nat) {
    && i < |es| && NoneErased(es, name, i)
    && Erase(es[i], name).Some? && es' == es[i := Erase(es[i], name).value]
  }

  lemma ErasedHere(page: nat, size: nat, pages: seq<seq<byte>>, i: nat, p: seq<byte>, end: nat, name: seq<byte>)
    requires i < |pages| && end == ValidEnd(page, size, i) && ChainOk(pages[i], 0, end) && ChainOk(p, 0, end)
    requires Erase(Chain(pages[i], 0, end), name) == Some(Chain(p, 0, end))
    requires NoneErased(Entries(page, size, pages), name, i)
    ensures ErasedAt(Entries(page, size, pages), Entries(page, size, pages[i := p]), name, i)
  {
    hide ValidEnd, Erase, Chain, ChainOk, Entries;
    EntriesChange(page, size, pages, i, p);
  }

  /** Only the changed page decides whether the blocks still are chains of their own. */
  lemma ErasedBlocks(page: nat, block: nat, pages: seq<seq<byte>>, size: nat, i: nat, p: seq<byte>, end: nat,
                     kept: bool)
    requires i < |pages| && end == ValidEnd(page, size, i) && block > 0
    requires BlockChains(p, end, block) <==> BlockChains(pages[i], end, block) && kept
    ensures BlocksOk(page, block, pages[i := p], size) <==> BlocksOk(page, block, pages, size) && kept
  {
    hide ValidEnd, BlocksOk, BlockChains;
    ChangeBlocks(page, block, pages, size, i, p);
  }

  lemma EntriesChange(page: nat, size: nat, pages: seq<seq<byte>>, i: nat, p: seq<byte>)
    requires i < |pages|
    ensures Entries(page, size, pages)[i] == PageEntries(pages[i], ValidEnd(page, size, i))
    ensures Entries(page, size, pages[i := p]) ==
            Entries(page, size, pages)[i := PageEntries(p, ValidEnd(page, size, i))]
  {
    hide PageEntries, ValidEnd;
  }

  lemma InsertedHere(page: nat, size: nat, pages: seq<seq<byte>>, i: nat, p: seq<byte>, end: nat, ino: nat, kind: byte,
                     name: seq<byte>)
    requires i < |pages| && end == ValidEnd(page, size, i) && ChainOk(pages[i], 0, end) && ChainOk(p, 0, end)
    requires Insert(Chain(pages[i], 0, end), ino, kind, name) == Some(Chain(p, 0, end))
    requires NoneBefore(Entries(page, size, pages), ino, kind, name, i)
    ensures InsertedAt(Entries(page, size, pages), Entries(page, size, pages[i := p]), ino, kind, name, i)
  {
    hide ValidEnd, Insert, Chain, ChainOk, Entries;
    EntriesChange(page, size, pages, i, p);
  }

  ghost function AllPairs(page: nat, size: nat, pages: seq<seq<byte>>): seq<Pair> {
    if pages == [] then []
    else
      var n := |pages| - 1;
      AllPairs(page, size, pages[..n]) + PagePairs(pages[n], ValidEnd(page, size, n))
  }

  lemma {:induction false} AllAdded(page: nat, size: nat, pages: seq<seq<byte>>, i: nat, p: seq<byte>, x: Pair)
    requires i < |pages|
    requires Added(PagePairs(pages[i], ValidEnd(page, size, i)), PagePairs(p, ValidEnd(page, size, i)), x)
    ensures Added(AllPairs(page, size, pages), AllPairs(page, size, pages[i := p]), x)
    decreases |pages|
  {
    hide Added, PagePairs, ValidEnd;
    var n := |pages| - 1;
    var pages' := pages[i := p];
    if i == n {
      assert pages'[..n] == pages[..n];
      AddedAfter(AllPairs(page, size, pages[..n]), PagePairs(pages[n], ValidEnd(page, size, n)),
                 PagePairs(p, ValidEnd(page, size, n)), x);
    } else {
      assert pages'[..n] == pages[..n][i := p];
      AllAdded(page, size, pages[..n], i, p, x);
      AddedBefore(AllPairs(page, size, pages[..n]), AllPairs(page, size, pages'[..n]),
                  PagePairs(pages[n], ValidEnd(page, size, n)), x);
    }
  }

  lemma AddedAfter(a: seq<Pair>, ps: seq<Pair>, ps': seq<Pair>, x: Pair)
    requires Added(ps, ps', x)
    ensures Added(a + ps, a + ps', x)
  {
    hide Added;
    var c, b := AddedParts(ps, ps', x);
    AddedBetween(a + c, b, x);
    assert a + ps == a + c + b && a + ps' == a + c + [x] + b;
  }

  lemma AddedBefore(ps: seq<Pair>, ps': seq<Pair>, b: seq<Pair>, x: Pair)
    requires Added(ps, ps', x)
    ensures Added(ps + b, ps' + b, x)
  {
    hide Added;
    var a, c := AddedParts(ps, ps', x);
    AddedBetween(a, c + b, x);
    assert ps + b == a + (c + b) && ps' + b == a + [x] + (c + b);
  }

  lemma {:induction false} AllRemoved(page: nat, size: nat, pages: seq<seq<byte>>, i: nat, p: seq<byte>,
                                      name: seq<byte>)
    requires i < |pages| && Absent(AllPairs(page, size, pages[..i]), name)
    requires Removed(PagePairs(pages[i], ValidEnd(page, size, i)), PagePairs(p, ValidEnd(page, size, i)), name)
    ensures Removed(AllPairs(page, size, pages), AllPairs(page, size, pages[i := p]), name)
    decreases |pages|
  {
    hide Removed, Absent, PagePairs, ValidEnd;
    var n := |pages| - 1;
    var pages' := pages[i := p];
    if i == n {
      assert pages'[..n] == pages[..n];
      RemovedAfter(AllPairs(page, size, pages[..n]), PagePairs(pages[n], ValidEnd(page, size, n)),
                   PagePairs(p, ValidEnd(page, size, n)), name);
    } else {
      assert pages'[..n] == pages[..n][i := p] && pages[..n][..i] == pages[..i];
      AllRemoved(page, size, pages[..n], i, p, name);
      RemovedBefore(AllPairs(page, size, pages[..n]), AllPairs(page, size, pages'[..n]),
                    PagePairs(pages[n], ValidEnd(page, size, n)), name);
    }
  }

  lemma RemovedAfter(a: seq<Pair>, ps: seq<Pair>, ps': seq<Pair>, name: seq<byte>)
    requires Removed(ps, ps', name) && Absent(a, name)
    ensures Removed(a + ps, a + ps', name)
  {
    hide Removed, Absent;
    var c, x, b := RemovedParts(ps, ps', name);
    AbsentJoin(a, c, name);
    RemovedBetween(a + c, x, b);
    assert a + ps == a + c + [x] + b && a + ps' == a + c + b;
  }

  lemma RemovedBefore(ps: seq<Pair>, ps': seq<Pair>, b: seq<Pair>, name: seq<byte>)
    requires Removed(ps, ps', name)
    ensures Removed(ps + b, ps' + b, name)
  {
    hide Removed, Absent;
    var a, x, c := RemovedParts(ps, ps', name);
    RemovedBetween(a, x, c + b);
    assert ps + b == a + [x] + (c + b) && ps' + b == a + (c + b);
  }

  // ---------------------------------------------------------------- the directory

  datatype Error = ENOENT | EIO

  class Dir {
    const page: nat
    const block: nat
    /** The cached pages, and i_size. */
    var pages: seq<seq<byte>>
    var size: nat

    constructor (page: nat, block: nat, pages: seq<seq<byte>>, size: nat)
      requires DirOk(page, block, pages, size)
      ensures Valid() && this.page == page && this.block == block && this.pages == pages && this.size == size
    {
      this.page, this.block, this.pages, this.size := page, block, pages, size;
    }

    ghost predicate Valid()
      reads this
    {
      DirOk(page, block, pages, size)
    }

    /** Each block is a chain of its own, as readers that go block by block expect. */
    ghost predicate Blocks()
      reads this
    {
      BlocksOk(page, block, pages, size)
    }

    /** The entries, page by page. */
    ghost function Lists(): seq<seq<Entry>>
      reads this
    {
      Entries(page, size, pages)
    }

    ghost function Contents(): seq<Pair>
      reads this
    {
      AllPairs(page, size, pages)
    }

    /** ext2_find_entry and ext2_find: the inode a name is bound to. */
    method Find(name: seq<byte>) returns (r: Option<nat>)
      requires Valid()
      ensures r == LookUp(Contents(), name)
    {
      hide DirOk, PageOk, AllPairs, PagePairs, Absent, LookUp, IsNamed, ChainOk, Chain, Pairs, OnChain;
      PageCount(page, block, pages, size);
      var count := (size + page - 1) / page;
      assert pages[..0] == [];
      NoPagesYet(page, size, name);
      var i := 0;
      while i < count
        invariant 0 <= i <= count == |pages| && Absent(AllPairs(page, size, pages[..i]), name)
      {
        PageAt(page, block, pages, size, i);
        var end := ValidEnd(page, size, i);
        var found := FindInPage(pages[i], end, name);
        if found.Some? {
          FoundInPage(page, size, pages, i, name, InodeAt(pages[i], found.value));
          return Some(InodeAt(pages[i], found.value));
        }
        PassPage(page, size, pages, i, name);
        i := i + 1;
      }
      assert pages[..i] == pages;
      LookUpAbsent(Contents(), name);
      return None;
    }

    /**
     * ext2_delete_entry: the name's first pair is gone, or there was none. The space of the entry goes to the one
     * before it in the page, which makes that one straddle a block boundary if and only if the entry was the first of
     * a block and not of the page.
     */
    method Delete(name: seq<byte>) returns (r: Option<Error>, ghost i: nat, ghost at: nat)
      requires Valid()
      modifies this`pages
      ensures Valid()
      ensures r == Some(ENOENT) <==> Absent(old(Contents()), name)
      ensures r == Some(ENOENT) ==> pages == old(pages)
      ensures r != Some(ENOENT) ==> r == None && Removed(old(Contents()), Contents(), name)
      ensures r == None ==> i < |old(pages)| && 0 <= ValidEnd(page, size, i)
      ensures r == None ==> FirstNamed(old(pages)[i], at, ValidEnd(page, size, i), name) && block > 0
      ensures r == None ==> (Blocks() <==> old(Blocks()) && (at == 0 || at % block != 0))
      ensures r == None ==> ErasedAt(old(Lists()), Lists(), name, i)
    {
      hide DirOk, PageOk, AllPairs, PagePairs, Absent, ChainOk, Chain, Pairs, Removed, BlocksOk, BlockChains,
           FirstNamed, Entries, Erase, PageEntries, PageBlocks, ErasedAt, ValidEnd;
      PageCount(page, block, pages, size);
      var count := (size + page - 1) / page;
      assert pages[..0] == [];
      NoPagesYet(page, size, name);
      i, at := 0, 0;
      var k := 0;
      while k < count
        invariant 0 <= k <= count == |pages| && pages == old(pages)
        invariant Absent(AllPairs(page, size, pages[..k]), name)
        invariant NoneErased(Lists(), name, k)
      {
        PageAt(page, block, pages, size, k);
        var end := ValidEnd(page, size, k);
        ghost var o;
        var p;
        p, o := DeleteInPage(pages[k], end, name, block);
        if p.Some? {
          ErasedHere(page, size, pages, k, p.value, end, name);
          PageChange(page, block, pages, size, k, p.value);
          ErasedBlocks(page, block, pages, size, k, p.value, end, o == 0 || o % block != 0);
          AllRemoved(page, size, pages, k, p.value, name);
          RemovedPresent(AllPairs(page, size, pages), AllPairs(page, size, pages[k := p.value]), name);
          pages := pages[k := p.value];
          return None, k, o;
        }
        PassPage(page, size, pages, k, name);
        EntriesChange(page, size, pages, k, pages[k]);
        k := k + 1;
      }
      assert pages[..k] == pages;
      return Some(ENOENT), 0, 0;
    }

    /** ext2_add_entry: the pair is added, in a page with room or in a new block. */
    method AddEntry(name: seq<byte>, ino: nat, kind: byte) returns (ghost i: nat)
      requires Valid() && |name| < 256 && 0 < ino < 0x1_0000_0000
      modifies this`pages, this`size
      ensures Valid() && Added(old(Contents()), Contents(), Pair(name, ino))
      ensures old(Blocks()) ==> Blocks()
      ensures page > 0
      ensures if i < |old(pages)| then
                size == old(size) && InsertedAt(old(Lists()), Lists(), ino, kind, name, i)
              else
                && size == old(size) + block && Grown(old(Lists()), Lists(), page, block, old(size), ino, kind, name)
                && NoneBefore(old(Lists()), ino, kind, name, |old(pages)|)
    {
      hide DirOk, PageOk, AllPairs, PagePairs, ChainOk, Chain, Pairs, Added, SlotOk, BlocksOk, BlockChains, Entries,
           Insert, PageEntries, FirstRoom, Grown, GivenUp, InsertedAt;
      PageCount(page, block, pages, size);
      var count := (size + page - 1) / page;
      var k := 0;
      while k < count
        invariant 0 <= k <= count == |pages| && pages == old(pages) && size == old(size)
        invariant NoneBefore(Lists(), ino, kind, name, k)
      {
        PageAt(page, block, pages, size, k);
        var end := ValidEnd(page, size, k);
        var slot := SlotInPage(pages[k], end, |name|);
        InsertNone(Chain(pages[k], 0, end), ino, kind, name);
        if slot.Some? {
          var p := AddInPage(pages[k], end, slot.value, ino, kind, name, block);
          PageChange(page, block, pages, size, k, p);
          ChangeBlocks(page, block, pages, size, k, p);
          InsertedHere(page, size, pages, k, p, end, ino, kind, name);
          AllAdded(page, size, pages, k, p, Pair(name, ino));
          pages := pages[k := p];
          return k;
        }
        EntriesChange(page, size, pages, k, pages[k]);
        k := k + 1;
      }
      i := k;
      AddInNewBlock(name, ino, kind);
    }

    /** ext2_add_entry_new_block: a new last block holds the entry alone. */
    method AddInNewBlock(name: seq<byte>, ino: nat, kind: byte)
      requires Valid() && |name| < 256 && 0 < ino < 0x1_0000_0000
      modifies this`pages, this`size
      ensures Valid() && size == old(size) + block && Contents() == old(Contents()) + [Pair(name, ino)]
      ensures Added(old(Contents()), Contents(), Pair(name, ino))
      ensures old(Blocks()) ==> Blocks()
      ensures page > 0 && Grown(old(Lists()), Lists(), page, block, old(size), ino, kind, name)
    {
      hide DirOk, PageOk, AllPairs, PagePairs, ChainOk, Chain, Pairs, Added, SizeOk, RecLen, BlocksOk, Grown, Entries;
      NewBlockPlace(page, block, pages, size);
      var fileBlock := (size + block - 1) / block;
      var index, offset := (fileBlock * block) / page, (fileBlock * block) % page;
      NewBlockKeeps(page, block, pages, size, ino, kind, name);
      NewBlockBlocks(page, block, pages, size, ino, kind, name);
      NewBlockEntries(page, block, pages, size, ino, kind, name);
      var ps := if index == |pages| then pages + [ZeroBytes(page)] else pages;
      var p := Overlay(ps[index], offset, ZeroBytes(block));
      p := InitEntry(p, offset, ino, block, kind, name);
      AddedBetween(AllPairs(page, size, pages), [], Pair(name, ino));
      ghost var all := AllPairs(page, size, pages);
      assert all + [] == all && all + [Pair(name, ino)] + [] == all + [Pair(name, ino)];
      pages, size := ps[index := p], (fileBlock + 1) * block;
    }
  }

  lemma PageCount(page: nat, block: nat, pages: seq<seq<byte>>, size: nat)
    requires DirOk(page, block, pages, size)
    ensures page > 0 && block > 0 && (size + page - 1) / page == |pages|
  {
    var n := |pages|;
    if n > 0 {
      MulDistribute(n, 1, page);
      DivModUnique(size + page - 1, page, n, size + page - 1 - n * page);
    } else {
      DivModUnique(page - 1, page, 0, page - 1);
    }
  }

  lemma PageAt(page: nat, block: nat, pages: seq<seq<byte>>, size: nat, i: nat)
    requires DirOk(page, block, pages, size) && i < |pages|
    ensures 0 <= ValidEnd(page, size, i) <= page < 0x10000 && |pages[i]| == page
    ensures ChainOk(pages[i], 0, ValidEnd(page, size, i))
    ensures PagePairs(pages[i], ValidEnd(page, size, i)) == Pairs(Chain(pages[i], 0, ValidEnd(page, size, i)))
    ensures PageEntries(pages[i], ValidEnd(page, size, i)) == Chain(pages[i], 0, ValidEnd(page, size, i))
  {
    assert PageOk(page, size, pages[i], i);
  }

  lemma NoPagesYet(page: nat, size: nat, name: seq<byte>)
    ensures Absent(AllPairs(page, size, []), name)
  {
  }

  lemma PassPage(page: nat, size: nat, pages: seq<seq<byte>>, i: nat, name: seq<byte>)
    requires i < |pages| && Absent(AllPairs(page, size, pages[..i]), name)
    requires Absent(PagePairs(pages[i], ValidEnd(page, size, i)), name)
    ensures Absent(AllPairs(page, size, pages[..i + 1]), name)
  {
    assert pages[..i + 1][..i] == pages[..i];
    AbsentJoin(AllPairs(page, size, pages[..i]), PagePairs(pages[i], ValidEnd(page, size, i)), name);
  }

  /** The first page that has the name decides. */
  lemma FoundInPage(page: nat, size: nat, pages: seq<seq<byte>>, i: nat, name: seq<byte>, ino: nat)
    requires i < |pages| && Absent(AllPairs(page, size, pages[..i]), name)
    requires LookUp(PagePairs(pages[i], ValidEnd(page, size, i)), name) == Some(ino)
    ensures LookUp(AllPairs(page, size, pages), name) == Some(ino)
  {
    hide PagePairs, Absent, LookUp, ValidEnd;
    assert pages[..i + 1][..i] == pages[..i];
    LookUpAbsent(AllPairs(page, size, pages[..i]), name);
    LookUpJoin(AllPairs(page, size, pages[..i]), PagePairs(pages[i], ValidEnd(page, size, i)), name);
    FoundBefore(page, size, pages, i + 1, name, ino);
  }

  lemma {:induction false} FoundBefore(page: nat, size: nat, pages: seq<seq<byte>>, n: nat, name: seq<byte>, ino: nat)
    requires n <= |pages| && LookUp(AllPairs(page, size, pages[..n]), name) == Some(ino)
    ensures LookUp(AllPairs(page, size, pages), name) == Some(ino)
    decreases |pages| - n
  {
    hide PagePairs, Absent, LookUp, ValidEnd;
    if n == |pages| {
      assert pages[..n] == pages;
    } else {
      assert pages[..n + 1][..n] == pages[..n];
      LookUpJoin(AllPairs(page, size, pages[..n]), PagePairs(pages[n], ValidEnd(page, size, n)), name);
      FoundBefore(page, size, pages, n + 1, name, ino);
    }
  }

  lemma RemovedPresent(ps: seq<Pair>, ps': seq<Pair>, name: seq<byte>)
    requires Removed(ps, ps', name)
    ensures !Absent(ps, name)
  {
    var a, x, b := RemovedParts(ps, ps', name);
    assert ps[|a|] == x;
  }

  lemma PageChange(page: nat, block: nat, pages: seq<seq<byte>>, size: nat, i: nat, p: seq<byte>)
    requires DirOk(page, block, pages, size) && i < |pages| && |p| == page
    requires 0 <= ValidEnd(page, size, i) && ChainOk(p, 0, ValidEnd(page, size, i))
    ensures DirOk(page, block, pages[i := p], size)
    ensures PagePairs(p, ValidEnd(page, size, i)) == Pairs(Chain(p, 0, ValidEnd(page, size, i)))
    ensures PageEntries(p, ValidEnd(page, size, i)) == Chain(p, 0, ValidEnd(page, size, i))
  {
    hide SizeOk, ValidEnd, ChainOk, Chain;
    assert PageOk(page, size, p, i);
  }

  // ---------------------------------------------------------------- a new block

  /** The first block behind the end of the directory. */
  lemma NewBlockPlace(page: nat, block: nat, pages: seq<seq<byte>>, size: nat)
    requires DirOk(page, block, pages, size)
    ensures page > 0 && 0 < block < 0x10000 && RecLen(255) <= block
    ensures (size + block - 1) / block * block == size && ((size + block - 1) / block + 1) * block == size + block
    ensures (size + block - 1) / block >= 0
    ensures
      var index, offset := size / page, size % page;
      && 0 <= index <= |pages| && offset + block <= page && size == index * page + offset
      && (index == |pages| ==> offset == 0) && (index < |pages| ==> index + 1 == |pages| && 0 < offset)
  {
    hide RecLen, PageOk;
    var q := size / block;
    assert size == q * block;
    MulDistribute(q, 1, block);
    ModBelow(size, block);
    DivModUnique(size + block - 1, block, q, block - 1);
    var n, offset := |pages|, size % page;
    ModBelow(size, page);
    MulDistribute(n, 1, page);
    if n > 0 {
      if size == n * page {
        MultipleMod(n, page);
        DivModUnique(size, page, n, 0);
      } else {
        DivModUnique(size, page, n - 1, size - (n - 1) * page);
      }
    }
    BlockInPage(page, block, size);
  }

  lemma BlockInPage(page: nat, block: nat, size: nat)
    requires page > 0 && block > 0 && page % block == 0 && size % block == 0
    ensures 0 <= size % page && size % page + block <= page
    ensures block <= page && size % page % block == 0
  {
    ModKeepsMultiple(size, page, block);
    MultiplesApart(size % page, page, block);
  }

  lemma {:induction false} AllSame(page: nat, size: nat, size': nat, pages: seq<seq<byte>>)
    requires forall i: nat :: i < |pages| ==> ValidEnd(page, size', i) == ValidEnd(page, size, i)
    ensures AllPairs(page, size', pages) == AllPairs(page, size, pages)
  {
    hide ValidEnd, PagePairs;
    if pages != [] {
      AllSame(page, size, size', pages[..|pages| - 1]);
    }
  }

  /** The entry alone in a block behind a chain. */
  lemma BlockEntry(p: seq<byte>, o: nat, block: nat, ino: nat, kind: byte, name: seq<byte>)
    requires ChainOk(p, 0, o) && o + block <= |p| && RecLen(255) <= block < 0x10000
    requires |name| < 256 && 0 < ino < 0x1_0000_0000
    ensures o + HEADER + |name| <= |p|
    ensures
      var p' := InitEntry(Overlay(p, o, ZeroBytes(block)), o, ino, block, kind, name);
      && |p'| == |p| && ChainOk(p', 0, o + block)
      && Pairs(Chain(p', 0, o + block)) == Pairs(Chain(p, 0, o)) + [Pair(name, ino)]
      && Chain(p', 0, o + block) == Chain(p, 0, o) + [Entry(o, ino, block, kind, name)]
  {
    hide Chain, ChainOk, InitEntry, Overlay, Pairs;
    assert RecLen(|name|) <= RecLen(255) by {
      NameFits(|name|);
    }
    var q := Overlay(p, o, ZeroBytes(block));
    var p' := InitEntry(q, o, ino, block, kind, name);
    forall i | 0 <= i < o ensures q[i] == p[i] {
      OverlayAt(p, o, ZeroBytes(block), i);
    }
    InitReads(q, o, ino, block, kind, name);
    ChainSame(p, p', 0, o);
    ChainOne(p', o);
    ChainJoin(p', 0, o, o + block);
    PairsJoin(Chain(p', 0, o), [EntryAt(p', o)]);
    PairsOne(EntryAt(p', o));
  }

  /** The same of the blocks: the new one is a chain, and the ones before it stay. */
  lemma BlockEntryBlocks(p: seq<byte>, o: nat, block: nat, ino: nat, kind: byte, name: seq<byte>)
    requires ChainOk(p, 0, o) && o + block <= |p| && RecLen(255) <= block < 0x10000 && o % block == 0
    requires |name| < 256 && 0 < ino < 0x1_0000_0000
    ensures o + HEADER + |name| <= |p|
    ensures
      var p' := InitEntry(Overlay(p, o, ZeroBytes(block)), o, ino, block, kind, name);
      && |p'| == |p| && (BlockChains(p, o, block) ==> BlockChains(p', o + block, block))
  {
    hide Chain, ChainOk, InitEntry, Overlay, Pairs, RecLen;
    BlockEntry(p, o, block, ino, kind, name);
    var q := Overlay(p, o, ZeroBytes(block));
    var p' := InitEntry(q, o, ino, block, kind, name);
    forall i | 0 <= i < o ensures q[i] == p[i] {
      OverlayAt(p, o, ZeroBytes(block), i);
    }
    InitReads(q, o, ino, block, kind, name);
    if BlockChains(p, o, block) {
      forall b: nat | b <= o + block && b % block == 0 ensures ChainOk(p', 0, b) {
        if b <= o {
          ChainSame(p, p', 0, b);
        } else {
          MultiplesApart(o, b, block);
        }
      }
    }
  }

  lemma NewBlockBlocks(page: nat, block: nat, pages: seq<seq<byte>>, size: nat, ino: nat, kind: byte, name: seq<byte>)
    requires DirOk(page, block, pages, size) && page > 0 && |name| < 256 && 0 < ino < 0x1_0000_0000
    ensures
      var index, offset := size / page, size % page;
      && 0 <= index <= |pages| && 0 < block < 0x10000 && offset + block <= page && offset + HEADER + |name| <= page
      && var ps := if index == |pages| then pages + [ZeroBytes(page)] else pages;
      && |ps[index]| == page
      && var p' := InitEntry(Overlay(ps[index], offset, ZeroBytes(block)), offset, ino, block, kind, name);
      && (BlocksOk(page, block, pages, size) ==> BlocksOk(page, block, ps[index := p'], size + block))
  {
    hide ChainOk, Chain, Pairs, RecLen, InitEntry, Overlay, SizeOk, ValidEnd, BlockChains;
    NewBlockPlace(page, block, pages, size);
    BlockMultiple(page, block, |pages|, size);
    var index, offset := size / page, size % page;
    var ps := if index == |pages| then pages + [ZeroBytes(page)] else pages;
    ChainNil(ZeroBytes(page), 0);
    if index < |pages| {
      LastEnd(page, block, pages, size);
    }
    BlockEntryBlocks(ps[index], offset, block, ino, kind, name);
    EndsAfter(page, block, |pages|, size);
    if BlocksOk(page, block, pages, size) {
      FirstBlock(ps[index], block);
      assert index < |pages| ==> PageBlocks(page, block, size, pages[index], index);
      var p' := InitEntry(Overlay(ps[index], offset, ZeroBytes(block)), offset, ino, block, kind, name);
      var ps' := ps[index := p'];
      forall i | 0 <= i < |ps'| ensures PageBlocks(page, block, size + block, ps'[i], i) {
        if i < index {
          assert PageBlocks(page, block, size, pages[i], i);
        }
      }
    }
  }

  lemma NewBlockEntries(page: nat, block: nat, pages: seq<seq<byte>>, size: nat, ino: nat, kind: byte, name: seq<byte>)
    requires DirOk(page, block, pages, size) && page > 0 && |name| < 256 && 0 < ino < 0x1_0000_0000
    ensures
      var index, offset := size / page, size % page;
      && 0 <= index <= |pages| && 0 < block < 0x10000 && offset + block <= page && offset + HEADER + |name| <= page
      && var ps := if index == |pages| then pages + [ZeroBytes(page)] else pages;
      && |ps[index]| == page
      && var p' := InitEntry(Overlay(ps[index], offset, ZeroBytes(block)), offset, ino, block, kind, name);
      && Grown(Entries(page, size, pages), Entries(page, size + block, ps[index := p']), page, block, size, ino, kind,
               name)
  {
    hide ChainOk, Chain, Pairs, RecLen, InitEntry, Overlay, SizeOk, ValidEnd;
    NewBlockPlace(page, block, pages, size);
    var index, offset := size / page, size % page;
    var ps := if index == |pages| then pages + [ZeroBytes(page)] else pages;
    ChainNil(ZeroBytes(page), 0);
    if index < |pages| {
      LastEnd(page, block, pages, size);
    }
    BlockEntry(ps[index], offset, block, ino, kind, name);
    EndsAfter(page, block, |pages|, size);
    var p' := InitEntry(Overlay(ps[index], offset, ZeroBytes(block)), offset, ino, block, kind, name);
    var es, es' := Entries(page, size, pages), Entries(page, size + block, ps[index := p']);
    assert PageEntries(p', offset + block) == Chain(ps[index], 0, offset) + [Entry(offset, ino, block, kind, name)];
    assert forall i :: 0 <= i < index ==> es'[i] == es[i];
    assert index < |pages| ==> es[index] == Chain(ps[index], 0, offset);
    assert es'[..index] == es[..index];
  }

  lemma BlockMultiple(page: nat, block: nat, count: nat, size: nat)
    requires SizeOk(page, block, count, size)
    ensures block > 0 && page > 0 && size % page % block == 0
  {
    BlockInPage(page, block, size);
  }

  lemma FirstBlock(p: seq<byte>, block: nat)
    requires block > 0
    ensures BlockChains(p, 0, block)
  {
  }

  lemma NameFits(n: nat)
    requires n < 256
    ensures RecLen(n) <= RecLen(255)
  {
    AlignFacts(n + HEADER, 4);
    AlignFacts(255 + HEADER, 4);
    if RecLen(255) < RecLen(n) {
      MultiplesApart(RecLen(255), RecLen(n), 4);
    }
  }

  /** The pages with the new block are a directory with one more pair. */
  lemma NewBlockKeeps(page: nat, block: nat, pages: seq<seq<byte>>, size: nat, ino: nat, kind: byte, name: seq<byte>)
    requires DirOk(page, block, pages, size) && page > 0 && |name| < 256 && 0 < ino < 0x1_0000_0000
    ensures
      var index, offset := size / page, size % page;
      && 0 <= index <= |pages| && 0 < block < 0x10000 && offset + block <= page && offset + HEADER + |name| <= page
      && var ps := if index == |pages| then pages + [ZeroBytes(page)] else pages;
      && |ps[index]| == page
      && var p' := InitEntry(Overlay(ps[index], offset, ZeroBytes(block)), offset, ino, block, kind, name);
      && DirOk(page, block, ps[index := p'], size + block)
      && AllPairs(page, size + block, ps[index := p']) == AllPairs(page, size, pages) + [Pair(name, ino)]
  {
    hide ChainOk, Chain, Pairs, RecLen, InitEntry, Overlay, SizeOk, ValidEnd, AllPairs, PagePairs;
    NewBlockPlace(page, block, pages, size);
    var index, offset := size / page, size % page;
    var ps := if index == |pages| then pages + [ZeroBytes(page)] else pages;
    ChainNil(ZeroBytes(page), 0);
    if index < |pages| {
      LastEnd(page, block, pages, size);
    }
    assert ChainOk(ps[index], 0, offset) && |ps[index]| == page;
    BlockEntry(ps[index], offset, block, ino, kind, name);
    var p' := InitEntry(Overlay(ps[index], offset, ZeroBytes(block)), offset, ino, block, kind, name);
    var ps' := ps[index := p'];
    EndsAfter(page, block, |pages|, size);
    forall i | 0 <= i < |ps'| ensures PageOk(page, size + block, ps'[i], i) {
      if i < index {
        assert PageOk(page, size, pages[i], i);
      }
    }
    var was := Pairs(Chain(ps[index], 0, offset));
    NoPairs();
    assert index == |pages| ==> was == [];
    PairsAre(pages, page, size, index, offset, p', block, size + block);
    LastPairs(page, size, size + block, pages, ps', index, was, Pair(name, ino));
  }

  lemma PairsAre(pages: seq<seq<byte>>, page: nat, size: nat, index: nat, offset: nat, p': seq<byte>, block: nat,
                 size': nat)
    requires ChainOk(p', 0, offset + block) && ValidEnd(page, size', index) == offset + block
    requires index < |pages| ==> ValidEnd(page, size, index) == offset && ChainOk(pages[index], 0, offset)
    ensures PagePairs(p', ValidEnd(page, size', index)) == Pairs(Chain(p', 0, offset + block))
    ensures index < |pages| ==>
            PagePairs(pages[index], ValidEnd(page, size, index)) == Pairs(Chain(pages[index], 0, offset))
  {
    hide ValidEnd, ChainOk, Chain, Pairs;
  }

  /** Where the last page ends now. */
  lemma LastEnd(page: nat, block: nat, pages: seq<seq<byte>>, size: nat)
    requires DirOk(page, block, pages, size) && page > 0 && 0 <= size / page < |pages|
    ensures ChainOk(pages[size / page], 0, size % page) && |pages[size / page]| == page
    ensures ValidEnd(page, size, size / page) == size % page
  {
    hide ChainOk, RecLen;
    assert PageOk(page, size, pages[size / page], size / page);
    assert size == size / page * page + size % page;
  }

  /** Where the pages end when the directory has grown by a block. */
  lemma EndsAfter(page: nat, block: nat, count: nat, size: nat)
    requires SizeOk(page, block, count, size)
    ensures
      var index, offset := size / page, size % page;
      && 0 <= index && SizeOk(page, block, index + 1, size + block)
      && ValidEnd(page, size + block, index) == offset + block
      && forall i: nat :: i < index ==> ValidEnd(page, size + block, i) == ValidEnd(page, size, i) == page
  {
    hide RecLen;
    var index, offset := size / page, size % page;
    ModBelow(size, page);
    assert size == index * page + offset;
    BlockInPage(page, block, size);
    MulDistribute(index, 1, page);
    ModAdd(size, block, block);
    forall i: nat | i < index ensures ValidEnd(page, size + block, i) == ValidEnd(page, size, i) == page {
      FullBefore(page, size, index, i);
      FullBefore(page, size + block, index, i);
    }
  }

  lemma FullBefore(page: nat, size: nat, index: nat, i: nat)
    requires page > 0 && index * page <= size && i < index
    ensures ValidEnd(page, size, i) == page
  {
    MulOrder(i + 1, index, page);
    MulDistribute(i, 1, page);
  }

  /** The pairs of the pages before the last one stay, and the last page has one more. */
  lemma LastPairs(page: nat, size: nat, size': nat, pages: seq<seq<byte>>, ps': seq<seq<byte>>, index: nat,
                  was: seq<Pair>, x: Pair)
    requires index <= |pages| <= index + 1 == |ps'| && ps'[..index] == pages[..index]
    requires forall i: nat :: i < index ==> ValidEnd(page, size', i) == ValidEnd(page, size, i)
    requires PagePairs(ps'[index], ValidEnd(page, size', index)) == was + [x]
    requires if index < |pages| then PagePairs(pages[index], ValidEnd(page, size, index)) == was else was == []
    ensures AllPairs(page, size', ps') == AllPairs(page, size, pages) + [x]
  {
    hide ValidEnd, PagePairs;
    AllSame(page, size, size', pages[..index]);
    var all := AllPairs(page, size, pages[..index]);
    assert index == |pages| ==> pages[..index] == pages;
    assert all + (was + [x]) == all + was + [x];
  }
}
