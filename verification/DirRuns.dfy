/** New directories, and runs of the directory operations on them (fs/ext2/ext2_dir.c). */
module DirRuns {
  import opened Arithmetic
  import opened Bytes
  import opened DirBlocks
  import opened DirEntries
  import opened DirPage
  import opened DirScan
  import opened Directory
  import opened Options

  const DOT: seq<byte> := [46]
  const DOTDOT: seq<byte> := [46, 46]

  /** The page ext2_init_dot_entries writes. */
  function DotPage(page: nat, block: nat, ino: nat, parent: nat): seq<byte>
    requires 36 <= block <= page < 0x10000 && ino < 0x1_0000_0000 && parent < 0x1_0000_0000
  {
    InitEntry(InitEntry(ZeroBytes(page), 0, ino, 12, 2, DOT), 12, parent, block - 12, 2, DOTDOT)
  }

  lemma DotEntries(page: nat, block: nat, ino: nat, parent: nat)
    requires 36 <= block <= page < 0x10000 && 0 < ino < 0x1_0000_0000 && 0 < parent < 0x1_0000_0000
    ensures
      var p := DotPage(page, block, ino, parent);
      && |p| == page && ChainOk(p, 0, block)
      && Chain(p, 0, block) == [Entry(0, ino, 12, 2, DOT), Entry(12, parent, block - 12, 2, DOTDOT)]
  {
    hide InitEntry, Chain, ChainOk, RecLen;
    DotLengths();
    var z := ZeroBytes(page);
    var q := InitEntry(z, 0, ino, 12, 2, DOT);
    var p := InitEntry(q, 12, parent, block - 12, 2, DOTDOT);
    InitReads(z, 0, ino, 12, 2, DOT);
    InitReads(q, 12, parent, block - 12, 2, DOTDOT);
    assert EntryOk(q, 0, 12) && EntryAt(q, 0) == Entry(0, ino, 12, 2, DOT);
    EntrySame(q, p, 0, 12);
    assert EntryOk(p, 12, block) && EntryAt(p, 12) == Entry(12, parent, block - 12, 2, DOTDOT);
    assert EntryOk(p, 0, block);
    ChainNil(p, block);
    ChainCons(p, 12, block);
    ChainCons(p, 0, block);
  }

  lemma DotLengths()
    ensures RecLen(1) == 12 && RecLen(2) == 12 && RecLen(200) == 208 && RecLen(255) == 264
  {
  }

  /** ext2_init_dot_entries: a new directory of one block. */
  method NewDir(page: nat, block: nat, ino: nat, parent: nat) returns (dir: Dir)
    requires RecLen(255) <= block <= page < 0x10000 && page % block == 0
    requires 0 < ino < 0x1_0000_0000 && 0 < parent < 0x1_0000_0000
    ensures fresh(dir) && dir.Valid() && dir.page == page && dir.block == block && dir.size == block
    ensures dir.Blocks() && dir.Lists() == [Dots(block, ino, parent)]
  {
    hide RecLen, ChainOk, Chain, DotPage;
    DotLengths();
    DotEntries(page, block, ino, parent);
    var p := DotPage(page, block, ino, parent);
    OneBlock(page, block, p);
    dir := new Dir(page, block, [p], block);
    assert dir.Lists() == [Dots(block, ino, parent)];
  }

  function Dots(block: nat, ino: nat, parent: nat): seq<Entry>
    requires block >= 12
  {
    [Entry(0, ino, 12, 2, DOT), Entry(12, parent, block - 12, 2, DOTDOT)]
  }

  lemma OneBlock(page: nat, block: nat, p: seq<byte>)
    requires RecLen(255) <= block <= page < 0x10000 && page % block == 0 && |p| == page && ChainOk(p, 0, block)
    ensures DirOk(page, block, [p], block) && BlocksOk(page, block, [p], block) && ValidEnd(page, block, 0) == block
  {
    hide RecLen, ChainOk;
    assert block % block == 0 by {
      MultipleMod(1, block);
    }
    ChainNil(p, 0);
    forall b: nat | b <= block && b % block == 0 ensures ChainOk(p, 0, b) {
      if 0 < b < block {
        MultiplesApart(0, b, block);
      }
    }
    assert PageOk(page, block, p, 0);
    assert PageBlocks(page, block, block, p, 0);
  }

  // ---------------------------------------------------------------- a block full of long names

  /** The k-th name of 255 bytes. */
  function Long(k: nat): (name: seq<byte>)
    requires k < 256
    ensures |name| == 255 && name[0] == k
  {
    seq(255, _ => k)
  }

  /** All entries but the last of a new directory's first block with k long names. */
  function Front(k: nat, ino: nat): seq<Entry>
    requires k < 256
  {
    if k == 0 then [Entry(0, ino, 12, 2, DOT)]
    else
      [Entry(0, ino, 12, 2, DOT), Entry(12, ino, 12, 2, DOTDOT)] +
      seq(k - 1, j requires 0 <= j < k - 1 => Entry(24 + 264 * j, ino, 264, 1, Long(j + 1)))
  }

  /** The last one, which has the rest of the block. */
  function Last(k: nat, block: nat, ino: nat): Entry
    requires k < 256 && 24 + 264 * k <= block
  {
    if k == 0 then Entry(12, ino, block - 12, 2, DOTDOT)
    else Entry(24 + 264 * (k - 1), ino, block - 24 - 264 * (k - 1), 1, Long(k))
  }

  lemma FrontFull(k: nat, ino: nat, n: nat)
    requires k < 256 && ino > 0 && 200 <= n
    ensures AllUsed(Front(k, ino)) && AllTooSmall(Front(k, ino), n)
  {
    hide RecLen;
    DotLengths();
    LongerNeedsMore(n);
  }

  lemma LongerNeedsMore(n: nat)
    requires 200 <= n
    ensures RecLen(n) >= 208
  {
  }

  lemma OneMoreName(k: nat, block: nat, ino: nat)
    requires k + 1 < 256 && ino > 0 && 24 + 264 * (k + 1) <= block
    ensures Insert(Front(k, ino) + [Last(k, block, ino)], ino, 1, Long(k + 1)) ==
            Some(Front(k + 1, ino) + [Last(k + 1, block, ino)])
  {
    hide RecLen, Insert, Front, Last, Long, Share, TooSmall;
    var e, name := Last(k, block, ino), Long(k + 1);
    FrontFull(k, ino, 255);
    LastShared(k, block, ino);
    InsertAt(Front(k, ino), e, [], ino, 1, name);
    assert Front(k, ino) + [e] + [] == Front(k, ino) + [e];
    FrontGrows(k, ino);
    var s := Share(e, ino, 1, name);
    assert Front(k, ino) + s + [] == Front(k, ino) + [s[0]] + [Last(k + 1, block, ino)];
  }

  /** The last entry has room for one more name, and gives up all it does not need. */
  lemma LastShared(k: nat, block: nat, ino: nat)
    requires k + 1 < 256 && ino > 0 && 24 + 264 * (k + 1) <= block
    ensures
      var e := Last(k, block, ino);
      && !TooSmall(e, 255) && |Long(k + 1)| == 255
      && Share(e, ino, 1, Long(k + 1)) == [FullEntry(k, ino), Last(k + 1, block, ino)]
  {
    hide RecLen;
    DotLengths();
  }

  /** Entry k + 1 of the block once another one is behind it. */
  function FullEntry(k: nat, ino: nat): Entry
    requires k < 256
  {
    if k == 0 then Entry(12, ino, 12, 2, DOTDOT) else Entry(24 + 264 * (k - 1), ino, 264, 1, Long(k))
  }

  lemma FrontGrows(k: nat, ino: nat)
    requires k + 1 < 256
    ensures Front(k, ino) + [FullEntry(k, ino)] == Front(k + 1, ino)
  {
    hide Long;
  }

  /** ext2_add_entry of n long names that fit into the first block. */
  method LongNames(page: nat, block: nat, n: nat) returns (dir: Dir)
    requires RecLen(255) <= block <= page < 0x10000 && page % block == 0 && n < 256 && 24 + 264 * n <= block
    ensures fresh(dir) && dir.Valid() && dir.page == page && dir.block == block && dir.size == block
    ensures dir.Blocks() && dir.Lists() == [Front(n, 2) + [Last(n, block, 2)]]
  {
    hide RecLen, DirOk, BlocksOk, Insert, Grown, Front, Last, Long, AllPairs, Entries, Added;
    FirstNames(block);
    dir := NewDir(page, block, 2, 2);
    var k := 0;
    while k < n
      invariant 0 <= k <= n && fresh(dir) && dir.Valid() && dir.page == page && dir.block == block && dir.size == block
      invariant dir.Blocks() && dir.Lists() == [Front(k, 2) + [Last(k, block, 2)]]
    {
      OneMoreName(k, block, 2);
      assert |dir.Lists()| == 1 && dir.Lists()[0] == Front(k, 2) + [Last(k, block, 2)];
      ghost var i := dir.AddEntry(Long(k + 1), 2, 1);
      k := k + 1;
    }
  }

  lemma FirstNames(block: nat)
    requires 24 <= block
    ensures Dots(block, 2, 2) == Front(0, 2) + [Last(0, block, 2)]
  {
  }

  // ---------------------------------------------------------------- an entry that straddles a block boundary

  /**
   * Three long names fill the first block of 1024 bytes, so the fourth gets the second one. When it is deleted, the
   * third entry takes over that whole block.
   */
  method DeleteStraddles() returns (dir: Dir)
    ensures fresh(dir) && dir.Valid() && dir.page == 4096 && dir.block == 1024 && !dir.Blocks()
  {
    hide RecLen, DirOk, BlocksOk, Insert, Erase, Front, Last, Long, AllPairs, Entries, Added, Removed, FirstNamed,
         Absent;
    DotLengths();
    dir := LongNames(4096, 1024, 3);
    ghost var chain := dir.Lists()[0];
    NoMoreLong();
    ghost var i := dir.AddEntry(Long(4), 2, 1);
    assert dir.Lists() == [chain + [Entry(1024, 2, 1024, 1, Long(4))]];
    FourthIsThere(dir, chain);
    EraseFourth(chain);
    var r, j, at := dir.Delete(Long(4));
    assert j == 0 && dir.Lists() == [Front(3, 2) + [Last(3, 1024, 2).(rec := 1496)]];
    NoStart(dir);
  }

  lemma NoMoreLong()
    ensures Insert(Front(3, 2) + [Last(3, 1024, 2)], 2, 1, Long(4)).None?
  {
    hide RecLen, Insert, GivenUp;
    DotLengths();
    FrontFull(3, 2, 255);
    assert TooSmall(Last(3, 1024, 2), 255);
    OneMore(Front(3, 2), Last(3, 1024, 2), 255);
    var c := Front(3, 2) + [Last(3, 1024, 2)];
    NoneSmall(255);
    SmallJoin(c, [], 255);
    assert c + [] == c;
    InsertNone(c, 2, 1, Long(4));
  }

  /** The fourth name is in the directory, so the deletion finds it. */
  lemma FourthIsThere(dir: Dir, chain: seq<Entry>)
    requires dir.Valid() && dir.Lists() == [chain + [Entry(1024, 2, 1024, 1, Long(4))]]
    ensures !Absent(dir.Contents(), Long(4))
  {
    hide RecLen, Pairs, ChainOk, Chain, Long;
    var e := Entry(1024, 2, 1024, 1, Long(4));
    PageAt(dir.page, dir.block, dir.pages, dir.size, 0);
    EntriesChange(dir.page, dir.size, dir.pages, 0, dir.pages[0]);
    hide DirOk, Entries;
    assert dir.Lists()[0] == chain + [e];
    PairsJoin(chain, [e]);
    PairsOne(e);
    AbsentJoin(Pairs(chain), PairsOf(e), Long(4));
    assert PairsOf(e)[0].name == Long(4);
    assert dir.pages[..0] == [];
    var none := AllPairs(dir.page, dir.size, []);
    assert AllPairs(dir.page, dir.size, dir.pages) == none + PagePairs(dir.pages[0], ValidEnd(dir.page, dir.size, 0));
    AbsentJoin(none, PagePairs(dir.pages[0], ValidEnd(dir.page, dir.size, 0)), Long(4));
  }

  lemma EraseFourth(chain: seq<Entry>)
    requires chain == Front(3, 2) + [Last(3, 1024, 2)]
    ensures Erase(chain + [Entry(1024, 2, 1024, 1, Long(4))], Long(4)) ==
            Some(Front(3, 2) + [Last(3, 1024, 2).(rec := 1496)])
  {
    hide Erase;
    var pre, e, f := Front(3, 2), Last(3, 1024, 2), Entry(1024, 2, 1024, 1, Long(4));
    forall i | 0 <= i < |chain| ensures !Named(chain[i], Long(4)) {
    }
    EraseAt(pre, e, f, [], Long(4));
    assert pre + [e, f] + [] == chain + [f];
    assert pre + [e.(rec := e.rec + f.rec)] + [] == pre + [e.(rec := 1496)];
  }

  /** No entry begins at the second block. */
  lemma NoStart(dir: Dir)
    requires dir.Valid() && dir.page == 4096 && dir.block == 1024 && dir.size == 2048
    requires dir.Lists() == [Front(3, 2) + [Last(3, 1024, 2).(rec := 1496)]]
    ensures !dir.Blocks()
  {
    hide RecLen, ChainOk, Chain, Front, Last, Starts, DirOk, Entries, BlocksOk, PageEntries;
    PageAt(dir.page, dir.block, dir.pages, dir.size, 0);
    EntriesChange(dir.page, dir.size, dir.pages, 0, dir.pages[0]);
    assert dir.Lists()[0] == Front(3, 2) + [Last(3, 1024, 2).(rec := 1496)];
    Offsets();
    StartsMeans(dir.pages[0], 0, 2048, 1024);
    SecondBlock(dir);
  }

  lemma Offsets()
    ensures !Starts(Front(3, 2) + [Last(3, 1024, 2).(rec := 1496)], 1024)
  {
    var c := Front(3, 2) + [Last(3, 1024, 2).(rec := 1496)];
    assert forall i :: 0 <= i < |c| ==> c[i].off < 1024;
  }

  lemma SecondBlock(dir: Dir)
    requires |dir.pages| == 1 && dir.page == 4096 && dir.block == 1024 && dir.size == 2048
    ensures dir.Blocks() ==> ChainOk(dir.pages[0], 0, 1024)
  {
    hide ChainOk;
    if dir.Blocks() {
      assert PageBlocks(4096, 1024, 2048, dir.pages[0], 0);
    }
  }

  // ---------------------------------------------------------------- room that is given up

  /** A name of 200 bytes. */
  function Medium(): (name: seq<byte>)
    ensures |name| == 200
  {
    seq(200, _ => 77)
  }

  /** The second page with the medium name deleted, and one long name behind it. */
  function Behind(): seq<Entry> {
    [Entry(0, 0, 208, 0, []), Entry(208, 2, 3888, 1, Long(16))]
  }

  /**
   * Fifteen long names fill the first block of 4096 bytes. A shorter one and a long one get the second block, and the
   * shorter one is deleted. The next long name gets a third block, although 3624 bytes of the second are free.
   */
  method RoomGivenUp() returns (dir: Dir)
    ensures fresh(dir) && dir.Valid() && dir.page == dir.block == 4096 && dir.size == 12288
    ensures |dir.Lists()| == 3 && dir.Lists()[1] == Behind() && !TooSmall(Behind()[1], 255)
    ensures dir.Lists()[2] == [Entry(0, 2, 4096, 1, Long(17))]
  {
    dir := SecondPage();
    ghost var es := dir.Lists();
    hide RecLen, DirOk, BlocksOk, Insert, Front, Last, Long, AllPairs, Entries, Added, Behind;
    FullPage(Long(17));
    BehindGivesUp();
    ghost var i := dir.AddEntry(Long(17), 2, 1);
  }

  method SecondPage() returns (dir: Dir)
    ensures fresh(dir) && dir.Valid() && dir.page == dir.block == 4096 && dir.size == 8192
    ensures dir.Lists() == [Front(15, 2) + [Last(15, 4096, 2)], Behind()]
  {
    hide RecLen, DirOk, BlocksOk, Insert, Erase, Front, Last, Long, AllPairs, Entries, Added, Removed, FirstNamed,
         Absent, Medium, Behind;
    DotLengths();
    dir := LongNames(4096, 4096, 15);
    ghost var full := Front(15, 2) + [Last(15, 4096, 2)];
    FullPage(Medium());
    assert dir.Lists()[0] == full;
    ghost var i := dir.AddEntry(Medium(), 2, 1);
    AloneInPage(full, dir.Lists(), Medium());
    assert dir.Lists() == [full, [Entry(0, 2, 4096, 1, Medium())]];
    FullPage(Long(16));
    SecondName();
    assert dir.Lists()[0] == full && dir.Lists()[1] == [Entry(0, 2, 4096, 1, Medium())];
    i := dir.AddEntry(Long(16), 2, 1);
    assert dir.Lists() == [full, [Entry(0, 2, 208, 1, Medium()), Entry(208, 2, 3888, 1, Long(16))]];
    MediumIsThere(dir, full);
    EraseMedium(full);
    var r, j, at := dir.Delete(Medium());
    assert j == 1;
  }

  lemma AloneInPage(full: seq<Entry>, es: seq<seq<Entry>>, name: seq<byte>)
    requires Grown([full], es, 4096, 4096, 4096, 2, 1, name)
    ensures es == [full, [Entry(0, 2, 4096, 1, name)]]
  {
    assert [full][..1] == [full];
    assert es == [full] + [[] + [Entry(0, 2, 4096, 1, name)]];
    assert [] + [Entry(0, 2, 4096, 1, name)] == [Entry(0, 2, 4096, 1, name)];
  }

  lemma FullPage(name: seq<byte>)
    requires 200 <= |name| < 256
    ensures Insert(Front(15, 2) + [Last(15, 4096, 2)], 2, 1, name).None?
  {
    hide RecLen, Insert, GivenUp;
    DotLengths();
    var n := |name|;
    FrontFull(15, 2, n);
    LongerNeedsMore(n);
    assert TooSmall(Last(15, 4096, 2), n);
    OneMore(Front(15, 2), Last(15, 4096, 2), n);
    var c := Front(15, 2) + [Last(15, 4096, 2)];
    NoneSmall(n);
    SmallJoin(c, [], n);
    assert c + [] == c;
    InsertNone(c, 2, 1, name);
  }

  lemma SecondName()
    ensures Insert([Entry(0, 2, 4096, 1, Medium())], 2, 1, Long(16)) ==
            Some([Entry(0, 2, 208, 1, Medium()), Entry(208, 2, 3888, 1, Long(16))])
  {
    hide RecLen;
    DotLengths();
    var e := Entry(0, 2, 4096, 1, Medium());
    assert Share(e, 2, 1, Long(16)) == [Entry(0, 2, 208, 1, Medium()), Entry(208, 2, 3888, 1, Long(16))];
    assert [e][1..] == [];
    assert Share(e, 2, 1, Long(16)) + [] == Share(e, 2, 1, Long(16));
  }

  lemma MediumIsThere(dir: Dir, full: seq<Entry>)
    requires dir.Valid() && dir.Lists() == [full, [Entry(0, 2, 208, 1, Medium()), Entry(208, 2, 3888, 1, Long(16))]]
    ensures !Absent(dir.Contents(), Medium())
  {
    hide RecLen, Pairs, ChainOk, Chain, Long, Medium;
    var e, f := Entry(0, 2, 208, 1, Medium()), Entry(208, 2, 3888, 1, Long(16));
    PageAt(dir.page, dir.block, dir.pages, dir.size, 1);
    EntriesChange(dir.page, dir.size, dir.pages, 1, dir.pages[1]);
    hide DirOk, Entries;
    assert dir.Lists()[1] == [e, f];
    PairsTwo(e, f);
    AbsentJoin(PairsOf(e), PairsOf(f), Medium());
    assert PairsOf(e)[0].name == Medium();
    var before := AllPairs(dir.page, dir.size, dir.pages[..1]);
    var here := PagePairs(dir.pages[1], ValidEnd(dir.page, dir.size, 1));
    assert AllPairs(dir.page, dir.size, dir.pages) == before + here;
    AbsentJoin(before, here, Medium());
  }

  lemma EraseMedium(full: seq<Entry>)
    requires full == Front(15, 2) + [Last(15, 4096, 2)]
    ensures Erase(full, Medium()).None?
    ensures Erase([Entry(0, 2, 208, 1, Medium()), Entry(208, 2, 3888, 1, Long(16))], Medium()) == Some(Behind())
  {
    EraseNone(full, Medium());
    var c := [Entry(0, 2, 208, 1, Medium()), Entry(208, 2, 3888, 1, Long(16))];
    assert [Entry(0, 0, 208, 0, [])] + c[1..] == Behind();
  }

  lemma BehindGivesUp()
    ensures Insert(Behind(), 2, 1, Long(17)).None? && !TooSmall(Behind()[1], 255)
  {
    hide RecLen;
    DotLengths();
  }
}
