/** What the form of the tables says about every run, and short runs that show where a property ends (mm/pgtbl.c). */
module PageTableRuns {
  import opened Arithmetic
  import opened Options
  import opened PageTable
  import opened PageTableForm
  import opened PageTableWalk

  /** Two tables translate alike exactly when they have the same form, whatever calls made them. */
  lemma SameMapSameForm(a: PgTable, b: PgTable)
    requires a.Valid() && b.Valid() && a.g == b.g
    ensures (forall v: nat :: v < a.g.Span(0) ==> Lookup(a.g, a.mem, a.root, v) == Lookup(a.g, b.mem, b.root, v)) <==>
            SameForm(a.g, a.mem, a.root, b.mem, b.root, 0)
  {
    hide Geometry.Span, Lookup, SameForm, NoneEmpty, NoneUniform, Tree;
    OneForm(a.g, a.mem, a.place, a.root, b.mem, b.place, b.root);
  }

  /** A range mapped where nothing was and unmapped again leaves the tables as they were: none stays behind. */
  method MapThenUnmap(t: PgTable, vaddr: nat, paddr: nat, size: nat, prot: nat, huge: bool) returns (ok: bool)
    requires t.Valid() && AlignDown(vaddr, t.g.page) + AlignUp(size, t.g.page) <= t.g.Span(0)
    requires NoneMapped(t.g, t.mem, t.root, AlignDown(vaddr, t.g.page), AlignUp(size, t.g.page))
    modifies t
    ensures t.Valid() && ok && SameForm(t.g, old(t.mem), t.root, t.mem, t.root, 0)
  {
    hide Geometry.Size, Geometry.Span, Lookup, SameForm, NoneEmpty, NoneUniform, Tree, Mapped, Unmapped, NoneMapped,
         PageAligned, Reach, InLeafAbove;
    TreeTables(t.g, t.mem, t.place, t.root);
    AlignFacts(size, t.g.page);
    ghost var before, beforePlace, root := t.mem, t.place, t.root;
    ghost var va, pa, n := AlignDown(vaddr, t.g.page), AlignDown(paddr, t.g.page), AlignUp(size, t.g.page);
    FreeRangeReached(t.g, before, root, va, pa, n, prot, huge, 0);
    ghost var done;
    ok, done := t.Map(vaddr, paddr, size, prot, huge);
    ghost var mid := t.mem;
    t.Unmap(vaddr, size, huge);
    MapUnmapSame(t.g, before, mid, t.mem, root, va, n, pa, prot);
    OneForm(t.g, before, beforePlace, root, t.mem, t.place, root);
  }

  lemma MapUnmapSame(g: Geometry, a: Memory, b: Memory, c: Memory, root: nat, va: nat, n: nat, pa: nat, prot: nat)
    requires g.Ok() && NoneMapped(g, a, root, va, n)
    requires Mapped(g, a, b, root, va, n, pa, prot) && Unmapped(g, b, c, root, va, n)
    ensures forall v: nat :: v < g.Span(0) ==> Lookup(g, a, root, v) == Lookup(g, c, root, v)
  {
    hide Geometry.Span, Lookup;
  }

  // ---------------------------------------------------------------- runs over two pages

  const SMALL := Geometry(2, 2, 4096)

  lemma Small()
    ensures SMALL.Ok() && SMALL.Size(1) == 4096 && SMALL.Size(0) == 8192 && SMALL.Span(0) == 16384
  {
    assert SMALL.Size(1) == 4096;
    assert SMALL.Size(0) == 8192;
  }

  lemma SmallIndex()
    ensures SMALL.Index(0, 0) == 0 && SMALL.Index(0, 4096) == 0 && SMALL.Index(1, 0) == 0 && SMALL.Index(1, 4096) == 1
  {
    Small();
    hide Geometry.Size;
  }

  lemma Aligned(k: nat, d: nat)
    requires d > 0
    ensures k * d >= 0 && AlignDown(k * d, d) == k * d && AlignUp(k * d, d) == k * d
  {
    MultipleMod(k, d);
    AlignFacts(k * d, d);
    AlignedAlready(k * d, d);
    hide AlignUp, AlignDown;
    if AlignUp(k * d, d) > k * d {
      MultiplesApart(k * d, AlignUp(k * d, d), d);
      assert false;
    }
  }

  lemma PagesAligned()
    ensures AlignDown(0, 4096) == 0 && AlignDown(4096, 4096) == 4096 && AlignDown(8192, 4096) == 8192
    ensures AlignDown(12288, 4096) == 12288 && AlignUp(4096, 4096) == 4096 && AlignUp(8192, 4096) == 8192
  {
    hide AlignUp, AlignDown;
    Aligned(0, 4096);
    Aligned(1, 4096);
    Aligned(2, 4096);
    Aligned(3, 4096);
  }

  method MapOne(t: PgTable, va: nat, pa: nat)
    requires t.Valid() && t.g == SMALL && va in {0, 4096} && pa in {4096, 8192, 12288}
    requires NoneMapped(t.g, t.mem, t.root, va, 4096)
    modifies t
    ensures t.Valid() && Mapped(t.g, old(t.mem), t.mem, t.root, va, 4096, pa, 1)
    ensures PageAligned(t.g, old(t.mem), t.root) ==> PageAligned(t.g, t.mem, t.root)
  {
    hide Geometry.Size, Geometry.Span, Geometry.Index, Mapped, Lookup, AlignDown, AlignUp, PgTable.Valid, Reach,
         PageAligned, NoneMapped, InLeafAbove;
    Small();
    PagesAligned();
    FreeRangeReached(t.g, t.mem, t.root, va, pa, 4096, 1, false, 0);
    var _, _ := t.Map(va, pa, 4096, 1, false);
  }

  /** Page 0 translates to 4096, page 1 to pa. */
  ghost predicate TwoMapped(mem: Memory, root: nat, pa: nat) {
    forall v: nat :: v < 8192 ==>
      Lookup(SMALL, mem, root, v) == Some(Target(if v < 4096 then 4096 + v else pa + (v - 4096), 1))
  }

  method TwoPages(pa: nat) returns (t: PgTable)
    requires pa in {8192, 12288}
    ensures fresh(t) && t.Valid() && t.g == SMALL && PageAligned(t.g, t.mem, t.root) && TwoMapped(t.mem, t.root, pa)
  {
    hide Geometry.Size, Geometry.Span, Geometry.Index, Mapped, Lookup, PgTable.Valid, PageAligned, NoneMapped,
         TwoMapped;
    t := new PgTable(SMALL);
    ghost var empty := t.mem;
    NothingMapped(empty, t.root, 0);
    MapOne(t, 0, 4096);
    ghost var one := t.mem;
    FirstMapped(empty, one, t.root);
    MapOne(t, 4096, pa);
    BothMapped(empty, one, t.mem, t.root, pa);
  }

  lemma NothingMapped(mem: Memory, root: nat, va: nat)
    requires SMALL.Ok() && forall v :: Lookup(SMALL, mem, root, v) == None
    ensures PageAligned(SMALL, mem, root) && NoneMapped(SMALL, mem, root, va, 4096)
  {
    hide Lookup, Geometry.Span;
  }

  lemma FirstMapped(empty: Memory, one: Memory, root: nat)
    requires SMALL.Ok() && (forall v :: Lookup(SMALL, empty, root, v) == None)
    requires Mapped(SMALL, empty, one, root, 0, 4096, 4096, 1)
    ensures NoneMapped(SMALL, one, root, 4096, 4096)
  {
    Small();
    hide Lookup, Geometry.Span, Geometry.Size;
  }

  lemma BothMapped(empty: Memory, one: Memory, two: Memory, root: nat, pa: nat)
    requires SMALL.Ok() && Mapped(SMALL, empty, one, root, 0, 4096, 4096, 1)
    requires Mapped(SMALL, one, two, root, 4096, 4096, pa, 1)
    ensures TwoMapped(two, root, pa)
  {
    Small();
    hide Lookup, Geometry.Span, Geometry.Size;
  }

  /** Two pages that map and merge into one leaf whose address is no multiple of its size. */
  method MergedLeafUnaligned() returns (t: PgTable)
    ensures fresh(t) && t.Valid() && t.g == SMALL && t.g.Size(0) == 8192
    ensures t.root in t.mem && t.mem[t.root] != [] && t.mem[t.root][0] == Leaf(4096, 1)
  {
    hide Geometry.Size, Geometry.Span, Geometry.Index, Lookup, PgTable.Valid, PageAligned, TwoMapped;
    t := TwoPages(8192);
    Small();
    MergedIntoRoot(t);
  }

  lemma MergedIntoRoot(t: PgTable)
    requires t.Valid() && t.g == SMALL && TwoMapped(t.mem, t.root, 8192)
    ensures t.root in t.mem && t.mem[t.root] != [] && t.mem[t.root][0] == Leaf(4096, 1)
  {
    Small();
    SmallIndex();
    hide Geometry.Size, Geometry.Span, Geometry.Index, CanMerge, GoodPlace, HasParent;
    assert Lookup(SMALL, t.mem, t.root, 0) == Some(Target(4096, 1));
    assert Lookup(SMALL, t.mem, t.root, 4096) == Some(Target(8192, 1));
    match t.mem[t.root][0]
    case Leaf(pa, prot) =>
    case Invalid =>
    case Table(c) => LastLevel(t.mem, c);
  }

  /** A table of the last level with these two translations needs a merge. */
  lemma LastLevel(mem: Memory, c: nat)
    requires c in mem && |mem[c]| == 2
    requires Translate(SMALL, mem, c, 1, 0) == Some(Target(4096, 1))
    requires Translate(SMALL, mem, c, 1, 4096) == Some(Target(8192, 1))
    ensures CanMerge(SMALL, mem[c], 1)
  {
    Small();
    SmallIndex();
    hide Geometry.Size, Geometry.Span, Geometry.Index;
    assert mem[c][0] == Leaf(4096, 1) && mem[c][1] == Leaf(8192, 1);
  }

  /** Two pages at scattered addresses: reprotecting both moves the second one. */
  method ScatteredPages() returns (t: PgTable, ghost before: Memory)
    ensures fresh(t) && t.Valid() && t.g == SMALL && TwoMapped(before, t.root, 12288)
    ensures Lookup(t.g, t.mem, t.root, 4096) == Some(Target(8192, 3))
    ensures !Reprotected(t.g, before, t.mem, t.root, 0, 8192, 3)
  {
    hide Geometry.Size, Geometry.Span, Geometry.Index, Mapped, Lookup, AlignDown, AlignUp, PgTable.Valid, PageAligned,
         AllMapped, Consecutive, Reprotected, TwoMapped;
    t := TwoPages(12288);
    Small();
    PagesAligned();
    before := t.mem;
    Scattered(before, t.root);
    var _ := t.Remap(0, 8192, 3, false);
    Moved(before, t.mem, t.root);
  }

  lemma Scattered(mem: Memory, root: nat)
    requires SMALL.Ok() && TwoMapped(mem, root, 12288)
    ensures AllMapped(SMALL, mem, root, 0, 8192) && !Consecutive(SMALL, mem, root, 0, 8192, 4096)
    ensures Lookup(SMALL, mem, root, 0) == Some(Target(4096, 1))
  {
    hide Lookup;
    assert Lookup(SMALL, mem, root, 4096).value.pa == 12288;
  }

  lemma Moved(two: Memory, three: Memory, root: nat)
    requires SMALL.Ok() && Mapped(SMALL, two, three, root, 0, 8192, 4096, 3)
    ensures Lookup(SMALL, three, root, 4096) == Some(Target(8192, 3))
  {
    Small();
    hide Lookup, Geometry.Span, Geometry.Size;
  }

  /** Mapping a range whose last page is mapped already: the merge of the first page is in the way of the second. */
  method StoppedByMerge() returns (t: PgTable, ok: bool, ghost done: nat)
    ensures fresh(t) && t.Valid() && t.g == SMALL
    ensures !ok && done == 4096
  {
    hide Geometry.Size, Geometry.Span, Geometry.Index, Mapped, Lookup, AlignDown, AlignUp, PgTable.Valid, PageAligned,
         NoneMapped, Reach, InLeafAbove;
    t := new PgTable(SMALL);
    Small();
    PagesAligned();
    ghost var empty := t.mem;
    NothingMapped(empty, t.root, 4096);
    MapOne(t, 4096, 8192);
    StopsAtSecond(empty, t.mem, t.root);
    ok, done := t.Map(0, 4096, 8192, 1, false);
  }

  lemma StopsAtSecond(empty: Memory, one: Memory, root: nat)
    requires SMALL.Ok() && (forall v :: Lookup(SMALL, empty, root, v) == None)
    requires Mapped(SMALL, empty, one, root, 4096, 4096, 8192, 1)
    ensures Reach(SMALL, one, root, 0, 4096, 8192, 1, false, 0) == 4096
  {
    Small();
    hide Geometry.Size, Geometry.Span, Lookup, AlignDown, Reach;
    Aligned(0, 8192);
    SecondInFirst();
    ReachStep(SMALL, one, root, 0, 4096, 8192, 1, false, 0);
    ReachStep(SMALL, one, root, 0, 4096, 8192, 1, false, 4096);
    assert !OneLeafOver(SMALL, one, root, 0, 0, 4096, 1, 0);
    assert OneLeafOver(SMALL, one, root, 0, 4096, 4096, 1, 0);
  }

  lemma SecondInFirst()
    ensures AlignDown(4096, 8192) == 0
  {
    assert 4096 % 8192 == 4096;
  }
}
