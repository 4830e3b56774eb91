/** Naturally aligned power-of-two page blocks, and sets of them that tile page sets. */
module BlockGeometry {
  import opened Arithmetic

  const MAX_ORDER: nat := 11

  /** The block of 2^order pages whose first page is `pfn`. */
  datatype Block = Block(pfn: nat, order: nat) {
    function End(): nat { pfn + Pow2(order) }

    predicate Aligned() { pfn % Pow2(order) == 0 }

    predicate Has(p: nat) { pfn <= p < End() }

    ghost function Pages(): set<nat> { set p: nat | p < End() && Has(p) }

    predicate Contains(b: Block) { pfn <= b.pfn && b.End() <= End() }

    predicate Apart(b: Block) { End() <= b.pfn || b.End() <= pfn }

    /** The sibling block: `pfn ^ (1 << order)`. */
    function Buddy(): Block { Block(BuddyPfn(pfn, order), order) }

    /** The block of the next order that holds this one. */
    function Parent(): Block { Block(AlignDown(pfn, Pow2(order + 1)), order + 1) }
  }

  /** Flips bit `order` of `pfn`; that bit is set exactly when the remainder below is >= 2^order. */
  function BuddyPfn(pfn: nat, order: nat): nat {
    ModBelow(pfn, Pow2(order + 1));
    if pfn % Pow2(order + 1) < Pow2(order) then pfn + Pow2(order) else pfn - Pow2(order)
  }

  // ---------------------------------------------------------------- geometry of one or two blocks

  lemma ModPow2Down(x: int, lo: nat, hi: nat)
    requires lo <= hi && x % Pow2(hi) == 0
    ensures x % Pow2(lo) == 0
  {
    Pow2Divides(lo, hi);
    ModTransitive(x, Pow2(hi), Pow2(lo));
  }

  /** Two aligned blocks are either apart or nested. */
  lemma Nesting(b: Block, c: Block)
    requires b.Aligned() && c.Aligned() && b.order <= c.order && !b.Apart(c)
    ensures c.Contains(b)
  {
    var s := Pow2(b.order);
    ModPow2Down(c.pfn, b.order, c.order);
    Pow2Divides(b.order, c.order);
    ModAdd(c.pfn, Pow2(c.order), s);
    MultiplesApart(b.pfn, c.End(), s);
    if b.pfn < c.pfn {
      MultiplesApart(b.pfn, c.pfn, s);
      assert false;
    }
  }

  /** The remainder of an aligned block's first page in its parent: it is one of the two halves. */
  lemma WhichHalf(b: Block)
    requires b.Aligned()
    ensures b.pfn % Pow2(b.order + 1) in {0, Pow2(b.order)}
  {
    var s, d := Pow2(b.order), Pow2(b.order + 1);
    AlignFacts(b.pfn, d);
    ModPow2Down(AlignDown(b.pfn, d), b.order, b.order + 1);
    ModAdd(b.pfn, AlignDown(b.pfn, d), s);
    var m := b.pfn % d;
    if 0 < m {
      MultipleMod(1, s);
      MultiplesApart(0, m, s);
      if s < m {
        MultiplesApart(s, m, s);
        assert false;
      }
    }
  }

  /** A block and its buddy are the two halves of their common parent. */
  lemma Halves(b: Block)
    requires b.Aligned()
    ensures b.Buddy().Aligned() && b.Parent().Aligned()
    ensures b.Buddy() != b && b.Buddy().Buddy() == b && b.Buddy().Parent() == b.Parent()
    ensures b.Parent().pfn == (if b.pfn < b.Buddy().pfn then b.pfn else b.Buddy().pfn)
    ensures b.Parent().End() == (if b.pfn < b.Buddy().pfn then b.Buddy().End() else b.End())
    ensures if b.pfn < b.Buddy().pfn then b.End() == b.Buddy().pfn else b.Buddy().End() == b.pfn
  {
    var s, d := Pow2(b.order), Pow2(b.order + 1);
    WhichHalf(b);
    AlignFacts(b.pfn, d);
    MultipleMod(1, s);
    ModAdd(b.pfn, s, s);
    ModOffset(AlignDown(b.pfn, d), 0, d);
    ModOffset(AlignDown(b.pfn, d), s, d);
  }

  /** The two halves a split produces. */
  lemma SplitHalves(b: Block)
    requires b.Aligned() && b.order > 0
    ensures var lo := Block(b.pfn, b.order - 1);
            lo.Aligned() && lo.Parent() == b && lo.Buddy() == Block(b.pfn + Pow2(b.order - 1), b.order - 1)
  {
    ModPow2Down(b.pfn, b.order - 1, b.order);
  }

  /** A containing block of at most the same order is the block itself. */
  lemma SameSize(c: Block, b: Block)
    requires c.Contains(b) && c.order <= b.order
    ensures c == b
  {
    Pow2Monotone(c.order, b.order);
  }

  lemma BiggerContains(c: Block, b: Block)
    requires c.Contains(b)
    ensures b.order <= c.order
  {
    if c.order < b.order {
      Pow2Monotone(c.order, b.order);
      assert false;
    }
  }

  // ---------------------------------------------------------------- sets of blocks

  ghost predicate Shaped(blocks: set<Block>) {
    forall b :: b in blocks ==> b.Aligned() && b.order < MAX_ORDER
  }

  ghost predicate Disjoint(blocks: set<Block>) {
    forall b, c :: b in blocks && c in blocks && b != c ==> b.Apart(c)
  }

  ghost predicate Tiling(blocks: set<Block>) {
    Shaped(blocks) && Disjoint(blocks)
  }

  ghost function Cover(blocks: set<Block>): set<nat> {
    set b, p | b in blocks && p in b.Pages() :: p
  }

  /** No two free buddies of the same order are left unmerged. */
  ghost predicate NoBuddies(blocks: set<Block>) {
    forall b :: b in blocks && b.order < MAX_ORDER - 1 ==> b.Buddy() !in blocks
  }

  /** `b` is a largest aligned block (of an order the allocator has) inside the page set `free`. */
  ghost predicate Maximal(b: Block, free: set<nat>) {
    && b.Aligned() && b.order < MAX_ORDER
    && b.Pages() <= free
    && (b.order < MAX_ORDER - 1 ==> !(b.Parent().Pages() <= free))
  }

  /** The block an aligned run of free pages lies in: a tiling without buddies never cuts it. */
  lemma {:induction false} RunInOneBlock(blocks: set<Block>, b: Block) returns (c: Block)
    requires Tiling(blocks) && NoBuddies(blocks)
    requires b.Aligned() && b.order < MAX_ORDER && b.Pages() <= Cover(blocks)
    ensures c in blocks && c.Contains(b)
    decreases b.order
  {
    if b.order == 0 {
      assert b.Has(b.pfn);
      assert b.pfn in Cover(blocks);
      c :| c in blocks && b.pfn in c.Pages();
      assert c.Has(b.pfn);
    } else {
      SplitHalves(b);
      var lo := Block(b.pfn, b.order - 1);
      var hi := lo.Buddy();
      Halves(lo);
      assert lo.Pages() <= b.Pages() && hi.Pages() <= b.Pages() by {
        assert forall p: nat :: lo.Has(p) || hi.Has(p) ==> b.Has(p);
      }
      var cl := RunInOneBlock(blocks, lo);
      var ch := RunInOneBlock(blocks, hi);
      c := cl;
      if cl.order >= b.order {
        Nesting(b, cl);
      } else if ch.order >= b.order {
        c := ch;
        Nesting(b, ch);
      } else {
        BiggerContains(cl, lo);
        SameSize(cl, lo);
        BiggerContains(ch, hi);
        SameSize(ch, hi);
        assert false;
      }
    }
  }

  lemma BlockIsMaximal(blocks: set<Block>, b: Block)
    requires Tiling(blocks) && NoBuddies(blocks) && b in blocks
    ensures Maximal(b, Cover(blocks))
  {
    if b.order < MAX_ORDER - 1 && b.Parent().Pages() <= Cover(blocks) {
      Halves(b);
      var c := RunInOneBlock(blocks, b.Parent());
      BiggerContains(c, b.Parent());
      assert false;
    }
  }

  lemma ContainedPages(blocks: set<Block>, c: Block, b: Block)
    requires c in blocks && c.Contains(b)
    ensures b.Pages() <= Cover(blocks)
  {
    forall p | p in b.Pages() ensures p in Cover(blocks) {
      assert b.Has(p) && c.Has(p) && p in c.Pages();
    }
  }

  lemma MaximalIsBlock(blocks: set<Block>, b: Block)
    requires Tiling(blocks) && NoBuddies(blocks) && Maximal(b, Cover(blocks))
    ensures b in blocks
  {
    var c := RunInOneBlock(blocks, b);
    BiggerContains(c, b);
    if c.order == b.order {
      SameSize(c, b);
    } else {
      Halves(b);
      Nesting(b.Parent(), c);
      ContainedPages(blocks, c, b.Parent());
      assert false;
    }
  }

  /** Canonical form: the blocks of a merged tiling are exactly the maximal blocks of its page set. */
  lemma CanonicalForm(blocks: set<Block>)
    requires Tiling(blocks) && NoBuddies(blocks)
    ensures forall b :: b in blocks <==> Maximal(b, Cover(blocks))
  {
    forall b ensures b in blocks <==> Maximal(b, Cover(blocks)) {
      if b in blocks {
        BlockIsMaximal(blocks, b);
      } else if Maximal(b, Cover(blocks)) {
        MaximalIsBlock(blocks, b);
        assert false;
      }
    }
  }

  /** History independence: equal free page sets give equal free blocks. */
  lemma EqualPagesEqualBlocks(x: set<Block>, y: set<Block>)
    requires Tiling(x) && NoBuddies(x) && Tiling(y) && NoBuddies(y)
    requires Cover(x) == Cover(y)
    ensures x == y
  {
    CanonicalForm(x);
    CanonicalForm(y);
    assert forall b :: b in x <==> b in y;
  }

  // ---------------------------------------------------------------- changing a tiling

  lemma ApartIsDisjoint(b: Block, c: Block)
    ensures b.Apart(c) <==> b.Pages() !! c.Pages()
  {
    if !b.Apart(c) {
      var p := if b.pfn < c.pfn then c.pfn else b.pfn;
      assert b.Has(p) && c.Has(p);
      assert p in b.Pages() && p in c.Pages();
    } else {
      assert forall p: nat :: !(b.Has(p) && c.Has(p));
    }
  }

  lemma CoverAdd(blocks: set<Block>, b: Block)
    ensures Cover(blocks + {b}) == Cover(blocks) + b.Pages()
  {
    forall p ensures p in Cover(blocks + {b}) <==> p in Cover(blocks) || p in b.Pages() {
      if p in b.Pages() {
        assert b in blocks + {b};
      }
    }
  }

  lemma CoverRemove(blocks: set<Block>, b: Block)
    requires Disjoint(blocks) && b in blocks
    ensures Cover(blocks - {b}) == Cover(blocks) - b.Pages()
    ensures b.Pages() <= Cover(blocks)
  {
    forall c | c in blocks && c != b ensures c.Pages() !! b.Pages() {
      ApartIsDisjoint(c, b);
    }
  }

  lemma ParentPages(b: Block)
    requires b.Aligned()
    ensures b.Parent().Pages() == b.Pages() + b.Buddy().Pages()
    ensures b.Pages() !! b.Buddy().Pages()
  {
    Halves(b);
    var c, m := b.Buddy(), b.Parent();
    forall p: nat ensures p in m.Pages() <==> p in b.Pages() || p in c.Pages() {
      assert m.Has(p) <==> b.Has(p) || c.Has(p);
    }
    ApartIsDisjoint(b, c);
  }

  /** A block whose pages are all uncovered can join a tiling. */
  lemma TilingAdd(blocks: set<Block>, b: Block)
    requires Tiling(blocks) && b.Aligned() && b.order < MAX_ORDER
    requires b.Pages() !! Cover(blocks)
    ensures Tiling(blocks + {b}) && b !in blocks
  {
    forall c | c in blocks ensures b.Apart(c) && c != b {
      assert c.Pages() <= Cover(blocks);
      ApartIsDisjoint(b, c);
      assert b.Has(b.pfn);
    }
  }

  lemma NoBuddiesAdd(x: set<Block>, c: Block)
    requires NoBuddies(x) && Shaped(x) && c.Aligned()
    requires c.order < MAX_ORDER - 1 ==> c.Buddy() !in x
    ensures NoBuddies(x + {c})
  {
    Halves(c);
    forall b | b in x ensures b.Buddy() == c ==> b == c.Buddy() {
      Halves(b);
    }
  }

  lemma TilingSubset(x: set<Block>, y: set<Block>)
    requires Tiling(x) && y <= x
    ensures Tiling(y)
    ensures NoBuddies(x) ==> NoBuddies(y)
  {
  }

  /** Splitting a block of a tiling into its halves `lo` and `lo.Buddy()`. */
  lemma SplitTiling(before: set<Block>, whole: Block, rest: set<Block>, lo: Block)
    requires Tiling(before) && whole in before && whole.order > 0
    requires rest == before - {whole} && NoBuddies(rest)
    requires lo == Block(whole.pfn, whole.order - 1)
    ensures Tiling(rest) && Tiling(rest + {lo.Buddy()}) && Tiling(rest + {lo.Buddy()} + {lo})
    ensures Cover(rest + {lo.Buddy()} + {lo}) == Cover(before)
    ensures NoBuddies(rest + {lo.Buddy()} + {lo} - {lo.Buddy()})
    ensures lo.Buddy() == Block(whole.pfn + Pow2(lo.order), lo.order)
    ensures lo.pfn in Cover(before) && lo.pfn !in Cover(rest + {lo.Buddy()})
    ensures lo.Buddy().pfn in Cover(before) && lo.Buddy().pfn !in Cover(rest)
  {
    SplitHalves(whole);
    Halves(lo);
    ParentPages(lo);
    CoverRemove(before, whole);
    TilingSubset(before, rest);
    TilingAdd(rest, lo.Buddy());
    CoverAdd(rest, lo.Buddy());
    TilingAdd(rest + {lo.Buddy()}, lo);
    CoverAdd(rest + {lo.Buddy()}, lo);
    NoBuddiesAdd(rest, lo);
    assert rest + {lo.Buddy()} + {lo} - {lo.Buddy()} == rest + {lo};
    assert lo.Has(lo.pfn) && lo.Buddy().Has(lo.Buddy().pfn);
  }

  /** Taking a free buddy out and growing the loose block `c` to their parent. */
  lemma MergeStep(free: set<Block>, c: Block, rest: set<Block>)
    requires Tiling(free) && NoBuddies(free) && c.Aligned() && c.Buddy() in free
    requires c.Pages() !! Cover(free) && rest == free - {c.Buddy()}
    ensures Tiling(rest) && NoBuddies(rest)
    ensures c.Parent().Aligned() && c.Parent().order == c.order + 1
    ensures c.Parent().pfn == (if c.pfn > c.Buddy().pfn then c.Buddy().pfn else c.pfn)
    ensures c.Parent().Pages() !! Cover(rest)
    ensures Cover(rest) + c.Parent().Pages() == Cover(free) + c.Pages()
    ensures c.Buddy().pfn in Cover(free)
  {
    Halves(c);
    ParentPages(c);
    CoverRemove(free, c.Buddy());
    TilingSubset(free, rest);
    assert c.Buddy().Has(c.Buddy().pfn);
  }

  /** Putting a loose block without a free buddy on the lists. */
  lemma PutBack(free: set<Block>, c: Block)
    requires Tiling(free) && NoBuddies(free) && c.Aligned() && c.order < MAX_ORDER
    requires c.Pages() !! Cover(free)
    requires c.order < MAX_ORDER - 1 ==> c.Buddy() !in free
    ensures Tiling(free + {c}) && NoBuddies(free + {c})
    ensures Cover(free + {c}) == Cover(free) + c.Pages()
    ensures c.pfn !in Cover(free)
  {
    NoBuddiesAdd(free, c);
    TilingAdd(free, c);
    CoverAdd(free, c);
    assert c.Has(c.pfn);
  }

  /** Taking a block off the lists. */
  lemma TakeOut(free: set<Block>, b: Block)
    requires Tiling(free) && b in free
    ensures Tiling(free - {b})
    ensures Cover(free - {b}) == Cover(free) - b.Pages()
    ensures b.Pages() <= Cover(free) && b.Aligned() && b.pfn in Cover(free)
    ensures NoBuddies(free) ==> NoBuddies(free - {b})
  {
    TilingSubset(free, free - {b});
    CoverRemove(free, b);
    assert b.Has(b.pfn);
  }

  /** No free buddies among the blocks of an order below `k`. */
  ghost predicate NoBuddiesBelow(blocks: set<Block>, k: nat) {
    forall b :: b in blocks && b.order < k ==> b.Buddy() !in blocks
  }

  /** Replacing two free buddies by their parent. */
  lemma MergePair(free: set<Block>, c: Block, after: set<Block>)
    requires Tiling(free) && c in free && c.Buddy() in free && c.order < MAX_ORDER - 1
    requires after == free - {c} - {c.Buddy()} + {c.Parent()}
    ensures Tiling(after) && Cover(after) == Cover(free)
    ensures c.Parent() !in free
    ensures NoBuddiesBelow(free, c.order) ==> NoBuddiesBelow(after, c.order)
    ensures c.Parent() == Block(if c.pfn < c.Buddy().pfn then c.pfn else c.Buddy().pfn, c.order + 1)
    ensures c.Parent().pfn in Cover(free)
  {
    Halves(c);
    ParentPages(c);
    TakeOut(free, c);
    TakeOut(free - {c}, c.Buddy());
    TilingAdd(free - {c} - {c.Buddy()}, c.Parent());
    CoverAdd(free - {c} - {c.Buddy()}, c.Parent());
    assert c.Has(c.pfn) && c.Buddy().Has(c.Buddy().pfn);
  }

  /** In an ascending list of aligned blocks, the buddy of the first element is the second. */
  lemma BuddyIsNext(list: seq<nat>, o: nat, i: nat, j: nat)
    requires i < |list| && j < |list| && list[j] == BuddyPfn(list[i], o)
    requires forall k :: 0 <= k < |list| ==> Block(list[k], o).Aligned()
    requires Ascending(list)
    requires i < j
    ensures j == i + 1 && list[i] < list[j]
  {
    Halves(Block(list[i], o));
    if i + 1 < j {
      MultiplesApart(list[i], list[i + 1], Pow2(o));
      assert false;
    }
  }

  predicate Ascending(list: seq<nat>) {
    forall i, j :: 0 <= i < j < |list| ==> list[i] < list[j]
  }
}
