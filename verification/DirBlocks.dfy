/** Where the entries of a directory page begin: do they respect its blocks (fs/ext2/ext2_dir.c)? */
module DirBlocks {
  import opened Arithmetic
  import opened Bytes
  import opened DirPage

  /** Every block boundary is a boundary between entries: each block is an exact chain of its own. */
  ghost predicate BlockChains(p: seq<byte>, end: nat, block: nat)
    requires block > 0
  {
    forall b: nat :: b <= end && b % block == 0 ==> ChainOk(p, 0, b)
  }

  /** So the entries of each block fill it exactly. */
  lemma EachBlock(p: seq<byte>, end: nat, block: nat, b: nat)
    requires block > 0 && BlockChains(p, end, block) && b % block == 0 && b + block <= end
    ensures ChainOk(p, b, b + block)
  {
    hide ChainOk;
    ModAdd(b, block, block);
    MultipleMod(1, block);
    ChainRest(p, 0, b, b + block);
  }

  lemma {:induction false} ChainRest(p: seq<byte>, o: nat, mid: nat, end: nat)
    requires ChainOk(p, o, mid) && ChainOk(p, o, end) && mid <= end
    ensures ChainOk(p, mid, end)
    decreases mid - o
  {
    if o < mid {
      ChainRest(p, o + RecAt(p, o), mid, end);
    }
  }

  // ---------------------------------------------------------------- where entries start

  ghost predicate Starts(chain: seq<Entry>, b: nat) {
    exists i :: 0 <= i < |chain| && chain[i].off == b
  }

  lemma StartsJoin(x: seq<Entry>, y: seq<Entry>, b: nat)
    ensures Starts(x + y, b) <==> Starts(x, b) || Starts(y, b)
  {
    if Starts(x, b) {
      var i :| 0 <= i < |x| && x[i].off == b;
      assert (x + y)[i].off == b;
    }
    if Starts(y, b) {
      var i :| 0 <= i < |y| && y[i].off == b;
      assert (x + y)[|x| + i].off == b;
    }
  }

  lemma StartsOne(e: Entry, b: nat)
    ensures Starts([e], b) <==> e.off == b
  {
    assert [e][0] == e;
  }

  lemma StartsTwo(e: Entry, f: Entry, b: nat)
    ensures Starts([e, f], b) <==> e.off == b || f.off == b
  {
    assert [e, f][0] == e && [e, f][1] == f;
  }

  /** An entry starts where the entries before it end. */
  lemma {:induction false} StartsMeans(p: seq<byte>, o: nat, end: nat, b: nat)
    requires ChainOk(p, o, end)
    ensures Starts(Chain(p, o, end), b) <==> o <= b < end && ChainOk(p, o, b)
    decreases end - o
  {
    if o < end {
      ChainHead(p, o, end);
      var next := o + RecAt(p, o);
      StartsMeans(p, next, end, b);
      StartsJoin([EntryAt(p, o)], Chain(p, next, end), b);
      StartsOne(EntryAt(p, o), b);
      ChainBounds(p, next, end);
    }
  }

  /** The boundaries of a page in which some entries have become others. */
  lemma BecameStarts(p: seq<byte>, p': seq<byte>, o: nat, next: nat, end: nat, was: seq<Entry>, is': seq<Entry>, b: nat)
    requires Became(p, p', o, next, end, was, is') && b < end
    ensures ChainOk(p, 0, b) <==> Starts(Chain(p, 0, o), b) || Starts(was, b) || Starts(Chain(p, next, end), b)
    ensures ChainOk(p', 0, b) <==> Starts(Chain(p, 0, o), b) || Starts(is', b) || Starts(Chain(p, next, end), b)
  {
    hide ChainOk, Chain, Starts;
    var pre, post := Chain(p, 0, o), Chain(p, next, end);
    StartsMeans(p, 0, end, b);
    StartsMeans(p', 0, end, b);
    StartsJoin(pre + was, post, b);
    StartsJoin(pre, was, b);
    StartsJoin(pre + is', post, b);
    StartsJoin(pre, is', b);
  }

  lemma BecameEnds(p: seq<byte>, p': seq<byte>, o: nat, next: nat, end: nat, was: seq<Entry>, is': seq<Entry>)
    requires Became(p, p', o, next, end, was, is')
    ensures ChainOk(p, 0, end) && ChainOk(p', 0, end) && ChainOk(p, 0, o) && ChainOk(p, next, end)
  {
  }

  /** No boundary is lost where an entry stays, or where one is added behind it. */
  lemma KeepsBlocks(p: seq<byte>, p': seq<byte>, o: nat, next: nat, end: nat, e: Entry, is': seq<Entry>, block: nat)
    requires block > 0 && Became(p, p', o, next, end, [e], is') && is' != [] && is'[0].off == e.off
    requires BlockChains(p, end, block)
    ensures BlockChains(p', end, block)
  {
    hide ChainOk, Chain, Became;
    BecameEnds(p, p', o, next, end, [e], is');
    forall b: nat | b <= end && b % block == 0 ensures ChainOk(p', 0, b) {
      assert ChainOk(p, 0, b);
      if b < end {
        BecameStarts(p, p', o, next, end, [e], is', b);
        StartsOne(e, b);
      }
    }
  }

  /** A page with the same boundaries. */
  lemma SameBlocks(p: seq<byte>, p': seq<byte>, o: nat, next: nat, end: nat, e: Entry, f: Entry, block: nat)
    requires block > 0 && Became(p, p', o, next, end, [e], [f]) && f.off == e.off
    ensures BlockChains(p', end, block) <==> BlockChains(p, end, block)
  {
    hide ChainOk, Chain, Became;
    BecameEnds(p, p', o, next, end, [e], [f]);
    forall b: nat | b <= end ensures ChainOk(p', 0, b) <==> ChainOk(p, 0, b) {
      if b < end {
        BecameStarts(p, p', o, next, end, [e], [f], b);
        StartsOne(e, b);
        StartsOne(f, b);
      }
    }
  }

  /** The boundary at o, and no other, is lost when the entry before it takes over its space. */
  lemma MergeBlocks(p: seq<byte>, p': seq<byte>, q: nat, o: nat, next: nat, end: nat, e: Entry, f: Entry, rec: nat,
                    block: nat)
    requires block > 0 && Became(p, p', q, next, end, [e, f], [e.(rec := rec)]) && e.off == q && f.off == o
    requires q < o < next <= end
    ensures BlockChains(p', end, block) <==> BlockChains(p, end, block) && o % block != 0
  {
    hide ChainOk, Chain, Became;
    BecameEnds(p, p', q, next, end, [e, f], [e.(rec := rec)]);
    forall b: nat | b <= end ensures ChainOk(p', 0, b) <==> ChainOk(p, 0, b) && b != o {
      if b < end {
        BecameStarts(p, p', q, next, end, [e, f], [e.(rec := rec)], b);
        StartsTwo(e, f, b);
        StartsOne(e.(rec := rec), b);
        NotBetween(p, q, next, end, o);
        hide Starts;
      }
    }
    assert ChainOk(p, 0, o) by {
      BecameStarts(p, p', q, next, end, [e, f], [e.(rec := rec)], o);
      StartsTwo(e, f, o);
    }
  }

  lemma NotBetween(p: seq<byte>, q: nat, next: nat, end: nat, o: nat)
    requires ChainOk(p, 0, q) && ChainOk(p, next, end) && q <= o < next
    ensures !Starts(Chain(p, 0, q), o) && !Starts(Chain(p, next, end), o)
  {
    StartsMeans(p, 0, q, o);
    StartsMeans(p, next, end, o);
  }
}
