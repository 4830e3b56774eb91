/**
 Every interleaving of the page allocator's critical sections, as a transition system.

 Each action is one section run under the buddy lock or under one CPU's list lock.  What an action does
 to the free lists is stated through the set of free pages only; that the lists themselves are then
 determined is proved below.
 */
module AllocatorRuns {
  import opened Arithmetic
  import opened BlockGeometry
  import opened Buddy
  import opened UniqueLists
  import opened Options

  /** One CPU's page list.  `draining`: a free pushed it over `high` and still holds its lock. */
  datatype CpuList = CpuList(list: seq<nat>, high: nat, batch: nat, draining: bool)

  datatype State = State(free: set<Block>, pcp: seq<CpuList>, live: set<Block>)

  datatype Action =
    | BuddyAlloc(order: nat, got: Option<nat>)
    | BuddyFree(block: Block)
    | Pop(cpu: nat)
    | Refill(cpu: nat)
    | Push(cpu: nat, page: nat)
    | Drain(cpu: nat)
    | Configure(cpu: nat, newHigh: nat, newBatch: nat)

  ghost predicate Merged(free: set<Block>) {
    Tiling(free) && NoBuddies(free)
  }

  ghost function PcpPages(pcp: seq<CpuList>): set<nat> {
    if pcp == [] then {} else PcpPages(pcp[..|pcp| - 1]) + Elems(pcp[|pcp| - 1].list)
  }

  /** No page is twice on the CPU lists. */
  ghost predicate PcpDistinct(pcp: seq<CpuList>) {
    && (forall c :: 0 <= c < |pcp| ==> NoDup(pcp[c].list))
    && (forall c, d :: 0 <= c < d < |pcp| ==> Elems(pcp[c].list) !! Elems(pcp[d].list))
  }

  predicate CpuBounds(p: CpuList) {
    && 1 <= p.batch <= p.high
    && (if p.draining then |p.list| == p.high + 1 else |p.list| <= p.high)
  }

  /** Free blocks, CPU lists and live blocks split up the managed pages, and the free blocks are merged. */
  ghost predicate Partition(s: State, managed: set<nat>) {
    && Merged(s.free) && Tiling(s.live) && PcpDistinct(s.pcp)
    && Cover(s.free) !! PcpPages(s.pcp) !! Cover(s.live)
    && Cover(s.free) + PcpPages(s.pcp) + Cover(s.live) == managed
  }

  ghost predicate Inv(s: State, managed: set<nat>) {
    && Partition(s, managed)
    && (forall c :: 0 <= c < |s.pcp| ==> CpuBounds(s.pcp[c]))
  }

  ghost predicate Next(s: State, s': State, a: Action) {
    && (a.Pop? || a.Refill? || a.Push? || a.Drain? || a.Configure? ==> a.cpu < |s.pcp|)
    && match a
       case BuddyAlloc(order, got) => NextAlloc(s, s', order, got)
       case BuddyFree(b) =>
         && b in s.live && s'.live == s.live - {b} && s'.pcp == s.pcp
         && Merged(s'.free) && Cover(s'.free) == Cover(s.free) + b.Pages()
       case Pop(cpu) =>
         var p := s.pcp[cpu];
         && !p.draining && p.list != []
         && s' == State(s.free, s.pcp[cpu := p.(list := p.list[1..])], s.live + {Block(p.list[0], 0)})
       case Refill(cpu) => NextRefill(s, s', cpu)
       case Push(cpu, page) =>
         var p := s.pcp[cpu];
         && !p.draining && Block(page, 0) in s.live
         && s' == State(s.free,
                        s.pcp[cpu := p.(list := [page] + p.list, draining := |p.list| + 1 > p.high)],
                        s.live - {Block(page, 0)})
       case Drain(cpu) =>
         var p := s.pcp[cpu];
         && p.draining
         && NextDrain(s, s', cpu, if p.batch <= |p.list| then p.batch else |p.list|, p.(draining := false))
       case Configure(cpu, high, batch) =>
         var p := s.pcp[cpu];
         && !p.draining && 1 <= batch <= high
         && NextDrain(s, s', cpu, |p.list|, p.(high := high, batch := batch))
  }

  ghost predicate NextAlloc(s: State, s': State, order: nat, got: Option<nat>) {
    match got
    case None => s' == s && (order >= MAX_ORDER || !HasRun(Cover(s.free), order))
    case Some(p) =>
      var b := Block(p, order);
      && order < MAX_ORDER && b.Aligned() && b.Pages() <= Cover(s.free)
      && Merged(s'.free) && Cover(s'.free) == Cover(s.free) - b.Pages()
      && s'.pcp == s.pcp && s'.live == s.live + {b}
  }

  /** pcp_refill on an empty list: up to `batch` single pages, fewer only when none is left. */
  ghost predicate NextRefill(s: State, s': State, cpu: nat)
    requires cpu < |s.pcp|
  {
    var p, q := s.pcp[cpu], (if cpu < |s'.pcp| then s'.pcp[cpu].list else []);
    && !p.draining && p.list == []
    && s'.pcp == s.pcp[cpu := p.(list := q)] && s'.live == s.live
    && NoDup(q) && Elems(q) <= Cover(s.free)
    && Merged(s'.free) && Cover(s'.free) == Cover(s.free) - Elems(q)
    && |q| <= p.batch && (|q| < p.batch ==> Cover(s'.free) == {})
  }

  /** pcp_drain of the first `n` pages; `p` is the list's record with its other fields updated. */
  ghost predicate NextDrain(s: State, s': State, cpu: nat, n: nat, p: CpuList)
    requires cpu < |s.pcp| && n <= |p.list|
  {
    && s'.pcp == s.pcp[cpu := p.(list := p.list[n..])] && s'.live == s.live
    && Merged(s'.free) && Cover(s'.free) == Cover(s.free) + Elems(p.list[..n])
  }

  // ---------------------------------------------------------------- page sets of the CPU lists

  lemma {:induction false} PcpPagesAt(pcp: seq<CpuList>, p: nat)
    ensures p in PcpPages(pcp) <==> exists c :: 0 <= c < |pcp| && p in Elems(pcp[c].list)
  {
    if pcp != [] {
      var n := |pcp| - 1;
      PcpPagesAt(pcp[..n], p);
      if p in PcpPages(pcp) && p !in Elems(pcp[n].list) {
        var c :| 0 <= c < n && p in Elems(pcp[..n][c].list);
        assert p in Elems(pcp[c].list);
      }
      if c :| 0 <= c < |pcp| && p in Elems(pcp[c].list) {
        assert c < n ==> p in Elems(pcp[..n][c].list);
      }
    }
  }

  /** Replacing one CPU's list by one with `out` removed and `into` added. */
  lemma PcpPagesUpdate(pcp: seq<CpuList>, cpu: nat, q: CpuList)
    requires cpu < |pcp| && PcpDistinct(pcp)
    requires NoDup(q.list)
    requires Elems(q.list) - Elems(pcp[cpu].list) !! PcpPages(pcp)
    ensures PcpDistinct(pcp[cpu := q])
    ensures PcpPages(pcp[cpu := q]) == PcpPages(pcp) - Elems(pcp[cpu].list) + Elems(q.list)
  {
    var pcp' := pcp[cpu := q];
    forall c | 0 <= c < |pcp| && c != cpu ensures Elems(pcp[c].list) !! Elems(q.list) {
      forall p | p in Elems(pcp[c].list) ensures p !in Elems(q.list) {
        PcpPagesAt(pcp, p);
      }
    }
    forall p ensures p in PcpPages(pcp') <==> p in PcpPages(pcp) - Elems(pcp[cpu].list) + Elems(q.list) {
      PcpPagesAt(pcp, p);
      PcpPagesAt(pcp', p);
      if p in Elems(q.list) {
        assert p in Elems(pcp'[cpu].list);
      }
      if c :| 0 <= c < |pcp| && p in Elems(pcp[c].list) {
        assert c != cpu ==> p in Elems(pcp'[c].list);
      }
      if c :| 0 <= c < |pcp'| && p in Elems(pcp'[c].list) {
        assert c != cpu ==> p in Elems(pcp[c].list);
      }
    }
  }

  // ---------------------------------------------------------------- one action

  lemma PageBlock(p: nat)
    ensures Block(p, 0).Pages() == {p} && Block(p, 0).Aligned()
  {
    var b := Block(p, 0);
    assert Pow2(0) == 1;
    forall q: nat ensures q in b.Pages() <==> q == p {
      assert b.Has(q) <==> q == p;
    }
  }

  lemma AllocKeepsInv(s: State, s': State, order: nat, got: Option<nat>, managed: set<nat>)
    requires Inv(s, managed) && NextAlloc(s, s', order, got)
    ensures Inv(s', managed)
  {
    if got.Some? {
      hide Merged, Tiling, Cover, PcpDistinct, PcpPages, Block.Aligned, Block.Pages;
      TilingAdd(s.live, Block(got.value, order));
      CoverAdd(s.live, Block(got.value, order));
    }
  }

  lemma FreeKeepsInv(s: State, s': State, b: Block, managed: set<nat>)
    requires Inv(s, managed) && Next(s, s', BuddyFree(b))
    ensures Inv(s', managed)
  {
    hide Merged, Tiling, Cover, PcpDistinct, PcpPages, Block.Aligned, Block.Pages;
    TakeOut(s.live, b);
  }

  lemma PopKeepsInv(s: State, s': State, cpu: nat, managed: set<nat>)
    requires Inv(s, managed) && Next(s, s', Pop(cpu))
    ensures Inv(s', managed)
  {
    var p := s.pcp[cpu];
    HeadAndTail(p.list);
    PcpPagesAt(s.pcp, p.list[0]);
    ListInPcp(s.pcp, cpu);
    hide Merged, Tiling, Cover, PcpDistinct, PcpPages, Block.Aligned, Block.Pages;
    PcpPagesUpdate(s.pcp, cpu, p.(list := p.list[1..]));
    PageBlock(p.list[0]);
    TilingAdd(s.live, Block(p.list[0], 0));
    CoverAdd(s.live, Block(p.list[0], 0));
  }

  lemma ListInPcp(pcp: seq<CpuList>, cpu: nat)
    requires cpu < |pcp|
    ensures Elems(pcp[cpu].list) <= PcpPages(pcp)
  {
    forall p | p in Elems(pcp[cpu].list) ensures p in PcpPages(pcp) {
      PcpPagesAt(pcp, p);
    }
  }

  lemma PushKeepsInv(s: State, s': State, cpu: nat, page: nat, managed: set<nat>)
    requires Inv(s, managed) && Next(s, s', Push(cpu, page))
    ensures Inv(s', managed)
  {
    var p := s.pcp[cpu];
    var q := p.(list := [page] + p.list, draining := |p.list| + 1 > p.high);
    ListInPcp(s.pcp, cpu);
    PageBlock(page);
    TakeOut(s.live, Block(page, 0));
    PushElems(page, p.list);
    hide Merged, Tiling, Cover, PcpDistinct, PcpPages, Block.Aligned, Block.Pages;
    PcpPagesUpdate(s.pcp, cpu, q);
  }

  /** One page moves from the free blocks to the front of a CPU list. */
  lemma PageToList(s: State, s': State, cpu: nat, page: nat, managed: set<nat>)
    requires Partition(s, managed) && cpu < |s.pcp| && page in Cover(s.free)
    requires s'.live == s.live && s'.pcp == s.pcp[cpu := s.pcp[cpu].(list := [page] + s.pcp[cpu].list)]
    requires Merged(s'.free) && Cover(s'.free) == Cover(s.free) - {page}
    ensures Partition(s', managed) && PcpPages(s'.pcp) == PcpPages(s.pcp) + {page}
    ensures NoDup(s'.pcp[cpu].list) && Elems(s'.pcp[cpu].list) == Elems(s.pcp[cpu].list) + {page}
  {
    var q := s'.pcp[cpu];
    ListInPcp(s.pcp, cpu);
    PushElems(page, s.pcp[cpu].list);
    hide Merged, Tiling, Cover, PcpDistinct, PcpPages, Block.Aligned, Block.Pages;
    PcpPagesUpdate(s.pcp, cpu, q);
  }

  /** The front page of a CPU list moves to the free blocks. */
  lemma PageToFree(s: State, s': State, cpu: nat, managed: set<nat>)
    requires Partition(s, managed) && cpu < |s.pcp| && s.pcp[cpu].list != []
    requires s'.live == s.live && s'.pcp == s.pcp[cpu := s.pcp[cpu].(list := s.pcp[cpu].list[1..])]
    requires Merged(s'.free) && Cover(s'.free) == Cover(s.free) + {s.pcp[cpu].list[0]}
    ensures Partition(s', managed) && PcpPages(s'.pcp) == PcpPages(s.pcp) - {s.pcp[cpu].list[0]}
  {
    var p := s.pcp[cpu];
    HeadAndTail(p.list);
    ListInPcp(s.pcp, cpu);
    hide Merged, Tiling, Cover, PcpDistinct, PcpPages, Block.Aligned, Block.Pages;
    PcpPagesUpdate(s.pcp, cpu, s'.pcp[cpu]);
  }

  lemma PushElems(page: nat, list: seq<nat>)
    requires page !in Elems(list) && NoDup(list)
    ensures NoDup([page] + list) && Elems([page] + list) == Elems(list) + {page}
  {
    var q := [page] + list;
    forall x | x in Elems(list) ensures x in Elems(q) {
      var i :| 0 <= i < |list| && list[i] == x;
      assert q[i + 1] == x;
    }
    assert q[0] == page;
    assert forall i :: 0 <= i < |list| ==> list[i] in Elems(list);
  }

  lemma RefillKeepsInv(s: State, s': State, cpu: nat, managed: set<nat>)
    requires Inv(s, managed) && Next(s, s', Refill(cpu))
    ensures Inv(s', managed)
  {
    var p := s.pcp[cpu];
    var q := p.(list := s'.pcp[cpu].list);
    assert Elems(p.list) == {};
    hide Merged, Tiling, Cover, PcpDistinct, PcpPages, Block.Aligned, Block.Pages;
    PcpPagesUpdate(s.pcp, cpu, q);
  }

  lemma SplitList(list: seq<nat>, n: nat)
    requires NoDup(list) && n <= |list|
    ensures NoDup(list[n..]) && Elems(list[..n]) !! Elems(list[n..])
    ensures Elems(list) == Elems(list[..n]) + Elems(list[n..])
  {
    forall x | x in Elems(list) ensures x in Elems(list[..n]) || x in Elems(list[n..]) {
      var i :| 0 <= i < |list| && list[i] == x;
      if i < n {
        assert list[..n][i] == x;
      } else {
        assert list[n..][i - n] == x;
      }
    }
  }

  lemma DrainKeepsInv(s: State, s': State, cpu: nat, n: nat, p: CpuList, managed: set<nat>)
    requires Inv(s, managed) && cpu < |s.pcp| && p.list == s.pcp[cpu].list && n <= |p.list|
    requires NextDrain(s, s', cpu, n, p) && CpuBounds(p.(list := p.list[n..]))
    ensures Inv(s', managed)
  {
    var q := p.(list := p.list[n..]);
    SplitList(p.list, n);
    ListInPcp(s.pcp, cpu);
    hide Merged, Tiling, Cover, PcpDistinct, PcpPages, Block.Aligned, Block.Pages;
    PcpPagesUpdate(s.pcp, cpu, q);
  }

  /** Every critical section keeps the partition of the managed pages and the merged free lists. */
  lemma NextKeepsInv(s: State, s': State, a: Action, managed: set<nat>)
    requires Inv(s, managed) && Next(s, s', a)
    ensures Inv(s', managed)
  {
    match a
    case BuddyAlloc(order, got) => AllocKeepsInv(s, s', order, got, managed);
    case BuddyFree(b) => FreeKeepsInv(s, s', b, managed);
    case Pop(cpu) => PopKeepsInv(s, s', cpu, managed);
    case Refill(cpu) => RefillKeepsInv(s, s', cpu, managed);
    case Push(cpu, page) => PushKeepsInv(s, s', cpu, page, managed);
    case Drain(cpu) =>
      var p := s.pcp[cpu];
      DrainKeepsInv(s, s', cpu, p.batch, p.(draining := false), managed);
    case Configure(cpu, high, batch) =>
      var p := s.pcp[cpu];
      DrainKeepsInv(s, s', cpu, |p.list|, p.(high := high, batch := batch), managed);
  }

  // ---------------------------------------------------------------- whole runs

  ghost predicate Run(trace: seq<State>, acts: seq<Action>) {
    && |trace| == |acts| + 1
    && (forall i :: 0 <= i < |acts| ==> Next(trace[i], trace[i + 1], acts[i]))
  }

  lemma {:induction false} RunKeepsInv(trace: seq<State>, acts: seq<Action>, managed: set<nat>, k: nat)
    requires Run(trace, acts) && Inv(trace[0], managed) && k < |trace|
    ensures Inv(trace[k], managed)
  {
    if k > 0 {
      RunKeepsInv(trace, acts, managed, k - 1);
      NextKeepsInv(trace[k - 1], trace[k], acts[k - 1], managed);
    }
  }

  /** At every point of every run the free blocks are the maximal blocks of the free pages. */
  lemma FreeListsCanonical(trace: seq<State>, acts: seq<Action>, managed: set<nat>, k: nat)
    requires Run(trace, acts) && Inv(trace[0], managed) && k < |trace|
    ensures forall b :: b in trace[k].free <==> Maximal(b, managed - PcpPages(trace[k].pcp) - Cover(trace[k].live))
  {
    RunKeepsInv(trace, acts, managed, k);
    var s := trace[k];
    assert managed - PcpPages(s.pcp) - Cover(s.live) == Cover(s.free);
    CanonicalForm(s.free);
  }

  /** Freeing everything and draining every list restores the blocks of the run's first idle state. */
  lemma IdleStatesAgree(trace: seq<State>, acts: seq<Action>, managed: set<nat>, j: nat, k: nat)
    requires Run(trace, acts) && Inv(trace[0], managed) && j < |trace| && k < |trace|
    requires trace[j].live == {} && PcpPages(trace[j].pcp) == {}
    requires trace[k].live == {} && PcpPages(trace[k].pcp) == {}
    ensures trace[j].free == trace[k].free
  {
    RunKeepsInv(trace, acts, managed, j);
    RunKeepsInv(trace, acts, managed, k);
    assert Cover({}) == {};
    EqualPagesEqualBlocks(trace[j].free, trace[k].free);
  }

  function PcpCount(pcp: seq<CpuList>): nat {
    if pcp == [] then 0 else PcpCount(pcp[..|pcp| - 1]) + |pcp[|pcp| - 1].list|
  }

  lemma {:induction false} PcpPagesCount(pcp: seq<CpuList>)
    requires PcpDistinct(pcp)
    ensures |PcpPages(pcp)| == PcpCount(pcp)
  {
    if pcp != [] {
      var n := |pcp| - 1;
      PcpPagesCount(pcp[..n]);
      ElemsCount(pcp[n].list);
      forall p | p in PcpPages(pcp[..n]) ensures p !in Elems(pcp[n].list) {
        PcpPagesAt(pcp[..n], p);
        var c :| 0 <= c < n && p in Elems(pcp[..n][c].list);
        assert p in Elems(pcp[c].list);
      }
      assert PcpPages(pcp[..n]) !! Elems(pcp[n].list);
    }
  }

  /** Conservation: free, cached and live pages always add up to the managed pages. */
  lemma PagesConserved(trace: seq<State>, acts: seq<Action>, managed: set<nat>, k: nat)
    requires Run(trace, acts) && Inv(trace[0], managed) && k < |trace|
    ensures |Cover(trace[k].free)| + PcpCount(trace[k].pcp) + |Cover(trace[k].live)| == |managed|
    ensures forall c :: 0 <= c < |trace[k].pcp| && !trace[k].pcp[c].draining
                        ==> |trace[k].pcp[c].list| <= trace[k].pcp[c].high
  {
    RunKeepsInv(trace, acts, managed, k);
    var s := trace[k];
    PcpPagesCount(s.pcp);
    assert |Cover(s.free) + PcpPages(s.pcp)| == |Cover(s.free)| + |PcpPages(s.pcp)|;
    assert |Cover(s.free) + PcpPages(s.pcp) + Cover(s.live)| == |Cover(s.free) + PcpPages(s.pcp)| + |Cover(s.live)|;
  }
}
