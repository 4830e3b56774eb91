/** kmem_cache: the critical sections and the per-CPU layer over them (mm/slab.c). */
module SlabCache {
  import opened Arithmetic
  import opened Options
  import opened Slab
  import opened SlabRuns
  import opened UniqueLists

  class KmemCache {
    const g: Geometry
    /** The first word of the free objects. */
    var next: map<nat, nat>
    /** The headers of the pages that carry the slab magic. */
    var slabs: map<nat, Header>
    var lists: SlabLists
    var total: nat
    /** The used part of each CPU's object array. */
    var mags: seq<seq<nat>>
    var limit: nat
    var batch: nat
    /** The contents of the free lists, and the place of every object. */
    ghost var chains: map<nat, seq<nat>>
    ghost var place: map<nat, Place>

    constructor (g: Geometry, cpus: nat)
      requires g.Valid()
      ensures Valid() && this.g == g && View() == State({}, map[]) && mags == seq(cpus, _ => [])
      ensures total == 0 && limit == MAG_SIZE && batch == MAG_SIZE / 2
    {
      this.g := g;
      next, slabs, lists, total := map[], map[], SlabLists([], [], []), 0;
      mags := seq(cpus, _ => []);
      limit, batch := MAG_SIZE, MAG_SIZE / 2;
      chains, place := map[], map[];
    }

    ghost predicate Valid()
      reads this
    {
      && CoreOk(g, next, slabs, lists, total, chains, place, mags)
      && Bounded(mags, limit) && 0 < batch <= limit <= MAG_SIZE
    }

    ghost function View(): State
      reads this`slabs, this`place
    {
      State(slabs.Keys, place)
    }

    // ---------------------------------------------------------------- sections under the cache lock

    /** __kmem_cache_alloc_locked: a free object of a partial slab, or of an idle one; none of its checks can fail. */
    method AllocLocked() returns (r: Outcome<Option<nat>>)
      requires Valid()
      modifies this`slabs, this`lists, this`chains, this`place
      ensures Valid() && r.Normal?
      ensures r.value.None? <==> NoneFree(old(place))
      ensures r.value.None? ==> View() == old(View())
      ensures r.value.Some? ==> Next(g, old(View()), View(), Take(r.value.value))
    {
      hide CoreOk, Bounded, Geometry.Valid, Geometry.IsSlot, NoneFree, Next;
      TakeCore(g, next, slabs, lists, total, chains, place, mags);
      var ls := lists;
      if ls.partial == [] {
        if ls.idle == [] {
          return Normal(None);
        }
        var node := ls.idle[0];
        ls := ls.(idle := ls.idle[1..]);
        ls := ls.(partial := [node] + ls.partial);
      }
      var b := ls.partial[0];
      var h := slabs[b];
      var obj := h.head;
      if obj == 0 {
        return Panic;
      }
      if !ObjIsValid(g, b, obj) {
        return Panic;
      }
      if !ObjIsValid(g, b, next[obj]) {
        return Panic;
      }
      if h.inuse + 1 >= g.count {
        ls := ls.Del(b).Add(FullSlab, b);
      }
      slabs, lists := slabs[b := Header(next[obj], h.inuse + 1)], ls;
      chains, place := chains[b := chains[b][1..]], place[obj := Live];
      return Normal(Some(obj));
    }

    /** slab_obj_is_free: the walk along the free list meets only objects of the slab, and ends. */
    method ObjIsFree(b: nat, obj: nat) returns (r: Outcome<bool>)
      requires Valid() && b in slabs
      ensures r == Normal(obj in chains[b])
    {
      ghost var s := chains[b];
      assert SlabOk(g, next, slabs[b], s, place, b);
      Positive(g);
      hide CoreOk, Bounded, Geometry.Valid, Geometry.IsSlot, SlabOk;
      var cur, seen := slabs[b].head, 0;
      ChainBegins(g, next, slabs[b], s, place, b);
      while cur != 0
        invariant seen <= |s| <= g.count && Chain(next, cur, s[seen..]) && obj !in s[..seen]
        decreases |s| - seen
      {
        ChainStep(g, next, slabs[b], s, place, b, seen, cur);
        if !ObjIsValid(g, b, cur) {
          return Panic;
        }
        if cur == obj {
          return Normal(true);
        }
        seen := seen + 1;
        if seen > g.count {
          return Panic;
        }
        cur := next[cur];
      }
      assert s[..seen] == s;
      return Normal(false);
    }

    /**
     * __kmem_cache_free_locked: the object goes back to its slab, and a slab without objects in use leaves
     * the cache; the value is its page. The checks fail exactly if the object is not handed out.
     */
    method FreeLocked(obj: nat) returns (r: Outcome<Option<nat>>)
      requires Valid() && (obj in place ==> !place[obj].Magazine?)
      modifies this`next, this`slabs, this`lists, this`total, this`chains, this`place
      ensures Valid()
      ensures r.Panic? <==> obj != 0 && !(obj in old(place) && old(place)[obj] == Live)
      ensures r.Panic? || obj == 0 ==> View() == old(View())
      ensures obj == 0 ==> r == Normal(None)
      ensures r.Normal? && obj != 0 ==>
        && g.Base(obj) in old(slabs) && Next(g, old(View()), View(), Return(obj))
        && r.value == if g.Base(obj) in slabs then None else Some(g.Base(obj))
    {
      hide CoreOk, Bounded, Geometry.Valid, Geometry.IsSlot, AlignDown, Next;
      FreeChecks(g, next, slabs, lists, total, chains, place, mags, obj);
      if obj == 0 {
        return Normal(None);
      }
      var b := AlignDown(obj, g.page);
      if b !in slabs {
        return Panic;
      }
      if !ObjIsValid(g, b, obj) {
        return Panic;
      }
      var free := ObjIsFree(b, obj);
      if free.Panic? {
        return Panic;
      }
      if free.value {
        return Panic;
      }
      ReturnCore(g, next, slabs, lists, total, chains, place, mags, obj);
      var h := Header(obj, slabs[b].inuse - 1);
      next, slabs := next[obj := slabs[b].head], slabs[b := h];
      chains, place := chains[b := [obj] + chains[b]], place[obj := InSlab];
      if h.inuse == 0 {
        lists, slabs, total := lists.Del(b), slabs - {b}, total - 1;
        chains, place := chains - {b}, place - Slots(g, b);
        return Normal(Some(b));
      }
      if h.inuse == g.count - 1 {
        lists := lists.Del(b).Add(PartialSlab, b);
      }
      return Normal(None);
    }

    /** alloc_slab_detached: the objects of a new page are linked in address order. */
    method AllocDetached(b: nat)
      requires Valid() && b % g.page == 0 && b !in slabs
      modifies this`next
      ensures Valid() && Chain(next, b + g.offset, SlotSeq(g, b))
    {
      hide CoreOk, Bounded, Geometry.Valid, Geometry.IsSlot, Geometry.Slot, Linked, SlotSeq, KeepsOthers, Chain;
      FreeChecks(g, next, slabs, lists, total, chains, place, mags, 0);
      Positive(g);
      ghost var before := next;
      var obj: nat := b + g.offset;
      var words: map<nat, nat> := next;
      LinkedNone(g, before, b);
      var i := 0;
      while i < g.count - 1
        invariant 0 <= i <= g.count - 1 && obj == g.Slot(b, i)
        invariant Linked(g, words, b, i) && KeepsOthers(g, before, words, b)
      {
        LinkedStep(g, before, words, b, i);
        words := words[obj := obj + g.size];
        obj := obj + g.size;
        i := i + 1;
      }
      LinkedLast(g, before, words, b);
      words := words[obj := 0];
      DetachedCore(g, before, words, slabs, lists, total, chains, place, mags, b);
      next := words;
    }

    /** add_slab_locked. */
    method AddSlabLocked(b: nat)
      requires Valid() && b % g.page == 0 && b !in slabs && Chain(next, b + g.offset, SlotSeq(g, b))
      modifies this`slabs, this`lists, this`total, this`chains, this`place
      ensures Valid() && Next(g, old(View()), View(), AddSlab(b))
      ensures forall x :: x in old(place) ==> x in place && place[x] == old(place)[x]
      ensures b + g.offset in place && place[b + g.offset] == InSlab
    {
      hide CoreOk, Bounded, Geometry.Valid, Geometry.IsSlot, Geometry.Slot, SlotSeq, Chain;
      FreeChecks(g, next, slabs, lists, total, chains, place, mags, 0);
      GrowCore(g, next, slabs, lists, total, chains, place, mags, b);
      lists, total := lists.Add(IdleSlab, b), total + 1;
      ghost var place' := Grown(g, View(), b).place;
      slabs, chains, place := slabs[b := Header(b + g.offset, 0)], chains[b := SlotSeq(g, b)], place';
    }

    /** One turn of the last loop of kmem_cache_drain: the first idle slab leaves the cache. */
    method ReclaimIdle() returns (b: nat)
      requires Valid() && lists.idle != []
      modifies this`slabs, this`lists, this`total, this`chains, this`place
      ensures Valid() && Next(g, old(View()), View(), Reclaim(b))
      ensures lists == old(lists).(idle := old(lists).idle[1..])
      ensures g.Valid() && b in old(slabs) && slabs.Keys == old(slabs).Keys - {b}
      ensures forall x :: x in place <==> x in old(place) && !g.IsSlot(b, x)
      ensures forall x :: x in place ==> place[x] == old(place)[x]
      ensures forall x :: x in old(place) && g.IsSlot(b, x) ==> old(place)[x] == InSlab
    {
      hide CoreOk, Bounded, Geometry.Valid, Geometry.IsSlot, Geometry.Slot;
      b := lists.idle[0];
      ReclaimCore(g, next, slabs, lists, total, chains, place, mags);
      lists := lists.(idle := lists.idle[1..]);
      slabs, total := slabs - {b}, total - 1;
      chains, place := chains - {b}, place - Slots(g, b);
    }

    // ---------------------------------------------------------------- sections under a CPU's lock

    method PopLocal(c: nat) returns (x: nat)
      requires Valid() && c < |mags| && mags[c] != []
      modifies this`mags, this`place
      ensures Valid() && x == old(mags[c])[|old(mags[c])| - 1]
      ensures mags == old(mags)[c := old(mags[c])[..|old(mags[c])| - 1]]
      ensures Next(g, old(View()), View(), Pop(c, x))
      ensures !IsLive(old(place), x)
    {
      hide CoreOk, Bounded;
      x := mags[c][|mags[c]| - 1];
      PopCore(g, next, slabs, lists, total, chains, place, mags, limit, c);
      mags := mags[c := mags[c][..|mags[c]| - 1]];
      place := place[x := Live];
    }

    method PushLocal(c: nat, x: nat)
      requires Valid() && c < |mags| && |mags[c]| < limit && IsLive(place, x)
      modifies this`mags, this`place
      ensures Valid() && mags == old(mags)[c := old(mags[c]) + [x]]
      ensures Next(g, old(View()), View(), Push(c, x))
    {
      hide CoreOk, Bounded;
      PushCore(g, next, slabs, lists, total, chains, place, mags, limit, c, x);
      mags := mags[c := mags[c] + [x]];
      place := place[x := Magazine(c)];
    }

    // ---------------------------------------------------------------- refilling

    /** One locked pass of refill_magazine: up to batch objects of the cache's slabs. */
    method RefillPass(c: nat)
      requires Valid() && c < |mags|
      modifies this`slabs, this`lists, this`chains, this`place, this`mags
      ensures Valid() && |mags| == |old(mags)| && OnlyMag(old(mags), mags, c)
      ensures slabs.Keys == old(slabs).Keys && SameLive(old(place), place)
      ensures |old(mags[c])| <= |mags[c]| && (|mags[c]| > |old(mags[c])| ==> |mags[c]| <= batch)
      ensures |mags[c]| < batch ==> NoneFree(place)
      ensures !NoneFree(old(place)) && |old(mags[c])| < batch ==> |mags[c]| > |old(mags[c])|
      ensures NoneFree(old(place)) ==> mags == old(mags)
    {
      hide CoreOk, Bounded, NoneFree, SameLive, OnlyMag;
      SameLiveRefl(place);
      OnlyMagRefl(mags, c);
      while |mags[c]| < batch
        invariant Valid() && |mags| == |old(mags)| && OnlyMag(old(mags), mags, c)
        invariant slabs.Keys == old(slabs).Keys && SameLive(old(place), place)
        invariant |old(mags[c])| <= |mags[c]| && (|mags[c]| > |old(mags[c])| ==> |mags[c]| <= batch)
        invariant |mags[c]| == |old(mags[c])| ==> place == old(place)
        invariant NoneFree(old(place)) ==> mags == old(mags)
        decreases batch - |mags[c]|
      {
        ghost var before, m := place, mags;
        var r := AllocLocked();
        if r.Panic? {
          return;
        }
        if r.value.None? {
          return;
        }
        PushLocal(c, r.value.value);
        TakenIsNotLive(old(place), before, r.value.value, c);
        OnlyMagStep(old(mags), m, c, mags[c]);
      }
    }

    /** A page becomes a slab of the cache. */
    method NewSlab(b: nat)
      requires Valid() && b % g.page == 0 && b !in slabs
      modifies this`next, this`slabs, this`lists, this`total, this`chains, this`place
      ensures Valid() && slabs.Keys == old(slabs).Keys + {b}
      ensures SameLive(old(place), place) && !NoneFree(place)
    {
      hide CoreOk, Bounded, NoneFree, SameLive, Chain, SlotSeq;
      AllocDetached(b);
      AddSlabLocked(b);
      SameLiveRefl(old(place));
      GrownLive(g, old(place), old(place), place, b);
      SomeFree(place, b + g.offset);
    }

    /** refill_magazine: passes over the slabs, with new slabs in between as long as pages can be had. */
    method Refill(c: nat, supply: seq<nat>) returns (rest: seq<nat>)
      requires Valid() && c < |mags| && FreshPages(g, slabs.Keys, supply)
      modifies this`next, this`slabs, this`lists, this`total, this`chains, this`place, this`mags
      ensures Valid() && |mags| == |old(mags)| && OnlyMag(old(mags), mags, c)
      ensures SameLive(old(place), place)
      ensures |rest| <= |supply| && rest == supply[|supply| - |rest|..] && FreshPages(g, slabs.Keys, rest)
      ensures slabs.Keys == old(slabs).Keys + Elems(supply[..|supply| - |rest|])
      ensures |mags[c]| >= |old(mags[c])| && (|mags[c]| > |old(mags[c])| ==> |mags[c]| <= batch)
      ensures |mags[c]| < batch ==> NoneFree(place) && rest == []
      ensures |old(mags[c])| < batch && (!NoneFree(old(place)) || supply != []) ==> |mags[c]| > |old(mags[c])|
      ensures NoneFree(old(place)) && supply == [] ==> mags == old(mags)
    {
      hide CoreOk, Bounded, NoneFree, SameLive, OnlyMag, FreshPages, Elems;
      SameLiveRefl(place);
      OnlyMagRefl(mags, c);
      rest := supply;
      assert supply[..0] == [] && supply[0..] == supply;
      NoPages(slabs.Keys);
      ghost var used := 0;
      while |mags[c]| < batch
        invariant Valid() && |mags| == |old(mags)| && OnlyMag(old(mags), mags, c)
        invariant SameLive(old(place), place)
        invariant used <= |supply| && rest == supply[used..] && FreshPages(g, slabs.Keys, rest)
        invariant slabs.Keys == old(slabs).Keys + Elems(supply[..used])
        invariant |mags[c]| >= |old(mags[c])| && (|mags[c]| > |old(mags[c])| ==> |mags[c]| <= batch)
        invariant used == 0 ==> place == old(place) && mags == old(mags)
        invariant used == 0 || supply != []
        invariant used > 0 ==> !NoneFree(place) || |mags[c]| > |old(mags[c])|
        decreases |rest|
      {
        ghost var before, live := mags, place;
        RefillPass(c);
        OnlyMagThen(old(mags), before, mags, c);
        SameLiveThen(old(place), live, place);
        if |mags[c]| >= batch {
          break;
        }
        if rest == [] {
          break;
        }
        var b := rest[0];
        FirstFresh(g, slabs.Keys, rest);
        live := place;
        NewSlab(b);
        SameLiveThen(old(place), live, place);
        NextPage(supply, used);
        rest := rest[1..];
        used := used + 1;
      }
      assert used == |supply| - |rest|;
    }

    // ---------------------------------------------------------------- draining

    /** One object of a magazine goes back to its slab. */
    method DrainOne(c: nat) returns (empty: Option<nat>)
      requires Valid() && c < |mags| && mags[c] != []
      modifies this`next, this`slabs, this`lists, this`total, this`chains, this`place, this`mags
      ensures Valid() && mags == old(mags)[c := old(mags[c])[..|old(mags[c])| - 1]]
      ensures SameLive(old(place), place)
      ensures match empty
              case None => slabs.Keys == old(slabs).Keys
              case Some(b) => b in old(slabs) && slabs.Keys == old(slabs).Keys - {b}
    {
      hide CoreOk, Bounded, SameLive, Idle, Geometry.Valid;
      FreeChecks(g, next, slabs, lists, total, chains, place, mags, 0);
      var obj := PopLocal(c);
      ghost var mid := View();
      var r := FreeLocked(obj);
      DrainedLive(g, old(place), mid, View(), obj);
      if r.Panic? {
        return None;
      }
      empty := r.value;
    }

    /** drain_magazine: batch objects go back; the pages of the slabs this empties are released. */
    method Drain(c: nat) returns (pages: seq<nat>)
      requires Valid() && c < |mags|
      modifies this`next, this`slabs, this`lists, this`total, this`chains, this`place, this`mags
      ensures Valid() && |mags| == |old(mags)| && OnlyMag(old(mags), mags, c)
      ensures mags[c] == old(mags[c])[..if |old(mags[c])| <= batch then 0 else |old(mags[c])| - batch]
      ensures SameLive(old(place), place)
      ensures NoDup(pages) && |pages| <= batch <= MAG_SIZE && Elems(pages) <= old(slabs).Keys
      ensures slabs.Keys == old(slabs).Keys - Elems(pages)
    {
      hide CoreOk, Bounded, SameLive, OnlyMag, Elems, NoDup;
      pages := [];
      SameLiveRefl(place);
      OnlyMagRefl(mags, c);
      NoPagesYet(slabs.Keys);
      var n := batch;
      ghost var first := mags[c];
      assert first[..|first|] == first;
      while n > 0 && |mags[c]| != 0
        invariant 0 <= n <= batch && |pages| <= batch - n
        invariant Valid() && |mags| == |old(mags)| && OnlyMag(old(mags), mags, c)
        invariant |mags[c]| == |first| - (batch - n) && mags[c] == first[..|mags[c]|]
        invariant SameLive(old(place), place)
        invariant NoDup(pages) && Elems(pages) <= old(slabs).Keys
        invariant slabs.Keys == old(slabs).Keys - Elems(pages)
        decreases n
      {
        ghost var before, m, keys := place, mags, slabs.Keys;
        n := n - 1;
        var empty := DrainOne(c);
        SameLiveThen(old(place), before, place);
        OnlyMagStep(old(mags), m, c, mags[c]);
        if empty.Some? {
          AppendPage(old(slabs).Keys, pages, empty.value, keys);
          pages := pages + [empty.value];
        }
      }
    }

    // ---------------------------------------------------------------- the interface

    /**
     * kmem_cache_alloc: an object nobody holds. There is none exactly if the CPU's magazine is empty, every
     * slab is exhausted and no page can be had.
     */
    method Alloc(c: nat, supply: seq<nat>) returns (r: Option<nat>, rest: seq<nat>)
      requires Valid() && c < |mags| && FreshPages(g, slabs.Keys, supply)
      modifies this`next, this`slabs, this`lists, this`total, this`chains, this`place, this`mags
      ensures Valid() && |mags| == |old(mags)| && OnlyMag(old(mags), mags, c)
      ensures r.None? <==> old(mags[c]) == [] && NoneFree(old(place)) && supply == []
      ensures r.None? ==> SameLive(old(place), place)
      ensures r.Some? ==> OneMoreLive(old(place), place, r.value)
      ensures |rest| <= |supply| && rest == supply[|supply| - |rest|..]
      ensures slabs.Keys == old(slabs).Keys + Elems(supply[..|supply| - |rest|])
    {
      hide CoreOk, Bounded, NoneFree, SameLive, OnlyMag, FreshPages, Elems, OneMoreLive;
      rest := supply;
      assert supply[..0] == [] && supply[0..] == supply;
      NoPages(slabs.Keys);
      SameLiveRefl(place);
      OnlyMagRefl(mags, c);
      ghost var before, m := place, mags;
      if |mags[c]| != 0 {
        var obj := PopLocal(c);
        PoppedLive(old(place), before, obj);
        OnlyMagStep(old(mags), m, c, mags[c]);
        return Some(obj), rest;
      }
      rest := Refill(c, supply);
      before, m := place, mags;
      if |mags[c]| == 0 {
        return None, rest;
      }
      var obj := PopLocal(c);
      PoppedLive(old(place), before, obj);
      OnlyMagStep(old(mags), m, c, mags[c]);
      return Some(obj), rest;
    }

    /** The checks of kmem_cache_free: no slab page, or an object of this CPU's magazine. */
    ghost predicate Stops(c: nat, obj: nat)
      requires c < |mags| && g.page > 0
      reads this`slabs, this`mags
    {
      obj != 0 && (AlignDown(obj, g.page) !in slabs || obj in mags[c])
    }

    /** Valid, but for the last entry of a magazine. */
    ghost predicate ValidBut(c: nat, x: nat)
      reads this
    {
      && c < |mags| && mags[c] != [] && mags[c][|mags[c]| - 1] == x
      && CoreOk(g, next, slabs, lists, total, chains, place, mags[c := mags[c][..|mags[c]| - 1]])
      && Bounded(mags, limit) && 0 < batch <= limit <= MAG_SIZE
    }

    /**
     * kmem_cache_free of any address: it goes into the CPU's magazine, after a drain if that is full, unless the checks
     * stop it. They see the magic of the page and this magazine only: what is not handed out goes unnoticed if and only
     * if its page is a slab and it is not in this magazine, and then the magazine holds an entry that is no free object
     * of its own.
     */
    method Free(c: nat, obj: nat) returns (r: Outcome<seq<nat>>)
      requires Valid() && c < |mags|
      modifies this`next, this`slabs, this`lists, this`total, this`chains, this`place, this`mags
      ensures |mags| == |old(mags)| && OnlyMag(old(mags), mags, c)
      ensures g.page > 0 && (r.Panic? <==> old(Stops(c, obj)))
      ensures obj != 0 && !IsLive(old(place), obj) ==>
        (r.Normal? <==> AlignDown(obj, g.page) in old(slabs) && obj !in old(mags[c]))
      ensures IsLive(old(place), obj) ==> r.Normal?
      ensures Valid() <==> r.Panic? || obj == 0 || IsLive(old(place), obj)
      ensures r.Panic? || obj == 0 ==> View() == old(View()) && mags == old(mags)
      ensures r.Normal? && obj != 0 ==> mags[c] == KeptOf(old(mags[c]), limit, batch) + [obj]
      ensures r.Normal? && IsLive(old(place), obj) ==> OneMoreLive(place, old(place), obj)
      ensures g.Valid() && (IsLive(old(place), obj) && |old(mags[c])| < limit ==>
        Next(g, old(View()), View(), Push(c, obj)))
      ensures r.Normal? && obj != 0 && !IsLive(old(place), obj) ==> ValidBut(c, obj) && SameLive(old(place), place)
      ensures r.Normal? ==> slabs.Keys == old(slabs).Keys - Elems(r.value)
    {
      hide CoreOk, Bounded, SameLive, OnlyMag, OneMoreLive, Elems, NoDup, AlignDown, IsLive, Next, Geometry.Valid;
      FreeChecks(g, next, slabs, lists, total, chains, place, mags, obj);
      LiveIsPlaced(g, next, slabs, lists, total, chains, place, mags, c, obj);
      OnlyMagRefl(mags, c);
      NoPagesYet(slabs.Keys);
      if obj == 0 {
        return Normal([]);
      }
      if AlignDown(obj, g.page) !in slabs {
        return Panic;
      }
      var i := 0;
      while i < |mags[c]|
        invariant 0 <= i <= |mags[c]| && obj !in mags[c][..i]
      {
        if mags[c][i] == obj {
          return Panic;
        }
        i := i + 1;
      }
      assert mags[c][..i] == mags[c];
      BoundAt(mags, limit, c);
      SameLiveRefl(place);
      var pages := [];
      if |mags[c]| >= limit {
        pages := Drain(c);
      }
      ghost var before, m := place, mags;
      SameLiveAt(old(place), place, obj);
      OnlyMagStep(old(mags), m, c, m[c] + [obj]);
      mags := mags[c := mags[c] + [obj]];
      if IsLive(place, obj) {
        PushCore(g, next, slabs, lists, total, chains, place, m, limit, c, obj);
        place := place[obj := Magazine(c)];
        PushedLive(old(place), before, obj, c);
      } else {
        StrayCore(g, next, slabs, lists, total, chains, place, m, limit, c, obj);
      }
      return Normal(pages);
    }

    /** The first loop of kmem_cache_drain. */
    method DrainMagazines() returns (pages: seq<nat>)
      requires Valid()
      modifies this`next, this`slabs, this`lists, this`total, this`chains, this`place, this`mags
      ensures Valid() && |mags| == |old(mags)| && AllEmpty(mags, |mags|)
      ensures SameLive(old(place), place)
      ensures NoDup(pages) && Elems(pages) <= old(slabs).Keys && slabs.Keys == old(slabs).Keys - Elems(pages)
    {
      hide CoreOk, Bounded, SameLive, OnlyMag, Elems, NoDup, AllEmpty;
      pages := [];
      SameLiveRefl(place);
      NoPagesYet(slabs.Keys);
      NoneEmptyYet(mags);
      var c := 0;
      while c < |mags|
        invariant 0 <= c <= |mags| == |old(mags)| && Valid() && AllEmpty(mags, c)
        invariant SameLive(old(place), place)
        invariant NoDup(pages) && Elems(pages) <= old(slabs).Keys && slabs.Keys == old(slabs).Keys - Elems(pages)
      {
        while |mags[c]| != 0
          invariant c < |mags| == |old(mags)| && Valid() && AllEmpty(mags, c)
          invariant SameLive(old(place), place)
          invariant NoDup(pages) && Elems(pages) <= old(slabs).Keys && slabs.Keys == old(slabs).Keys - Elems(pages)
          decreases |mags[c]|
        {
          ghost var before, m, keys := place, mags, slabs.Keys;
          var more := Drain(c);
          SameLiveThen(old(place), before, place);
          StillEmpty(m, mags, c);
          AppendPages(old(slabs).Keys, pages, more, keys);
          pages := pages + more;
        }
        OneMoreEmpty(mags, c);
        c := c + 1;
      }
    }

    /** kmem_cache_drain: with nothing handed out, every page of the cache is released. */
    method DrainAll() returns (pages: seq<nat>)
      requires Valid()
      modifies this`next, this`slabs, this`lists, this`total, this`chains, this`place, this`mags
      ensures Valid() && |mags| == |old(mags)| && AllEmpty(mags, |mags|) && lists.idle == []
      ensures SameLive(old(place), place)
      ensures NoDup(pages) && Elems(pages) <= old(slabs).Keys && slabs.Keys == old(slabs).Keys - Elems(pages)
      ensures (forall x :: !IsLive(old(place), x)) ==>
        slabs == map[] && total == 0 && Elems(pages) == old(slabs).Keys
    {
      hide CoreOk, Bounded, SameLive, Elems, NoDup, AllEmpty, Geometry.IsSlot, Next, IsLive;
      pages := DrainMagazines();
      while lists.idle != []
        invariant Valid() && |mags| == |old(mags)| && AllEmpty(mags, |mags|)
        invariant SameLive(old(place), place)
        invariant NoDup(pages) && Elems(pages) <= old(slabs).Keys && slabs.Keys == old(slabs).Keys - Elems(pages)
        decreases |lists.idle|
      {
        ghost var before, keys := View(), slabs.Keys;
        var b := ReclaimIdle();
        ReclaimedLive(g, before, View(), b);
        SameLiveThen(old(place), before.place, place);
        AppendPage(old(slabs).Keys, pages, b, keys);
        pages := pages + [b];
      }
      if forall x :: !IsLive(old(place), x) {
        AllReturned(g, next, slabs, lists, total, chains, place, mags, old(place));
      }
    }

    /** kmem_cache_set_magazine, with no concurrent user of the cache: true is -EINVAL. */
    method SetMagazine(newLimit: nat, newBatch: nat) returns (invalid: bool, pages: seq<nat>)
      requires Valid()
      modifies this
      ensures Valid() && SameLive(old(place), place)
      ensures invalid <==> !(0 < newBatch <= newLimit <= MAG_SIZE)
      ensures invalid ==> limit == old(limit) && batch == old(batch) && mags == old(mags) && View() == old(View())
      ensures !invalid ==> limit == newLimit && batch == newBatch && AllEmpty(mags, |mags|)
    {
      hide CoreOk, SameLive;
      SameLiveRefl(place);
      pages := [];
      if newBatch == 0 || newBatch > newLimit || newLimit > MAG_SIZE {
        return true, [];
      }
      pages := DrainAll();
      limit, batch := newLimit, newBatch;
      invalid := false;
    }
  }

  /** The headers, lists, links and magazines agree with the places of the objects. */
  ghost predicate CoreOk(g: Geometry, next: map<nat, nat>, slabs: map<nat, Header>, lists: SlabLists, total: nat,
                         chains: map<nat, seq<nat>>, place: map<nat, Place>, mags: seq<seq<nat>>)
  {
    && g.Valid() && Inv(g, State(slabs.Keys, place)) && ChainsOk(g, next, slabs, chains, place)
    && ListsOk(g, slabs, lists) && total == |slabs| && MagsOk(mags, place)
  }

  ghost predicate NoneFree(place: map<nat, Place>) {
    forall x :: x in place ==> place[x] != InSlab
  }

  /** slab_obj_is_valid; 0 is NULL. */
  predicate ObjIsValid(g: Geometry, b: nat, obj: nat)
    requires g.size > 0
  {
    if obj == 0 then true
    else
      var start := b + g.offset;
      var end := start + g.count * g.size;
      if obj < start || obj >= end then false else (obj - start) % g.size == 0
  }

  // ---------------------------------------------------------------- lemmas for the sections

  lemma Positive(g: Geometry)
    requires g.Valid()
    ensures g.size > 0 && g.page > 0 && g.count > 0 && g.offset > 0
  {
    MulOrder(0, g.count, g.size);
  }

  /** The check on an address recognises exactly the objects of the slab. */
  lemma ValidMeansSlot(g: Geometry, b: nat, obj: nat)
    requires g.Valid()
    ensures ObjIsValid(g, b, obj) <==> obj == 0 || g.IsSlot(b, obj)
  {
    var start := b + g.offset;
    if obj != 0 && ObjIsValid(g, b, obj) {
      var d := obj - start;
      var i := d / g.size;
      assert d == i * g.size;
      if i >= g.count {
        MulOrder(g.count, i, g.size);
      }
      assert obj == g.Slot(b, i);
    }
    if g.IsSlot(b, obj) {
      var i: nat :| i < g.count && obj == g.Slot(b, i);
      MultipleMod(i, g.size);
      MulOrder(i + 1, g.count, g.size);
      MulDistribute(i, 1, g.size);
      MulOrder(0, i, g.size);
    }
  }

  lemma SomeFree(place: map<nat, Place>, x: nat)
    requires x in place && place[x] == InSlab
    ensures !NoneFree(place)
  {
  }

  lemma ChainBegins(g: Geometry, next: map<nat, nat>, h: Header, s: seq<nat>, place: map<nat, Place>, b: nat)
    requires SlabOk(g, next, h, s, place, b)
    ensures Chain(next, h.head, s[0..]) && |s| <= g.count
  {
    assert s[0..] == s;
  }

  lemma ChainStep(g: Geometry, next: map<nat, nat>, h: Header, s: seq<nat>, place: map<nat, Place>, b: nat,
                  k: nat, cur: nat)
    requires g.Valid() && SlabOk(g, next, h, s, place, b) && k <= |s| && Chain(next, cur, s[k..]) && cur != 0
    ensures k < |s| && cur == s[k] && cur in next && Chain(next, next[cur], s[k + 1..])
    ensures g.size > 0 && ObjIsValid(g, b, cur)
    ensures s[..k + 1] == s[..k] + [cur]
  {
    assert s[k..][1..] == s[k + 1..];
    assert s[k] in s;
    ValidMeansSlot(g, b, cur);
  }

  lemma NullIsNoObject(g: Geometry, s: State)
    requires g.Valid() && Inv(g, s)
    ensures 0 !in s.place
  {
    if 0 in s.place {
      SlotBase(g, g.Base(0), 0);
    }
  }

  /** What the place of an object says about its slab. */
  lemma PlaceMeans(g: Geometry, next: map<nat, nat>, slabs: map<nat, Header>, chains: map<nat, seq<nat>>,
                   place: map<nat, Place>, x: nat)
    requires g.Valid() && Inv(g, State(slabs.Keys, place)) && ChainsOk(g, next, slabs, chains, place)
    ensures x in place <==> g.Base(x) in slabs && g.IsSlot(g.Base(x), x)
    ensures x in place ==> g.Base(x) in chains && (x in chains[g.Base(x)] <==> place[x] == InSlab)
  {
    if x in place {
      var b := g.Base(x);
      assert SlabOk(g, next, slabs[b], chains[b], place, b);
    }
  }

  lemma ReturnInv(g: Geometry, s: State, x: nat)
    requires g.Valid() && Inv(g, s) && x in s.place
    ensures Inv(g, s.(place := s.place[x := InSlab]))
    ensures g.Base(x) in s.slabs && Inv(g, Shrunk(g, s.(place := s.place[x := InSlab]), g.Base(x)))
  {
    ShrunkInv(g, s.(place := s.place[x := InSlab]), g.Base(x));
  }

  /** One object less in use changes the kind of a slab only if it was full or becomes idle. */
  lemma KindOfLess(g: Geometry, h: Header, h': Header)
    requires g.Valid() && h.inuse == h'.inuse + 1 <= g.count
    ensures h'.inuse == 0 ==> KindOf(g, h') == IdleSlab
    ensures 0 < h'.inuse == g.count - 1 ==> KindOf(g, h') == PartialSlab
    ensures 0 < h'.inuse < g.count - 1 ==> KindOf(g, h') == KindOf(g, h)
  {
  }

  lemma DropMags(g: Geometry, mags: seq<seq<nat>>, place: map<nat, Place>, b: nat)
    requires MagsOk(mags, place) && Idle(g, place, b)
    ensures MagsOk(mags, place - Slots(g, b))
  {
    var place' := place - Slots(g, b);
    forall c | 0 <= c < |mags| ensures MagOk(mags[c], place', c) {
      assert MagOk(mags[c], place, c);
      forall x ensures x in mags[c] <==> x in place' && place'[x] == Magazine(c) {
        SlotsFacts(g, b, x);
      }
    }
  }

  lemma LessKeys(slabs: map<nat, Header>, b: nat)
    requires b in slabs
    ensures (slabs - {b}).Keys == slabs.Keys - {b} && |slabs - {b}| == |slabs| - 1
  {
    assert (slabs - {b}).Keys == slabs.Keys - {b};
    assert |slabs.Keys| == |slabs.Keys - {b}| + 1;
  }

  lemma SameKeys(slabs: map<nat, Header>, b: nat, h: Header)
    requires b in slabs
    ensures slabs[b := h].Keys == slabs.Keys && |slabs[b := h]| == |slabs|
  {
    assert slabs[b := h].Keys == slabs.Keys;
  }

  /** With only full slabs no object is free. */
  lemma AllFull(g: Geometry, next: map<nat, nat>, slabs: map<nat, Header>, chains: map<nat, seq<nat>>,
                place: map<nat, Place>, lists: SlabLists)
    requires g.Valid() && Inv(g, State(slabs.Keys, place)) && ChainsOk(g, next, slabs, chains, place)
    requires ListsOk(g, slabs, lists) && lists.partial == [] && lists.idle == []
    ensures NoneFree(place)
  {
    forall x | x in place ensures place[x] != InSlab {
      var b := g.Base(x);
      assert ListOk(g, slabs, lists.Of(PartialSlab), PartialSlab);
      assert ListOk(g, slabs, lists.Of(IdleSlab), IdleSlab);
      assert b !in lists.partial && b !in lists.idle;
      assert SlabOk(g, next, slabs[b], chains[b], place, b);
    }
  }

  /** The first slab of the partial list, or else of the idle one, has a free object. */
  lemma UsableFirst(g: Geometry, slabs: map<nat, Header>, lists: SlabLists)
    requires g.Valid() && ListsOk(g, slabs, lists)
    ensures lists.partial != [] ==> lists.partial[0] in slabs && slabs[lists.partial[0]].inuse < g.count
    ensures lists.idle != [] ==> lists.idle[0] in slabs && slabs[lists.idle[0]].inuse == 0 < g.count
  {
    assert ListOk(g, slabs, lists.Of(PartialSlab), PartialSlab);
    assert ListOk(g, slabs, lists.Of(IdleSlab), IdleSlab);
    assert lists.partial != [] ==> lists.partial[0] in lists.partial;
    assert lists.idle != [] ==> lists.idle[0] in lists.idle;
  }

  lemma TakeMags(mags: seq<seq<nat>>, place: map<nat, Place>, x: nat)
    requires MagsOk(mags, place) && x in place && !place[x].Magazine?
    ensures MagsOk(mags, place[x := Live]) && MagsOk(mags, place[x := InSlab])
  {
    forall c | 0 <= c < |mags|
      ensures MagOk(mags[c], place[x := Live], c) && MagOk(mags[c], place[x := InSlab], c)
    {
      assert MagOk(mags[c], place, c);
    }
  }

  /** Where AllocLocked puts the slab it took an object from. */
  lemma TakeLists(g: Geometry, slabs: map<nat, Header>, lists: SlabLists, b: nat, h: Header)
    requires ListsOk(g, slabs, lists) && b in slabs && h.inuse == slabs[b].inuse + 1
    requires if lists.partial != [] then b == lists.partial[0] else lists.idle != [] && b == lists.idle[0]
    ensures
      var ls := if lists.partial != [] then lists
                else lists.(idle := lists.idle[1..], partial := [lists.idle[0]] + lists.partial);
      ListsOk(g, slabs[b := h], if h.inuse >= g.count then ls.Del(b).Add(FullSlab, b) else ls)
  {
    MoveOk(g, slabs, lists, b, h);
    assert ListOk(g, slabs, lists.full, FullSlab) by {
      assert ListOk(g, slabs, lists.Of(FullSlab), FullSlab);
    }
    assert ListOk(g, slabs, lists.partial, PartialSlab) by {
      assert ListOk(g, slabs, lists.Of(PartialSlab), PartialSlab);
    }
    assert ListOk(g, slabs, lists.idle, IdleSlab) by {
      assert ListOk(g, slabs, lists.Of(IdleSlab), IdleSlab);
    }
    if lists.partial != [] {
      assert b in lists.partial;
      assert KindOf(g, slabs[b]) == PartialSlab;
    } else {
      assert b in lists.idle;
      assert b !in lists.full;
      WithoutAbsent(lists.full, b);
      HeadAndTail(lists.idle);
      assert b !in lists.idle[1..];
      WithoutAbsent(lists.idle[1..], b);
      var ls := lists.(idle := lists.idle[1..], partial := [b]);
      assert lists.Del(b) == SlabLists(lists.full, [], lists.idle[1..]);
      assert ls.Del(b) == lists.Del(b);
      assert ls == lists.Del(b).Add(PartialSlab, b);
    }
  }

  /** The slab AllocLocked uses, and the lists as it leaves them. */
  function Usable(lists: SlabLists): nat
    requires lists.partial != [] || lists.idle != []
  {
    if lists.partial != [] then lists.partial[0] else lists.idle[0]
  }

  function MovedToPartial(lists: SlabLists): SlabLists
    requires lists.partial != [] || lists.idle != []
  {
    if lists.partial != [] then lists
    else lists.(idle := lists.idle[1..], partial := [lists.idle[0]] + lists.partial)
  }

  lemma TakeCore(g: Geometry, next: map<nat, nat>, slabs: map<nat, Header>, lists: SlabLists, total: nat,
                 chains: map<nat, seq<nat>>, place: map<nat, Place>, mags: seq<seq<nat>>)
    requires CoreOk(g, next, slabs, lists, total, chains, place, mags)
    ensures g.Valid() && g.size > 0
    ensures lists.partial == [] && lists.idle == [] <==> NoneFree(place)
    ensures lists.partial != [] || lists.idle != [] ==>
      var b := Usable(lists);
      && b in slabs && b in chains && chains[b] != []
      && var x := slabs[b].head;
      && x != 0 && x in next && x in place && ObjIsValid(g, b, x) && ObjIsValid(g, b, next[x])
      && var h := Header(next[x], slabs[b].inuse + 1);
      && var ls := MovedToPartial(lists);
      && CoreOk(g, next, slabs[b := h], if h.inuse >= g.count then ls.Del(b).Add(FullSlab, b) else ls, total,
                chains[b := chains[b][1..]], place[x := Live], mags)
      && Next(g, State(slabs.Keys, place), State(slabs[b := h].Keys, place[x := Live]), Take(x))
  {
    hide Inv, ChainsOk, ListsOk, MagsOk, Geometry.Valid, Geometry.IsSlot, NoneFree;
    Positive(g);
    if lists.partial == [] && lists.idle == [] {
      AllFull(g, next, slabs, chains, place, lists);
    } else {
      var b := Usable(lists);
      UsableFirst(g, slabs, lists);
      TakeChains(g, next, slabs, chains, place, b);
      var x := slabs[b].head;
      var h := Header(next[x], slabs[b].inuse + 1);
      TakeMags(mags, place, x);
      SomeFree(place, x);
      ValidMeansSlot(g, b, x);
      ValidMeansSlot(g, b, next[x]);
      TakeLists(g, slabs, lists, b, h);
      SameKeys(slabs, b, h);
      NextInv(g, State(slabs.Keys, place), State(slabs.Keys, place[x := Live]), Take(x));
    }
  }

  /** What the checks of FreeLocked see. */
  lemma FreeChecks(g: Geometry, next: map<nat, nat>, slabs: map<nat, Header>, lists: SlabLists, total: nat,
                   chains: map<nat, seq<nat>>, place: map<nat, Place>, mags: seq<seq<nat>>, x: nat)
    requires CoreOk(g, next, slabs, lists, total, chains, place, mags)
    ensures g.Valid() && g.size > 0 && g.page > 0 && 0 !in place
    ensures x != 0 ==> (x in place <==> g.Base(x) in slabs && ObjIsValid(g, g.Base(x), x))
    ensures x in place ==> g.Base(x) in chains && (x in chains[g.Base(x)] <==> place[x] == InSlab)
  {
    Positive(g);
    NullIsNoObject(g, State(slabs.Keys, place));
    PlaceMeans(g, next, slabs, chains, place, x);
    ValidMeansSlot(g, g.Base(x), x);
  }

  lemma ReturnCore(g: Geometry, next: map<nat, nat>, slabs: map<nat, Header>, lists: SlabLists, total: nat,
                   chains: map<nat, seq<nat>>, place: map<nat, Place>, mags: seq<seq<nat>>, x: nat)
    requires CoreOk(g, next, slabs, lists, total, chains, place, mags)
    requires x in place && place[x] == Live
    ensures g.Valid() && g.page > 0
    ensures var b := g.Base(x);
      && b in slabs && b in chains && 0 < slabs[b].inuse && total > 0
      && var h, s := Header(x, slabs[b].inuse - 1), State(slabs.Keys, place);
      && var next', slabs', chains', place' :=
        next[x := slabs[b].head], slabs[b := h], chains[b := [x] + chains[b]], place[x := InSlab];
      && (h.inuse == 0 ==>
        && CoreOk(g, next', slabs' - {b}, lists.Del(b), total - 1, chains' - {b}, place' - Slots(g, b), mags)
        && Next(g, s, State((slabs' - {b}).Keys, place' - Slots(g, b)), Return(x)))
      && (h.inuse > 0 ==>
        && CoreOk(g, next', slabs', if h.inuse == g.count - 1 then lists.Del(b).Add(PartialSlab, b) else lists,
                  total, chains', place', mags)
        && Next(g, s, State(slabs'.Keys, place'), Return(x)))
  {
    hide Inv, ChainsOk, ListsOk, MagsOk, Geometry.Valid, Geometry.IsSlot, Idle, KindOf;
    Positive(g);
    ReturnChains(g, next, slabs, chains, place, x);
    PlaceMeans(g, next, slabs, chains, place, x);
    var b := g.Base(x);
    var h, s := Header(x, slabs[b].inuse - 1), State(slabs.Keys, place);
    var next', slabs', chains', place' :=
      next[x := slabs[b].head], slabs[b := h], chains[b := [x] + chains[b]], place[x := InSlab];
    TakeMags(mags, place, x);
    SameKeys(slabs, b, h);
    LessKeys(slabs', b);
    ReturnInv(g, s, x);
    IdleMeans(g, next', slabs', chains', place', b);
    MoveOk(g, slabs, lists, b, h);
    KindOfLess(g, slabs[b], h);
    if h.inuse == 0 {
      DropChains(g, next', slabs', chains', place', b);
      DropMags(g, mags, place', b);
      DelOk(g, slabs, lists, b);
      assert slabs' - {b} == slabs - {b};
    }
  }

  // ---------------------------------------------------------------- lemmas for new and idle slabs

  /** The objects of a slab in address order. */
  ghost function SlotSeq(g: Geometry, b: nat): seq<nat> {
    seq(g.count, i requires 0 <= i < g.count => g.Slot(b, i))
  }

  ghost predicate Linked(g: Geometry, words: map<nat, nat>, b: nat, n: nat) {
    forall i: nat :: i < n ==> g.Slot(b, i) in words && words[g.Slot(b, i)] == g.Slot(b, i + 1)
  }

  ghost predicate KeepsOthers(g: Geometry, before: map<nat, nat>, words: map<nat, nat>, b: nat) {
    forall x :: !g.IsSlot(b, x) && x in before ==> x in words && words[x] == before[x]
  }

  lemma LinkedNone(g: Geometry, words: map<nat, nat>, b: nat)
    ensures Linked(g, words, b, 0) && KeepsOthers(g, words, words, b) && b + g.offset == g.Slot(b, 0)
  {
  }

  lemma LinkedStep(g: Geometry, before: map<nat, nat>, words: map<nat, nat>, b: nat, i: nat)
    requires g.Valid() && i + 1 < g.count && Linked(g, words, b, i) && KeepsOthers(g, before, words, b)
    ensures g.Slot(b, i) + g.size == g.Slot(b, i + 1)
    ensures Linked(g, words[g.Slot(b, i) := g.Slot(b, i + 1)], b, i + 1)
    ensures KeepsOthers(g, before, words[g.Slot(b, i) := g.Slot(b, i + 1)], b)
  {
    hide Geometry.Valid, Geometry.Slot;
    NextSlot(g, b, i);
    forall k: nat | k < i ensures g.Slot(b, k) != g.Slot(b, i) {
      if g.Slot(b, k) == g.Slot(b, i) {
        SlotInjective(g, b, k, i);
      }
    }
    assert g.IsSlot(b, g.Slot(b, i));
  }

  lemma NextSlot(g: Geometry, b: nat, i: nat)
    ensures g.Slot(b, i) + g.size == g.Slot(b, i + 1)
  {
    MulDistribute(i, 1, g.size);
  }

  lemma LinkedLast(g: Geometry, before: map<nat, nat>, words: map<nat, nat>, b: nat)
    requires g.Valid() && Linked(g, words, b, g.count - 1) && KeepsOthers(g, before, words, b)
    ensures var words' := words[g.Slot(b, g.count - 1) := 0];
      Chain(words', b + g.offset, SlotSeq(g, b)) && KeepsOthers(g, before, words', b)
  {
    hide Geometry.Valid, Geometry.Slot;
    Positive(g);
    var last := g.Slot(b, g.count - 1);
    var words' := words[last := 0];
    forall k: nat | k < g.count - 1 ensures g.Slot(b, k) in words' && words'[g.Slot(b, k)] == g.Slot(b, k + 1) {
      if g.Slot(b, k) == last {
        SlotInjective(g, b, k, g.count - 1);
      }
    }
    assert g.IsSlot(b, last);
    LinkedNone(g, words, b);
    assert SlotSeq(g, b)[0..] == SlotSeq(g, b);
    LinkedChain(g, words', b, 0);
  }

  lemma {:induction false} LinkedChain(g: Geometry, words: map<nat, nat>, b: nat, i: nat)
    requires g.Valid() && i < g.count && Linked(g, words, b, g.count - 1)
    requires g.Slot(b, g.count - 1) in words && words[g.Slot(b, g.count - 1)] == 0
    ensures Chain(words, g.Slot(b, i), SlotSeq(g, b)[i..])
    decreases g.count - i
  {
    var s := SlotSeq(g, b);
    SlotFits(g, b, i);
    assert s[i..][1..] == s[i + 1..];
    assert s[i..][0] == g.Slot(b, i);
    if i + 1 < g.count {
      LinkedChain(g, words, b, i + 1);
    }
  }

  lemma DetachedCore(g: Geometry, before: map<nat, nat>, words: map<nat, nat>, slabs: map<nat, Header>,
                     lists: SlabLists, total: nat, chains: map<nat, seq<nat>>, place: map<nat, Place>,
                     mags: seq<seq<nat>>, b: nat)
    requires CoreOk(g, before, slabs, lists, total, chains, place, mags)
    requires g.page > 0 && b % g.page == 0 && b !in slabs && KeepsOthers(g, before, words, b)
    ensures CoreOk(g, words, slabs, lists, total, chains, place, mags)
  {
    forall b' | b' in slabs ensures SlabOk(g, words, slabs[b'], chains[b'], place, b') {
      assert SlabOk(g, before, slabs[b'], chains[b'], place, b');
      forall x | x in chains[b'] ensures !g.IsSlot(b, x) {
        OtherSlab(g, b', b, x);
      }
      ChainSame(before, words, slabs[b'].head, chains[b']);
    }
  }

  lemma SlotSeqFacts(g: Geometry, b: nat)
    requires g.Valid()
    ensures |SlotSeq(g, b)| == g.count && NoDup(SlotSeq(g, b))
    ensures forall x :: x in SlotSeq(g, b) <==> g.IsSlot(b, x)
    ensures g.IsSlot(b, b + g.offset)
  {
    var s := SlotSeq(g, b);
    forall i, j | 0 <= i < j < |s| ensures s[i] != s[j] {
      if g.Slot(b, i) == g.Slot(b, j) {
        SlotInjective(g, b, i, j);
      }
    }
    forall x | g.IsSlot(b, x) ensures x in s {
      var i: nat :| i < g.count && x == g.Slot(b, i);
      assert s[i] == x;
    }
    assert b + g.offset == g.Slot(b, 0);
  }

  lemma GrowCore(g: Geometry, next: map<nat, nat>, slabs: map<nat, Header>, lists: SlabLists, total: nat,
                 chains: map<nat, seq<nat>>, place: map<nat, Place>, mags: seq<seq<nat>>, b: nat)
    requires CoreOk(g, next, slabs, lists, total, chains, place, mags)
    requires g.page > 0 && b % g.page == 0 && b !in slabs && Chain(next, b + g.offset, SlotSeq(g, b))
    ensures g.Valid()
    ensures
      var h, s := Header(b + g.offset, 0), Grown(g, State(slabs.Keys, place), b);
      && s.slabs == slabs[b := h].Keys && Next(g, State(slabs.Keys, place), s, AddSlab(b))
      && CoreOk(g, next, slabs[b := h], lists.Add(IdleSlab, b), total + 1, chains[b := SlotSeq(g, b)], s.place, mags)
      && (forall x :: x in place ==> x in s.place && s.place[x] == place[x])
      && b + g.offset in s.place && s.place[b + g.offset] == InSlab
  {
    hide Inv, ChainsOk, ListsOk, MagsOk, Geometry.Valid, Geometry.IsSlot, Chain, SlotSeq, Grown;
    var h, s0 := Header(b + g.offset, 0), State(slabs.Keys, place);
    var s := Grown(g, s0, b);
    SlotSeqFacts(g, b);
    GrowChains(g, next, next, slabs, chains, place, b, b + g.offset, SlotSeq(g, b));
    GrownInv(g, s0, b);
    GrownKeeps(g, s0, b);
    GrownFree(g, place, b, s0);
    AddOk(g, slabs, lists, b, h);
    GrowMags(g, mags, s0, b);
    MoreKeys(slabs, b, h);
  }

  lemma MoreKeys(slabs: map<nat, Header>, b: nat, h: Header)
    requires b !in slabs
    ensures slabs[b := h].Keys == slabs.Keys + {b} && |slabs[b := h]| == |slabs| + 1
  {
    assert slabs[b := h].Keys == slabs.Keys + {b};
  }

  lemma GrownKeeps(g: Geometry, s: State, b: nat)
    requires g.Valid() && Inv(g, s) && b !in s.slabs && b % g.page == 0
    ensures Grown(g, s, b).slabs == s.slabs + {b}
    ensures forall x :: x in s.place ==>
      !g.IsSlot(b, x) && x in Grown(g, s, b).place && Grown(g, s, b).place[x] == s.place[x]
  {
    forall x | x in s.place ensures !g.IsSlot(b, x) && x !in Slots(g, b) {
      if g.IsSlot(b, x) {
        SlotBase(g, b, x);
      }
      SlotsFacts(g, b, x);
    }
  }

  lemma GrowMags(g: Geometry, mags: seq<seq<nat>>, s: State, b: nat)
    requires g.Valid() && Inv(g, s) && b !in s.slabs && b % g.page == 0 && MagsOk(mags, s.place)
    ensures MagsOk(mags, Grown(g, s, b).place)
  {
    var place' := Grown(g, s, b).place;
    GrownKeeps(g, s, b);
    forall x | x in place' && x !in s.place ensures place'[x] == InSlab {
    }
    forall c | 0 <= c < |mags| ensures MagOk(mags[c], place', c) {
      assert MagOk(mags[c], s.place, c);
    }
  }

  lemma ReclaimCore(g: Geometry, next: map<nat, nat>, slabs: map<nat, Header>, lists: SlabLists, total: nat,
                    chains: map<nat, seq<nat>>, place: map<nat, Place>, mags: seq<seq<nat>>)
    requires CoreOk(g, next, slabs, lists, total, chains, place, mags) && lists.idle != []
    ensures g.Valid() && total > 0
    ensures
      var b := lists.idle[0];
      && b in slabs && (slabs - {b}).Keys == slabs.Keys - {b}
      && CoreOk(g, next, slabs - {b}, lists.(idle := lists.idle[1..]), total - 1, chains - {b}, place - Slots(g, b),
         mags)
      && Next(g, State(slabs.Keys, place), State(slabs.Keys - {b}, place - Slots(g, b)), Reclaim(b))
      && (forall x :: x in place - Slots(g, b) <==> x in place && !g.IsSlot(b, x))
      && (forall x :: x in place && g.IsSlot(b, x) ==> place[x] == InSlab)
  {
    hide ChainsOk, ListsOk, MagsOk, Geometry.Valid, Geometry.IsSlot;
    var b := lists.idle[0];
    UsableFirst(g, slabs, lists);
    IdleMeans(g, next, slabs, chains, place, b);
    DropChains(g, next, slabs, chains, place, b);
    DropMags(g, mags, place, b);
    DelOk(g, slabs, lists, b);
    LessKeys(slabs, b);
    DelIdle(g, slabs, lists);
    ShrunkInv(g, State(slabs.Keys, place), b);
    forall x ensures x in place - Slots(g, b) <==> x in place && !g.IsSlot(b, x) {
      SlotsFacts(g, b, x);
    }
  }

  lemma DelIdle(g: Geometry, slabs: map<nat, Header>, lists: SlabLists)
    requires ListsOk(g, slabs, lists) && lists.idle != []
    ensures lists.Del(lists.idle[0]) == lists.(idle := lists.idle[1..])
  {
    var b := lists.idle[0];
    assert ListOk(g, slabs, lists.Of(FullSlab), FullSlab);
    assert ListOk(g, slabs, lists.Of(PartialSlab), PartialSlab);
    assert ListOk(g, slabs, lists.Of(IdleSlab), IdleSlab);
    assert b in lists.idle;
    assert b !in lists.full && b !in lists.partial;
    WithoutAbsent(lists.full, b);
    WithoutAbsent(lists.partial, b);
  }

  // ---------------------------------------------------------------- lemmas for the per-CPU layer

  ghost predicate IsLive(place: map<nat, Place>, x: nat) {
    x in place && place[x] == Live
  }

  /** The same objects are handed out. */
  ghost predicate SameLive(before: map<nat, Place>, place: map<nat, Place>) {
    forall x :: IsLive(place, x) <==> IsLive(before, x)
  }

  ghost predicate OnlyMag(before: seq<seq<nat>>, mags: seq<seq<nat>>, c: nat) {
    |mags| == |before| && forall i :: 0 <= i < |mags| && i != c ==> mags[i] == before[i]
  }

  /** Pages the page allocator may hand out. */
  ghost predicate FreshPages(g: Geometry, slabs: set<nat>, supply: seq<nat>) {
    && NoDup(supply) && g.page > 0
    && (forall b :: b in supply ==> b % g.page == 0 && b !in slabs)
  }

  lemma SameLiveRefl(place: map<nat, Place>)
    ensures SameLive(place, place)
  {
  }

  lemma SameLiveThen(p: map<nat, Place>, q: map<nat, Place>, r: map<nat, Place>)
    requires SameLive(p, q) && SameLive(q, r)
    ensures SameLive(p, r)
  {
  }

  lemma OnlyMagRefl(mags: seq<seq<nat>>, c: nat)
    ensures OnlyMag(mags, mags, c)
  {
  }

  lemma OnlyMagThen(p: seq<seq<nat>>, q: seq<seq<nat>>, r: seq<seq<nat>>, c: nat)
    requires OnlyMag(p, q, c) && OnlyMag(q, r, c)
    ensures OnlyMag(p, r, c)
  {
  }

  lemma OnlyMagStep(before: seq<seq<nat>>, mags: seq<seq<nat>>, c: nat, mag: seq<nat>)
    requires c < |mags|
    ensures OnlyMag(before, mags, c) ==> OnlyMag(before, mags[c := mag], c)
  {
  }

  /** An object taken and put into a magazine was not live and is not live. */
  lemma TakenIsNotLive(p: map<nat, Place>, q: map<nat, Place>, x: nat, c: nat)
    requires SameLive(p, q) && x in q && q[x] == InSlab
    ensures SameLive(p, q[x := Live][x := Magazine(c)])
  {
    var r := q[x := Live][x := Magazine(c)];
    forall y ensures IsLive(r, y) <==> IsLive(p, y) {
      assert IsLive(q, y) <==> IsLive(p, y);
    }
  }

  lemma FirstFresh(g: Geometry, slabs: set<nat>, supply: seq<nat>)
    requires FreshPages(g, slabs, supply) && supply != []
    ensures g.page > 0 && supply[0] % g.page == 0 && supply[0] !in slabs
    ensures FreshPages(g, slabs + {supply[0]}, supply[1..])
  {
    assert supply[0] in supply;
    HeadAndTail(supply);
    forall b | b in supply[1..] ensures b in supply && b != supply[0] {
      var i :| 0 <= i < |supply[1..]| && supply[1..][i] == b;
      assert supply[i + 1] == b;
    }
  }

  lemma NoPages(slabs: set<nat>)
    ensures slabs == slabs + Elems([])
  {
  }

  lemma NextPage(supply: seq<nat>, n: nat)
    requires n < |supply|
    ensures Elems(supply[..n + 1]) == Elems(supply[..n]) + {supply[n]}
    ensures supply[n..][1..] == supply[n + 1..]
  {
    assert supply[..n + 1] == supply[..n] + [supply[n]];
    ElemsAppend(supply[..n], supply[n]);
  }

  lemma GrownLive(g: Geometry, first: map<nat, Place>, p: map<nat, Place>, q: map<nat, Place>, b: nat)
    requires SameLive(first, p)
    requires forall x :: x in p ==> x in q && q[x] == p[x]
    requires q == p + (map x | x in Slots(g, b) :: InSlab)
    ensures SameLive(first, q)
  {
    forall x ensures IsLive(q, x) <==> IsLive(first, x) {
      assert IsLive(p, x) <==> IsLive(first, x);
    }
  }

  lemma PopCore(g: Geometry, next: map<nat, nat>, slabs: map<nat, Header>, lists: SlabLists, total: nat,
                chains: map<nat, seq<nat>>, place: map<nat, Place>, mags: seq<seq<nat>>, limit: nat, c: nat)
    requires CoreOk(g, next, slabs, lists, total, chains, place, mags) && Bounded(mags, limit)
    requires c < |mags| && mags[c] != []
    ensures g.Valid()
    ensures
      var n := |mags[c]| - 1;
      var x := mags[c][n];
      && CoreOk(g, next, slabs, lists, total, chains, place[x := Live], mags[c := mags[c][..n]])
      && Bounded(mags[c := mags[c][..n]], limit) && !IsLive(place, x)
      && Next(g, State(slabs.Keys, place), State(slabs.Keys, place[x := Live]), Pop(c, x))
  {
    hide Geometry.Valid, Inv, ListsOk;
    var n := |mags[c]| - 1;
    var x, mag := mags[c][n], mags[c][..n];
    assert x in mags[c];
    assert MagOk(mags[c], place, c);
    var mags', place' := mags[c := mag], place[x := Live];
    LiveChains(g, next, slabs, chains, place, x, Live);
    NextInv(g, State(slabs.Keys, place), State(slabs.Keys, place'), Pop(c, x));
    forall d | 0 <= d < |mags'| ensures MagOk(mags'[d], place', d) {
      assert MagOk(mags[d], place, d);
      if d == c {
        assert mags[c] == mag + [x];
        assert x !in mag;
      }
    }
  }

  /** The free lists do not care whether an object is live or in a magazine. */
  lemma LiveChains(g: Geometry, next: map<nat, nat>, slabs: map<nat, Header>, chains: map<nat, seq<nat>>,
                   place: map<nat, Place>, x: nat, p: Place)
    requires ChainsOk(g, next, slabs, chains, place) && x in place && place[x] != InSlab && p != InSlab
    ensures ChainsOk(g, next, slabs, chains, place[x := p])
  {
    forall b | b in slabs ensures SlabOk(g, next, slabs[b], chains[b], place[x := p], b) {
      assert SlabOk(g, next, slabs[b], chains[b], place, b);
    }
  }

  lemma PushCore(g: Geometry, next: map<nat, nat>, slabs: map<nat, Header>, lists: SlabLists, total: nat,
                 chains: map<nat, seq<nat>>, place: map<nat, Place>, mags: seq<seq<nat>>, limit: nat, c: nat, x: nat)
    requires CoreOk(g, next, slabs, lists, total, chains, place, mags) && Bounded(mags, limit)
    requires c < |mags| && |mags[c]| < limit && IsLive(place, x)
    ensures g.Valid()
    ensures CoreOk(g, next, slabs, lists, total, chains, place[x := Magazine(c)], mags[c := mags[c] + [x]])
    ensures Bounded(mags[c := mags[c] + [x]], limit)
    ensures Next(g, State(slabs.Keys, place), State(slabs.Keys, place[x := Magazine(c)]), Push(c, x))
  {
    hide Geometry.Valid, Inv, ListsOk;
    var mags', place' := mags[c := mags[c] + [x]], place[x := Magazine(c)];
    LiveChains(g, next, slabs, chains, place, x, Magazine(c));
    NextInv(g, State(slabs.Keys, place), State(slabs.Keys, place'), Push(c, x));
    forall d | 0 <= d < |mags'| ensures MagOk(mags'[d], place', d) {
      assert MagOk(mags[d], place, d);
    }
  }

  lemma DrainedLive(g: Geometry, place: map<nat, Place>, mid: State, s: State, x: nat)
    requires g.Valid() && !IsLive(place, x) && mid.place == place[x := Live]
    requires Next(g, mid, s, Return(x))
    ensures SameLive(place, s.place)
  {
    var t := mid.(place := mid.place[x := InSlab]);
    forall y ensures IsLive(s.place, y) <==> IsLive(place, y) {
      assert IsLive(t.place, y) <==> IsLive(place, y);
      if Idle(g, t.place, g.Base(x)) {
        SlotsFacts(g, g.Base(x), y);
      }
    }
  }

  lemma NoPagesYet(slabs: set<nat>)
    ensures NoDup([]) && Elems([]) == {} && slabs == slabs - Elems([])
  {
  }

  lemma AppendPage(slabs: set<nat>, pages: seq<nat>, b: nat, keys: set<nat>)
    requires NoDup(pages) && Elems(pages) <= slabs && keys == slabs - Elems(pages) && b in keys
    ensures NoDup(pages + [b]) && Elems(pages + [b]) <= slabs && keys - {b} == slabs - Elems(pages + [b])
  {
    ElemsAppend(pages, b);
    ElemsIn(pages, b);
  }

  /** x is live now and was not before; nothing else changed hands. */
  ghost predicate OneMoreLive(before: map<nat, Place>, place: map<nat, Place>, x: nat) {
    !IsLive(before, x) && forall y :: IsLive(place, y) <==> IsLive(before, y) || y == x
  }

  lemma PoppedLive(first: map<nat, Place>, before: map<nat, Place>, x: nat)
    requires SameLive(first, before) && !IsLive(before, x)
    ensures OneMoreLive(first, before[x := Live], x)
  {
    forall y ensures IsLive(before[x := Live], y) <==> IsLive(first, y) || y == x {
      assert IsLive(before, y) <==> IsLive(first, y);
    }
    assert IsLive(before, x) <==> IsLive(first, x);
  }

  lemma MagMeans(g: Geometry, next: map<nat, nat>, slabs: map<nat, Header>, lists: SlabLists, total: nat,
                 chains: map<nat, seq<nat>>, place: map<nat, Place>, mags: seq<seq<nat>>, c: nat, x: nat)
    requires CoreOk(g, next, slabs, lists, total, chains, place, mags) && c < |mags|
    ensures x in mags[c] ==> x in place && !IsLive(place, x)
  {
    assert MagOk(mags[c], place, c);
  }

  /** What a magazine keeps when an object is freed. */
  function KeptOf(mag: seq<nat>, limit: nat, batch: nat): seq<nat> {
    if |mag| < limit then mag else mag[..if |mag| <= batch then 0 else |mag| - batch]
  }

  lemma LiveIsPlaced(g: Geometry, next: map<nat, nat>, slabs: map<nat, Header>, lists: SlabLists, total: nat,
                     chains: map<nat, seq<nat>>, place: map<nat, Place>, mags: seq<seq<nat>>, c: nat, x: nat)
    requires CoreOk(g, next, slabs, lists, total, chains, place, mags) && c < |mags|
    ensures g.page > 0
    ensures IsLive(place, x) ==> x != 0 && AlignDown(x, g.page) in slabs && x !in mags[c]
    ensures x in mags[c] ==> x != 0 && AlignDown(x, g.page) in slabs && !IsLive(place, x)
  {
    FreeChecks(g, next, slabs, lists, total, chains, place, mags, x);
    MagMeans(g, next, slabs, lists, total, chains, place, mags, c, x);
  }

  /** An entry that is not live goes into a magazine that does not hold it: nothing else is wrong. */
  lemma StrayCore(g: Geometry, next: map<nat, nat>, slabs: map<nat, Header>, lists: SlabLists, total: nat,
                  chains: map<nat, seq<nat>>, place: map<nat, Place>, mags: seq<seq<nat>>, limit: nat, c: nat, x: nat)
    requires CoreOk(g, next, slabs, lists, total, chains, place, mags) && Bounded(mags, limit)
    requires c < |mags| && |mags[c]| < limit && !IsLive(place, x) && x !in mags[c]
    ensures
      var mags' := mags[c := mags[c] + [x]];
      && mags'[c := mags'[c][..|mags'[c]| - 1]] == mags && Bounded(mags', limit)
      && !CoreOk(g, next, slabs, lists, total, chains, place, mags')
  {
    var mags' := mags[c := mags[c] + [x]];
    assert mags'[c][..|mags'[c]| - 1] == mags[c];
    NoPlaceFits(g, next, slabs, lists, total, chains, place, mags, c, x, chains, place);
  }

  /** The free list a head leads to. */
  lemma {:induction false} ChainUnique(next: map<nat, nat>, head: nat, s: seq<nat>, t: seq<nat>)
    requires Chain(next, head, s) && Chain(next, head, t)
    ensures s == t
    decreases s
  {
    if s != [] && t != [] {
      ChainUnique(next, next[head], s[1..], t[1..]);
      assert s == [s[0]] + s[1..] && t == [t[0]] + t[1..];
    }
  }

  lemma MagazineOf(mags: seq<seq<nat>>, place: map<nat, Place>, x: nat)
    requires MagsOk(mags, place)
    ensures x in place && place[x].Magazine? ==> exists d :: 0 <= d < |mags| && x in mags[d]
  {
    if x in place && place[x].Magazine? {
      assert MagOk(mags[place[x].cpu], place, place[x].cpu);
    }
  }

  /** A stray entry is in no magazine, and its place can only be the one it was put into. */
  lemma StrayPlace(mags: seq<seq<nat>>, place: map<nat, Place>, place': map<nat, Place>, c: nat, x: nat)
    requires c < |mags| && MagsOk(mags, place) && MagsOk(mags[c := mags[c] + [x]], place') && x !in mags[c]
    ensures x in place' && place'[x] == Magazine(c)
    ensures x in place ==> !place[x].Magazine?
  {
    MagazineOf(mags, place, x);
    var mags' := mags[c := mags[c] + [x]];
    forall d | 0 <= d < |mags| ensures MagOk(mags[d], place, d) && MagOk(mags'[d], place', d) {
    }
    assert x in mags'[c];
    assert forall d :: 0 <= d < |mags| ==> x !in mags[d] by {
      assert forall d :: 0 <= d < |mags| && d != c ==> mags'[d] == mags[d] && x !in mags'[d];
    }
  }

  /** With a stray entry no assignment of places to the objects fits the lists, links and magazines. */
  lemma NoPlaceFits(g: Geometry, next: map<nat, nat>, slabs: map<nat, Header>, lists: SlabLists, total: nat,
                    chains: map<nat, seq<nat>>, place: map<nat, Place>, mags: seq<seq<nat>>, c: nat, x: nat,
                    chains': map<nat, seq<nat>>, place': map<nat, Place>)
    requires CoreOk(g, next, slabs, lists, total, chains, place, mags)
    requires c < |mags| && !IsLive(place, x) && x !in mags[c]
    ensures !CoreOk(g, next, slabs, lists, total, chains', place', mags[c := mags[c] + [x]])
  {
    if CoreOk(g, next, slabs, lists, total, chains', place', mags[c := mags[c] + [x]]) {
      hide MagsOk, ListsOk, Inv, Geometry.Valid, Chain;
      StrayPlace(mags, place, place', c, x);
      PlaceMeans(g, next, slabs, chains', place', x);
      PlaceMeans(g, next, slabs, chains, place, x);
      var b := g.Base(x);
      ChainUnique(next, slabs[b].head, chains[b], chains'[b]);
      assert false;
    }
  }

  /** A new cache of two CPUs, and its first object. */
  method OneObject(g: Geometry, b: nat) returns (cache: KmemCache, x: nat)
    requires g.Valid() && b % g.page == 0
    ensures fresh(cache) && cache.Valid() && |cache.mags| == 2 && cache.mags[1] == [] && IsLive(cache.place, x)
  {
    hide KmemCache.Valid, SameLive, OneMoreLive, Elems, NoneFree, FreshPages, IsLive, Geometry.Valid;
    OnePage(g, b);
    cache := new KmemCache(g, 2);
    assert cache.mags[1] == [];
    var got, rest := cache.Alloc(0, [b]);
    x := got.value;
    NowLive(map[], cache.place, x);
  }

  /** Freed on CPU 0 and again on CPU 1: both magazines end with the object, so both will hand it out. */
  method FreedTwice(g: Geometry, b: nat) returns (cache: KmemCache, x: nat, r: Outcome<seq<nat>>)
    requires g.Valid() && b % g.page == 0
    ensures fresh(cache) && r.Normal? && |cache.mags| == 2 && !cache.Valid()
    ensures forall c :: 0 <= c < 2 ==> cache.mags[c] != [] && cache.mags[c][|cache.mags[c]| - 1] == x
  {
    hide KmemCache.Valid, KmemCache.ValidBut, KmemCache.View, KmemCache.Stops, SameLive, OneMoreLive, Elems, IsLive,
         Geometry.Valid, KeptOf;
    cache, x := OneObject(g, b);
    LiveStops(cache, x);
    r := cache.Free(0, x);
    assert cache.mags[1] == [];
    InMagazine(cache, x);
    r := cache.Free(1, x);
  }

  lemma LiveStops(cache: KmemCache, x: nat)
    requires cache.Valid() && |cache.mags| == 2 && IsLive(cache.place, x)
    ensures cache.g.page > 0 && x != 0 && !cache.Stops(0, x)
  {
    hide CoreOk, AlignDown, IsLive;
    LiveIsPlaced(cache.g, cache.next, cache.slabs, cache.lists, cache.total, cache.chains, cache.place, cache.mags,
                 0, x);
  }

  lemma InMagazine(cache: KmemCache, x: nat)
    requires cache.Valid() && |cache.mags| == 2 && cache.mags[1] == [] && x in cache.mags[0]
    ensures cache.g.page > 0 && x != 0 && !cache.Stops(1, x) && !IsLive(cache.place, x)
  {
    hide CoreOk, AlignDown, IsLive;
    LiveIsPlaced(cache.g, cache.next, cache.slabs, cache.lists, cache.total, cache.chains, cache.place, cache.mags,
                 0, x);
  }

  lemma OnePage(g: Geometry, b: nat)
    requires g.Valid() && b % g.page == 0
    ensures FreshPages(g, {}, [b]) && NoneFree(map[])
  {
    Positive(g);
  }

  lemma NowLive(before: map<nat, Place>, place: map<nat, Place>, x: nat)
    requires OneMoreLive(before, place, x)
    ensures IsLive(place, x)
  {
  }

  lemma BoundAt(mags: seq<seq<nat>>, limit: nat, c: nat)
    requires Bounded(mags, limit) && c < |mags|
    ensures |mags[c]| <= limit
  {
  }

  lemma SameLiveAt(p: map<nat, Place>, q: map<nat, Place>, x: nat)
    requires SameLive(p, q)
    ensures IsLive(p, x) <==> IsLive(q, x)
  {
  }

  lemma PushedLive(first: map<nat, Place>, before: map<nat, Place>, x: nat, c: nat)
    requires SameLive(first, before) && IsLive(before, x)
    ensures OneMoreLive(before[x := Magazine(c)], first, x)
  {
    var p := before[x := Magazine(c)];
    forall y ensures IsLive(first, y) <==> IsLive(p, y) || y == x {
      assert IsLive(before, y) <==> IsLive(first, y);
    }
  }

  /** The first n magazines are empty. */
  ghost predicate AllEmpty(mags: seq<seq<nat>>, n: nat) {
    forall c :: 0 <= c < n && c < |mags| ==> mags[c] == []
  }

  lemma NoneEmptyYet(mags: seq<seq<nat>>)
    ensures AllEmpty(mags, 0)
  {
  }

  lemma StillEmpty(before: seq<seq<nat>>, mags: seq<seq<nat>>, c: nat)
    requires AllEmpty(before, c) && OnlyMag(before, mags, c)
    ensures AllEmpty(mags, c)
  {
  }

  lemma OneMoreEmpty(mags: seq<seq<nat>>, c: nat)
    requires AllEmpty(mags, c) && c < |mags| && |mags[c]| == 0
    ensures AllEmpty(mags, c + 1)
  {
  }

  lemma {:induction false} AppendPages(slabs: set<nat>, pages: seq<nat>, more: seq<nat>, keys: set<nat>)
    requires NoDup(pages) && Elems(pages) <= slabs && keys == slabs - Elems(pages)
    requires NoDup(more) && Elems(more) <= keys
    ensures NoDup(pages + more) && Elems(pages + more) <= slabs
    ensures keys - Elems(more) == slabs - Elems(pages + more)
    decreases |more|
  {
    if more == [] {
      assert pages + more == pages;
    } else {
      var b := more[0];
      HeadAndTail(more);
      AppendPage(slabs, pages, b, keys);
      AppendPages(slabs, pages + [b], more[1..], keys - {b});
      assert pages + [b] + more[1..] == pages + more;
    }
  }

  lemma ReclaimedLive(g: Geometry, s: State, s': State, b: nat)
    requires g.Valid() && Next(g, s, s', Reclaim(b))
    ensures SameLive(s.place, s'.place)
  {
    forall x ensures IsLive(s'.place, x) <==> IsLive(s.place, x) {
      SlotsFacts(g, b, x);
    }
  }

  lemma AllReturned(g: Geometry, next: map<nat, nat>, slabs: map<nat, Header>, lists: SlabLists, total: nat,
                    chains: map<nat, seq<nat>>, place: map<nat, Place>, mags: seq<seq<nat>>, before: map<nat, Place>)
    requires CoreOk(g, next, slabs, lists, total, chains, place, mags)
    requires AllEmpty(mags, |mags|) && lists.idle == []
    requires SameLive(before, place) && forall x :: !IsLive(before, x)
    ensures slabs == map[] && total == 0
  {
    forall x | x in place ensures place[x] == InSlab {
      assert IsLive(place, x) <==> IsLive(before, x);
      if place[x].Magazine? {
        MagMember(mags, place, x);
      }
    }
    if b :| b in slabs {
      IdleListed(g, next, slabs, lists, total, chains, place, mags, b);
      assert Idle(g, place, b);
    }
  }

  lemma MagMember(mags: seq<seq<nat>>, place: map<nat, Place>, x: nat)
    requires MagsOk(mags, place) && x in place && place[x].Magazine?
    ensures place[x].cpu < |mags| && x in mags[place[x].cpu]
  {
    assert MagOk(mags[place[x].cpu], place, place[x].cpu);
  }

  lemma IdleListed(g: Geometry, next: map<nat, nat>, slabs: map<nat, Header>, lists: SlabLists, total: nat,
                   chains: map<nat, seq<nat>>, place: map<nat, Place>, mags: seq<seq<nat>>, b: nat)
    requires CoreOk(g, next, slabs, lists, total, chains, place, mags) && b in slabs
    ensures Idle(g, place, b) ==> b in lists.idle
  {
    IdleMeans(g, next, slabs, chains, place, b);
    assert ListOk(g, slabs, lists.Of(IdleSlab), IdleSlab);
  }
}
