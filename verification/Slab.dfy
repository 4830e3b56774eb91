/** An object cache: slabs with linked free lists behind per-CPU magazines (mm/slab.c). */
module Slab {
  import opened SlabRuns
  import opened UniqueLists

  const MAG_SIZE: nat := 16

  /** The fields of `struct slab` that change; head 0 is NULL. */
  datatype Header = Header(head: nat, inuse: nat)

  datatype Kind = FullSlab | PartialSlab | IdleSlab

  /** The three slab lists of a cache. */
  datatype SlabLists = SlabLists(full: seq<nat>, partial: seq<nat>, idle: seq<nat>) {
    function Of(k: Kind): seq<nat> {
      match k
      case FullSlab => full
      case PartialSlab => partial
      case IdleSlab => idle
    }

    /** list_del: the slab leaves the list it is on. */
    function Del(b: nat): SlabLists {
      SlabLists(Without(full, b), Without(partial, b), Without(idle, b))
    }

    /** list_add: the slab becomes the first of a list. */
    function Add(k: Kind, b: nat): SlabLists {
      match k
      case FullSlab => this.(full := [b] + full)
      case PartialSlab => this.(partial := [b] + partial)
      case IdleSlab => this.(idle := [b] + idle)
    }
  }

  /** The result of a section that contains calls of panic(). */
  datatype Outcome<+T> = Normal(value: T) | Panic

  // ---------------------------------------------------------------- representation

  /** The free list of a slab, linked through the first word of its free objects. */
  ghost predicate Chain(next: map<nat, nat>, head: nat, s: seq<nat>)
    decreases s
  {
    if s == [] then head == 0
    else head == s[0] != 0 && head in next && Chain(next, next[head], s[1..])
  }

  ghost predicate SlabOk(g: Geometry, next: map<nat, nat>, h: Header, chain: seq<nat>,
                         place: map<nat, Place>, b: nat)
  {
    && Chain(next, h.head, chain) && NoDup(chain)
    && (forall x :: x in chain <==> g.IsSlot(b, x) && x in place && place[x] == InSlab)
    && h.inuse + |chain| == g.count
  }

  ghost predicate ChainsOk(g: Geometry, next: map<nat, nat>, slabs: map<nat, Header>,
                           chains: map<nat, seq<nat>>, place: map<nat, Place>)
  {
    && chains.Keys == slabs.Keys
    && (forall b :: b in slabs ==> SlabOk(g, next, slabs[b], chains[b], place, b))
  }

  /** inuse decides which list a slab is on. */
  function KindOf(g: Geometry, h: Header): Kind {
    if h.inuse == 0 then IdleSlab else if h.inuse >= g.count then FullSlab else PartialSlab
  }

  ghost predicate ListsOk(g: Geometry, slabs: map<nat, Header>, lists: SlabLists) {
    forall k: Kind :: ListOk(g, slabs, lists.Of(k), k)
  }

  ghost predicate ListOk(g: Geometry, slabs: map<nat, Header>, list: seq<nat>, k: Kind) {
    NoDup(list) && forall b :: b in list <==> b in slabs && KindOf(g, slabs[b]) == k
  }

  /** A magazine holds exactly the objects whose place it is. */
  ghost predicate MagsOk(mags: seq<seq<nat>>, place: map<nat, Place>) {
    && (forall c :: 0 <= c < |mags| ==> MagOk(mags[c], place, c))
    && (forall x :: x in place && place[x].Magazine? ==> place[x].cpu < |mags|)
  }

  ghost predicate MagOk(mag: seq<nat>, place: map<nat, Place>, c: nat) {
    NoDup(mag) && forall x :: x in mag <==> x in place && place[x] == Magazine(c)
  }

  ghost predicate Bounded(mags: seq<seq<nat>>, limit: nat) {
    forall c :: 0 <= c < |mags| ==> |mags[c]| <= limit
  }

  // ---------------------------------------------------------------- chains

  lemma {:induction false} ChainFrame(next: map<nat, nat>, head: nat, s: seq<nat>, x: nat, v: nat)
    requires Chain(next, head, s) && x !in s
    ensures Chain(next[x := v], head, s)
    decreases s
  {
    if s != [] {
      assert s[0] in s;
      ChainFrame(next, next[head], s[1..], x, v);
    }
  }

  lemma SlotSet(g: Geometry, b: nat)
    requires g.Valid()
    ensures |Slots(g, b)| == g.count
  {
    SlotSetTo(g, b, g.count);
  }

  lemma {:induction false} SlotSetTo(g: Geometry, b: nat, n: nat)
    requires g.Valid()
    ensures |set i | 0 <= i < n :: g.Slot(b, i)| == n
  {
    var all := set i | 0 <= i < n :: g.Slot(b, i);
    if n > 0 {
      var most := set i | 0 <= i < n - 1 :: g.Slot(b, i);
      SlotSetTo(g, b, n - 1);
      assert all == most + {g.Slot(b, n - 1)};
      if g.Slot(b, n - 1) in most {
        var i :| 0 <= i < n - 1 && g.Slot(b, i) == g.Slot(b, n - 1);
        SlotInjective(g, b, i, n - 1);
      }
    } else {
      assert all == {};
    }
  }

  /** A slab has at most count free objects; with count of them it has no other object. */
  lemma ChainBound(g: Geometry, b: nat, s: seq<nat>)
    requires g.Valid() && NoDup(s) && forall x :: x in s ==> g.IsSlot(b, x)
    ensures |s| <= g.count
    ensures |s| == g.count ==> forall x :: g.IsSlot(b, x) ==> x in s
  {
    ElemsCount(s);
    SlotSet(g, b);
    assert forall x :: x in Elems(s) <==> x in s;
    forall x | x in Elems(s) ensures x in Slots(g, b) {
      SlotsFacts(g, b, x);
    }
    assert Slots(g, b) == Elems(s) + (Slots(g, b) - Elems(s));
    if |s| == g.count {
      forall x | g.IsSlot(b, x) ensures x in s {
        SlotsFacts(g, b, x);
        assert Slots(g, b) - Elems(s) == {};
        assert x !in Slots(g, b) - Elems(s);
      }
    }
  }

  /** A slot of one slab is no slot of another. */
  lemma OtherSlab(g: Geometry, b: nat, b': nat, x: nat)
    requires g.Valid() && b % g.page == 0 && b' % g.page == 0 && b != b' && g.IsSlot(b, x)
    ensures !g.IsSlot(b', x)
  {
    SlotBase(g, b, x);
    if g.IsSlot(b', x) {
      SlotBase(g, b', x);
    }
  }

  /** The head of the free list of a slab that is not full, and the one after it. */
  lemma FirstFree(g: Geometry, next: map<nat, nat>, h: Header, s: seq<nat>, place: map<nat, Place>, b: nat)
    requires SlabOk(g, next, h, s, place, b) && h.inuse < g.count
    ensures s != [] && h.head == s[0] && s[0] != 0 && s[0] in next
    ensures g.IsSlot(b, s[0]) && s[0] in place && place[s[0]] == InSlab
    ensures next[s[0]] == 0 || g.IsSlot(b, next[s[0]])
  {
    assert s[0] in s;
    assert Chain(next, next[s[0]], s[1..]);
    assert |s| > 1 ==> s[1..][0] == s[1] && s[1] in s;
  }

  lemma TakeSlab(g: Geometry, next: map<nat, nat>, h: Header, s: seq<nat>, place: map<nat, Place>, b: nat)
    requires SlabOk(g, next, h, s, place, b) && h.inuse < g.count
    ensures s != [] && s[0] in next
    ensures SlabOk(g, next, Header(next[s[0]], h.inuse + 1), s[1..], place[s[0] := Live], b)
  {
    HeadAndTail(s);
    assert forall y :: y in s <==> y == s[0] || y in s[1..];
    assert s[0] !in s[1..] by {
      assert forall i :: 0 <= i < |s[1..]| ==> s[1..][i] == s[i + 1];
    }
  }

  /** A change of place of x does not concern the other slabs. */
  lemma OtherSlabOk(g: Geometry, next: map<nat, nat>, h: Header, s: seq<nat>, place: map<nat, Place>, b: nat,
                    x: nat, p: Place)
    requires SlabOk(g, next, h, s, place, b) && !g.IsSlot(b, x)
    ensures SlabOk(g, next, h, s, place[x := p], b)
  {
  }

  /** Taking the first free object of a slab. */
  lemma TakeChains(g: Geometry, next: map<nat, nat>, slabs: map<nat, Header>, chains: map<nat, seq<nat>>,
                   place: map<nat, Place>, b: nat)
    requires g.Valid() && Inv(g, State(slabs.Keys, place)) && ChainsOk(g, next, slabs, chains, place)
    requires b in slabs && slabs[b].inuse < g.count
    ensures var x := slabs[b].head;
      && x != 0 && x in next && g.IsSlot(b, x) && x in place && place[x] == InSlab
      && (next[x] == 0 || g.IsSlot(b, next[x])) && b in chains && chains[b] != []
      && ChainsOk(g, next, slabs[b := Header(next[x], slabs[b].inuse + 1)], chains[b := chains[b][1..]],
                  place[x := Live])
  {
    hide SlabOk, Geometry.IsSlot;
    var s, x := chains[b], slabs[b].head;
    FirstFree(g, next, slabs[b], s, place, b);
    TakeSlab(g, next, slabs[b], s, place, b);
    var slabs', chains', place' :=
      slabs[b := Header(next[x], slabs[b].inuse + 1)], chains[b := s[1..]], place[x := Live];
    forall b' | b' in slabs' ensures SlabOk(g, next, slabs'[b'], chains'[b'], place', b') {
      if b' != b {
        OtherSlab(g, b, b', x);
        OtherSlabOk(g, next, slabs[b'], chains[b'], place, b', x, Live);
      }
    }
  }

  /** Giving an object back to its slab. */
  lemma ReturnChains(g: Geometry, next: map<nat, nat>, slabs: map<nat, Header>, chains: map<nat, seq<nat>>,
                     place: map<nat, Place>, x: nat)
    requires g.Valid() && Inv(g, State(slabs.Keys, place)) && ChainsOk(g, next, slabs, chains, place)
    requires x in place && place[x] == Live
    ensures var b := g.Base(x);
      && b in slabs && g.IsSlot(b, x) && x !in chains[b] && 0 < slabs[b].inuse <= g.count
      && ChainsOk(g, next[x := slabs[b].head], slabs[b := Header(x, slabs[b].inuse - 1)],
                  chains[b := [x] + chains[b]], place[x := InSlab])
  {
    var b := g.Base(x);
    assert SlabOk(g, next, slabs[b], chains[b], place, b);
    var s := chains[b];
    var s' := [x] + s;
    assert NoDup(s');
    assert forall y :: y in s' <==> y == x || y in s;
    ChainBound(g, b, s');
    SlotBase(g, b, x);
    var next', slabs', chains', place' :=
      next[x := slabs[b].head], slabs[b := Header(x, slabs[b].inuse - 1)], chains[b := s'], place[x := InSlab];
    forall b' | b' in slabs' ensures SlabOk(g, next', slabs'[b'], chains'[b'], place', b') {
      if b' == b {
        ChainFrame(next, slabs[b].head, s, x, slabs[b].head);
        assert s'[1..] == s;
      } else {
        assert SlabOk(g, next, slabs[b'], chains[b'], place, b');
        OtherSlab(g, b, b', x);
        ChainFrame(next, slabs[b'].head, chains[b'], x, slabs[b].head);
      }
    }
  }

  /** A slab without objects in use is idle. */
  lemma IdleMeans(g: Geometry, next: map<nat, nat>, slabs: map<nat, Header>, chains: map<nat, seq<nat>>,
                  place: map<nat, Place>, b: nat)
    requires g.Valid() && Inv(g, State(slabs.Keys, place)) && ChainsOk(g, next, slabs, chains, place)
    requires b in slabs
    ensures slabs[b].inuse == 0 <==> Idle(g, place, b)
  {
    var s := chains[b];
    assert SlabOk(g, next, slabs[b], s, place, b);
    ChainBound(g, b, s);
    if Idle(g, place, b) {
      forall x | x in Slots(g, b) ensures x in Elems(s) {
        SlotsFacts(g, b, x);
        SlotBase(g, b, x);
        assert x in s;
      }
      ElemsCount(s);
      SlotSet(g, b);
      assert forall x :: x in Elems(s) <==> x in s;
      assert Elems(s) == Slots(g, b) + (Elems(s) - Slots(g, b));
    }
  }

  lemma DropChains(g: Geometry, next: map<nat, nat>, slabs: map<nat, Header>, chains: map<nat, seq<nat>>,
                   place: map<nat, Place>, b: nat)
    requires g.Valid() && Inv(g, State(slabs.Keys, place)) && ChainsOk(g, next, slabs, chains, place)
    requires b in slabs
    ensures ChainsOk(g, next, slabs - {b}, chains - {b}, place - Slots(g, b))
  {
    var slabs', chains', place' := slabs - {b}, chains - {b}, place - Slots(g, b);
    forall b' | b' in slabs' ensures SlabOk(g, next, slabs'[b'], chains'[b'], place', b') {
      assert SlabOk(g, next, slabs[b'], chains[b'], place, b');
      forall x | g.IsSlot(b', x) ensures x !in Slots(g, b) {
        OtherSlab(g, b', b, x);
        SlotsFacts(g, b, x);
      }
    }
  }

  /** A new slab: all its objects are on its free list. */
  lemma GrowChains(g: Geometry, next: map<nat, nat>, next': map<nat, nat>, slabs: map<nat, Header>,
                   chains: map<nat, seq<nat>>, place: map<nat, Place>, b: nat, head: nat, s: seq<nat>)
    requires g.Valid() && Inv(g, State(slabs.Keys, place)) && ChainsOk(g, next, slabs, chains, place)
    requires b !in slabs && b % g.page == 0
    requires Chain(next', head, s) && NoDup(s) && |s| == g.count && forall x :: x in s <==> g.IsSlot(b, x)
    requires forall x :: !g.IsSlot(b, x) && x in next ==> x in next' && next'[x] == next[x]
    ensures ChainsOk(g, next', slabs[b := Header(head, 0)], chains[b := s], Grown(g, State(slabs.Keys, place), b).place)
  {
    var slabs', chains' := slabs[b := Header(head, 0)], chains[b := s];
    var place' := Grown(g, State(slabs.Keys, place), b).place;
    forall b' | b' in slabs' ensures SlabOk(g, next', slabs'[b'], chains'[b'], place', b') {
      if b' == b {
        GrownFree(g, place, b, State(slabs.Keys, place));
      } else {
        assert SlabOk(g, next, slabs[b'], chains[b'], place, b');
        forall x | g.IsSlot(b', x) ensures x !in Slots(g, b) && !g.IsSlot(b, x) {
          OtherSlab(g, b', b, x);
          SlotsFacts(g, b, x);
        }
        ChainSame(next, next', slabs[b'].head, chains[b']);
      }
    }
  }

  lemma GrownFree(g: Geometry, place: map<nat, Place>, b: nat, s: State)
    requires s.place == place
    ensures forall x :: g.IsSlot(b, x) ==> x in Grown(g, s, b).place && Grown(g, s, b).place[x] == InSlab
  {
    forall x | g.IsSlot(b, x) ensures x in Grown(g, s, b).place && Grown(g, s, b).place[x] == InSlab {
      SlotsFacts(g, b, x);
    }
  }

  lemma {:induction false} ChainSame(next: map<nat, nat>, next': map<nat, nat>, head: nat, s: seq<nat>)
    requires Chain(next, head, s)
    requires forall x :: x in s && x in next ==> x in next' && next'[x] == next[x]
    ensures Chain(next', head, s)
    decreases s
  {
    if s != [] {
      assert s[0] in s;
      ChainSame(next, next', next[head], s[1..]);
    }
  }

  // ---------------------------------------------------------------- lists

  lemma {:induction false} WithoutAbsent(s: seq<nat>, x: nat)
    requires x !in s
    ensures Without(s, x) == s
  {
    if s != [] {
      WithoutAbsent(s[1..], x);
    }
  }

  lemma DelOk(g: Geometry, slabs: map<nat, Header>, lists: SlabLists, b: nat)
    requires ListsOk(g, slabs, lists) && b in slabs
    ensures ListsOk(g, slabs - {b}, lists.Del(b))
  {
    forall k: Kind ensures ListOk(g, slabs - {b}, lists.Del(b).Of(k), k) {
      var list := lists.Of(k);
      assert ListOk(g, slabs, list, k);
      assert lists.Del(b).Of(k) == Without(list, b);
      if b in list {
        WithoutFacts(list, b);
      } else {
        WithoutAbsent(list, b);
      }
    }
  }

  lemma AddOk(g: Geometry, slabs: map<nat, Header>, lists: SlabLists, b: nat, h: Header)
    requires ListsOk(g, slabs, lists) && b !in slabs
    ensures ListsOk(g, slabs[b := h], lists.Add(KindOf(g, h), b))
  {
    hide ListOk, KindOf;
    forall k: Kind ensures ListOk(g, slabs[b := h], lists.Add(KindOf(g, h), b).Of(k), k) {
      AddToList(g, slabs, lists.Of(k), k, b, h);
    }
  }

  lemma AddToList(g: Geometry, slabs: map<nat, Header>, list: seq<nat>, k: Kind, b: nat, h: Header)
    requires ListOk(g, slabs, list, k) && b !in slabs
    ensures ListOk(g, slabs[b := h], if KindOf(g, h) == k then [b] + list else list, k)
  {
    hide KindOf;
    assert b !in list;
  }

  /** A slab moves to the list of its new kind. */
  lemma MoveOk(g: Geometry, slabs: map<nat, Header>, lists: SlabLists, b: nat, h: Header)
    requires ListsOk(g, slabs, lists) && b in slabs
    ensures ListsOk(g, slabs[b := h], lists.Del(b).Add(KindOf(g, h), b))
    ensures KindOf(g, h) == KindOf(g, slabs[b]) ==> ListsOk(g, slabs[b := h], lists)
  {
    DelOk(g, slabs, lists, b);
    AddOk(g, slabs - {b}, lists.Del(b), b, h);
    assert (slabs - {b})[b := h] == slabs[b := h];
    if KindOf(g, h) == KindOf(g, slabs[b]) {
      forall k: Kind ensures ListOk(g, slabs[b := h], lists.Of(k), k) {
        assert ListOk(g, slabs, lists.Of(k), k);
      }
    }
  }
}
