/**
 Objects in one-page slabs (mm/slab.c): where the slots of a slab lie, and every interleaving of the
 cache's critical sections as a transition system on the place of each slot.
 */
module SlabRuns {
  import opened Arithmetic

  /** offset: where the first object starts in a slab page; size and count of the objects. */
  datatype Geometry = Geometry(page: nat, offset: nat, size: nat, count: nat) {
    ghost predicate Valid() {
      0 < offset && 0 < size && 0 < count && offset + count * size <= page
    }

    ghost function Slot(b: nat, i: nat): nat {
      b + offset + i * size
    }

    /** The page an object lies in. */
    ghost function Base(x: nat): nat
      requires page > 0
    {
      AlignDown(x, page)
    }

    /** x is one of the objects of the slab page b. */
    ghost predicate IsSlot(b: nat, x: nat) {
      exists i: nat :: i < count && x == Slot(b, i)
    }
  }

  lemma SlotFits(g: Geometry, b: nat, i: nat)
    requires g.Valid() && i < g.count
    ensures b < g.Slot(b, i) && g.Slot(b, i) + g.size <= b + g.page
  {
    MulOrder(i + 1, g.count, g.size);
    MulDistribute(i, 1, g.size);
    MulOrder(0, i, g.size);
  }

  /** An object's address leads back to its slab. */
  lemma SlotBase(g: Geometry, b: nat, x: nat)
    requires g.Valid() && b % g.page == 0 && g.IsSlot(b, x)
    ensures g.page > 0 && g.Base(x) == b && b < x
  {
    var i: nat :| i < g.count && x == g.Slot(b, i);
    SlotFits(g, b, i);
    ModOffset(b, x - b, g.page);
  }

  lemma SlotInjective(g: Geometry, b: nat, i: nat, j: nat)
    requires g.Valid() && g.Slot(b, i) == g.Slot(b, j)
    ensures i == j
  {
    if i < j {
      MulOrder(i + 1, j, g.size);
      MulDistribute(i, 1, g.size);
    } else if j < i {
      MulOrder(j + 1, i, g.size);
      MulDistribute(j, 1, g.size);
    }
  }

  /** Two different objects of any two slabs share no byte, and none touches a slab header. */
  lemma SlotsApart(g: Geometry, b: nat, x: nat, b': nat, x': nat)
    requires g.Valid() && b % g.page == 0 && b' % g.page == 0
    requires g.IsSlot(b, x) && g.IsSlot(b', x') && x != x'
    ensures x + g.size <= x' || x' + g.size <= x
    ensures b + g.offset <= x && x + g.size <= b + g.page
  {
    var i: nat :| i < g.count && x == g.Slot(b, i);
    var j: nat :| j < g.count && x' == g.Slot(b', j);
    SlotFits(g, b, i);
    SlotFits(g, b', j);
    MulOrder(0, i, g.size);
    if b < b' {
      MultiplesApart(b, b', g.page);
    } else if b' < b {
      MultiplesApart(b', b, g.page);
    } else if i < j {
      MulOrder(i + 1, j, g.size);
      MulDistribute(i, 1, g.size);
    } else {
      MulOrder(j + 1, i, g.size);
      MulDistribute(j, 1, g.size);
    }
  }

  // ---------------------------------------------------------------- the transition system

  datatype Place = InSlab | Magazine(cpu: nat) | Live

  /** The slab pages of the cache and the place of each of their slots. */
  datatype State = State(slabs: set<nat>, place: map<nat, Place>)

  datatype Action =
    | AddSlab(base: nat)
    | Take(obj: nat)                 // __kmem_cache_alloc_locked
    | Return(obj: nat)               // __kmem_cache_free_locked
    | Pop(cpu: nat, obj: nat)        // out of a magazine
    | Push(cpu: nat, obj: nat)       // into a magazine
    | Reclaim(base: nat)             // an idle slab page goes back to the page allocator

  ghost predicate Idle(g: Geometry, place: map<nat, Place>, b: nat) {
    forall x :: x in place && g.IsSlot(b, x) ==> place[x] == InSlab
  }

  ghost function Slots(g: Geometry, b: nat): set<nat> {
    set i | 0 <= i < g.count :: g.Slot(b, i)
  }

  /** The slots of a new slab are free. */
  ghost function Grown(g: Geometry, s: State, b: nat): State {
    State(s.slabs + {b}, s.place + (map x | x in Slots(g, b) :: InSlab))
  }

  ghost function Shrunk(g: Geometry, s: State, b: nat): State {
    State(s.slabs - {b}, s.place - Slots(g, b))
  }

  ghost predicate Next(g: Geometry, s: State, s': State, a: Action)
    requires g.Valid()
  {
    match a
    case AddSlab(b) => b % g.page == 0 && b !in s.slabs && s' == Grown(g, s, b)
    case Take(x) => x in s.place && s.place[x] == InSlab && s' == s.(place := s.place[x := Live])
    case Return(x) =>
      && x in s.place && s.place[x] == Live
      && var t := s.(place := s.place[x := InSlab]);
         s' == if Idle(g, t.place, g.Base(x)) then Shrunk(g, t, g.Base(x)) else t
    case Pop(c, x) => x in s.place && s.place[x] == Magazine(c) && s' == s.(place := s.place[x := Live])
    case Push(c, x) => x in s.place && s.place[x] == Live && s' == s.(place := s.place[x := Magazine(c)])
    case Reclaim(b) => b in s.slabs && Idle(g, s.place, b) && s' == Shrunk(g, s, b)
  }

  /** Exactly the slots of the slabs have a place. */
  ghost predicate Inv(g: Geometry, s: State)
    requires g.Valid()
  {
    && (forall b :: b in s.slabs ==> b % g.page == 0)
    && (forall x :: x in s.place <==> g.Base(x) in s.slabs && g.IsSlot(g.Base(x), x))
  }

  ghost predicate Run(g: Geometry, run: seq<State>, actions: seq<Action>)
    requires g.Valid()
  {
    && |run| == |actions| + 1
    && run[0] == State({}, map[])
    && (forall i :: 0 <= i < |actions| ==> Next(g, run[i], run[i + 1], actions[i]))
  }

  lemma SlotsFacts(g: Geometry, b: nat, x: nat)
    ensures x in Slots(g, b) <==> g.IsSlot(b, x)
  {
  }

  lemma GrownInv(g: Geometry, s: State, b: nat)
    requires g.Valid() && Inv(g, s) && b % g.page == 0
    ensures Inv(g, Grown(g, s, b))
  {
    var s' := Grown(g, s, b);
    forall x: nat ensures x in s'.place <==> g.Base(x) in s'.slabs && g.IsSlot(g.Base(x), x) {
      SlotsFacts(g, b, x);
      if g.IsSlot(b, x) {
        SlotBase(g, b, x);
      }
    }
  }

  lemma ShrunkInv(g: Geometry, s: State, b: nat)
    requires g.Valid() && Inv(g, s) && b in s.slabs
    ensures Inv(g, Shrunk(g, s, b))
  {
    var s' := Shrunk(g, s, b);
    forall x: nat ensures x in s'.place <==> g.Base(x) in s'.slabs && g.IsSlot(g.Base(x), x) {
      SlotsFacts(g, b, x);
      if g.IsSlot(b, x) {
        SlotBase(g, b, x);
      }
    }
  }

  lemma NextInv(g: Geometry, s: State, s': State, a: Action)
    requires g.Valid() && Inv(g, s) && Next(g, s, s', a)
    ensures Inv(g, s')
  {
    match a
    case AddSlab(b) => GrownInv(g, s, b);
    case Take(x) =>
    case Return(x) =>
      var t := s.(place := s.place[x := InSlab]);
      assert Inv(g, t);
      if Idle(g, t.place, g.Base(x)) {
        ShrunkInv(g, t, g.Base(x));
      }
    case Pop(c, x) =>
    case Push(c, x) =>
    case Reclaim(b) => ShrunkInv(g, s, b);
  }

  lemma {:induction false} RunInv(g: Geometry, run: seq<State>, actions: seq<Action>, n: nat)
    requires g.Valid() && Run(g, run, actions) && n < |run|
    ensures Inv(g, run[n])
  {
    if n > 0 {
      RunInv(g, run, actions, n - 1);
      NextInv(g, run[n - 1], run[n], actions[n - 1]);
    }
  }

  // ---------------------------------------------------------------- what holds of every run

  /** A live object stays live, its slab stays allocated, and nobody else is given it, until it is freed. */
  lemma LiveKept(g: Geometry, s: State, s': State, a: Action, x: nat)
    requires g.Valid() && Inv(g, s) && Next(g, s, s', a)
    requires x in s.place && s.place[x] == Live
    requires a != Return(x) && forall c: nat :: a != Push(c, x)
    ensures x in s'.place && s'.place[x] == Live && g.Base(x) in s'.slabs
    ensures a != Take(x) && forall c: nat :: a != Pop(c, x)
  {
    NextInv(g, s, s', a);
    match a {
      case AddSlab(b) =>
        SlotsFacts(g, b, x);
        if g.IsSlot(b, x) {
          SlotBase(g, b, x);
          assert false;
        }
      case Return(y) =>
        SlotsFacts(g, g.Base(y), x);
      case Reclaim(b) =>
        SlotsFacts(g, b, x);
      case Take(y) =>
      case Pop(c, y) =>
      case Push(c, y) =>
    }
  }

  lemma {:induction false} LiveUntilFreed(g: Geometry, run: seq<State>, actions: seq<Action>, m: nat, n: nat, x: nat)
    requires g.Valid() && Run(g, run, actions) && m <= n < |run|
    requires x in run[m].place && run[m].place[x] == Live
    requires forall i :: m <= i < n ==> !Frees(actions[i], x)
    ensures x in run[n].place && run[n].place[x] == Live && g.Base(x) in run[n].slabs
    ensures forall i :: m <= i < n ==> !Hands(actions[i], x)
  {
    if n > m {
      LiveUntilFreed(g, run, actions, m, n - 1, x);
      RunInv(g, run, actions, n - 1);
      assert !Frees(actions[n - 1], x);
      LiveKept(g, run[n - 1], run[n], actions[n - 1], x);
    } else {
      RunInv(g, run, actions, n);
    }
  }

  /** The action hands x out. */
  ghost predicate Hands(a: Action, x: nat) {
    a == Take(x) || (a.Pop? && a.obj == x)
  }

  /** The action gives x back. */
  ghost predicate Frees(a: Action, x: nat) {
    a == Return(x) || (a.Push? && a.obj == x)
  }

  /** Distinct objects handed out at the same time share no byte. */
  lemma LiveApart(g: Geometry, run: seq<State>, actions: seq<Action>, n: nat, x: nat, y: nat)
    requires g.Valid() && Run(g, run, actions) && n < |run|
    requires x in run[n].place && y in run[n].place && x != y
    ensures x + g.size <= y || y + g.size <= x
  {
    RunInv(g, run, actions, n);
    SlotsApart(g, g.Base(x), x, g.Base(y), y);
  }

  /** With nothing live, no object in a magazine and no idle slab, every slab page has been returned. */
  lemma DrainedReturnsAll(g: Geometry, s: State)
    requires g.Valid() && Inv(g, s)
    requires forall x :: x in s.place ==> s.place[x] == InSlab
    requires forall b :: b in s.slabs ==> !Idle(g, s.place, b)
    ensures s.slabs == {} && s.place == map[]
  {
    if b :| b in s.slabs {
      assert Idle(g, s.place, b);
    }
  }
}
