/** Page tables without empty and without uniform tables have one form for each translation (mm/pgtbl.c). */
module PageTableForm {
  import opened Arithmetic
  import opened Options
  import opened PageTable

  /** The two tables have the same entries, down to the leaves; the pages of the tables may differ. */
  ghost predicate SameForm(g: Geometry, mem: Memory, t: nat, mem': Memory, t': nat, l: nat)
    decreases g.levels - l, 1
  {
    && l < g.levels && t in mem && t' in mem' && |mem[t]| == |mem'[t']| == g.entries
    && forall i :: 0 <= i < g.entries ==> SameEntry(g, mem, mem[t][i], mem', mem'[t'][i], l)
  }

  ghost predicate SameEntry(g: Geometry, mem: Memory, e: Entry, mem': Memory, e': Entry, l: nat)
    requires l < g.levels
    decreases g.levels - l, 0
  {
    match e
    case Table(c) => e'.Table? && SameForm(g, mem, c, mem', e'.id, l + 1)
    case _ => e == e'
  }

  /** What an address of entry i translates to. */
  lemma StepInto(g: Geometry, mem: Memory, place: Places, t: nat, i: nat, v: nat)
    requires Tables(g, mem, place) && t in place && i < g.entries && InEntry(g, place[t], i, v)
    ensures t in mem && |mem[t]| == g.entries && place[t].level < g.levels && InTable(g, place[t], v)
    ensures mem[t][i].Table? ==>
      mem[t][i].id in place && place[mem[t][i].id] == ChildPlace(g, place[t], i) && InTable(g, place[mem[t][i].id], v)
    ensures Translate(g, mem, t, place[t].level, v) ==
      match mem[t][i]
      case Invalid => None
      case Leaf(pa, prot) => Some(Target(pa + (v - EntryBase(g, place[t], i)), prot))
      case Table(c) => Translate(g, mem, c, place[t].level + 1, v)
  {
    EntryUnique(g, place[t], i, v);
    IndexSelects(g, place[t], v);
    if mem[t][i].Table? {
      assert GoodPlace(g, place[mem[t][i].id]);
      ChildFits(g, place[t], i);
    }
  }

  lemma NotRoot(g: Geometry, mem: Memory, place: Places, root: nat, t: nat, i: nat)
    requires Tree(g, mem, place, root) && t in place && i < g.entries && mem[t][i].Table?
    ensures
      var c := mem[t][i].id;
      c in place && c in mem && c != root && |mem[c]| == g.entries && place[c] == ChildPlace(g, place[t], i)
      && place[c].level == place[t].level + 1 < g.levels
  {
    hide HasParent;
    assert GoodPlace(g, place[mem[t][i].id]);
  }

  /** A table that is not empty translates some address. */
  lemma {:induction false} SomethingMapped(g: Geometry, mem: Memory, place: Places, root: nat, t: nat) returns (v: nat)
    requires Tree(g, mem, place, root) && NoneEmpty(mem, place, root, root) && t in place && !IsEmpty(mem[t])
    ensures InTable(g, place[t], v) && Translate(g, mem, t, place[t].level, v).Some?
    decreases g.levels - place[t].level
  {
    hide Geometry.Size, Geometry.Span, Geometry.Index, HasParent, EntryBase, Translate;
    TablesFacts(g, mem, place, t);
    var i :| 0 <= i < g.entries && mem[t][i] != Invalid;
    if mem[t][i].Table? {
      NotRoot(g, mem, place, root, t, i);
      v := SomethingMapped(g, mem, place, root, mem[t][i].id);
      ChildFits(g, place[t], i);
    } else {
      v := EntryBase(g, place[t], i);
      OwnEntry(g, place[t], i);
    }
    StepInto(g, mem, place, t, i, v);
  }

  /** The table translates its range to consecutive addresses from pa on. */
  ghost predicate Linear(g: Geometry, mem: Memory, t: nat, p: Place, pa: nat, prot: nat)
    requires g.Ok()
  {
    forall v: nat :: InTable(g, p, v) ==> Translate(g, mem, t, p.level, v) == Some(Target(pa + (v - p.base), prot))
  }

  /** Such a table is uniform: the tables below it would have been merged. */
  lemma {:induction false} LinearIsUniform(g: Geometry, mem: Memory, place: Places, root: nat, t: nat, pa: nat,
                                           prot: nat)
    requires Tree(g, mem, place, root) && NoneUniform(g, mem, place, root, root) && t in place
    requires Linear(g, mem, t, place[t], pa, prot)
    ensures Uniform(mem[t], pa, prot, g.Size(place[t].level))
    decreases g.levels - place[t].level, 1
  {
    hide Tree, Tables, GoodPlace, Geometry.Size, Geometry.Span, Geometry.Index, Translate, Linear, NoneUniform;
    TreeTables(g, mem, place, root);
    TablesFacts(g, mem, place, t);
    forall i | 0 <= i < g.entries ensures mem[t][i] == Leaf(pa + i * g.Size(place[t].level), prot) {
      LinearEntry(g, mem, place, t, i, pa, prot);
      LinearNoTable(g, mem, place, root, t, i, pa, prot);
    }
  }

  lemma {:induction false} LinearNoTable(g: Geometry, mem: Memory, place: Places, root: nat, t: nat, i: nat, pa: nat,
                                         prot: nat)
    requires Tree(g, mem, place, root) && NoneUniform(g, mem, place, root, root) && t in place
    requires Linear(g, mem, t, place[t], pa, prot) && i < g.entries
    ensures !mem[t][i].Table?
    decreases g.levels - place[t].level, 0
  {
    hide Tree, Tables, GoodPlace, Geometry.Size, Geometry.Span, Geometry.Index, Translate, Linear, CanMerge, Uniform;
    TreeTables(g, mem, place, root);
    TablesFacts(g, mem, place, t);
    LinearEntry(g, mem, place, t, i, pa, prot);
    if mem[t][i].Table? {
      var c := mem[t][i].id;
      NotRoot(g, mem, place, root, t, i);
      LinearIsUniform(g, mem, place, root, c, pa + i * g.Size(place[t].level), prot);
      MergesUniform(g, mem[c], pa + i * g.Size(place[t].level), prot, place[c].level);
      assert false;
    }
  }

  lemma MergesUniform(g: Geometry, table: seq<Entry>, pa: nat, prot: nat, l: nat)
    requires g.Ok() && |table| == g.entries && Uniform(table, pa, prot, g.Size(l)) && l > 0
    ensures CanMerge(g, table, l)
  {
    hide Geometry.Size;
    assert 0 * g.Size(l) == 0;
    assert table[0] == Leaf(pa, prot);
  }

  lemma LinearEntry(g: Geometry, mem: Memory, place: Places, t: nat, i: nat, pa: nat, prot: nat)
    requires Tables(g, mem, place) && t in place && i < g.entries && Linear(g, mem, t, place[t], pa, prot)
    ensures mem[t][i].Table? || mem[t][i] == Leaf(pa + i * g.Size(place[t].level), prot)
    ensures mem[t][i].Table? ==>
      var c := mem[t][i].id;
      c in place && Linear(g, mem, c, place[c], pa + i * g.Size(place[t].level), prot)
  {
    hide Translate, Geometry.Size, Geometry.Span, Geometry.Index, GoodPlace;
    var p := place[t];
    TablesFacts(g, mem, place, t);
    OwnEntry(g, p, i);
    StepInto(g, mem, place, t, i, EntryBase(g, p, i));
    if mem[t][i].Table? {
      var c := mem[t][i].id;
      TablesFacts(g, mem, place, c);
      ChildFits(g, p, i);
      forall v: nat | InTable(g, place[c], v)
        ensures Translate(g, mem, c, place[c].level, v) ==
                Some(Target(pa + i * g.Size(p.level) + (v - place[c].base), prot))
      {
        StepInto(g, mem, place, t, i, v);
      }
    }
  }

  /** The tables translate every address of the place alike. */
  ghost predicate Alike(g: Geometry, mem: Memory, t: nat, mem': Memory, t': nat, p: Place)
    requires g.Ok()
  {
    forall v: nat :: InTable(g, p, v) ==> Translate(g, mem, t, p.level, v) == Translate(g, mem', t', p.level, v)
  }

  /** A tree of tables of which none is empty and none is uniform. */
  ghost predicate Reduced(g: Geometry, mem: Memory, place: Places, root: nat) {
    Tree(g, mem, place, root) && NoneEmpty(mem, place, root, root) && NoneUniform(g, mem, place, root, root)
  }

  /** An entry that is no table has a counterpart that is none. */
  lemma NoTableEither(g: Geometry, mem: Memory, place: Places, t: nat, mem': Memory, place': Places, root': nat,
                      t': nat, i: nat)
    requires Tables(g, mem, place) && t in place && Reduced(g, mem', place', root') && t' in place'
    requires place[t] == place'[t'] && Alike(g, mem, t, mem', t', place[t]) && i < g.entries && !mem[t][i].Table?
    ensures mem[t][i] == mem'[t'][i]
  {
    hide Translate, Geometry.Size, Geometry.Span, Geometry.Index, GoodPlace, HasParent, Tree, Uniform;
    TreeTables(g, mem', place', root');
    TablesFacts(g, mem, place, t);
    TablesFacts(g, mem', place', t');
    var p, e, e' := place[t], mem[t][i], mem'[t'][i];
    OwnEntry(g, p, i);
    StepInto(g, mem, place, t, i, EntryBase(g, p, i));
    StepInto(g, mem', place', t', i, EntryBase(g, p, i));
    if e'.Table? {
      var c' := e'.id;
      NotRoot(g, mem', place', root', t', i);
      TablesFacts(g, mem', place', c');
      ChildFits(g, p, i);
      if e == Invalid {
        var v := SomethingMapped(g, mem', place', root', c');
        StepInto(g, mem, place, t, i, v);
        StepInto(g, mem', place', t', i, v);
        assert false;
      } else {
        LeafIsLinear(g, mem, place, t, mem', place', t', i);
        LinearIsUniform(g, mem', place', root', c', e.pa, e.prot);
        MergesUniform(g, mem'[c'], e.pa, e.prot, place'[c'].level);
        assert false;
      }
    }
  }

  lemma TreeTables(g: Geometry, mem: Memory, place: Places, root: nat)
    requires Tree(g, mem, place, root)
    ensures Tables(g, mem, place) && root in place && place[root] == Place(0, 0)
  {
  }

  lemma LeafIsLinear(g: Geometry, mem: Memory, place: Places, t: nat, mem': Memory, place': Places, t': nat, i: nat)
    requires Tables(g, mem, place) && t in place && Tables(g, mem', place') && t' in place' && place[t] == place'[t']
    requires Alike(g, mem, t, mem', t', place[t]) && i < g.entries && mem[t][i].Leaf? && mem'[t'][i].Table?
    ensures
      var c' := mem'[t'][i].id;
      c' in place' && Linear(g, mem', c', place'[c'], mem[t][i].pa, mem[t][i].prot)
  {
    hide Translate, Geometry.Size, Geometry.Span, Geometry.Index, GoodPlace;
    var p, c' := place[t], mem'[t'][i].id;
    TablesFacts(g, mem, place, t);
    TablesFacts(g, mem', place', c');
    ChildFits(g, p, i);
    forall v: nat | InTable(g, place'[c'], v)
      ensures Translate(g, mem', c', place'[c'].level, v) ==
              Some(Target(mem[t][i].pa + (v - place'[c'].base), mem[t][i].prot))
    {
      StepInto(g, mem, place, t, i, v);
      StepInto(g, mem', place', t', i, v);
    }
  }

  lemma BelowAlike(g: Geometry, mem: Memory, place: Places, t: nat, mem': Memory, place': Places, t': nat, i: nat)
    requires Tables(g, mem, place) && t in place && Tables(g, mem', place') && t' in place' && place[t] == place'[t']
    requires Alike(g, mem, t, mem', t', place[t]) && i < g.entries && mem[t][i].Table? && mem'[t'][i].Table?
    ensures
      var c, c' := mem[t][i].id, mem'[t'][i].id;
      c in place && c' in place' && place[c] == place'[c'] && Alike(g, mem, c, mem', c', place[c])
  {
    hide Translate, Geometry.Size, Geometry.Span, Geometry.Index, GoodPlace;
    var p, c, c' := place[t], mem[t][i].id, mem'[t'][i].id;
    TablesFacts(g, mem, place, t);
    TablesFacts(g, mem, place, c);
    GoodLevel(g, place[c]);
    ChildFits(g, p, i);
    forall v: nat | InTable(g, place[c], v)
      ensures Translate(g, mem, c, place[c].level, v) == Translate(g, mem', c', place[c].level, v)
    {
      StepInto(g, mem, place, t, i, v);
      StepInto(g, mem', place', t', i, v);
    }
  }

  /** Tables that translate alike have the same form. */
  lemma {:induction false} AlikeSameForm(g: Geometry, mem: Memory, place: Places, root: nat, t: nat, mem': Memory,
                                         place': Places, root': nat, t': nat)
    requires Reduced(g, mem, place, root) && t in place && Reduced(g, mem', place', root') && t' in place'
    requires place[t] == place'[t'] && Alike(g, mem, t, mem', t', place[t])
    ensures SameForm(g, mem, t, mem', t', place[t].level)
    decreases g.levels - place[t].level
  {
    hide Tree, Tables, GoodPlace, Geometry.Size, Geometry.Span, Geometry.Index, Translate, Alike, NoneEmpty,
         NoneUniform;
    TreeTables(g, mem, place, root);
    TreeTables(g, mem', place', root');
    TablesFacts(g, mem, place, t);
    TablesFacts(g, mem', place', t');
    AlikeBack(g, mem, t, mem', t', place[t]);
    forall i | 0 <= i < g.entries ensures SameEntry(g, mem, mem[t][i], mem', mem'[t'][i], place[t].level) {
      if !mem[t][i].Table? {
        NoTableEither(g, mem, place, t, mem', place', root', t', i);
      } else {
        if !mem'[t'][i].Table? {
          NoTableEither(g, mem', place', t', mem, place, root, t, i);
          assert false;
        }
        BelowAlike(g, mem, place, t, mem', place', t', i);
        ReducedChild(g, mem, place, root, t, i);
        AlikeSameForm(g, mem, place, root, mem[t][i].id, mem', place', root', mem'[t'][i].id);
      }
    }
  }

  lemma ReducedChild(g: Geometry, mem: Memory, place: Places, root: nat, t: nat, i: nat)
    requires Reduced(g, mem, place, root) && t in place && i < g.entries && t in mem && |mem[t]| == g.entries
    requires mem[t][i].Table?
    ensures
      var c := mem[t][i].id;
      c in place && place[c].level == place[t].level + 1 < g.levels
  {
    NotRoot(g, mem, place, root, t, i);
  }

  lemma AlikeBack(g: Geometry, mem: Memory, t: nat, mem': Memory, t': nat, p: Place)
    requires g.Ok() && Alike(g, mem, t, mem', t', p)
    ensures Alike(g, mem', t', mem, t, p)
  {
  }

  /** Tables of the same form translate alike. */
  lemma {:induction false} SameFormAlike(g: Geometry, mem: Memory, t: nat, mem': Memory, t': nat, l: nat, v: nat)
    requires g.Ok() && SameForm(g, mem, t, mem', t', l)
    ensures Translate(g, mem, t, l, v) == Translate(g, mem', t', l, v)
    decreases g.levels - l
  {
    hide Geometry.Index, Geometry.Size;
    var i := g.Index(l, v);
    assert SameEntry(g, mem, mem[t][i], mem', mem'[t'][i], l);
    if mem[t][i].Table? {
      SameFormAlike(g, mem, mem[t][i].id, mem', mem'[t'][i].id, l + 1, v);
    }
  }

  /**
   Equal translations, and only these, have equal tables: what was mapped, split, merged and unmapped to get there
   leaves no trace.
   */
  lemma OneForm(g: Geometry, mem: Memory, place: Places, root: nat, mem': Memory, place': Places, root': nat)
    requires Reduced(g, mem, place, root) && Reduced(g, mem', place', root')
    ensures (forall v: nat :: v < g.Span(0) ==> Lookup(g, mem, root, v) == Lookup(g, mem', root', v)) <==>
            SameForm(g, mem, root, mem', root', 0)
  {
    TreeTables(g, mem, place, root);
    TreeTables(g, mem', place', root');
    hide Translate, Geometry.Span, SameForm, Reduced;
    if forall v: nat :: v < g.Span(0) ==> Lookup(g, mem, root, v) == Lookup(g, mem', root', v) {
      assert forall v: nat :: InTable(g, Place(0, 0), v) ==> Lookup(g, mem, root, v) == Lookup(g, mem', root', v);
      AlikeSameForm(g, mem, place, root, root, mem', place', root', root');
    }
    if SameForm(g, mem, root, mem', root', 0) {
      forall v: nat ensures Lookup(g, mem, root, v) == Lookup(g, mem', root', v) {
        SameFormAlike(g, mem, root, mem', root', 0, v);
      }
    }
  }

  // ---------------------------------------------------------------- leaves and the blocks they map

  /** A leaf above the target level covers the address. */
  ghost predicate CoveredAbove(g: Geometry, mem: Memory, t: nat, l: nat, target: nat, va: nat)
    requires g.Ok()
    decreases g.levels - l
  {
    l < target && l < g.levels && t in mem && |mem[t]| == g.entries
    && match mem[t][g.Index(l, va)]
       case Invalid => false
       case Leaf(_, _) => true
       case Table(c) => CoveredAbove(g, mem, c, l + 1, target, va)
  }

  /** The range of the entry that holds `va`. */
  lemma EntryRange(g: Geometry, p: Place, va: nat, v: nat)
    requires g.Ok() && GoodPlace(g, p) && InTable(g, p, va)
    ensures InEntry(g, p, g.Index(p.level, va), v) <==>
            AlignDown(va, g.Size(p.level)) <= v < AlignDown(va, g.Size(p.level)) + g.Size(p.level)
    ensures InEntry(g, p, g.Index(p.level, va), v) ==> v - AlignDown(va, g.Size(p.level)) == v % g.Size(p.level)
  {
    var i := g.Index(p.level, va);
    IndexSelects(g, p, va);
    if InEntry(g, p, i, v) {
      EntryUnique(g, p, i, v);
      IndexSelects(g, p, v);
    }
  }

  /** The block of level l around `va` translates to consecutive addresses with one protection. */
  ghost predicate OneLeaf(g: Geometry, mem: Memory, root: nat, l: nat, va: nat)
    requires g.Ok()
  {
    var lo: nat := AlignDown(va, g.Size(l));
    && Lookup(g, mem, root, lo).Some?
    && var first := Lookup(g, mem, root, lo).value;
       forall v: nat :: lo <= v < lo + g.Size(l) ==>
         Lookup(g, mem, root, v) == Some(Target(first.pa + (v - lo), first.prot))
  }

  /** Such a block larger than a page of the target level holds the address. */
  ghost predicate InLeafAbove(g: Geometry, mem: Memory, root: nat, target: nat, va: nat)
    requires g.Ok()
  {
    exists l :: 0 <= l < target && OneLeaf(g, mem, root, l, va)
  }

  lemma LeafIsOneLeaf(g: Geometry, mem: Memory, place: Places, root: nat, t: nat, va: nat)
    requires Tree(g, mem, place, root) && t in place && InTable(g, place[t], va)
    requires mem[t][g.Index(place[t].level, va)].Leaf?
    ensures OneLeaf(g, mem, root, place[t].level, va)
  {
    hide Translate, Geometry.Size, Geometry.Span, Geometry.Index, GoodPlace, HasParent, InTable, InEntry, Lookup,
         AlignDown;
    var p, i := place[t], g.Index(place[t].level, va);
    var lo := AlignDown(va, g.Size(p.level));
    IndexSelects(g, p, va);
    AlignFacts(va, g.Size(p.level));
    EntryRange(g, p, va, lo);
    EntryStart(g, p, i, va);
    forall v: nat | lo <= v < lo + g.Size(p.level)
      ensures Lookup(g, mem, root, v) == Some(Target(mem[t][i].pa + (v - lo), mem[t][i].prot))
    {
      EntryRange(g, p, va, v);
      StepInto(g, mem, place, t, i, v);
      LookupThrough(g, mem, place, root, t, v);
    }
    assert Lookup(g, mem, root, lo) == Some(Target(mem[t][i].pa, mem[t][i].prot));
  }

  lemma EntryStart(g: Geometry, p: Place, i: nat, va: nat)
    requires g.Ok() && GoodPlace(g, p) && InTable(g, p, va) && i == g.Index(p.level, va)
    ensures EntryBase(g, p, i) == AlignDown(va, g.Size(p.level))
  {
    IndexSelects(g, p, va);
  }

  /** A table below a block that one leaf could map is linear. */
  lemma OneLeafLinear(g: Geometry, mem: Memory, place: Places, root: nat, t: nat, va: nat)
    requires Tree(g, mem, place, root) && t in place && InTable(g, place[t], va)
    requires OneLeaf(g, mem, root, place[t].level, va) && mem[t][g.Index(place[t].level, va)].Table?
    ensures
      var c := mem[t][g.Index(place[t].level, va)].id;
      var first := Lookup(g, mem, root, AlignDown(va, g.Size(place[t].level))).value;
      c in place && Linear(g, mem, c, place[c], first.pa, first.prot)
  {
    hide Translate, Geometry.Size, Geometry.Span, Geometry.Index, GoodPlace, HasParent, InEntry, Lookup, AlignDown;
    var p, i := place[t], g.Index(place[t].level, va);
    var c, lo := mem[t][i].id, AlignDown(va, g.Size(p.level));
    var first := Lookup(g, mem, root, lo).value;
    TablesFacts(g, mem, place, c);
    GoodLevel(g, place[c]);
    EntryStart(g, p, i, va);
    ChildFits(g, p, i);
    forall v: nat | InTable(g, place[c], v)
      ensures Translate(g, mem, c, place[c].level, v) == Some(Target(first.pa + (v - place[c].base), first.prot))
    {
      EntryRange(g, p, va, v);
      LookupThrough(g, mem, place, root, c, v);
    }
  }

  /** A leaf above the target level is in the way exactly where such a block is mapped, however it was mapped. */
  lemma {:induction false} CoveredIsOneLeaf(g: Geometry, mem: Memory, place: Places, root: nat, t: nat, target: nat,
                                            va: nat)
    requires Reduced(g, mem, place, root) && t in place && InTable(g, place[t], va)
    ensures CoveredAbove(g, mem, t, place[t].level, target, va) <==>
            exists l :: place[t].level <= l < target && OneLeaf(g, mem, root, l, va)
    decreases g.levels - place[t].level
  {
    hide Translate, Geometry.Size, Geometry.Span, Geometry.Index, GoodPlace, HasParent, InTable, InEntry, OneLeaf,
         Tree, Tables, NoneEmpty, NoneUniform;
    TreeTables(g, mem, place, root);
    TablesFacts(g, mem, place, t);
    GoodLevel(g, place[t]);
    var k, i := place[t].level, g.Index(place[t].level, va);
    match mem[t][i]
    case Invalid =>
      NothingAt(g, mem, place, root, t, va);
    case Leaf(_, _) =>
      LeafIsOneLeaf(g, mem, place, root, t, va);
    case Table(c) =>
      BelowTable(g, mem, place, root, t, va);
      CoveredIsOneLeaf(g, mem, place, root, c, target, va);
  }

  lemma NothingAt(g: Geometry, mem: Memory, place: Places, root: nat, t: nat, va: nat)
    requires Tree(g, mem, place, root) && t in place && InTable(g, place[t], va)
    requires mem[t][g.Index(place[t].level, va)] == Invalid
    ensures forall l :: 0 <= l ==> !OneLeaf(g, mem, root, l, va)
  {
    hide Geometry.Size, Geometry.Span, Geometry.Index, GoodPlace, HasParent, InTable, Lookup, AlignDown;
    TablesFacts(g, mem, place, t);
    GoodLevel(g, place[t]);
    LookupThrough(g, mem, place, root, t, va);
    OneStep(g, mem, t, place[t].level, va);
  }

  lemma BelowTable(g: Geometry, mem: Memory, place: Places, root: nat, t: nat, va: nat)
    requires Reduced(g, mem, place, root) && t in place && InTable(g, place[t], va)
    requires mem[t][g.Index(place[t].level, va)].Table?
    ensures
      var c := mem[t][g.Index(place[t].level, va)].id;
      c in place && place[c].level == place[t].level + 1 < g.levels && InTable(g, place[c], va)
    ensures !OneLeaf(g, mem, root, place[t].level, va)
  {
    hide Geometry.Size, Geometry.Span, Geometry.Index, GoodPlace, HasParent, InTable, InEntry, Lookup, Linear,
         AlignDown, CanMerge, Uniform, Translate;
    var i := g.Index(place[t].level, va);
    IndexSelects(g, place[t], va);
    StepInto(g, mem, place, t, i, va);
    NotRoot(g, mem, place, root, t, i);
    if OneLeaf(g, mem, root, place[t].level, va) {
      var c := mem[t][i].id;
      var first := Lookup(g, mem, root, AlignDown(va, g.Size(place[t].level))).value;
      OneLeafLinear(g, mem, place, root, t, va);
      LinearIsUniform(g, mem, place, root, c, first.pa, first.prot);
      MergesUniform(g, mem[c], first.pa, first.prot, place[c].level);
      assert false;
    }
  }
}
