/** Radix page tables with huge leaves (mm/pgtbl.c): tables live in memory pages and are updated in place. */
module PageTable {
  import opened Arithmetic
  import opened Options

  /** What a present or absent page-table entry holds; `id` names the page of a child table. */
  datatype Entry = Invalid | Leaf(pa: nat, prot: nat) | Table(id: nat)

  type Memory = map<nat, seq<Entry>>

  /** Translation of one address: physical address and protection. */
  datatype Target = Target(pa: nat, prot: nat)

  datatype Geometry = Geometry(levels: nat, entries: nat, page: nat) {
    predicate Ok() { levels > 0 && entries >= 2 && page > 0 }

    /** Bytes mapped by one entry of a table at level l. */
    function Size(l: nat): (s: nat)
      requires Ok()
      ensures s > 0
      decreases levels - l
    {
      if l + 1 >= levels then page else entries * Size(l + 1)
    }

    /** Bytes mapped by a whole table at level l. */
    function Span(l: nat): (s: nat)
      requires Ok()
      ensures s > 0
    {
      entries * Size(l)
    }

    function Index(l: nat, va: nat): (i: nat)
      requires Ok()
      ensures i < entries
    {
      (va / Size(l)) % entries
    }

    lemma SpanIsSize(l: nat)
      requires Ok() && 0 < l < levels
      ensures Span(l) == Size(l - 1)
    {
    }

    lemma SpanMultiple(l: nat)
      requires Ok()
      ensures Span(l) % Size(l) == 0
    {
      MultipleMod(entries, Size(l));
    }

    /** Upper levels map multiples of what lower levels map. */
    lemma {:induction false} SizeDivides(hi: nat, lo: nat)
      requires Ok() && hi <= lo < levels
      ensures Size(hi) % Size(lo) == 0
      ensures Size(hi) >= Size(lo)
      decreases lo - hi
    {
      if hi == lo {
        MultipleMod(1, Size(lo));
      } else {
        SizeDivides(hi + 1, lo);
        MultipleMod(entries, Size(hi + 1));
        ModTransitive(Size(hi), Size(hi + 1), Size(lo));
        MulAtLeast(entries, Size(hi + 1));
      }
    }
  }

  /** Where a table sits: its level, and the first address it translates. */
  datatype Place = Place(level: nat, base: nat)

  type Places = map<nat, Place>

  function EntryBase(g: Geometry, p: Place, i: nat): nat
    requires g.Ok()
  {
    p.base + i * g.Size(p.level)
  }

  function ChildPlace(g: Geometry, p: Place, i: nat): Place
    requires g.Ok()
  {
    Place(p.level + 1, EntryBase(g, p, i))
  }

  predicate InTable(g: Geometry, p: Place, va: nat)
    requires g.Ok()
  {
    p.base <= va < p.base + g.Span(p.level)
  }

  predicate InEntry(g: Geometry, p: Place, i: nat, va: nat)
    requires g.Ok()
  {
    EntryBase(g, p, i) <= va < EntryBase(g, p, i) + g.Size(p.level)
  }

  predicate GoodPlace(g: Geometry, p: Place)
    requires g.Ok()
  {
    p.level < g.levels && p.base % g.Span(p.level) == 0 && p.base + g.Span(p.level) <= g.Span(0)
  }

  // ---------------------------------------------------------------- geometry

  /** An address of a table falls into exactly the entry its index selects. */
  lemma IndexSelects(g: Geometry, p: Place, va: nat)
    requires g.Ok() && GoodPlace(g, p) && InTable(g, p, va)
    ensures InEntry(g, p, g.Index(p.level, va), va)
    ensures va - EntryBase(g, p, g.Index(p.level, va)) == va % g.Size(p.level)
  {
    SlotOf(p.base, g.entries, g.Size(p.level), va);
  }

  lemma SameSlot(i: int, j: int, s: int, x: int)
    requires s > 0 && i * s <= x < i * s + s && j * s <= x < j * s + s
    ensures i == j
  {
    MulDistribute(i, j, s);
    MulAtLeast(i - j, s);
  }

  lemma EntryUnique(g: Geometry, p: Place, i: nat, va: nat)
    requires g.Ok() && GoodPlace(g, p) && i < g.entries && InEntry(g, p, i, va)
    ensures InTable(g, p, va) && g.Index(p.level, va) == i
  {
    SlotEnd(i, g.entries, g.Size(p.level));
    IndexSelects(g, p, va);
    hide Geometry.Index, Geometry.Size, Geometry.Span, GoodPlace;
    SameSlot(i, g.Index(p.level, va), g.Size(p.level), va - p.base);
  }

  lemma ChildFits(g: Geometry, p: Place, i: nat)
    requires g.Ok() && GoodPlace(g, p) && i < g.entries && p.level + 1 < g.levels
    ensures GoodPlace(g, ChildPlace(g, p, i))
    ensures forall va: nat :: InTable(g, ChildPlace(g, p, i), va) <==> InEntry(g, p, i, va)
  {
    var s := g.Size(p.level);
    g.SpanIsSize(p.level + 1);
    g.SpanMultiple(p.level);
    ModTransitive(p.base, g.Span(p.level), s);
    MultipleMod(i, s);
    ModAdd(p.base, i * s, s);
    SlotEnd(i, g.entries, s);
  }

  /** Entry ranges and table ranges below them are nested or apart. */
  lemma PlacesNest(g: Geometry, p: Place, i: nat, q: Place)
    requires g.Ok() && GoodPlace(g, p) && GoodPlace(g, q) && i < g.entries && q.level > p.level
    ensures q.base >= EntryBase(g, p, i) + g.Size(p.level)
         || q.base + g.Span(q.level) <= EntryBase(g, p, i)
         || (EntryBase(g, p, i) <= q.base && q.base + g.Span(q.level) <= EntryBase(g, p, i) + g.Size(p.level))
  {
    var lo, big, small := EntryBase(g, p, i), g.Size(p.level), g.Size(q.level - 1);
    g.SpanIsSize(q.level);
    g.SizeDivides(p.level, q.level - 1);
    g.SpanMultiple(p.level);
    ModTransitive(p.base, g.Span(p.level), big);
    MultipleMod(i, big);
    ModAdd(p.base, i * big, big);
    ModTransitive(lo, big, small);
    ModAdd(lo, big, small);
    if q.base < lo {
      MultiplesApart(q.base, lo, small);
    } else if q.base < lo + big {
      MultiplesApart(q.base, lo + big, small);
    }
  }

  // ---------------------------------------------------------------- the tree and what it translates

  /** Every listed table has its place, its full length, and child entries that lead to listed tables. */
  ghost predicate Tables(g: Geometry, mem: Memory, place: Places) {
    && g.Ok()
    && (forall t :: t in place ==> t in mem && |mem[t]| == g.entries && GoodPlace(g, place[t]))
    && (forall t, i :: t in place && 0 <= i < g.entries && mem[t][i].Table? ==>
          mem[t][i].id in place && place[mem[t][i].id] == ChildPlace(g, place[t], i))
  }

  ghost predicate HasParent(g: Geometry, mem: Memory, place: Places, t: nat)
    requires Tables(g, mem, place)
  {
    exists u, i :: u in place && 0 <= i < g.entries && mem[u][i] == Table(t)
  }

  /** The listed tables form one tree under `root`. */
  ghost predicate Tree(g: Geometry, mem: Memory, place: Places, root: nat) {
    && Tables(g, mem, place)
    && root in place && place[root] == Place(0, 0)
    && (forall t, u :: t in place && u in place && place[t] == place[u] ==> t == u)
    && (forall t :: t in place && t != root ==> HasParent(g, mem, place, t))
  }

  predicate IsEmpty(table: seq<Entry>) {
    forall i :: 0 <= i < |table| ==> table[i] == Invalid
  }

  /** No table but the root, and perhaps `except`, is empty. */
  ghost predicate NoneEmpty(mem: Memory, place: Places, root: nat, except: nat) {
    forall t :: t in place && t in mem && t != root && t != except ==> !IsEmpty(mem[t])
  }

  /** Leaves of one protection over consecutive physical pages of the given size. */
  predicate Uniform(table: seq<Entry>, pa: nat, prot: nat, size: nat) {
    forall j :: 0 <= j < |table| ==> table[j] == Leaf(pa + j * size, prot)
  }

  /** What pgtbl_table_need_merge looks for. */
  predicate CanMerge(g: Geometry, table: seq<Entry>, level: nat)
    requires g.Ok() && table != []
  {
    level != 0 && table[0].Leaf? && Uniform(table, table[0].pa, table[0].prot, g.Size(level))
  }

  /** No table but the root, and perhaps `except`, could be one leaf. */
  ghost predicate NoneUniform(g: Geometry, mem: Memory, place: Places, root: nat, except: nat)
    requires g.Ok()
  {
    forall t :: t in place && t in mem && mem[t] != [] && t != root && t != except ==>
      !CanMerge(g, mem[t], place[t].level)
  }

  /** The walk of look_cb from table t at level l. */
  function Translate(g: Geometry, mem: Memory, t: nat, l: nat, va: nat): Option<Target>
    requires g.Ok()
    decreases g.levels - l
  {
    if l >= g.levels || t !in mem || |mem[t]| != g.entries then None
    else match mem[t][g.Index(l, va)]
         case Invalid => None
         case Leaf(pa, prot) => Some(Target(pa + va % g.Size(l), prot))
         case Table(c) => Translate(g, mem, c, l + 1, va)
  }

  function Lookup(g: Geometry, mem: Memory, root: nat, va: nat): Option<Target>
    requires g.Ok()
  {
    Translate(g, mem, root, 0, va)
  }

  /** Nothing on the way of `va` through the listed tables differs. */
  ghost predicate SameOnPath(g: Geometry, mem: Memory, mem': Memory, place: Places, va: nat)
    requires Tables(g, mem, place)
  {
    forall t :: t in place && InTable(g, place[t], va) ==>
      t in mem' && |mem'[t]| == g.entries && mem'[t][g.Index(place[t].level, va)] == mem[t][g.Index(place[t].level, va)]
  }

  lemma {:induction false} SameTranslation(g: Geometry, mem: Memory, mem': Memory, place: Places, t: nat, va: nat)
    requires Tables(g, mem, place) && SameOnPath(g, mem, mem', place, va)
    requires t in place && InTable(g, place[t], va)
    ensures Translate(g, mem, t, place[t].level, va) == Translate(g, mem', t, place[t].level, va)
    decreases g.levels - place[t].level
  {
    var p := place[t];
    var i := g.Index(p.level, va);
    if mem[t][i].Table? {
      var c := mem[t][i].id;
      IndexSelects(g, p, va);
      ChildFits(g, p, i);
      SameTranslation(g, mem, mem', place, c, va);
    }
  }

  lemma ParentOn(g: Geometry, mem: Memory, place: Places, root: nat, t: nat, va: nat) returns (u: nat)
    requires Tree(g, mem, place, root) && t in place && t != root && InTable(g, place[t], va)
    ensures u in place && place[t].level == place[u].level + 1 && InTable(g, place[u], va)
    ensures mem[u][g.Index(place[u].level, va)] == Table(t)
  {
    assert HasParent(g, mem, place, t);
    var i;
    u, i :| u in place && 0 <= i < g.entries && mem[u][i] == Table(t);
    ChildFits(g, place[u], i);
    assert InEntry(g, place[u], i, va);
    EntryUnique(g, place[u], i, va);
  }

  /** Looking an address up passes through every table that covers it. */
  lemma {:induction false} LookupThrough(g: Geometry, mem: Memory, place: Places, root: nat, t: nat, va: nat)
    requires Tree(g, mem, place, root) && t in place && InTable(g, place[t], va)
    ensures Lookup(g, mem, root, va) == Translate(g, mem, t, place[t].level, va)
    decreases place[t].level
  {
    hide Geometry.Size, Geometry.Span, Geometry.Index, InTable, GoodPlace, EntryBase, HasParent;
    if t != root {
      var u := ParentOn(g, mem, place, root, t, va);
      LookupThrough(g, mem, place, root, u, va);
    }
  }

  /** A table is the child of one entry only, the one its place names. */
  lemma OnlyParent(g: Geometry, mem: Memory, place: Places, root: nat, t: nat, i: nat, u: nat)
    requires Tree(g, mem, place, root) && t in place && u in place && i < g.entries
    requires place[u] == ChildPlace(g, place[t], i)
    ensures mem[t][i] == Table(u)
  {
    assert u != root;
    assert HasParent(g, mem, place, u);
    var w, j :| w in place && 0 <= j < g.entries && mem[w][j] == Table(u);
    var p, q, va := place[t], place[w], place[u].base;
    assert q.level == p.level;
    assert InEntry(g, p, i, va) && InEntry(g, q, j, va);
    EntryUnique(g, p, i, va);
    EntryUnique(g, q, j, va);
    SameWindow(p.base, q.base, g.Span(p.level), va);
    assert w == t;
  }

  lemma SameWindow(a: int, b: int, n: int, x: int)
    requires n > 0 && a % n == 0 && b % n == 0 && a <= x < a + n && b <= x < b + n
    ensures a == b
  {
    if a < b {
      MultiplesApart(a, b, n);
    } else if b < a {
      MultiplesApart(b, a, n);
    }
  }

  // ---------------------------------------------------------------- writing one entry

  function Put(mem: Memory, t: nat, i: nat, e: Entry): Memory
    requires t in mem && i < |mem[t]|
  {
    mem[t := mem[t][i := e]]
  }

  /** The place q lies inside what entry i of the table at p maps. */
  predicate Under(g: Geometry, p: Place, i: nat, q: Place)
    requires g.Ok()
  {
    q.level > p.level && InEntry(g, p, i, q.base)
  }

  /** The tables that are still in the tree once entry i of the table at p is overwritten. */
  ghost function Drop(g: Geometry, place: Places, p: Place, i: nat): Places
    requires g.Ok()
  {
    map t | t in place && !Under(g, p, i, place[t]) :: place[t]
  }

  function EntryTarget(g: Geometry, e: Entry, l: nat, va: nat): Option<Target>
    requires g.Ok()
  {
    match e
    case Leaf(pa, prot) => Some(Target(pa + va % g.Size(l), prot))
    case _ => None
  }

  /** A child of a dropped table is dropped. */
  lemma UnderClosed(g: Geometry, p: Place, i: nat, q: Place, j: nat)
    requires g.Ok() && GoodPlace(g, p) && GoodPlace(g, q) && i < g.entries && j < g.entries
    requires Under(g, p, i, q) && q.level + 1 < g.levels
    ensures Under(g, p, i, ChildPlace(g, q, j))
  {
    PlacesNest(g, p, i, q);
    EntryUnique(g, q, j, EntryBase(g, q, j));
  }

  /** The parent of a dropped table is dropped, or is the table whose entry was overwritten. */
  lemma UnderParent(g: Geometry, p: Place, i: nat, q: Place, j: nat)
    requires g.Ok() && GoodPlace(g, p) && GoodPlace(g, q) && i < g.entries && j < g.entries
    requires q.level + 1 < g.levels && Under(g, p, i, ChildPlace(g, q, j))
    ensures Under(g, p, i, q) || (q == p && j == i)
  {
    var va := EntryBase(g, q, j);
    EntryUnique(g, q, j, va);
    EntryUnique(g, p, i, va);
    if q.level > p.level {
      PlacesNest(g, p, i, q);
    } else {
      assert q.level == p.level;
      SameWindow(p.base, q.base, g.Span(p.level), va);
    }
  }

  lemma PutChild(g: Geometry, mem: Memory, place: Places, root: nat, t: nat, i: nat, u: nat, j: nat)
    requires Tree(g, mem, place, root) && t in place && i < g.entries && u in place && j < g.entries
    requires !Under(g, place[t], i, place[u]) && !(u == t && j == i) && mem[u][j].Table?
    ensures !Under(g, place[t], i, place[mem[u][j].id])
  {
    hide Geometry.Size, Geometry.Span, GoodPlace, EntryBase, InEntry, HasParent, ChildPlace, Under;
    var c := mem[u][j].id;
    assert place[c] == ChildPlace(g, place[u], j);
    if Under(g, place[t], i, place[c]) {
      GoodLevel(g, place[c]);
      ChildLevel(g, place[u], j);
      UnderParent(g, place[t], i, place[u], j);
      assert false;
    }
  }

  lemma PutTables(g: Geometry, mem: Memory, place: Places, root: nat, t: nat, i: nat, e: Entry)
    requires Tree(g, mem, place, root) && t in place && i < g.entries && !e.Table?
    ensures Tables(g, Put(mem, t, i, e), Drop(g, place, place[t], i))
  {
    var mem': Memory, place': Places := Put(mem, t, i, e), Drop(g, place, place[t], i);
    hide Geometry.Size, Geometry.Span, GoodPlace, EntryBase, InEntry, HasParent, ChildPlace, Under;
    forall u: nat, j: nat | u in place' && 0 <= j < g.entries && mem'[u][j].Table?
      ensures mem'[u][j].id in place' && place'[mem'[u][j].id] == ChildPlace(g, place'[u], j)
    {
      assert mem'[u][j] == mem[u][j] && !(u == t && j == i);
      PutChild(g, mem, place, root, t, i, u, j);
    }
  }

  lemma ChildLevel(g: Geometry, p: Place, j: nat)
    requires g.Ok()
    ensures ChildPlace(g, p, j).level == p.level + 1
  {
  }

  lemma GoodLevel(g: Geometry, p: Place)
    requires g.Ok() && GoodPlace(g, p)
    ensures p.level < g.levels
  {
  }

  lemma PutParents(g: Geometry, mem: Memory, place: Places, root: nat, t: nat, i: nat, e: Entry, u: nat)
    requires Tree(g, mem, place, root) && t in place && i < g.entries && !e.Table?
    requires Tables(g, Put(mem, t, i, e), Drop(g, place, place[t], i))
    requires u in Drop(g, place, place[t], i) && u != root
    ensures HasParent(g, Put(mem, t, i, e), Drop(g, place, place[t], i), u)
  {
    hide Geometry.Size, Geometry.Span, GoodPlace, EntryBase;
    assert HasParent(g, mem, place, u);
    var w, j :| w in place && 0 <= j < g.entries && mem[w][j] == Table(u);
    assert place[u] == ChildPlace(g, place[w], j);
    GoodLevel(g, place[u]);
    if Under(g, place[t], i, place[w]) {
      UnderClosed(g, place[t], i, place[w], j);
      assert false;
    }
    if w == t && j == i {
      OwnEntry(g, place[t], i);
      assert false;
    }
    assert Put(mem, t, i, e)[w][j] == Table(u);
  }

  lemma OwnEntry(g: Geometry, p: Place, i: nat)
    requires g.Ok() && GoodPlace(g, p)
    ensures InEntry(g, p, i, EntryBase(g, p, i)) && Under(g, p, i, ChildPlace(g, p, i))
  {
  }

  /** Overwriting an entry by a leaf or by nothing keeps a tree: the tables below it are cut off. */
  lemma PutKeepsTree(g: Geometry, mem: Memory, place: Places, root: nat, t: nat, i: nat, e: Entry)
    requires Tree(g, mem, place, root) && t in place && i < g.entries && !e.Table?
    ensures Tree(g, Put(mem, t, i, e), Drop(g, place, place[t], i), root)
    ensures t in Drop(g, place, place[t], i)
  {
    PutTables(g, mem, place, root, t, i, e);
    hide Geometry.Size, Geometry.Span, GoodPlace, EntryBase, InEntry, Tables, HasParent;
    forall u | u in Drop(g, place, place[t], i) && u != root
      ensures HasParent(g, Put(mem, t, i, e), Drop(g, place, place[t], i), u)
    {
      PutParents(g, mem, place, root, t, i, e, u);
    }
  }

  /** ... and changes the translation of exactly the addresses of that entry. */
  lemma PutTranslates(g: Geometry, mem: Memory, place: Places, root: nat, t: nat, i: nat, e: Entry, va: nat)
    requires Tree(g, mem, place, root) && t in place && i < g.entries && !e.Table? && va < g.Span(0)
    ensures Lookup(g, Put(mem, t, i, e), root, va)
         == if InEntry(g, place[t], i, va) then EntryTarget(g, e, place[t].level, va) else Lookup(g, mem, root, va)
  {
    RootCovers(g, va);
    hide Geometry.Size, Geometry.Span, Geometry.Index, GoodPlace, InTable, InEntry, EntryBase, HasParent, Drop,
         Translate, EntryTarget, SameOnPath;
    if InEntry(g, place[t], i, va) {
      PutHere(g, mem, place, root, t, i, e, va);
    } else {
      OffPath(g, mem, place, t, i, e, va);
      SameTranslation(g, mem, Put(mem, t, i, e), place, root, va);
    }
  }

  lemma PutHere(g: Geometry, mem: Memory, place: Places, root: nat, t: nat, i: nat, e: Entry, va: nat)
    requires Tree(g, mem, place, root) && t in place && i < g.entries && !e.Table? && InEntry(g, place[t], i, va)
    ensures Lookup(g, Put(mem, t, i, e), root, va) == EntryTarget(g, e, place[t].level, va)
  {
    hide Geometry.Size, Geometry.Span, Geometry.Index, GoodPlace, InTable, InEntry, EntryBase, HasParent, Drop,
         Lookup, Translate, EntryTarget;
    var mem': Memory, place': Places := Put(mem, t, i, e), Drop(g, place, place[t], i);
    PutKeepsTree(g, mem, place, root, t, i, e);
    EntryUnique(g, place[t], i, va);
    DropKeeps(g, place, place[t], i, t);
    LookupThrough(g, mem', place', root, t, va);
    PlaceLevel(g, place[t]);
    OneStep(g, mem', t, place[t].level, va);
  }

  lemma PlaceLevel(g: Geometry, p: Place)
    requires g.Ok() && GoodPlace(g, p)
    ensures p.level < g.levels
  {
  }

  lemma RootCovers(g: Geometry, va: nat)
    requires g.Ok() && va < g.Span(0)
    ensures InTable(g, Place(0, 0), va)
  {
  }

  lemma DropKeeps(g: Geometry, place: Places, p: Place, i: nat, t: nat)
    requires g.Ok() && t in Drop(g, place, p, i)
    ensures t in place && Drop(g, place, p, i)[t] == place[t]
  {
  }

  lemma OffPath(g: Geometry, mem: Memory, place: Places, t: nat, i: nat, e: Entry, va: nat)
    requires Tables(g, mem, place) && t in place && i < g.entries && !InEntry(g, place[t], i, va)
    ensures SameOnPath(g, mem, Put(mem, t, i, e), place, va)
  {
    if InTable(g, place[t], va) {
      IndexSelects(g, place[t], va);
    }
  }

  // ---------------------------------------------------------------- adding a child table

  function Grow(mem: Memory, t: nat, i: nat, c: nat, content: seq<Entry>): Memory
    requires t in mem && i < |mem[t]| && c !in mem
  {
    mem[c := content][t := mem[t][i := Table(c)]]
  }

  ghost predicate CanGrow(g: Geometry, mem: Memory, place: Places, root: nat, t: nat, i: nat, c: nat,
                          content: seq<Entry>) {
    && Tree(g, mem, place, root) && t in place && i < g.entries && c !in mem
    && place[t].level + 1 < g.levels && !mem[t][i].Table?
    && |content| == g.entries && (forall j :: 0 <= j < |content| ==> !content[j].Table?)
  }

  /** No listed table sits where the new child goes. */
  lemma FreshPlace(g: Geometry, mem: Memory, place: Places, root: nat, t: nat, i: nat, u: nat)
    requires Tree(g, mem, place, root) && t in place && i < g.entries && !mem[t][i].Table? && u in place
    ensures place[u] != ChildPlace(g, place[t], i)
  {
    if place[u] == ChildPlace(g, place[t], i) {
      OnlyParent(g, mem, place, root, t, i, u);
      assert false;
    }
  }

  lemma GrowTables(g: Geometry, mem: Memory, place: Places, root: nat, t: nat, i: nat, c: nat, content: seq<Entry>)
    requires CanGrow(g, mem, place, root, t, i, c, content)
    ensures Tables(g, Grow(mem, t, i, c, content), place[c := ChildPlace(g, place[t], i)])
  {
    hide Geometry.Size, Geometry.Span, GoodPlace, EntryBase, HasParent, ChildPlace, InTable, InEntry;
    ChildFits(g, place[t], i);
    var mem': Memory, place': Places := Grow(mem, t, i, c, content), place[c := ChildPlace(g, place[t], i)];
    forall u: nat, j: nat | u in place' && j < g.entries && mem'[u][j].Table?
      ensures mem'[u][j].id in place' && place'[mem'[u][j].id] == ChildPlace(g, place'[u], j)
    {
      if u != c && !(u == t && j == i) {
        assert mem'[u][j] == mem[u][j];
      }
    }
  }

  lemma GrowParents(g: Geometry, mem: Memory, place: Places, root: nat, t: nat, i: nat, c: nat, content: seq<Entry>,
                    u: nat)
    requires CanGrow(g, mem, place, root, t, i, c, content)
    requires Tables(g, Grow(mem, t, i, c, content), place[c := ChildPlace(g, place[t], i)])
    requires u in place[c := ChildPlace(g, place[t], i)] && u != root
    ensures HasParent(g, Grow(mem, t, i, c, content), place[c := ChildPlace(g, place[t], i)], u)
  {
    hide Geometry.Size, Geometry.Span, GoodPlace, EntryBase;
    var mem' := Grow(mem, t, i, c, content);
    if u == c {
      assert mem'[t][i] == Table(c);
    } else {
      assert HasParent(g, mem, place, u);
      var w, j :| w in place && 0 <= j < g.entries && mem[w][j] == Table(u);
      assert mem'[w][j] == Table(u);
    }
  }

  /** Hanging a fresh table under an entry keeps a tree. */
  lemma GrowKeepsTree(g: Geometry, mem: Memory, place: Places, root: nat, t: nat, i: nat, c: nat, content: seq<Entry>)
    requires CanGrow(g, mem, place, root, t, i, c, content)
    ensures Tree(g, Grow(mem, t, i, c, content), place[c := ChildPlace(g, place[t], i)], root)
  {
    GrowTables(g, mem, place, root, t, i, c, content);
    hide Geometry.Size, Geometry.Span, GoodPlace, EntryBase, HasParent, ChildPlace, Grow;
    var mem': Memory, place': Places := Grow(mem, t, i, c, content), place[c := ChildPlace(g, place[t], i)];
    forall u | u in place' && u != root ensures HasParent(g, mem', place', u) {
      GrowParents(g, mem, place, root, t, i, c, content, u);
    }
    forall u, w | u in place' && w in place' && place'[u] == place'[w] ensures u == w {
      if u != c {
        FreshPlace(g, mem, place, root, t, i, u);
      }
      if w != c {
        FreshPlace(g, mem, place, root, t, i, w);
      }
    }
  }

  lemma GrowTranslates(g: Geometry, mem: Memory, place: Places, root: nat, t: nat, i: nat, c: nat, content: seq<Entry>,
                       va: nat)
    requires CanGrow(g, mem, place, root, t, i, c, content) && va < g.Span(0)
    ensures Lookup(g, Grow(mem, t, i, c, content), root, va)
         == if InEntry(g, place[t], i, va)
            then EntryTarget(g, content[g.Index(place[t].level + 1, va)], place[t].level + 1, va)
            else Lookup(g, mem, root, va)
  {
    hide Geometry.Size, Geometry.Span, Geometry.Index, GoodPlace, InTable, InEntry, EntryBase, HasParent, Tables;
    TablesFacts(g, mem, place, t);
    RootCovers(g, va);
    var mem': Memory, place': Places := Grow(mem, t, i, c, content), place[c := ChildPlace(g, place[t], i)];
    if InEntry(g, place[t], i, va) {
      ChildFits(g, place[t], i);
      GrowKeepsTree(g, mem, place, root, t, i, c, content);
      LookupThrough(g, mem', place', root, c, va);
      OneStep(g, mem', c, place[t].level + 1, va);
    } else {
      OffPath(g, mem, place, t, i, Table(c), va);
      SamePathGrown(g, mem, place, t, i, c, content, va);
      SameTranslation(g, mem, mem', place, root, va);
    }
  }

  lemma TablesFacts(g: Geometry, mem: Memory, place: Places, t: nat)
    requires Tables(g, mem, place) && t in place
    ensures g.Ok() && t in mem && |mem[t]| == g.entries && GoodPlace(g, place[t])
  {
  }

  /** A walk that meets no child table ends with the entry it reads. */
  lemma OneStep(g: Geometry, mem: Memory, t: nat, l: nat, va: nat)
    requires g.Ok() && l < g.levels && t in mem && |mem[t]| == g.entries
    requires !mem[t][g.Index(l, va)].Table?
    ensures Translate(g, mem, t, l, va) == EntryTarget(g, mem[t][g.Index(l, va)], l, va)
  {
  }

  lemma SamePathGrown(g: Geometry, mem: Memory, place: Places, t: nat, i: nat, c: nat, content: seq<Entry>, va: nat)
    requires Tables(g, mem, place) && t in place && i < g.entries && c !in mem
    requires SameOnPath(g, mem, Put(mem, t, i, Table(c)), place, va)
    ensures SameOnPath(g, mem, Grow(mem, t, i, c, content), place, va)
  {
    hide Geometry.Size, Geometry.Span, Geometry.Index, GoodPlace, InTable, EntryBase;
  }

  // ---------------------------------------------------------------- splitting and merging

  /** One large leaf and the uniform table of the next level translate alike. */
  lemma LeafOrTable(g: Geometry, p: Place, i: nat, table: seq<Entry>, pa: nat, prot: nat, va: nat)
    requires g.Ok() && GoodPlace(g, p) && i < g.entries && p.level + 1 < g.levels && InEntry(g, p, i, va)
    requires |table| == g.entries && Uniform(table, pa, prot, g.Size(p.level + 1))
    ensures EntryTarget(g, table[g.Index(p.level + 1, va)], p.level + 1, va)
         == EntryTarget(g, Leaf(pa, prot), p.level, va)
  {
    EntryUnique(g, p, i, va);
    IndexSelects(g, p, va);
    ChildFits(g, p, i);
    IndexSelects(g, ChildPlace(g, p, i), va);
  }
}
