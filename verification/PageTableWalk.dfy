/** Mapping, unmapping and remapping by walking the tables (mm/pgtbl.c, mm/mm.c). */
module PageTableWalk {
  import opened Arithmetic
  import opened PageTable
  import opened PageTableForm
  import opened Options

  /** Both memories translate every address alike. */
  ghost predicate SameMap(g: Geometry, mem: Memory, mem': Memory, root: nat)
    requires g.Ok()
  {
    forall v: nat :: v < g.Span(0) ==> Lookup(g, mem', root, v) == Lookup(g, mem, root, v)
  }

  /** [va, va + size) now translates to pa upwards with `prot`; nothing else changed. */
  ghost predicate Mapped(g: Geometry, mem: Memory, mem': Memory, root: nat, va: nat, size: nat, pa: nat, prot: nat)
    requires g.Ok()
  {
    forall v: nat :: v < g.Span(0) ==>
      Lookup(g, mem', root, v) ==
      if va <= v < va + size then Some(Target(pa + (v - va), prot)) else Lookup(g, mem, root, v)
  }

  /** [va, va + size) is no longer translated; nothing else changed. */
  ghost predicate Unmapped(g: Geometry, mem: Memory, mem': Memory, root: nat, va: nat, size: nat)
    requires g.Ok()
  {
    forall v: nat :: v < g.Span(0) ==>
      Lookup(g, mem', root, v) == if va <= v < va + size then None else Lookup(g, mem, root, v)
  }

  /** The tables a walk for `va` visited, one per level. */
  ghost predicate OnPath(g: Geometry, mem: Memory, place: Places, root: nat, path: seq<nat>, va: nat)
    requires Tables(g, mem, place)
  {
    && |path| > 0 && path[0] == root
    && (forall k :: 0 <= k < |path| ==> path[k] in place && place[path[k]].level == k && InTable(g, place[path[k]], va))
    && (forall k :: 0 <= k < |path| - 1 ==> mem[path[k]][g.Index(k, va)] == Table(path[k + 1]))
  }

  class PgTable {
    const g: Geometry
    const root: nat
    var mem: Memory
    var nextPage: nat
    ghost var place: Places

    ghost predicate Shaped()
      reads this
    {
      && Tree(g, mem, place, root)
      && (forall t :: t in mem ==> t < nextPage)
    }

    ghost predicate Valid()
      reads this
    {
      Sound(root)
    }

    /** Only the root is ever empty, and only the root and perhaps `except` could be one leaf. */
    ghost predicate Sound(except: nat)
      reads this
    {
      Shaped() && NoneEmpty(mem, place, root, root) && NoneUniform(g, mem, place, root, except)
    }

    /** new_pgtbl: an empty root table. */
    constructor (geometry: Geometry)
      requires geometry.Ok()
      ensures Valid() && g == geometry
      ensures forall va :: Lookup(g, mem, root, va) == None
    {
      g := geometry;
      root := 0;
      mem := map[0 := seq(geometry.entries, _ => Invalid)];
      nextPage := 1;
      place := map[0 := Place(0, 0)];
    }

    /** pgtbl_lookup */
    method LookupAt(va: nat) returns (r: Option<Target>)
      requires Valid() && va < g.Span(0)
      ensures r == Lookup(g, mem, root, va)
    {
      hide Geometry.Size, Geometry.Span, Geometry.Index, GoodPlace, InTable, InEntry, EntryBase, HasParent,
           NoneEmpty, NoneUniform;
      var table, level := root, 0;
      RootCovers(g, va);
      while level < g.levels
        invariant level <= g.levels
        invariant level < g.levels ==> table in place && place[table] .level == level && InTable(g, place[table], va)
        invariant Lookup(g, mem, root, va) == Translate(g, mem, table, level, va)
      {
        var e := mem[table][g.Index(level, va)];
        match e
        case Invalid => return None;
        case Leaf(pa, prot) => return Some(Target(pa + va % g.Size(level), prot));
        case Table(c) =>
          StepDown(g, mem, place, table, va);
          table, level := c, level + 1;
      }
      r := None;
    }

    /** pgtbl_split: a leaf becomes a table of smaller leaves. */
    method Split(t: nat, level: nat, i: nat) returns (c: nat)
      requires Shaped() && t in place && i < g.entries && place[t].level == level && level + 1 < g.levels
      requires mem[t][i].Leaf?
      modifies this
      ensures Shaped() && c !in old(mem) && place == old(place)[c := ChildPlace(g, old(place[t]), i)]
      ensures c in mem && CanGrow(g, old(mem), old(place), root, t, i, c, mem[c]) && !IsEmpty(mem[c])
      ensures mem == Grow(old(mem), t, i, c, mem[c])
      ensures SameMap(g, old(mem), mem, root)
    {
      hide Geometry.Size, Geometry.Span, Geometry.Index, GoodPlace, InTable, InEntry, EntryBase, HasParent, ChildPlace,
           Tables;
      TablesFacts(g, mem, place, t);
      var pa, prot := mem[t][i].pa, mem[t][i].prot;
      var size := g.Size(level + 1);
      var content := seq(g.entries, j requires 0 <= j < g.entries => Leaf(pa + j * size, prot));
      assert content[0].Leaf?;
      c := nextPage;
      nextPage := nextPage + 1;
      GrowKeepsTree(g, mem, place, root, t, i, c, content);
      SplitSame(g, mem, place, root, t, i, c, content);
      mem := Grow(mem, t, i, c, content);
      place := place[c := ChildPlace(g, place[t], i)];
    }

    /** Overwrites an entry by a leaf or by nothing; a table it named is no longer part of the tree. */
    method WriteEntry(t: nat, level: nat, i: nat, e: Entry)
      requires Shaped() && t in place && i < g.entries && place[t].level == level && !e.Table?
      modifies this`mem, this`place
      ensures Shaped() && mem == Put(old(mem), t, i, e) && place == Drop(g, old(place), old(place[t]), i)
      ensures EntrySet(g, old(mem), mem, root, old(place[t]), i, e)
    {
      hide Geometry.Size, Geometry.Span, Geometry.Index, GoodPlace, InTable, InEntry, EntryBase, HasParent, Drop,
           EntrySet;
      PutKeepsTree(g, mem, place, root, t, i, e);
      PutSetsEntry(g, mem, place, root, t, i, e);
      place := Drop(g, place, place[t], i);
      mem := Put(mem, t, i, e);
    }

    /** pgtbl_table_need_merge */
    method NeedMerge(t: nat, level: nat) returns (r: bool)
      requires Shaped() && t in place
      ensures r <==> CanMerge(g, mem[t], level)
    {
      hide Geometry.Size, Geometry.Span, Geometry.Index, GoodPlace, InTable, InEntry, EntryBase, HasParent,
           NoneEmpty, NoneUniform;
      if level == 0 {
        return false;
      }
      var table := mem[t];
      var size := g.Size(level);
      var i := 0;
      while i < g.entries
        invariant 0 <= i <= g.entries
        invariant i > 0 ==> table[0].Leaf?
        invariant i > 0 ==> Uniform(table[..i], table[0].pa, table[0].prot, size)
      {
        if !table[i].Leaf? {
          return false;
        }
        if i > 0 && (table[i].pa != table[0].pa + i * size || table[i].prot != table[0].prot) {
          return false;
        }
        i := i + 1;
      }
      assert table[..i] == table;
      r := true;
    }

    /** pgtbl_table_is_empty */
    method TableIsEmpty(t: nat) returns (r: bool)
      requires Shaped() && t in place
      ensures r <==> IsEmpty(mem[t])
    {
      hide Geometry.Size, Geometry.Span, Geometry.Index, GoodPlace, InTable, InEntry, EntryBase, HasParent,
           NoneEmpty, NoneUniform;
      var i := 0;
      while i < g.entries
        invariant 0 <= i <= g.entries
        invariant forall j :: 0 <= j < i ==> mem[t][j] == Invalid
      {
        if mem[t][i] != Invalid {
          return false;
        }
        i := i + 1;
      }
      r := true;
    }

    /** free_table_va of a table that is not in the tree. */
    method FreeTable(t: nat)
      requires Shaped() && t !in place
      modifies this`mem
      ensures Shaped() && mem == old(mem) - {t}
      ensures SameMap(g, old(mem), mem, root)
    {
      hide Geometry.Size, Geometry.Span, Geometry.Index, GoodPlace, InTable, InEntry, EntryBase, HasParent, SameMap;
      FreeKeepsTree(g, mem, place, root, t);
      mem := mem - {t};
    }

    /** pgtbl_merge: a uniform child table becomes one leaf of its parent. */
    method Merge(path: seq<nat>, l: nat, va: nat)
      requires 0 < l && |path| == l + 1 && Sound(path[l]) && OnPath(g, mem, place, root, path, va) && va < g.Span(0)
      requires CanMerge(g, mem[path[l]], l)
      modifies this`mem, this`place
      ensures Sound(path[l - 1]) && OnPath(g, mem, place, root, path[..l], va)
      ensures SameMap(g, old(mem), mem, root)
    {
      hide Geometry.Size, Geometry.Span, Geometry.Index, GoodPlace, InTable, InEntry, EntryBase, HasParent, Drop,
           Tables, SameMap, EntrySet, Uniform, NoneEmpty, NoneUniform, OnPath;
      PathFacts(g, mem, place, root, path, va, l);
      PathFacts(g, mem, place, root, path, va, l - 1);
      var t, u := path[l], path[l - 1];
      var i := g.Index(l - 1, va);
      var leaf := mem[t][0];
      MergeSame(g, mem, place, root, u, t, i, leaf);
      PutKeepsNoneEmpty(g, mem, place, root, u, i, leaf, root);
      PutNoneUniform(g, mem, place, root, u, i, leaf, t);
      WriteEntry(u, l - 1, i, leaf);
      PathCut(g, old(mem), old(place), root, path, va, l, leaf);
      ghost var mid := mem;
      FreedKeepsNoneEmpty(mem, place, root, t);
      FreedNoneUniform(g, mem, place, root, t, u);
      FreedKeepsPath(g, mem, place, root, path[..l], va, t);
      FreeTable(t);
      SameMapTrans(g, old(mem), mid, mem, root);
    }

    /** The loop that ends map_cb and remap_cb: merge tables upwards while they are uniform. */
    method MergeUp(path: seq<nat>, va: nat)
      requires |path| > 0 && Sound(path[|path| - 1]) && OnPath(g, mem, place, root, path, va) && va < g.Span(0)
      modifies this`mem, this`place
      ensures Valid() && SameMap(g, old(mem), mem, root)
    {
      hide Geometry.Size, Geometry.Span, Geometry.Index, GoodPlace, InTable, InEntry, EntryBase, HasParent, NoneEmpty,
           NoneUniform, SameMap, CanMerge, Uniform, OnPath, Tables;
      TablesFacts(g, mem, place, root);
      SameMapRefl(g, mem, root);
      var l := |path| - 1;
      assert path[..l + 1] == path;
      while l > 0
        invariant 0 <= l < |path|
        invariant Sound(path[l]) && OnPath(g, mem, place, root, path[..l + 1], va)
        invariant SameMap(g, old(mem), mem, root)
      {
        PathFacts(g, mem, place, root, path[..l + 1], va, l);
        var merge := NeedMerge(path[l], l);
        if !merge {
          NoneUniformAll(g, mem, place, root, path[l]);
          return;
        }
        ghost var mid := mem;
        Merge(path[..l + 1], l, va);
        SameMapTrans(g, old(mem), mid, mem, root);
        assert path[..l + 1][..l] == path[..l];
        l := l - 1;
      }
      PathStart(g, mem, place, root, path[..1], va);
    }

    /** Hangs an empty table under the invalid entry the walk stands on. */
    method AddTable(path: seq<nat>, level: nat, va: nat) returns (c: nat)
      requires Shaped() && |path| == level + 1 && OnPath(g, mem, place, root, path, va) && level + 1 < g.levels
      requires NoneEmpty(mem, place, root, path[level]) && NoneUniform(g, mem, place, root, root)
      requires mem[path[level]][g.Index(level, va)] == Invalid
      modifies this
      ensures Shaped() && OnPath(g, mem, place, root, path + [c], va)
      ensures NoneEmpty(mem, place, root, c) && NoneUniform(g, mem, place, root, root) && c in mem && IsEmpty(mem[c])
      ensures SameMap(g, old(mem), mem, root)
    {
      hide Geometry.Size, Geometry.Span, Geometry.Index, GoodPlace, InTable, InEntry, EntryBase, HasParent, SameMap,
           OnPath, Grow, ChildPlace, NoneEmpty, NoneUniform, Tables;
      PathFacts(g, mem, place, root, path, va, level);
      var t, i := path[level], g.Index(level, va);
      var content := seq(g.entries, _ => Invalid);
      c := nextPage;
      nextPage := nextPage + 1;
      GrowKeepsTree(g, mem, place, root, t, i, c, content);
      GrowEmptySame(g, mem, place, root, t, i, c, content);
      GrowPath(g, mem, place, root, path, va, c, content);
      GrowNoneEmpty(g, mem, place, root, t, i, c, content, t);
      GrowNoneUniform(g, mem, place, root, t, i, c, content, root);
      GrowKeys(g, mem, t, i, c, content);
      mem := Grow(mem, t, i, c, content);
      place := place[c := ChildPlace(g, place[t], i)];
    }

    /** Writes the target leaf and merges upwards. */
    method SetLeaf(path: seq<nat>, target: nat, va: nat, pa: nat, prot: nat)
      requires Shaped() && |path| == target + 1 && OnPath(g, mem, place, root, path, va) && va < g.Span(0)
      requires NoneEmpty(mem, place, root, path[target]) && NoneUniform(g, mem, place, root, path[target])
      modifies this`mem, this`place
      ensures Valid()
      ensures Mapped(g, old(mem), mem, root, AlignDown(va, g.Size(target)), g.Size(target), pa, prot)
    {
      hide Geometry.Size, Geometry.Span, Geometry.Index, GoodPlace, InTable, InEntry, EntryBase, HasParent, SameMap,
           OnPath, Put, Drop, EntrySet, Mapped, NoneEmpty, NoneUniform, Tables, AlignDown;
      PathFacts(g, mem, place, root, path, va, target);
      var t, i := path[target], g.Index(target, va);
      PutKeepsNoneEmpty(g, mem, place, root, t, i, Leaf(pa, prot), t);
      PutNoneUniform(g, mem, place, root, t, i, Leaf(pa, prot), t);
      WriteEntry(t, target, i, Leaf(pa, prot));
      PathCut(g, old(mem), old(place), root, path, va, target + 1, Leaf(pa, prot));
      assert path[..target + 1] == path;
      LeafMapped(g, old(mem), mem, root, old(place[t]), va, pa, prot);
      ghost var mid := mem;
      MergeUp(path, va);
      MappedThenSame(g, old(mem), mid, mem, root, AlignDown(va, g.Size(target)), g.Size(target), pa, prot);
    }

    /** pgtbl_map: a leaf at `target` level; fails where a larger leaf is in the way. */
    method MapPage(va: nat, pa: nat, target: nat, prot: nat) returns (ok: bool)
      requires Valid() && va < g.Span(0) && target < g.levels
      modifies this
      ensures Valid()
      ensures ok <==> !InLeafAbove(g, old(mem), root, target, va)
      ensures !ok ==> mem == old(mem)
      ensures ok ==> Mapped(g, old(mem), mem, root, AlignDown(va, g.Size(target)), g.Size(target), pa, prot)
    {
      hide Geometry.Size, Geometry.Span, Geometry.Index, GoodPlace, InTable, InEntry, EntryBase, HasParent, NoneEmpty,
           NoneUniform, SameMap, Mapped, Tables, OnPath, Grow, ChildPlace, AlignDown, InLeafAbove;
      var table, level, path := root, 0, [root];
      ghost var grown := false;
      CoveredFromRoot(g, mem, place, root, target, va);
      StartPath(g, mem, place, root, va);
      TablesFacts(g, mem, place, root);
      SameMapRefl(g, mem, root);
      while level < target
        invariant level <= target && |path| == level + 1 && table == path[level]
        invariant Shaped() && OnPath(g, mem, place, root, path, va)
        invariant NoneEmpty(mem, place, root, table) && NoneUniform(g, mem, place, root, root)
        invariant SameMap(g, old(mem), mem, root)
        invariant !grown ==> mem == old(mem) && place == old(place) && nextPage == old(nextPage)
        invariant grown ==> table in mem && IsEmpty(mem[table])
        invariant CoveredAbove(g, old(mem), root, 0, target, va) == CoveredAbove(g, mem, table, level, target, va)
      {
        PathFacts(g, mem, place, root, path, va, level);
        match mem[table][g.Index(level, va)] {
        case Leaf(_, _) =>
          return false;
        case Table(c) =>
          ExtendPath(g, mem, place, root, path, va);
          OnlyLastEmpty(g, mem, place, root, table, c, g.Index(level, va));
          path := path + [c];
          table := c;
        case Invalid =>
          ghost var mid := mem;
          var c := AddTable(path, level, va);
          SameMapTrans(g, old(mem), mid, mem, root);
          EmptyNotCovered(g, mem, c, level + 1, target, va);
          path := path + [c];
          table := c;
          grown := true;
        }
        level := level + 1;
      }
      NoneUniformWeaken(g, mem, place, root, table);
      ghost var mid := mem;
      SetLeaf(path, target, va, pa, prot);
      MappedAfterSame(g, old(mem), mid, mem, root, AlignDown(va, g.Size(target)), g.Size(target), pa, prot);
      ok := true;
    }

    /** pgtbl_remap of a translated address: larger leaves on the way are split, then one leaf is rewritten. */
    method RemapPage(va: nat, pa: nat, target: nat, prot: nat)
      requires Valid() && va < g.Span(0) && target < g.levels && Lookup(g, mem, root, va).Some?
      modifies this
      ensures Valid()
      ensures Mapped(g, old(mem), mem, root, AlignDown(va, g.Size(target)), g.Size(target), pa, prot)
    {
      hide Geometry.Size, Geometry.Span, Geometry.Index, GoodPlace, InTable, InEntry, EntryBase, HasParent, NoneEmpty,
           NoneUniform, SameMap, Mapped, Tables, OnPath, Grow, ChildPlace, AlignDown, Lookup, Translate;
      var table, level, path := root, 0, [root];
      StartPath(g, mem, place, root, va);
      TablesFacts(g, mem, place, root);
      SameMapRefl(g, mem, root);
      while level < target
        invariant level <= target && |path| == level + 1 && table == path[level]
        invariant Sound(table) && OnPath(g, mem, place, root, path, va)
        invariant SameMap(g, old(mem), mem, root)
      {
        PathFacts(g, mem, place, root, path, va, level);
        SameAt(g, old(mem), mem, root, va);
        MappedNotInvalid(g, mem, place, root, table, va);
        ghost var mid := mem;
        var c := DescendSplit(path, level, va);
        SameMapTrans(g, old(mem), mid, mem, root);
        path := path + [c];
        table := c;
        level := level + 1;
      }
      NoneEmptyWeaken(mem, place, root, table);
      ghost var mid := mem;
      SetLeaf(path, target, va, pa, prot);
      MappedAfterSame(g, old(mem), mid, mem, root, AlignDown(va, g.Size(target)), g.Size(target), pa, prot);
    }

    /** One level down the walk of unmap and remap: a leaf is split first. */
    method DescendSplit(path: seq<nat>, level: nat, va: nat) returns (c: nat)
      requires |path| == level + 1 && level + 1 < g.levels && Sound(path[level])
      requires OnPath(g, mem, place, root, path, va)
      requires mem[path[level]][g.Index(level, va)] != Invalid
      modifies this
      ensures Sound(c) && OnPath(g, mem, place, root, path + [c], va)
      ensures SameMap(g, old(mem), mem, root)
    {
      hide Geometry.Size, Geometry.Span, Geometry.Index, GoodPlace, InTable, InEntry, EntryBase, HasParent, NoneEmpty,
           NoneUniform, SameMap, Tables, OnPath, Grow, ChildPlace;
      PathFacts(g, mem, place, root, path, va, level);
      TablesFacts(g, mem, place, root);
      SameMapRefl(g, mem, root);
      var t, i := path[level], g.Index(level, va);
      if mem[t][i].Table? {
        c := mem[t][i].id;
        ExtendPath(g, mem, place, root, path, va);
        NotAllLeaves(g, mem[t], i, level);
        NoneUniformAll(g, mem, place, root, t);
        NoneUniformWeaken(g, mem, place, root, c);
      } else {
        c := Split(t, level, i);
        GrowPath(g, old(mem), old(place), root, path, va, c, mem[c]);
        GrowNoneEmpty(g, old(mem), old(place), root, t, i, c, mem[c], root);
        GrowNoneUniform(g, old(mem), old(place), root, t, i, c, mem[c], t);
      }
    }

    /** pgtbl_unmap: the entry at `target` level is cleared and emptied tables are freed upwards. */
    method UnmapPage(va: nat, target: nat)
      requires Valid() && va < g.Span(0) && target < g.levels
      modifies this
      ensures Valid()
      ensures Unmapped(g, old(mem), mem, root, AlignDown(va, g.Size(target)), g.Size(target))
    {
      hide Geometry.Size, Geometry.Span, Geometry.Index, GoodPlace, InTable, InEntry, EntryBase, HasParent, NoneEmpty,
           NoneUniform, SameMap, Unmapped, Tables, OnPath, Grow, ChildPlace, AlignDown, Lookup, Put, Drop, EntrySet;
      var table, level, path := root, 0, [root];
      StartPath(g, mem, place, root, va);
      TablesFacts(g, mem, place, root);
      SameMapRefl(g, mem, root);
      while level < target
        invariant level <= target && |path| == level + 1 && table == path[level]
        invariant Sound(table) && OnPath(g, mem, place, root, path, va)
        invariant SameMap(g, old(mem), mem, root)
      {
        PathFacts(g, mem, place, root, path, va, level);
        if mem[table][g.Index(level, va)] == Invalid {
          NothingToUnmap(g, old(mem), mem, place, root, table, va, target);
          NotAllLeaves(g, mem[table], g.Index(level, va), level);
          NoneUniformAll(g, mem, place, root, table);
          return;
        }
        ghost var mid := mem;
        var c := DescendSplit(path, level, va);
        SameMapTrans(g, old(mem), mid, mem, root);
        path := path + [c];
        table := c;
        level := level + 1;
      }
      PathFacts(g, mem, place, root, path, va, target);
      ghost var mid, midPlace := mem, place;
      PutKeepsNoneEmpty(g, mem, place, root, table, g.Index(target, va), Invalid, root);
      PutNoneUniform(g, mem, place, root, table, g.Index(target, va), Invalid, table);
      WriteEntry(table, target, g.Index(target, va), Invalid);
      PathCut(g, mid, midPlace, root, path, va, target + 1, Invalid);
      assert path[..target + 1] == path;
      EntryUnmapped(g, mid, mem, root, midPlace[table], va);
      ghost var cleared := mem;
      CleanUp(path, va);
      UnmappedBetween(g, old(mem), mid, cleared, mem, root, AlignDown(va, g.Size(target)), g.Size(target));
    }

    /** The loop that ends unmap_cb: free tables upwards while they are empty. */
    method CleanUp(path: seq<nat>, va: nat)
      requires Shaped() && OnPath(g, mem, place, root, path, va) && va < g.Span(0) && |path| > 0
      requires NoneEmpty(mem, place, root, path[|path| - 1]) && NoneUniform(g, mem, place, root, root)
      modifies this`mem, this`place
      ensures Valid() && SameMap(g, old(mem), mem, root)
    {
      hide Geometry.Size, Geometry.Span, Geometry.Index, GoodPlace, InTable, InEntry, EntryBase, HasParent, SameMap,
           NoneEmpty, NoneUniform, OnPath, Tables;
      TablesFacts(g, mem, place, root);
      SameMapRefl(g, mem, root);
      var l := |path| - 1;
      assert path[..l + 1] == path;
      while l > 0
        invariant 0 <= l < |path|
        invariant Shaped() && OnPath(g, mem, place, root, path[..l + 1], va)
        invariant NoneEmpty(mem, place, root, path[l]) && NoneUniform(g, mem, place, root, root)
        invariant SameMap(g, old(mem), mem, root)
      {
        PathFacts(g, mem, place, root, path[..l + 1], va, l);
        var empty := TableIsEmpty(path[l]);
        if !empty {
          NoneEmptyAll(mem, place, root, path[l]);
          return;
        }
        ghost var mid := mem;
        RemoveEmpty(path[..l + 1], l, va);
        SameMapTrans(g, old(mem), mid, mem, root);
        assert path[..l + 1][..l] == path[..l];
        l := l - 1;
      }
      PathStart(g, mem, place, root, path[..1], va);
    }

    /** An empty child table leaves its parent and is freed. */
    method RemoveEmpty(path: seq<nat>, l: nat, va: nat)
      requires Shaped() && 0 < l && |path| == l + 1 && OnPath(g, mem, place, root, path, va) && va < g.Span(0)
      requires NoneEmpty(mem, place, root, path[l]) && NoneUniform(g, mem, place, root, root) && IsEmpty(mem[path[l]])
      modifies this`mem, this`place
      ensures Shaped() && OnPath(g, mem, place, root, path[..l], va)
      ensures NoneEmpty(mem, place, root, path[l - 1]) && NoneUniform(g, mem, place, root, root)
      ensures SameMap(g, old(mem), mem, root)
    {
      hide Geometry.Size, Geometry.Span, Geometry.Index, GoodPlace, InTable, InEntry, EntryBase, HasParent, Drop,
           Tables, SameMap, EntrySet, NoneEmpty, NoneUniform, OnPath, Put;
      PathFacts(g, mem, place, root, path, va, l);
      PathFacts(g, mem, place, root, path, va, l - 1);
      var t, u := path[l], path[l - 1];
      var i := g.Index(l - 1, va);
      ClearSame(g, mem, place, root, u, t, i);
      ClearNoneEmpty(g, mem, place, root, u, t, i);
      PutNoneUniform(g, mem, place, root, u, i, Invalid, root);
      WriteEntry(u, l - 1, i, Invalid);
      PathCut(g, old(mem), old(place), root, path, va, l, Invalid);
      ghost var mid := mem;
      FreedNoneEmpty(mem, place, root, t, u);
      FreedNoneUniform(g, mem, place, root, t, root);
      FreedKeepsPath(g, mem, place, root, path[..l], va, t);
      FreeTable(t);
      SameMapTrans(g, old(mem), mid, mem, root);
    }

    /** highest_possible_level: the largest page both addresses and the rest of the range allow. */
    method HighestPossibleLevel(huge: bool, va: nat, pa: nat, size: nat) returns (level: nat)
      requires g.Ok()
      ensures level == LevelFor(g, huge, va, pa, size)
      ensures !huge ==> level == g.levels - 1
      ensures huge && level < g.levels - 1 ==>
        va % g.Size(level) == 0 && pa % g.Size(level) == 0 && g.Size(level) <= size
      ensures huge ==> forall i :: 0 <= i < level ==>
        !(va % g.Size(i) == 0 && pa % g.Size(i) == 0 && g.Size(i) <= size)
    {
      hide Geometry.Size;
      LevelForIs(g, huge, va, pa, size);
      level := g.levels - 1;
      if !huge {
        return;
      }
      var i := 0;
      while i < g.levels
        invariant 0 <= i <= g.levels && level == g.levels - 1
        invariant forall k :: 0 <= k < i ==> !Fits(g, k, va, pa, size)
      {
        if va % g.Size(i) == 0 && pa % g.Size(i) == 0 && size >= g.Size(i) {
          assert Fits(g, i, va, pa, size) && !(FirstFit(g, 0, va, pa, size) > i);
          return i;
        }
        i := i + 1;
      }
    }

    /** map: the whole page range, with the largest pages that fit; `done` bytes when a larger leaf blocks it. */
    method Map(vaddr: nat, paddr: nat, size: nat, prot: nat, huge: bool) returns (ok: bool, ghost done: nat)
      requires Valid() && AlignDown(vaddr, g.page) + AlignUp(size, g.page) <= g.Span(0)
      modifies this
      ensures Valid() && done <= AlignUp(size, g.page) && (ok <==> done == AlignUp(size, g.page))
      ensures Mapped(g, old(mem), mem, root, AlignDown(vaddr, g.page), done, AlignDown(paddr, g.page), prot)
      ensures !ok ==> InLeafAbove(g, mem, root, g.levels - 1, AlignDown(vaddr, g.page) + done)
      ensures
        var va, pa, n := AlignDown(vaddr, g.page), AlignDown(paddr, g.page), AlignUp(size, g.page);
        done == Reach(g, old(mem), root, va, pa, n, prot, huge, 0)
      ensures PageAligned(g, old(mem), root) ==> PageAligned(g, mem, root)
    {
      hide Geometry.Size, Geometry.Span, Geometry.Index, GoodPlace, InTable, InEntry, EntryBase, HasParent, NoneEmpty,
           NoneUniform, SameMap, Mapped, Tables, AlignDown, AlignUp, InLeafAbove, PageAligned, Reach, Blocked;
      TablesFacts(g, mem, place, root);
      var va, pa, size' := AlignDown(vaddr, g.page), AlignDown(paddr, g.page), AlignUp(size, g.page);
      AlignFacts(vaddr, g.page);
      AlignFacts(paddr, g.page);
      AlignFacts(size, g.page);
      ModAdd(va, size', g.page);
      ghost var va0, pa0 := va, pa;
      var end := va + size';
      done := 0;
      MappedNothing(g, mem, root, va, pa, prot);
      while va < end
        invariant va == va0 + done && pa == pa0 + done && va <= end && done <= size'
        invariant va % g.page == 0 && pa % g.page == 0 && end % g.page == 0
        invariant Valid() && Mapped(g, old(mem), mem, root, va0, done, pa0, prot)
        invariant Reach(g, old(mem), root, va0, pa0, size', prot, huge, done) ==
                  Reach(g, old(mem), root, va0, pa0, size', prot, huge, 0)
      {
        var level := HighestPossibleLevel(huge, va, pa, end - va);
        LevelFits(g, level, va, pa, end - va);
        var mapSize := g.Size(level);
        BlockedMeans(g, old(mem), mem, root, va0, done, pa0, prot, level);
        ReachStep(g, old(mem), root, va0, pa0, size', prot, huge, done);
        ghost var mid := mem;
        var r := MapPage(va, pa, level, prot);
        if !r {
          InLeafLower(g, mem, root, level, g.levels - 1, va);
          MappedAligned(g, old(mem), mem, root, va0, done, pa0, prot);
          return false, done;
        }
        AlignedAlready(va, g.Size(level));
        MappedMore(g, old(mem), mid, mem, root, va0, done, mapSize, pa0, prot);
        va, pa := va + mapSize, pa + mapSize;
        done := done + mapSize;
      }
      MappedAligned(g, old(mem), mem, root, va0, done, pa0, prot);
      ReachEnd(g, old(mem), root, va0, pa0, size', prot, huge);
      ok := true;
    }

    /** unmap: the whole page range, whatever leaves and tables it held. */
    method Unmap(vaddr: nat, size: nat, huge: bool)
      requires Valid() && AlignDown(vaddr, g.page) + AlignUp(size, g.page) <= g.Span(0)
      modifies this
      ensures Valid()
      ensures Unmapped(g, old(mem), mem, root, AlignDown(vaddr, g.page), AlignUp(size, g.page))
      ensures PageAligned(g, old(mem), root) ==> PageAligned(g, mem, root)
    {
      hide Geometry.Size, Geometry.Span, Geometry.Index, GoodPlace, InTable, InEntry, EntryBase, HasParent, NoneEmpty,
           NoneUniform, SameMap, Unmapped, Tables, AlignDown, AlignUp, PageAligned;
      TablesFacts(g, mem, place, root);
      var va, size' := AlignDown(vaddr, g.page), AlignUp(size, g.page);
      AlignFacts(vaddr, g.page);
      AlignFacts(size, g.page);
      ModAdd(va, size', g.page);
      ghost var va0 := va;
      var end := va + size';
      UnmappedNothing(g, mem, root, va);
      MultipleMod(0, g.page);
      while va < end
        invariant va0 <= va <= end && va % g.page == 0 && end % g.page == 0
        invariant Valid() && Unmapped(g, old(mem), mem, root, va0, va - va0)
      {
        var level := HighestPossibleLevel(huge, va, 0, end - va);
        LevelFits(g, level, va, 0, end - va);
        var unmapSize := g.Size(level);
        ghost var mid := mem;
        UnmapPage(va, level);
        AlignedAlready(va, g.Size(level));
        UnmappedMore(g, old(mem), mid, mem, root, va0, va - va0, unmapSize);
        va := va + unmapSize;
      }
      UnmappedAligned(g, old(mem), mem, root, va0, size');
    }

    /**
     * remap of a mapped range. Only the first address is looked up: the range is mapped to consecutive addresses from
     * there, so its translation keeps its addresses if and only if they were consecutive.
     */
    method Remap(vaddr: nat, size: nat, prot: nat, huge: bool) returns (ok: bool)
      requires Valid() && PageAligned(g, mem, root) && vaddr < g.Span(0)
      requires AlignDown(vaddr, g.page) + AlignUp(size, g.page) <= g.Span(0)
      requires Lookup(g, mem, root, vaddr).Some? ==>
        AllMapped(g, mem, root, AlignDown(vaddr, g.page), AlignUp(size, g.page))
      modifies this
      ensures Valid() && PageAligned(g, mem, root)
      ensures ok <==> Lookup(g, old(mem), root, vaddr).Some? && Lookup(g, old(mem), root, vaddr).value.pa != 0
      ensures !ok ==> mem == old(mem)
      ensures ok ==>
        var va, n := AlignDown(vaddr, g.page), AlignUp(size, g.page);
        var pa := AlignDown(Lookup(g, old(mem), root, vaddr).value.pa, g.page);
        && Mapped(g, old(mem), mem, root, va, n, pa, prot)
        && (Reprotected(g, old(mem), mem, root, va, n, prot) <==> Consecutive(g, old(mem), root, va, n, pa))
    {
      hide Geometry.Size, Geometry.Span, Geometry.Index, GoodPlace, InTable, InEntry, EntryBase, HasParent, NoneEmpty,
           NoneUniform, SameMap, Mapped, Tables, AlignDown, AlignUp, PageAligned, Reprotected, Lookup, AllMapped,
           Consecutive;
      TablesFacts(g, mem, place, root);
      var found := LookupAt(vaddr);
      if found.None? || found.value.pa == 0 {
        return false;
      }
      var paddr := found.value.pa;
      var va, pa, size' := AlignDown(vaddr, g.page), AlignDown(paddr, g.page), AlignUp(size, g.page);
      AlignFacts(vaddr, g.page);
      AlignFacts(paddr, g.page);
      AlignFacts(size, g.page);
      ModAdd(va, size', g.page);
      ghost var va0, pa0, done := va, pa, 0;
      var end := va + size';
      MappedNothing(g, mem, root, va, pa, prot);
      while va < end
        invariant va == va0 + done && pa == pa0 + done && va <= end && done <= size'
        invariant va % g.page == 0 && pa % g.page == 0 && end % g.page == 0
        invariant Valid() && Mapped(g, old(mem), mem, root, va0, done, pa0, prot)
      {
        var level := HighestPossibleLevel(huge, va, pa, end - va);
        LevelFits(g, level, va, pa, end - va);
        var mapSize := g.Size(level);
        ghost var mid := mem;
        StillMapped(g, old(mem), mem, root, va0, done, size', pa0, prot);
        RemapPage(va, pa, level, prot);
        AlignedAlready(va, g.Size(level));
        MappedMore(g, old(mem), mid, mem, root, va0, done, mapSize, pa0, prot);
        va, pa := va + mapSize, pa + mapSize;
        done := done + mapSize;
      }
      MappedAligned(g, old(mem), mem, root, va0, done, pa0, prot);
      ReprotectedMeans(g, old(mem), mem, root, va0, size', pa0, prot);
      ok := true;
    }
  }

  lemma CoveredFromRoot(g: Geometry, mem: Memory, place: Places, root: nat, target: nat, va: nat)
    requires Reduced(g, mem, place, root) && va < g.Span(0)
    ensures CoveredAbove(g, mem, root, 0, target, va) <==> InLeafAbove(g, mem, root, target, va)
  {
    hide Geometry.Size, Geometry.Span, Geometry.Index, OneLeaf, CoveredAbove, NoneUniform, NoneEmpty;
    RootCovers(g, va);
    CoveredIsOneLeaf(g, mem, place, root, root, target, va);
  }

  /** One step of a walk through a child entry. */
  lemma StepDown(g: Geometry, mem: Memory, place: Places, t: nat, va: nat)
    requires Tables(g, mem, place) && t in place && InTable(g, place[t], va)
    requires mem[t][g.Index(place[t].level, va)].Table?
    ensures var c := mem[t][g.Index(place[t].level, va)].id;
            c in place && place[c].level == place[t].level + 1 < g.levels && InTable(g, place[c], va)
  {
    var i := g.Index(place[t].level, va);
    IndexSelects(g, place[t], va);
    ChildFits(g, place[t], i);
  }

  /** Splitting a leaf changes no translation. */
  lemma SplitSame(g: Geometry, mem: Memory, place: Places, root: nat, t: nat, i: nat, c: nat, content: seq<Entry>)
    requires CanGrow(g, mem, place, root, t, i, c, content) && mem[t][i].Leaf?
    requires Uniform(content, mem[t][i].pa, mem[t][i].prot, g.Size(place[t].level + 1))
    ensures SameMap(g, mem, Grow(mem, t, i, c, content), root)
  {
    hide Geometry.Size, Geometry.Span, Geometry.Index, GoodPlace, InTable, InEntry, EntryBase, HasParent, Tables;
    TablesFacts(g, mem, place, t);
    var mem' := Grow(mem, t, i, c, content);
    forall v: nat | v < g.Span(0) ensures Lookup(g, mem', root, v) == Lookup(g, mem, root, v) {
      GrowTranslates(g, mem, place, root, t, i, c, content, v);
      if InEntry(g, place[t], i, v) {
        LeafOrTable(g, place[t], i, content, mem[t][i].pa, mem[t][i].prot, v);
        EntryLookup(g, mem, place, root, t, i, v);
      }
    }
  }

  /** What an address of an entry that is no table translates to. */
  lemma EntryLookup(g: Geometry, mem: Memory, place: Places, root: nat, t: nat, i: nat, va: nat)
    requires Tree(g, mem, place, root) && t in place && i < g.entries && InEntry(g, place[t], i, va)
    requires !mem[t][i].Table?
    ensures Lookup(g, mem, root, va) == EntryTarget(g, mem[t][i], place[t].level, va)
  {
    EntryUnique(g, place[t], i, va);
    LookupThrough(g, mem, place, root, t, va);
    OneStep(g, mem, t, place[t].level, va);
  }

  /** The addresses of one entry translate as `e` says, all others as before. */
  ghost predicate EntrySet(g: Geometry, mem: Memory, mem': Memory, root: nat, p: Place, i: nat, e: Entry)
    requires g.Ok()
  {
    forall v: nat :: v < g.Span(0) ==>
      Lookup(g, mem', root, v) == if InEntry(g, p, i, v) then EntryTarget(g, e, p.level, v) else Lookup(g, mem, root, v)
  }

  lemma PutSetsEntry(g: Geometry, mem: Memory, place: Places, root: nat, t: nat, i: nat, e: Entry)
    requires Tree(g, mem, place, root) && t in place && i < g.entries && !e.Table?
    ensures EntrySet(g, mem, Put(mem, t, i, e), root, place[t], i, e)
  {
    hide Geometry.Size, Geometry.Span, Geometry.Index, GoodPlace, InTable, InEntry, EntryBase, HasParent, Put, Lookup;
    var mem' := Put(mem, t, i, e);
    forall v: nat | v < g.Span(0)
      ensures Lookup(g, mem', root, v) == if InEntry(g, place[t], i, v) then EntryTarget(g, e, place[t].level, v)
              else Lookup(g, mem, root, v)
    {
      PutTranslates(g, mem, place, root, t, i, e, v);
    }
  }

  lemma SameMapRefl(g: Geometry, mem: Memory, root: nat)
    requires g.Ok()
    ensures SameMap(g, mem, mem, root)
  {
  }

  lemma SameMapTrans(g: Geometry, a: Memory, b: Memory, c: Memory, root: nat)
    requires g.Ok() && SameMap(g, a, b, root) && SameMap(g, b, c, root)
    ensures SameMap(g, a, c, root)
  {
    hide Geometry.Span, Lookup;
  }

  lemma FreeKeepsTree(g: Geometry, mem: Memory, place: Places, root: nat, t: nat)
    requires Tree(g, mem, place, root) && t !in place
    ensures Tree(g, mem - {t}, place, root)
    ensures SameMap(g, mem, mem - {t}, root)
  {
    FreeSameMap(g, mem, place, root, t);
    FreeTables(g, mem, place, t);
    hide Geometry.Size, Geometry.Span, GoodPlace, EntryBase, HasParent, SameMap, Tables;
    var mem': Memory := mem - {t};
    forall u | u in place && u != root ensures HasParent(g, mem', place, u) {
      ParentFreed(g, mem, place, root, t, u);
    }
  }

  lemma FreeTables(g: Geometry, mem: Memory, place: Places, t: nat)
    requires Tables(g, mem, place) && t !in place
    ensures Tables(g, mem - {t}, place)
  {
    hide Geometry.Size, Geometry.Span, GoodPlace, EntryBase, ChildPlace;
    var mem': Memory := mem - {t};
    assert forall u :: u in place ==> u in mem' && mem'[u] == mem[u];
  }

  lemma FreeSameMap(g: Geometry, mem: Memory, place: Places, root: nat, t: nat)
    requires Tree(g, mem, place, root) && t !in place
    ensures SameMap(g, mem, mem - {t}, root)
  {
    hide Geometry.Size, Geometry.Span, Geometry.Index, GoodPlace, InTable, HasParent, SameOnPath, Translate;
    var mem': Memory := mem - {t};
    forall v: nat | v < g.Span(0) ensures Lookup(g, mem', root, v) == Lookup(g, mem, root, v) {
      RootCovers(g, v);
      SameOnPathFreed(g, mem, place, t, v);
      SameTranslation(g, mem, mem', place, root, v);
    }
  }

  lemma SameOnPathFreed(g: Geometry, mem: Memory, place: Places, t: nat, v: nat)
    requires Tables(g, mem, place) && t !in place
    ensures SameOnPath(g, mem, mem - {t}, place, v)
  {
    hide Geometry.Size, Geometry.Span, Geometry.Index, GoodPlace, InTable;
  }

  lemma ParentFreed(g: Geometry, mem: Memory, place: Places, root: nat, t: nat, u: nat)
    requires Tree(g, mem, place, root) && t !in place && u in place && u != root && Tables(g, mem - {t}, place)
    ensures HasParent(g, mem - {t}, place, u)
  {
    hide Geometry.Size, Geometry.Span, GoodPlace, EntryBase;
    assert HasParent(g, mem, place, u);
    var w, j :| w in place && 0 <= j < g.entries && mem[w][j] == Table(u);
    assert (mem - {t})[w][j] == Table(u);
  }

  lemma PathFacts(g: Geometry, mem: Memory, place: Places, root: nat, path: seq<nat>, va: nat, k: nat)
    requires Tables(g, mem, place) && OnPath(g, mem, place, root, path, va) && k < |path|
    ensures path[k] in place && place[path[k]].level == k < g.levels && InTable(g, place[path[k]], va)
    ensures path[k] in mem && |mem[path[k]]| == g.entries && g.Ok() && GoodPlace(g, place[path[k]])
    ensures g.Index(k, va) < g.entries
    ensures k + 1 < |path| ==> mem[path[k]][g.Index(k, va)] == Table(path[k + 1])
    ensures k + 1 < |path| ==> place[path[k + 1]] == ChildPlace(g, place[path[k]], g.Index(k, va))
    ensures InEntry(g, place[path[k]], g.Index(k, va), va)
  {
    IndexSelects(g, place[path[k]], va);
  }

  /** Replacing a uniform child table by one leaf changes no translation. */
  lemma MergeSame(g: Geometry, mem: Memory, place: Places, root: nat, u: nat, t: nat, i: nat, leaf: Entry)
    requires Tree(g, mem, place, root) && u in place && t in place && i < g.entries && mem[u][i] == Table(t)
    requires leaf.Leaf? && Uniform(mem[t], leaf.pa, leaf.prot, g.Size(place[t].level))
    ensures SameMap(g, mem, Put(mem, u, i, leaf), root)
    ensures t !in Drop(g, place, place[u], i)
  {
    OwnEntry(g, place[u], i);
    var mem' := Put(mem, u, i, leaf);
    var l := place[u].level;
    hide Geometry.Size, Geometry.Span, Geometry.Index, GoodPlace, InEntry, EntryBase, HasParent, Tables, Drop;
    forall v: nat | v < g.Span(0) ensures Lookup(g, mem', root, v) == Lookup(g, mem, root, v) {
      PutTranslates(g, mem, place, root, u, i, leaf, v);
      if InEntry(g, place[u], i, v) {
        MergedEntry(g, mem, place, root, u, t, i, leaf, v);
      }
    }
  }

  lemma MergedEntry(g: Geometry, mem: Memory, place: Places, root: nat, u: nat, t: nat, i: nat, leaf: Entry, v: nat)
    requires Tree(g, mem, place, root) && u in place && t in place && i < g.entries && mem[u][i] == Table(t)
    requires leaf.Leaf? && Uniform(mem[t], leaf.pa, leaf.prot, g.Size(place[t].level))
    requires InEntry(g, place[u], i, v)
    ensures Lookup(g, mem, root, v) == EntryTarget(g, leaf, place[u].level, v)
  {
    hide Geometry.Size, Geometry.Span, Geometry.Index, GoodPlace, InTable, InEntry, EntryBase, HasParent, Lookup,
         Translate, EntryTarget;
    PlaceLevel(g, place[t]);
    ChildFits(g, place[u], i);
    LookupThrough(g, mem, place, root, t, v);
    OneStep(g, mem, t, place[t].level, v);
    LeafOrTable(g, place[u], i, mem[t], leaf.pa, leaf.prot, v);
  }

  lemma PutKeepsNoneEmpty(g: Geometry, mem: Memory, place: Places, root: nat, t: nat, i: nat, e: Entry, except: nat)
    requires Tables(g, mem, place) && t in place && i < g.entries
    requires NoneEmpty(mem, place, root, except) || NoneEmpty(mem, place, root, t)
    ensures e != Invalid && NoneEmpty(mem, place, root, except) ==>
              NoneEmpty(Put(mem, t, i, e), Drop(g, place, place[t], i), root, except)
    ensures e != Invalid && NoneEmpty(mem, place, root, t) ==>
              NoneEmpty(Put(mem, t, i, e), Drop(g, place, place[t], i), root, root)
    ensures NoneEmpty(mem, place, root, root) ==> NoneEmpty(Put(mem, t, i, e), Drop(g, place, place[t], i), root, t)
  {
    hide Geometry.Size, Geometry.Span, Geometry.Index, GoodPlace, InEntry, EntryBase;
    var mem' := Put(mem, t, i, e);
    assert mem'[t][i] == e;
  }

  /** Cutting a path above the table whose entry was overwritten. */
  lemma PathCut(g: Geometry, mem: Memory, place: Places, root: nat, path: seq<nat>, va: nat, l: nat, e: Entry)
    requires Tree(g, mem, place, root) && OnPath(g, mem, place, root, path, va) && 0 < l <= |path| && !e.Table?
    requires Tables(g, Put(mem, path[l - 1], g.Index(l - 1, va), e),
             Drop(g, place, place[path[l - 1]], g.Index(l - 1, va)))
    ensures OnPath(g, Put(mem, path[l - 1], g.Index(l - 1, va), e),
            Drop(g, place, place[path[l - 1]], g.Index(l - 1, va)), root, path[..l], va)
  {
    hide Geometry.Size, Geometry.Span, Geometry.Index, GoodPlace, InEntry, EntryBase, HasParent, InTable;
  }

  lemma FreedKeepsNoneEmpty(mem: Memory, place: Places, root: nat, t: nat)
    requires NoneEmpty(mem, place, root, root)
    ensures NoneEmpty(mem - {t}, place, root, root)
  {
  }

  lemma FreedKeepsPath(g: Geometry, mem: Memory, place: Places, root: nat, path: seq<nat>, va: nat, t: nat)
    requires Tree(g, mem, place, root) && OnPath(g, mem, place, root, path, va) && t !in place
    ensures Tables(g, mem - {t}, place) && OnPath(g, mem - {t}, place, root, path, va)
  {
    FreeKeepsTree(g, mem, place, root, t);
    hide Geometry.Size, Geometry.Span, Geometry.Index, GoodPlace, InEntry, EntryBase, HasParent, InTable;
  }

  lemma StartPath(g: Geometry, mem: Memory, place: Places, root: nat, va: nat)
    requires Tree(g, mem, place, root) && va < g.Span(0)
    ensures OnPath(g, mem, place, root, [root], va)
  {
  }

  lemma PathStart(g: Geometry, mem: Memory, place: Places, root: nat, path: seq<nat>, va: nat)
    requires Tables(g, mem, place) && OnPath(g, mem, place, root, path, va)
    ensures path[0] == root
  {
  }

  lemma ExtendPath(g: Geometry, mem: Memory, place: Places, root: nat, path: seq<nat>, va: nat)
    requires Tables(g, mem, place) && OnPath(g, mem, place, root, path, va) && |path| > 0
    requires
      var t := path[|path| - 1];
      t in mem && g.Index(|path| - 1, va) < |mem[t]| && mem[t][g.Index(|path| - 1, va)].Table?
    ensures OnPath(g, mem, place, root, path + [mem[path[|path| - 1]][g.Index(|path| - 1, va)].id], va)
  {
    StepDown(g, mem, place, path[|path| - 1], va);
    hide Geometry.Size, Geometry.Span, Geometry.Index, GoodPlace, InEntry, EntryBase, InTable;
  }

  lemma GrowPath(g: Geometry, mem: Memory, place: Places, root: nat, path: seq<nat>, va: nat, c: nat,
                 content: seq<Entry>)
    requires Tables(g, mem, place) && OnPath(g, mem, place, root, path, va) && |path| > 0
    requires CanGrow(g, mem, place, root, path[|path| - 1], g.Index(|path| - 1, va), c, content)
    ensures var t, i := path[|path| - 1], g.Index(|path| - 1, va);
            && Tables(g, Grow(mem, t, i, c, content), place[c := ChildPlace(g, place[t], i)])
            && OnPath(g, Grow(mem, t, i, c, content), place[c := ChildPlace(g, place[t], i)], root, path + [c], va)
  {
    var t, i := path[|path| - 1], g.Index(|path| - 1, va);
    GrowTables(g, mem, place, root, t, i, c, content);
    IndexSelects(g, place[t], va);
    ChildFits(g, place[t], i);
    ChildLevel(g, place[t], i);
    hide Geometry.Size, Geometry.Span, Geometry.Index, GoodPlace, InEntry, EntryBase, InTable, HasParent, ChildPlace;
    var mem', path' := Grow(mem, t, i, c, content), path + [c];
    forall k | 0 <= k < |path'| - 1 ensures mem'[path'[k]][g.Index(k, va)] == Table(path'[k + 1]) {
      if k < |path| - 1 {
        assert path[k] != t && path[k] != c;
      }
    }
  }

  lemma GrowKeys(g: Geometry, mem: Memory, t: nat, i: nat, c: nat, content: seq<Entry>)
    requires t in mem && i < |mem[t]| && c !in mem
    ensures Grow(mem, t, i, c, content).Keys == mem.Keys + {c} && Grow(mem, t, i, c, content)[c] == content
  {
  }

  lemma GrowNoneEmpty(g: Geometry, mem: Memory, place: Places, root: nat, t: nat, i: nat, c: nat, content: seq<Entry>,
                      except: nat)
    requires CanGrow(g, mem, place, root, t, i, c, content)
    requires NoneEmpty(mem, place, root, except) && except in {t, root}
    ensures NoneEmpty(Grow(mem, t, i, c, content), place[c := ChildPlace(g, place[t], i)], root, c)
    ensures !IsEmpty(content) ==>
              NoneEmpty(Grow(mem, t, i, c, content), place[c := ChildPlace(g, place[t], i)], root, root)
  {
    hide Geometry.Size, Geometry.Span, Geometry.Index, GoodPlace, InEntry, EntryBase, HasParent, ChildPlace;
    var mem' := Grow(mem, t, i, c, content);
    assert mem'[t][i] == Table(c);
  }

  lemma GrowEmptySame(g: Geometry, mem: Memory, place: Places, root: nat, t: nat, i: nat, c: nat, content: seq<Entry>)
    requires CanGrow(g, mem, place, root, t, i, c, content) && mem[t][i] == Invalid && IsEmpty(content)
    ensures SameMap(g, mem, Grow(mem, t, i, c, content), root)
  {
    hide Geometry.Size, Geometry.Span, Geometry.Index, GoodPlace, InTable, InEntry, EntryBase, HasParent, Tables;
    TablesFacts(g, mem, place, t);
    var mem' := Grow(mem, t, i, c, content);
    forall v: nat | v < g.Span(0) ensures Lookup(g, mem', root, v) == Lookup(g, mem, root, v) {
      GrowTranslates(g, mem, place, root, t, i, c, content, v);
      if InEntry(g, place[t], i, v) {
        EntryLookup(g, mem, place, root, t, i, v);
      }
    }
  }

  lemma OnlyLastEmpty(g: Geometry, mem: Memory, place: Places, root: nat, t: nat, c: nat, i: nat)
    requires NoneEmpty(mem, place, root, t) && t in mem && i < |mem[t]| && mem[t][i] == Table(c)
    ensures NoneEmpty(mem, place, root, c) && !IsEmpty(mem[t])
  {
  }

  lemma EmptyNotCovered(g: Geometry, mem: Memory, t: nat, l: nat, target: nat, va: nat)
    requires g.Ok() && t in mem && IsEmpty(mem[t])
    ensures !CoveredAbove(g, mem, t, l, target, va)
  {
  }

  lemma MappedAfterSame(g: Geometry, a: Memory, b: Memory, c: Memory, root: nat, va: nat, size: nat, pa: nat, prot: nat)
    requires g.Ok() && SameMap(g, a, b, root) && Mapped(g, b, c, root, va, size, pa, prot)
    ensures Mapped(g, a, c, root, va, size, pa, prot)
  {
    hide Geometry.Span, Lookup;
  }

  lemma MappedThenSame(g: Geometry, a: Memory, b: Memory, c: Memory, root: nat, va: nat, size: nat, pa: nat, prot: nat)
    requires g.Ok() && Mapped(g, a, b, root, va, size, pa, prot) && SameMap(g, b, c, root)
    ensures Mapped(g, a, c, root, va, size, pa, prot)
  {
    hide Geometry.Span, Lookup;
  }

  lemma UnmappedBetween(g: Geometry, a: Memory, b: Memory, c: Memory, d: Memory, root: nat, va: nat, size: nat)
    requires g.Ok() && SameMap(g, a, b, root) && Unmapped(g, b, c, root, va, size) && SameMap(g, c, d, root)
    ensures Unmapped(g, a, d, root, va, size)
  {
    hide Geometry.Span, Lookup;
  }

  lemma LeafMapped(g: Geometry, mem: Memory, mem': Memory, root: nat, p: Place, va: nat, pa: nat, prot: nat)
    requires g.Ok() && GoodPlace(g, p) && InTable(g, p, va)
    requires EntrySet(g, mem, mem', root, p, g.Index(p.level, va), Leaf(pa, prot))
    ensures Mapped(g, mem, mem', root, AlignDown(va, g.Size(p.level)), g.Size(p.level), pa, prot)
  {
    hide Geometry.Size, Geometry.Span, Geometry.Index, GoodPlace, InTable, InEntry, Lookup, AlignDown;
    forall v: nat | v < g.Span(0)
      ensures Lookup(g, mem', root, v) ==
              if AlignDown(va, g.Size(p.level)) <= v < AlignDown(va, g.Size(p.level)) + g.Size(p.level)
              then Some(Target(pa + (v - AlignDown(va, g.Size(p.level))), prot)) else Lookup(g, mem, root, v)
    {
      EntryRange(g, p, va, v);
    }
  }

  lemma EntryUnmapped(g: Geometry, mem: Memory, mem': Memory, root: nat, p: Place, va: nat)
    requires g.Ok() && GoodPlace(g, p) && InTable(g, p, va)
    requires EntrySet(g, mem, mem', root, p, g.Index(p.level, va), Invalid)
    ensures Unmapped(g, mem, mem', root, AlignDown(va, g.Size(p.level)), g.Size(p.level))
  {
    hide Geometry.Size, Geometry.Span, Geometry.Index, GoodPlace, InTable, InEntry, Lookup, AlignDown;
    forall v: nat | v < g.Span(0)
      ensures Lookup(g, mem', root, v) ==
              if AlignDown(va, g.Size(p.level)) <= v < AlignDown(va, g.Size(p.level)) + g.Size(p.level)
              then None else Lookup(g, mem, root, v)
    {
      EntryRange(g, p, va, v);
    }
  }

  /** The target-level block of an address lies in its entry at every level above. */
  lemma BlockInEntry(g: Geometry, p: Place, target: nat, va: nat, v: nat)
    requires g.Ok() && GoodPlace(g, p) && InTable(g, p, va) && p.level <= target < g.levels
    requires AlignDown(va, g.Size(target)) <= v < AlignDown(va, g.Size(target)) + g.Size(target)
    ensures InEntry(g, p, g.Index(p.level, va), v)
  {
    var big, small := g.Size(p.level), g.Size(target);
    EntryRange(g, p, va, v);
    AlignFacts(va, big);
    AlignFacts(va, small);
    g.SizeDivides(p.level, target);
    var lo, x := AlignDown(va, big), AlignDown(va, small);
    ModTransitive(lo, big, small);
    ModAdd(lo, big, small);
    if x < lo {
      MultiplesApart(x, lo, small);
      assert false;
    }
    MultiplesApart(x, lo + big, small);
  }

  lemma NothingToUnmap(g: Geometry, mem0: Memory, mem: Memory, place: Places, root: nat, t: nat, va: nat, target: nat)
    requires Tree(g, mem, place, root) && t in place && InTable(g, place[t], va) && place[t].level <= target < g.levels
    requires mem[t][g.Index(place[t].level, va)] == Invalid && SameMap(g, mem0, mem, root)
    ensures Unmapped(g, mem0, mem, root, AlignDown(va, g.Size(target)), g.Size(target))
  {
    TablesFacts(g, mem, place, t);
    hide Geometry.Size, Geometry.Span, Geometry.Index, GoodPlace, InTable, InEntry, Lookup, AlignDown, HasParent,
         Tables;
    forall v: nat | v < g.Span(0)
      ensures Lookup(g, mem, root, v) ==
              if AlignDown(va, g.Size(target)) <= v < AlignDown(va, g.Size(target)) + g.Size(target)
              then None else Lookup(g, mem0, root, v)
    {
      if AlignDown(va, g.Size(target)) <= v < AlignDown(va, g.Size(target)) + g.Size(target) {
        BlockInEntry(g, place[t], target, va, v);
        EntryLookup(g, mem, place, root, t, g.Index(place[t].level, va), v);
      }
    }
  }

  lemma SameAt(g: Geometry, mem: Memory, mem': Memory, root: nat, va: nat)
    requires g.Ok() && SameMap(g, mem, mem', root) && va < g.Span(0)
    ensures Lookup(g, mem', root, va) == Lookup(g, mem, root, va)
  {
  }

  lemma MappedNotInvalid(g: Geometry, mem: Memory, place: Places, root: nat, t: nat, va: nat)
    requires Tree(g, mem, place, root) && t in place && InTable(g, place[t], va) && Lookup(g, mem, root, va).Some?
    ensures mem[t][g.Index(place[t].level, va)] != Invalid
  {
    LookupThrough(g, mem, place, root, t, va);
  }

  lemma NoneEmptyWeaken(mem: Memory, place: Places, root: nat, t: nat)
    requires NoneEmpty(mem, place, root, root)
    ensures NoneEmpty(mem, place, root, t)
  {
  }

  lemma NoneEmptyAll(mem: Memory, place: Places, root: nat, t: nat)
    requires NoneEmpty(mem, place, root, t) && t in mem && !IsEmpty(mem[t])
    ensures NoneEmpty(mem, place, root, root)
  {
  }

  /** Clearing the entry of an empty table changes no translation. */
  lemma ClearSame(g: Geometry, mem: Memory, place: Places, root: nat, u: nat, t: nat, i: nat)
    requires Tree(g, mem, place, root) && u in place && t in place && i < g.entries && mem[u][i] == Table(t)
    requires IsEmpty(mem[t])
    ensures SameMap(g, mem, Put(mem, u, i, Invalid), root)
    ensures t !in Drop(g, place, place[u], i)
  {
    OwnEntry(g, place[u], i);
    var mem' := Put(mem, u, i, Invalid);
    hide Geometry.Size, Geometry.Span, Geometry.Index, GoodPlace, InEntry, EntryBase, HasParent, Tables, Drop;
    forall v: nat | v < g.Span(0) ensures Lookup(g, mem', root, v) == Lookup(g, mem, root, v) {
      PutTranslates(g, mem, place, root, u, i, Invalid, v);
      if InEntry(g, place[u], i, v) {
        EmptyLookup(g, mem, place, root, u, t, i, v);
      }
    }
  }

  lemma EmptyLookup(g: Geometry, mem: Memory, place: Places, root: nat, u: nat, t: nat, i: nat, v: nat)
    requires Tree(g, mem, place, root) && u in place && t in place && i < g.entries && mem[u][i] == Table(t)
    requires IsEmpty(mem[t]) && InEntry(g, place[u], i, v)
    ensures Lookup(g, mem, root, v) == None
  {
    ChildFits(g, place[u], i);
    LookupThrough(g, mem, place, root, t, v);
    OneStep(g, mem, t, place[t].level, v);
  }

  lemma ClearNoneEmpty(g: Geometry, mem: Memory, place: Places, root: nat, u: nat, t: nat, i: nat)
    requires Tree(g, mem, place, root) && u in place && t in place && i < g.entries && mem[u][i] == Table(t)
    requires NoneEmpty(mem, place, root, t)
    ensures NoneEmpty(Put(mem, u, i, Invalid), Drop(g, place, place[u], i), root, u)
  {
    OwnEntry(g, place[u], i);
    hide Geometry.Size, Geometry.Span, Geometry.Index, GoodPlace, EntryBase, HasParent;
  }

  /** An entry that is no leaf keeps its table from merging. */
  lemma NotAllLeaves(g: Geometry, table: seq<Entry>, i: nat, l: nat)
    requires g.Ok() && i < |table| && !table[i].Leaf?
    ensures !CanMerge(g, table, l)
  {
    hide Geometry.Size;
  }

  lemma NoneUniformWeaken(g: Geometry, mem: Memory, place: Places, root: nat, t: nat)
    requires g.Ok() && NoneUniform(g, mem, place, root, root)
    ensures NoneUniform(g, mem, place, root, t)
  {
    hide CanMerge;
  }

  lemma NoneUniformAll(g: Geometry, mem: Memory, place: Places, root: nat, t: nat)
    requires g.Ok() && NoneUniform(g, mem, place, root, t) && t in mem && t in place && mem[t] != []
    requires !CanMerge(g, mem[t], place[t].level)
    ensures NoneUniform(g, mem, place, root, root)
  {
    hide CanMerge;
  }

  /** Writing an entry touches one table and cuts off those below it. */
  lemma PutNoneUniform(g: Geometry, mem: Memory, place: Places, root: nat, t: nat, i: nat, e: Entry, except: nat)
    requires Tables(g, mem, place) && t in place && i < g.entries && NoneUniform(g, mem, place, root, except)
    requires except == t || except == root || except !in Drop(g, place, place[t], i)
    ensures NoneUniform(g, Put(mem, t, i, e), Drop(g, place, place[t], i), root, t)
    ensures !e.Leaf? ==> NoneUniform(g, Put(mem, t, i, e), Drop(g, place, place[t], i), root, root)
  {
    hide Geometry.Size, Geometry.Span, GoodPlace, InEntry, EntryBase, ChildPlace, CanMerge;
    TablesFacts(g, mem, place, t);
    var mem' := Put(mem, t, i, e);
    if !e.Leaf? {
      NotAllLeaves(g, mem'[t], i, place[t].level);
    }
  }

  lemma GrowNoneUniform(g: Geometry, mem: Memory, place: Places, root: nat, t: nat, i: nat, c: nat, content: seq<Entry>,
                        except: nat)
    requires CanGrow(g, mem, place, root, t, i, c, content)
    requires NoneUniform(g, mem, place, root, except) && except in {t, root}
    ensures NoneUniform(g, Grow(mem, t, i, c, content), place[c := ChildPlace(g, place[t], i)], root, c)
    ensures IsEmpty(content) ==>
      NoneUniform(g, Grow(mem, t, i, c, content), place[c := ChildPlace(g, place[t], i)], root, root)
  {
    hide Geometry.Size, Geometry.Span, GoodPlace, InEntry, EntryBase, ChildPlace, HasParent, CanMerge;
    TablesFacts(g, mem, place, t);
    var mem' := Grow(mem, t, i, c, content);
    NotAllLeaves(g, mem'[t], i, place[t].level);
    if IsEmpty(content) {
      NotAllLeaves(g, content, 0, ChildPlace(g, place[t], i).level);
    }
  }

  lemma FreedNoneUniform(g: Geometry, mem: Memory, place: Places, root: nat, t: nat, except: nat)
    requires g.Ok() && NoneUniform(g, mem, place, root, except)
    ensures NoneUniform(g, mem - {t}, place, root, except)
  {
    hide CanMerge;
  }

  lemma FreedNoneEmpty(mem: Memory, place: Places, root: nat, t: nat, u: nat)
    requires NoneEmpty(mem, place, root, u)
    ensures NoneEmpty(mem - {t}, place, root, u)
  {
  }

  // ---------------------------------------------------------------- ranges

  predicate Fits(g: Geometry, l: nat, va: nat, pa: nat, size: nat)
    requires g.Ok()
  {
    va % g.Size(l) == 0 && pa % g.Size(l) == 0 && size >= g.Size(l)
  }

  /** The first level, from l on, whose pages fit; the last one in any case. */
  function FirstFit(g: Geometry, l: nat, va: nat, pa: nat, size: nat): (level: nat)
    requires g.Ok() && l < g.levels
    ensures l <= level < g.levels
    ensures forall i :: l <= i < level ==> !Fits(g, i, va, pa, size)
    ensures level < g.levels - 1 ==> Fits(g, level, va, pa, size)
    decreases g.levels - l
  {
    if l == g.levels - 1 || Fits(g, l, va, pa, size) then l else FirstFit(g, l + 1, va, pa, size)
  }

  function LevelFor(g: Geometry, huge: bool, va: nat, pa: nat, size: nat): (level: nat)
    requires g.Ok()
    ensures level < g.levels && (level < g.levels - 1 ==> Fits(g, level, va, pa, size))
  {
    if huge then FirstFit(g, 0, va, pa, size) else g.levels - 1
  }

  lemma LevelForIs(g: Geometry, huge: bool, va: nat, pa: nat, size: nat)
    requires g.Ok()
    ensures
      var level := LevelFor(g, huge, va, pa, size);
      && (!huge ==> level == g.levels - 1)
      && (huge && level < g.levels - 1 ==>
          va % g.Size(level) == 0 && pa % g.Size(level) == 0 && g.Size(level) <= size)
      && (huge ==> forall i :: 0 <= i < level ==>
          !(va % g.Size(i) == 0 && pa % g.Size(i) == 0 && g.Size(i) <= size))
  {
    hide Geometry.Size;
    var level := LevelFor(g, huge, va, pa, size);
    forall i | huge && 0 <= i < level ensures !(va % g.Size(i) == 0 && pa % g.Size(i) == 0 && g.Size(i) <= size) {
      assert !Fits(g, i, va, pa, size);
    }
  }

  /** What v translates to once `done` bytes at va are mapped to pa. */
  ghost function Over(g: Geometry, mem: Memory, root: nat, va: nat, done: nat, pa: nat, prot: nat, v: nat)
    : Option<Target>
    requires g.Ok()
  {
    if va <= v < va + done then Some(Target(pa + (v - va), prot)) else Lookup(g, mem, root, v)
  }

  /** Then the block of level l around va + done could be one leaf. */
  ghost predicate OneLeafOver(g: Geometry, mem: Memory, root: nat, va: nat, done: nat, pa: nat, prot: nat, l: nat)
    requires g.Ok()
  {
    var lo: nat := AlignDown(va + done, g.Size(l));
    && Over(g, mem, root, va, done, pa, prot, lo).Some?
    && var first := Over(g, mem, root, va, done, pa, prot, lo).value;
       forall v: nat :: lo <= v < lo + g.Size(l) ==>
         Over(g, mem, root, va, done, pa, prot, v) == Some(Target(first.pa + (v - lo), first.prot))
  }

  ghost predicate Blocked(g: Geometry, mem: Memory, root: nat, va: nat, done: nat, pa: nat, prot: nat, target: nat)
    requires g.Ok()
  {
    exists l :: 0 <= l < target && OneLeafOver(g, mem, root, va, done, pa, prot, l)
  }

  /**
   How far a map of the range gets from `done` on: to its end, or to the first page that meets a larger block, mapped
   before or by the pages before it.
   */
  ghost function Reach(g: Geometry, mem: Memory, root: nat, va: nat, pa: nat, size: nat, prot: nat, huge: bool,
                       done: nat): nat
    requires g.Ok()
    decreases size - done
  {
    if done >= size then size
    else
      var l := LevelFor(g, huge, va + done, pa + done, size - done);
      if Blocked(g, mem, root, va, done, pa, prot, l) then done
      else Reach(g, mem, root, va, pa, size, prot, huge, done + g.Size(l))
  }

  lemma ReachStep(g: Geometry, mem: Memory, root: nat, va: nat, pa: nat, size: nat, prot: nat, huge: bool, done: nat)
    requires g.Ok() && done < size
    ensures
      var l := LevelFor(g, huge, va + done, pa + done, size - done);
      Reach(g, mem, root, va, pa, size, prot, huge, done) ==
      if Blocked(g, mem, root, va, done, pa, prot, l) then done
      else Reach(g, mem, root, va, pa, size, prot, huge, done + g.Size(l))
  {
    hide Blocked, Geometry.Size;
  }

  lemma ReachEnd(g: Geometry, mem: Memory, root: nat, va: nat, pa: nat, size: nat, prot: nat, huge: bool)
    requires g.Ok()
    ensures Reach(g, mem, root, va, pa, size, prot, huge, size) == size
  {
  }

  /** What blocks the next page is read off the table as it was. */
  lemma BlockedMeans(g: Geometry, a: Memory, b: Memory, root: nat, va: nat, done: nat, pa: nat, prot: nat, target: nat)
    requires g.Ok() && Mapped(g, a, b, root, va, done, pa, prot) && va + done < g.Span(0) && target < g.levels
    ensures Blocked(g, a, root, va, done, pa, prot, target) <==> InLeafAbove(g, b, root, target, va + done)
  {
    hide Geometry.Size, Geometry.Span, OneLeafOver, OneLeaf, Mapped;
    if Blocked(g, a, root, va, done, pa, prot, target) {
      var l :| 0 <= l < target && OneLeafOver(g, a, root, va, done, pa, prot, l);
      SameBlock(g, a, b, root, va, done, pa, prot, l);
    }
    if InLeafAbove(g, b, root, target, va + done) {
      var l :| 0 <= l < target && OneLeaf(g, b, root, l, va + done);
      SameBlock(g, a, b, root, va, done, pa, prot, l);
    }
  }

  lemma SameBlock(g: Geometry, a: Memory, b: Memory, root: nat, va: nat, done: nat, pa: nat, prot: nat, l: nat)
    requires g.Ok() && Mapped(g, a, b, root, va, done, pa, prot) && va + done < g.Span(0) && l < g.levels
    ensures OneLeafOver(g, a, root, va, done, pa, prot, l) <==> OneLeaf(g, b, root, l, va + done)
  {
    hide Geometry.Size, Geometry.Span, Lookup, AlignDown;
    BlockInside(g, l, va + done);
    var lo: nat := AlignDown(va + done, g.Size(l));
    assert forall v: nat :: lo <= v < lo + g.Size(l) ==>
      Over(g, a, root, va, done, pa, prot, v) == Lookup(g, b, root, v);
    if OneLeafOver(g, a, root, va, done, pa, prot, l) {
      assert OneLeaf(g, b, root, l, va + done);
    }
  }

  lemma BlockInside(g: Geometry, l: nat, va: nat)
    requires g.Ok() && l < g.levels && va < g.Span(0)
    ensures 0 <= AlignDown(va, g.Size(l)) && AlignDown(va, g.Size(l)) + g.Size(l) <= g.Span(0)
  {
    var s, lo := g.Size(l), AlignDown(va, g.Size(l));
    AlignFacts(va, s);
    g.SizeDivides(0, l);
    g.SpanMultiple(0);
    ModTransitive(g.Span(0), g.Size(0), s);
    MultiplesApart(lo, g.Span(0), s);
  }

  lemma InLeafLower(g: Geometry, mem: Memory, root: nat, target: nat, lower: nat, va: nat)
    requires g.Ok() && InLeafAbove(g, mem, root, target, va) && target <= lower
    ensures InLeafAbove(g, mem, root, lower, va)
  {
    hide OneLeaf;
  }

  /** Where nothing is mapped, nothing is in the way. */
  lemma {:induction false} FreeRangeReached(g: Geometry, mem: Memory, root: nat, va: nat, pa: nat, size: nat, prot: nat,
                                            huge: bool, done: nat)
    requires g.Ok() && NoneMapped(g, mem, root, va, size)
    ensures Reach(g, mem, root, va, pa, size, prot, huge, done) == size
    decreases size - done
  {
    hide Geometry.Size, Lookup, AlignDown;
    if done < size {
      var l := LevelFor(g, huge, va + done, pa + done, size - done);
      assert Over(g, mem, root, va, done, pa, prot, va + done).None?;
      FreeRangeReached(g, mem, root, va, pa, size, prot, huge, done + g.Size(l));
    }
  }

  ghost predicate NoneMapped(g: Geometry, mem: Memory, root: nat, va: nat, n: nat)
    requires g.Ok()
  {
    forall v: nat :: va <= v < va + n ==> Lookup(g, mem, root, v).None?
  }

  /** Physical and virtual addresses agree within the page. */
  ghost predicate PageAligned(g: Geometry, mem: Memory, root: nat)
    requires g.Ok()
  {
    forall v: nat :: v < g.Span(0) && Lookup(g, mem, root, v).Some? ==>
      Lookup(g, mem, root, v).value.pa % g.page == v % g.page
  }

  /** Mapped addresses of the range keep their physical address and get `prot`; nothing else changed. */
  ghost predicate Reprotected(g: Geometry, mem: Memory, mem': Memory, root: nat, va: nat, size: nat, prot: nat)
    requires g.Ok()
  {
    forall v: nat :: v < g.Span(0) ==>
      Lookup(g, mem', root, v) ==
      if va <= v < va + size && Lookup(g, mem, root, v).Some?
      then Some(Lookup(g, mem, root, v).value.(prot := prot)) else Lookup(g, mem, root, v)
  }

  ghost predicate AllMapped(g: Geometry, mem: Memory, root: nat, va: nat, n: nat)
    requires g.Ok()
  {
    forall v: nat :: va <= v < va + n ==> Lookup(g, mem, root, v).Some?
  }

  /** The range translates to consecutive addresses from pa on. */
  ghost predicate Consecutive(g: Geometry, mem: Memory, root: nat, va: nat, n: nat, pa: nat)
    requires g.Ok()
  {
    forall v: nat :: va <= v < va + n ==>
      Lookup(g, mem, root, v).Some? && Lookup(g, mem, root, v).value.pa == pa + (v - va)
  }

  /** Whatever level is chosen, its page is aligned and inside the page-aligned rest of the range. */
  lemma LevelFits(g: Geometry, level: nat, va: nat, pa: nat, size: nat)
    requires g.Ok() && level < g.levels && (level < g.levels - 1 ==> Fits(g, level, va, pa, size))
    requires va % g.page == 0 && pa % g.page == 0 && (va + size) % g.page == 0 && size > 0
    ensures Fits(g, level, va, pa, size)
    ensures g.Size(level) % g.page == 0
    ensures (va + g.Size(level)) % g.page == 0 && (pa + g.Size(level)) % g.page == 0
  {
    ModAdd(va + size, va, g.page);
    MultipleMod(0, g.page);
    MultiplesApart(0, size, g.page);
    g.SizeDivides(level, g.levels - 1);
    ModAdd(va, g.Size(level), g.page);
    ModAdd(pa, g.Size(level), g.page);
  }

  lemma AlignedAlready(va: nat, s: nat)
    requires s > 0 && va % s == 0
    ensures AlignDown(va, s) == va
  {
  }

  lemma MappedNothing(g: Geometry, mem: Memory, root: nat, va: nat, pa: nat, prot: nat)
    requires g.Ok()
    ensures Mapped(g, mem, mem, root, va, 0, pa, prot)
  {
  }

  lemma MappedMore(g: Geometry, a: Memory, b: Memory, c: Memory, root: nat, va: nat, n: nat, m: nat, pa: nat, prot: nat)
    requires g.Ok() && Mapped(g, a, b, root, va, n, pa, prot) && Mapped(g, b, c, root, va + n, m, pa + n, prot)
    ensures Mapped(g, a, c, root, va, n + m, pa, prot)
  {
    hide Geometry.Span, Lookup;
  }

  lemma UnmappedNothing(g: Geometry, mem: Memory, root: nat, va: nat)
    requires g.Ok()
    ensures Unmapped(g, mem, mem, root, va, 0)
  {
  }

  lemma UnmappedMore(g: Geometry, a: Memory, b: Memory, c: Memory, root: nat, va: nat, n: nat, m: nat)
    requires g.Ok() && Unmapped(g, a, b, root, va, n) && Unmapped(g, b, c, root, va + n, m)
    ensures Unmapped(g, a, c, root, va, n + m)
  {
    hide Geometry.Span, Lookup;
  }

  lemma MappedAligned(g: Geometry, a: Memory, b: Memory, root: nat, va: nat, n: nat, pa: nat, prot: nat)
    requires g.Ok() && Mapped(g, a, b, root, va, n, pa, prot) && va % g.page == 0 && pa % g.page == 0
    ensures PageAligned(g, a, root) ==> PageAligned(g, b, root)
  {
    hide Geometry.Span, Lookup;
    forall v: nat | v < g.Span(0) && Lookup(g, b, root, v).Some? && PageAligned(g, a, root)
      ensures Lookup(g, b, root, v).value.pa % g.page == v % g.page
    {
      if va <= v < va + n {
        ModAdd(pa, va, g.page);
        ModShift(v, pa - va, g.page);
      }
    }
  }

  lemma UnmappedAligned(g: Geometry, a: Memory, b: Memory, root: nat, va: nat, n: nat)
    requires g.Ok() && Unmapped(g, a, b, root, va, n)
    ensures PageAligned(g, a, root) ==> PageAligned(g, b, root)
  {
    hide Geometry.Span, Lookup;
  }

  /** Addresses of one page translate alike. */
  lemma {:induction false} SamePage(g: Geometry, mem: Memory, t: nat, l: nat, v: nat, w: nat)
    requires g.Ok() && AlignDown(v, g.page) == AlignDown(w, g.page)
    ensures match Translate(g, mem, t, l, v)
            case None => Translate(g, mem, t, l, w) == None
            case Some(r) => r.pa + w >= v && Translate(g, mem, t, l, w) == Some(Target(r.pa + w - v, r.prot))
    decreases g.levels - l
  {
    if l < g.levels && t in mem && |mem[t]| == g.entries {
      SameQuotient(g, l, v, w);
      match mem[t][g.Index(l, v)]
      case Invalid =>
      case Leaf(_, _) =>
      case Table(c) => SamePage(g, mem, c, l + 1, v, w);
    }
  }

  lemma SameQuotient(g: Geometry, l: nat, v: nat, w: nat)
    requires g.Ok() && l < g.levels && AlignDown(v, g.page) == AlignDown(w, g.page)
    ensures g.Index(l, v) == g.Index(l, w)
    ensures v % g.Size(l) - w % g.Size(l) == v - w
  {
    var s, x := g.Size(l), AlignDown(v, g.page);
    g.SizeDivides(l, g.levels - 1);
    AlignFacts(v, g.page);
    AlignFacts(w, g.page);
    SameBigPage(x, v, g.page, s);
    SameBigPage(x, w, g.page, s);
  }

  lemma SameBigPage(x: int, v: int, small: int, big: int)
    requires small > 0 && big > 0 && big % small == 0 && x % small == 0 && x <= v < x + small
    ensures v / big == x / big && v % big == x % big + (v - x)
  {
    var lo := AlignDown(x, big);
    AlignFacts(x, big);
    ModTransitive(lo, big, small);
    ModAdd(lo, big, small);
    MultiplesApart(x, lo + big, small);
    assert x == (x / big) * big + x % big;
    DivModUnique(v, big, x / big, x % big + (v - x));
  }

  lemma StillMapped(g: Geometry, a: Memory, b: Memory, root: nat, va: nat, done: nat, n: nat, pa: nat, prot: nat)
    requires g.Ok() && Mapped(g, a, b, root, va, done, pa, prot) && AllMapped(g, a, root, va, n)
    requires done < n && va + n <= g.Span(0)
    ensures Lookup(g, b, root, va + done).Some?
  {
    hide Geometry.Span, Lookup;
  }

  lemma ReprotectedMeans(g: Geometry, a: Memory, b: Memory, root: nat, va: nat, n: nat, pa: nat, prot: nat)
    requires g.Ok() && Mapped(g, a, b, root, va, n, pa, prot) && AllMapped(g, a, root, va, n) && va + n <= g.Span(0)
    ensures Reprotected(g, a, b, root, va, n, prot) <==> Consecutive(g, a, root, va, n, pa)
  {
    hide Geometry.Span, Lookup;
    if Reprotected(g, a, b, root, va, n, prot) {
      forall v: nat | va <= v < va + n
        ensures Lookup(g, a, root, v).Some? && Lookup(g, a, root, v).value.pa == pa + (v - va)
      {
        assert Lookup(g, b, root, v) == Some(Target(pa + (v - va), prot));
      }
    }
  }

  /** Part of one mapped page, which is what mprotect remaps: the page is mapped and consecutive. */
  lemma OnePageConsecutive(g: Geometry, mem: Memory, root: nat, vaddr: nat, size: nat)
    requires g.Ok() && PageAligned(g, mem, root) && vaddr < g.Span(0) && Lookup(g, mem, root, vaddr).Some?
    requires size <= g.page
    ensures var va, n := AlignDown(vaddr, g.page), AlignUp(size, g.page);
            var pa := AlignDown(Lookup(g, mem, root, vaddr).value.pa, g.page);
            n <= g.page && AllMapped(g, mem, root, va, n) && Consecutive(g, mem, root, va, n, pa)
  {
    var va, n, paddr := AlignDown(vaddr, g.page), AlignUp(size, g.page), Lookup(g, mem, root, vaddr).value.pa;
    AlignFacts(vaddr, g.page);
    AlignFacts(size, g.page);
    AlignFacts(paddr, g.page);
    MultipleMod(1, g.page);
    if n > g.page {
      MultiplesApart(g.page, n, g.page);
      assert false;
    }
    assert AlignDown(paddr, g.page) - paddr == va - vaddr;
    hide Geometry.Span, Lookup, PageAligned, AlignDown, AlignUp;
    forall v: nat | va <= v < va + n
      ensures Lookup(g, mem, root, v).Some?
      ensures Lookup(g, mem, root, v).value.pa == AlignDown(paddr, g.page) + (v - va)
    {
      InPage(va, v, g.page);
      LookupSamePage(g, mem, root, vaddr, v);
    }
  }

  lemma LookupSamePage(g: Geometry, mem: Memory, root: nat, v: nat, w: nat)
    requires g.Ok() && AlignDown(v, g.page) == AlignDown(w, g.page) && Lookup(g, mem, root, v).Some?
    ensures var r := Lookup(g, mem, root, v).value;
            r.pa + w >= v && Lookup(g, mem, root, w) == Some(Target(r.pa + w - v, r.prot))
  {
    SamePage(g, mem, root, 0, v, w);
  }

  lemma InPage(va: nat, v: nat, page: nat)
    requires page > 0 && va % page == 0 && va <= v < va + page
    ensures AlignDown(v, page) == va
  {
    ModOffset(va, v - va, page);
  }

  // ---------------------------------------------------------------- alignment of merged leaves

  /**
   A merge does not look at the alignment of the first physical page.  The huge leaf it makes is naturally
   aligned if and only if virtual and physical addresses of the range agree modulo its size.
   */
  lemma MergedLeafAligned(g: Geometry, p: Place, i: nat, table: seq<Entry>, pa: nat, prot: nat, v: nat)
    requires g.Ok() && GoodPlace(g, p) && i < g.entries && p.level + 1 < g.levels && InEntry(g, p, i, v)
    requires |table| == g.entries && Uniform(table, pa, prot, g.Size(p.level + 1))
    ensures var target := EntryTarget(g, table[g.Index(p.level + 1, v)], p.level + 1, v);
            target.Some? && (pa % g.Size(p.level) == 0 <==> (target.value.pa - v) % g.Size(p.level) == 0)
  {
    var s := g.Size(p.level);
    LeafOrTable(g, p, i, table, pa, prot, v);
    AlignFacts(v, s);
    MultipleMod(0, s);
    ModAdd(0, AlignDown(v, s), s);
    ModShift(pa, 0 - AlignDown(v, s), s);
  }
}
