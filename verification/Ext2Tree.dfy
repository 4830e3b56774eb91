/**
 The block trees of all inodes (fs/ext2/ext2_blk.c): 12 direct pointers, then trees of indirect blocks of
 depth 1, 2 and 3.  A block is known by the one place that points at it.
 */
module Ext2Tree {
  import opened Arithmetic
  import opened Options

  const NDIR_BLOCKS: nat := 12
  const N_BLOCKS: nat := 15

  /** Blocks as arrays of 32-bit words. */
  type Disk = map<nat, seq<nat>>

  /** The block pointers i_data of each inode. */
  type Inodes = map<nat, seq<nat>>

  /** A place that holds a block number: a pointer of an inode, or a word of an indirect block. */
  datatype Pos = Root(ino: nat, slot: nat) | Child(parent: nat, index: nat)

  /** What is known of a block in use: level 0 is data. */
  datatype Info = Info(pos: Pos, level: nat, ino: nat)

  type Owners = map<nat, Info>

  function RootLevel(k: nat): nat {
    if k < NDIR_BLOCKS then 0 else k - NDIR_BLOCKS + 1
  }

  function Word(disk: Disk, b: nat, i: nat): nat {
    if b in disk && i < |disk[b]| then disk[b][i] else 0
  }

  function SetWord(data: seq<nat>, i: nat, v: nat): seq<nat>
    requires i < |data|
  {
    data[i := v]
  }

  function Pointer(inodes: Inodes, ino: nat, k: nat): nat {
    if ino in inodes && k < |inodes[ino]| then inodes[ino][k] else 0
  }

  function Ptr(disk: Disk, inodes: Inodes, pos: Pos): nat {
    match pos
    case Root(ino, k) => Pointer(inodes, ino, k)
    case Child(p, i) => Word(disk, p, i)
  }

  ghost predicate PosOk(per: nat, inodes: Inodes, info: Owners, pos: Pos) {
    match pos
    case Root(ino, k) => ino in inodes && k < N_BLOCKS
    case Child(p, i) => p in info && i < per && info[p].level > 0
  }

  ghost function LevelAt(info: Owners, pos: Pos): int {
    match pos
    case Root(ino, k) => RootLevel(k)
    case Child(p, i) => if p in info then info[p].level - 1 else 0
  }

  ghost function InoAt(info: Owners, pos: Pos): nat {
    match pos
    case Root(ino, k) => ino
    case Child(p, i) => if p in info then info[p].ino else 0
  }

  ghost predicate Shape(per: nat, disk: Disk, inodes: Inodes, info: Owners) {
    && (forall b :: b in disk ==> |disk[b]| == per)
    && (forall ino :: ino in inodes ==> |inodes[ino]| == N_BLOCKS)
    && info.Keys <= disk.Keys && 0 !in info
  }

  ghost predicate OwnedAt(per: nat, disk: Disk, inodes: Inodes, info: Owners, b: nat)
    requires b in info
  {
    var pos := info[b].pos;
    && PosOk(per, inodes, info, pos) && Ptr(disk, inodes, pos) == b
    && info[b].level == LevelAt(info, pos) <= 3 && info[b].ino == InoAt(info, pos)
  }

  ghost predicate KnownAt(per: nat, disk: Disk, inodes: Inodes, info: Owners, pos: Pos) {
    PosOk(per, inodes, info, pos) && Ptr(disk, inodes, pos) != 0 ==>
      Ptr(disk, inodes, pos) in info && info[Ptr(disk, inodes, pos)].pos == pos
  }

  /** Every block in use has exactly one place, and every place that is not empty leads to the block it owns. */
  ghost predicate TreeOk(per: nat, disk: Disk, inodes: Inodes, info: Owners) {
    && Shape(per, disk, inodes, info)
    && (forall b :: b in info ==> OwnedAt(per, disk, inodes, info, b))
    && (forall pos :: KnownAt(per, disk, inodes, info, pos))
  }

  // ---------------------------------------------------------------- walking

  /** The block a path of word indices leads to from block v; 0 is a hole. */
  function Walk(disk: Disk, v: nat, path: seq<nat>): nat
    decreases path
  {
    if v == 0 then 0 else if path == [] then v else Walk(disk, Word(disk, v, path[0]), path[1..])
  }

  ghost predicate PathOk(per: nat, path: seq<nat>) {
    forall i :: 0 <= i < |path| ==> path[i] < per
  }

  lemma {:induction false} WalkSnoc(disk: Disk, v: nat, path: seq<nat>, i: nat)
    ensures Walk(disk, v, path + [i]) ==
      if Walk(disk, v, path) == 0 then 0 else Word(disk, Walk(disk, v, path), i)
    decreases path
  {
    if v != 0 && path != [] {
      WalkSnoc(disk, Word(disk, v, path[0]), path[1..], i);
      assert (path + [i])[1..] == path[1..] + [i];
    }
  }

  /** A walk meets blocks of its inode only, one level lower at each step. */
  lemma {:induction false} WalkOwned(per: nat, disk: Disk, inodes: Inodes, info: Owners, v: nat, path: seq<nat>)
    requires TreeOk(per, disk, inodes, info) && v in info && PathOk(per, path) && |path| <= info[v].level
    ensures
      var w := Walk(disk, v, path);
      w == 0 || (w in info && info[w].level == info[v].level - |path| && info[w].ino == info[v].ino)
    decreases path
  {
    if path != [] {
      assert KnownAt(per, disk, inodes, info, Child(v, path[0]));
      var w := Word(disk, v, path[0]);
      if w != 0 {
        assert OwnedAt(per, disk, inodes, info, w);
        WalkOwned(per, disk, inodes, info, w, path[1..]);
      }
    }
  }

  lemma InitLast(path: seq<nat>)
    requires path != []
    ensures path == path[..|path| - 1] + [path[|path| - 1]]
  {
  }

  /** What the last step of a walk says about the block it reaches. */
  lemma LastStep(per: nat, disk: Disk, inodes: Inodes, info: Owners, v: nat, path: seq<nat>)
    requires TreeOk(per, disk, inodes, info) && v in info && PathOk(per, path) && |path| <= info[v].level && path != []
    requires Walk(disk, v, path) != 0
    ensures
      var w, m := Walk(disk, v, path), Walk(disk, v, path[..|path| - 1]);
      m != 0 && m in info && w in info && info[w].pos == Child(m, path[|path| - 1])
  {
    var n := |path| - 1;
    InitLast(path);
    WalkSnoc(disk, v, path[..n], path[n]);
    WalkOwned(per, disk, inodes, info, v, path[..n]);
    var m := Walk(disk, v, path[..n]);
    assert KnownAt(per, disk, inodes, info, Child(m, path[n]));
  }

  /** A block is reached from the inodes in one way only. */
  lemma {:induction false} WalkUnique(per: nat, disk: Disk, inodes: Inodes, info: Owners,
                                      v: nat, path: seq<nat>, v': nat, path': seq<nat>)
    requires TreeOk(per, disk, inodes, info) && v in info && v' in info && PathOk(per, path) && PathOk(per, path')
    requires |path| <= info[v].level && |path'| <= info[v'].level && info[v].pos.Root? && info[v'].pos.Root?
    requires Walk(disk, v, path) != 0 && Walk(disk, v, path) == Walk(disk, v', path')
    ensures v == v' && path == path'
    decreases |path|
  {
    if path == [] || path' == [] {
      if path != [] {
        LastStep(per, disk, inodes, info, v, path);
      }
      if path' != [] {
        LastStep(per, disk, inodes, info, v', path');
      }
    } else {
      LastStep(per, disk, inodes, info, v, path);
      LastStep(per, disk, inodes, info, v', path');
      InitLast(path);
      InitLast(path');
      WalkUnique(per, disk, inodes, info, v, path[..|path| - 1], v', path'[..|path'| - 1]);
    }
  }

  // ---------------------------------------------------------------- attaching a block

  function Zeros(per: nat): seq<nat> {
    seq(per, _ => 0)
  }

  /** The disk with v cleared, and put at pos if that is on the disk. */
  function AttachDisk(per: nat, disk: Disk, pos: Pos, v: nat): Disk {
    var d := disk[v := Zeros(per)];
    match pos
    case Root(ino, k) => d
    case Child(p, i) => if p in d && i < |d[p]| then d[p := SetWord(d[p], i, v)] else d
  }

  function AttachInodes(inodes: Inodes, pos: Pos, v: nat): Inodes {
    match pos
    case Root(ino, k) =>
      if ino in inodes && k < |inodes[ino]| then
        inodes[ino := SetWord(inodes[ino], k, v)]
      else inodes
    case Child(p, i) => inodes
  }

  ghost function AttachInfo(info: Owners, pos: Pos, v: nat): Owners
    requires LevelAt(info, pos) >= 0
  {
    info[v := Info(pos, LevelAt(info, pos), InoAt(info, pos))]
  }

  ghost predicate CanAttach(per: nat, disk: Disk, inodes: Inodes, info: Owners, pos: Pos, v: nat) {
    && TreeOk(per, disk, inodes, info) && PosOk(per, inodes, info, pos) && Ptr(disk, inodes, pos) == 0
    && v != 0 && v in disk && v !in info
  }

  /** The words after an attachment. */
  lemma AttachWord(per: nat, disk: Disk, inodes: Inodes, info: Owners, pos: Pos, v: nat, b: nat, i: nat)
    requires CanAttach(per, disk, inodes, info, pos, v) && b in disk && i < per
    ensures Word(AttachDisk(per, disk, pos, v), b, i) ==
      if pos == Child(b, i) then v else if b == v then 0 else Word(disk, b, i)
  {
  }

  lemma AttachPtr(per: nat, disk: Disk, inodes: Inodes, info: Owners, pos: Pos, v: nat, q: Pos)
    requires CanAttach(per, disk, inodes, info, pos, v) && PosOk(per, inodes, info, q)
    ensures Ptr(AttachDisk(per, disk, pos, v), AttachInodes(inodes, pos, v), q) ==
      if q == pos then v else Ptr(disk, inodes, q)
  {
    match q {
      case Child(p, i) => AttachWord(per, disk, inodes, info, pos, v, p, i);
      case Root(ino, k) =>
    }
  }

  lemma AttachTree(per: nat, disk: Disk, inodes: Inodes, info: Owners, pos: Pos, v: nat)
    requires CanAttach(per, disk, inodes, info, pos, v)
    ensures LevelAt(info, pos) >= 0
    ensures TreeOk(per, AttachDisk(per, disk, pos, v), AttachInodes(inodes, pos, v), AttachInfo(info, pos, v))
  {
    hide AttachDisk, AttachInodes, KnownAt, OwnedAt;
    AttachShape(per, disk, inodes, info, pos, v);
    var disk', inodes', info' := AttachDisk(per, disk, pos, v), AttachInodes(inodes, pos, v), AttachInfo(info, pos, v);
    forall b | b in info' ensures OwnedAt(per, disk', inodes', info', b) {
      AttachOwned(per, disk, inodes, info, pos, v, b);
    }
    forall q ensures KnownAt(per, disk', inodes', info', q) {
      AttachKnown(per, disk, inodes, info, pos, v, q);
    }
  }

  lemma AttachShape(per: nat, disk: Disk, inodes: Inodes, info: Owners, pos: Pos, v: nat)
    requires CanAttach(per, disk, inodes, info, pos, v)
    ensures LevelAt(info, pos) >= 0
    ensures Shape(per, AttachDisk(per, disk, pos, v), AttachInodes(inodes, pos, v), AttachInfo(info, pos, v))
    ensures AttachInodes(inodes, pos, v).Keys == inodes.Keys && AttachDisk(per, disk, pos, v).Keys == disk.Keys
  {
    hide KnownAt, OwnedAt;
    var disk' := AttachDisk(per, disk, pos, v);
    forall b | b in disk' ensures |disk'[b]| == per {
    }
  }

  lemma AttachOwned(per: nat, disk: Disk, inodes: Inodes, info: Owners, pos: Pos, v: nat, b: nat)
    requires CanAttach(per, disk, inodes, info, pos, v) && LevelAt(info, pos) >= 0
    requires b in AttachInfo(info, pos, v)
    ensures OwnedAt(per, AttachDisk(per, disk, pos, v), AttachInodes(inodes, pos, v), AttachInfo(info, pos, v), b)
  {
    hide AttachDisk, AttachInodes, TreeOk, Ptr;
    AttachShape(per, disk, inodes, info, pos, v);
    if b == v {
      AttachPtr(per, disk, inodes, info, pos, v, pos);
      if pos.Child? {
        OwnedOf(per, disk, inodes, info, pos.parent);
      }
    } else {
      OwnedOf(per, disk, inodes, info, b);
      AttachPtr(per, disk, inodes, info, pos, v, info[b].pos);
    }
  }

  lemma OwnedOf(per: nat, disk: Disk, inodes: Inodes, info: Owners, b: nat)
    requires TreeOk(per, disk, inodes, info) && b in info
    ensures OwnedAt(per, disk, inodes, info, b)
  {
  }

  lemma AttachKnown(per: nat, disk: Disk, inodes: Inodes, info: Owners, pos: Pos, v: nat, q: Pos)
    requires CanAttach(per, disk, inodes, info, pos, v) && LevelAt(info, pos) >= 0
    ensures KnownAt(per, AttachDisk(per, disk, pos, v), AttachInodes(inodes, pos, v), AttachInfo(info, pos, v), q)
  {
    hide AttachDisk, AttachInodes, OwnedAt;
    AttachShape(per, disk, inodes, info, pos, v);
    assert KnownAt(per, disk, inodes, info, q);
    if PosOk(per, inodes, info, q) {
      AttachPtr(per, disk, inodes, info, pos, v, q);
    } else if q.Child? && q.parent == v && q.index < per {
      AttachWord(per, disk, inodes, info, pos, v, v, q.index);
    }
  }

  /** Attaching v changes a walk only if it ends at v's place. */
  lemma {:induction false} AttachWalk(per: nat, disk: Disk, inodes: Inodes, info: Owners, pos: Pos, v: nat,
                                      r: nat, path: seq<nat>)
    requires CanAttach(per, disk, inodes, info, pos, v) && r in info && PathOk(per, path) && |path| <= info[r].level
    ensures
      var old', new' := Walk(disk, r, path), Walk(AttachDisk(per, disk, pos, v), r, path);
      new' == if path != [] && pos == Child(Walk(disk, r, path[..|path| - 1]), path[|path| - 1]) then v else old'
    decreases |path|
  {
    hide TreeOk, AttachDisk;
    if path != [] {
      var n := |path| - 1;
      var disk' := AttachDisk(per, disk, pos, v);
      InitLast(path);
      WalkSnoc(disk, r, path[..n], path[n]);
      WalkSnoc(disk', r, path[..n], path[n]);
      AttachWalk(per, disk, inodes, info, pos, v, r, path[..n]);
      WalkOwned(per, disk, inodes, info, r, path[..n]);
      var m := Walk(disk, r, path[..n]);
      InDisk(per, disk, inodes, info);
      if m != 0 {
        AttachWord(per, disk, inodes, info, pos, v, m, path[n]);
      }
      AttachWord(per, disk, inodes, info, pos, v, v, path[n]);
      if n > 0 && pos == Child(Walk(disk, r, path[..n][..n - 1]), path[..n][n - 1]) {
        EmptyEnd(disk, inodes, r, path[..n], pos);
      }
    }
  }

  lemma EmptyEnd(disk: Disk, inodes: Inodes, r: nat, path: seq<nat>, pos: Pos)
    requires path != [] && pos == Child(Walk(disk, r, path[..|path| - 1]), path[|path| - 1])
    requires Ptr(disk, inodes, pos) == 0
    ensures Walk(disk, r, path) == 0
  {
    InitLast(path);
    WalkSnoc(disk, r, path[..|path| - 1], path[|path| - 1]);
  }

  lemma InDisk(per: nat, disk: Disk, inodes: Inodes, info: Owners)
    requires TreeOk(per, disk, inodes, info)
    ensures info.Keys <= disk.Keys && 0 !in info
  {
  }

  // ---------------------------------------------------------------- file block numbers

  /** The block at the end of a path from a pointer of an inode. */
  function MapAt(disk: Disk, inodes: Inodes, ino: nat, k: nat, path: seq<nat>): nat {
    Walk(disk, Pointer(inodes, ino, k), path)
  }

  /** The place a path ends at. */
  function PathPos(disk: Disk, inodes: Inodes, ino: nat, k: nat, path: seq<nat>): Pos {
    if path == [] then Root(ino, k)
    else Child(MapAt(disk, inodes, ino, k, path[..|path| - 1]), path[|path| - 1])
  }

  ghost predicate RouteOk(per: nat, inodes: Inodes, ino: nat, k: nat, path: seq<nat>) {
    ino in inodes && k < N_BLOCKS && PathOk(per, path) && |path| <= RootLevel(k)
  }

  lemma RootOwned(per: nat, disk: Disk, inodes: Inodes, info: Owners, ino: nat, k: nat)
    requires TreeOk(per, disk, inodes, info) && ino in inodes && k < N_BLOCKS
    ensures
      var r := Pointer(inodes, ino, k);
      r == 0 || (r in info && info[r].pos == Root(ino, k) && info[r].level == RootLevel(k) && info[r].ino == ino)
  {
    assert KnownAt(per, disk, inodes, info, Root(ino, k));
    var r := Pointer(inodes, ino, k);
    if r != 0 {
      assert OwnedAt(per, disk, inodes, info, r);
    }
  }

  lemma MapOwned(per: nat, disk: Disk, inodes: Inodes, info: Owners, ino: nat, k: nat, path: seq<nat>)
    requires TreeOk(per, disk, inodes, info) && RouteOk(per, inodes, ino, k, path)
    ensures
      var w := MapAt(disk, inodes, ino, k, path);
      w == 0 || (w in info && info[w].level == RootLevel(k) - |path| && info[w].ino == ino)
  {
    RootOwned(per, disk, inodes, info, ino, k);
    if Pointer(inodes, ino, k) != 0 {
      WalkOwned(per, disk, inodes, info, Pointer(inodes, ino, k), path);
    }
  }

  lemma MapIsPtr(disk: Disk, inodes: Inodes, ino: nat, k: nat, path: seq<nat>)
    requires path != [] ==> MapAt(disk, inodes, ino, k, path[..|path| - 1]) != 0
    ensures MapAt(disk, inodes, ino, k, path) == Ptr(disk, inodes, PathPos(disk, inodes, ino, k, path))
  {
    if path != [] {
      InitLast(path);
      WalkSnoc(disk, Pointer(inodes, ino, k), path[..|path| - 1], path[|path| - 1]);
    }
  }

  /** A hole in the middle of a path is a hole at its end. */
  lemma {:induction false} HoleBelow(disk: Disk, inodes: Inodes, ino: nat, k: nat, path: seq<nat>, n: nat)
    requires n <= |path| && MapAt(disk, inodes, ino, k, path[..n]) == 0
    ensures MapAt(disk, inodes, ino, k, path) == 0
    decreases |path| - n
  {
    if n == |path| {
      assert path[..n] == path;
    } else {
      assert path[..n + 1] == path[..n] + [path[n]];
      WalkSnoc(disk, Pointer(inodes, ino, k), path[..n], path[n]);
      HoleBelow(disk, inodes, ino, k, path, n + 1);
    }
  }

  /** After an attachment every path leads where it did, except the one that ends at the new block. */
  lemma AttachMaps(per: nat, disk: Disk, inodes: Inodes, info: Owners, pos: Pos, v: nat, ino: nat, k: nat,
                   path: seq<nat>)
    requires CanAttach(per, disk, inodes, info, pos, v) && RouteOk(per, inodes, ino, k, path)
    ensures MapAt(AttachDisk(per, disk, pos, v), AttachInodes(inodes, pos, v), ino, k, path) ==
      if PathPos(disk, inodes, ino, k, path) == pos then v else MapAt(disk, inodes, ino, k, path)
  {
    hide TreeOk, AttachDisk, AttachInodes;
    var r := Pointer(inodes, ino, k);
    RootOwned(per, disk, inodes, info, ino, k);
    AttachPtr(per, disk, inodes, info, pos, v, Root(ino, k));
    InDisk(per, disk, inodes, info);
    if pos == Root(ino, k) {
      if path != [] {
        NewIsEmpty(per, disk, inodes, info, pos, v, path);
      }
    } else if r != 0 {
      AttachWalk(per, disk, inodes, info, pos, v, r, path);
    }
  }

  lemma NewIsEmpty(per: nat, disk: Disk, inodes: Inodes, info: Owners, pos: Pos, v: nat, path: seq<nat>)
    requires CanAttach(per, disk, inodes, info, pos, v) && PathOk(per, path) && path != []
    ensures Walk(AttachDisk(per, disk, pos, v), v, path) == 0
  {
    AttachWord(per, disk, inodes, info, pos, v, v, path[0]);
  }

  /** Different paths end at different places. */
  lemma PathPosUnique(per: nat, disk: Disk, inodes: Inodes, info: Owners,
                      ino: nat, k: nat, path: seq<nat>, ino': nat, k': nat, path': seq<nat>)
    requires TreeOk(per, disk, inodes, info)
    requires RouteOk(per, inodes, ino, k, path) && RouteOk(per, inodes, ino', k', path')
    requires path != [] ==> MapAt(disk, inodes, ino, k, path[..|path| - 1]) != 0
    requires PathPos(disk, inodes, ino, k, path) == PathPos(disk, inodes, ino', k', path')
    ensures ino == ino' && k == k' && path == path'
  {
    if path != [] {
      var p, p' := path[..|path| - 1], path'[..|path'| - 1];
      RootOwned(per, disk, inodes, info, ino, k);
      RootOwned(per, disk, inodes, info, ino', k');
      WalkUnique(per, disk, inodes, info, Pointer(inodes, ino, k), p, Pointer(inodes, ino', k'), p');
      InitLast(path);
      InitLast(path');
    }
  }

  datatype Route = Route(slot: nat, path: seq<nat>)

  /** Where block `index` of a file is looked up; None is -EFBIG. */
  function RouteOf(per: nat, index: nat): Option<Route>
    requires per > 0
  {
    if index < 12 then Some(Route(index, []))
    else
      var i := index - 12;
      if i < per then Some(Route(12, [i]))
      else
        var j := i - per;
        if j < per * per then
          ModBelow(j, per);
          Some(Route(13, [j / per, j % per]))
        else
          var m := j - per * per;
          ModBelow(m, per * per);
          ModBelow(m % (per * per), per);
          if m < per * per * per then Some(Route(14, [m / (per * per), (m % (per * per)) / per, m % per])) else None
  }

  /** Every file block has a path of its own, as long as its tree is deep. */
  lemma RouteFacts(per: nat, index: nat)
    requires per > 0 && RouteOf(per, index).Some?
    ensures
      var r := RouteOf(per, index).value;
      r.slot < N_BLOCKS && |r.path| == RootLevel(r.slot) && PathOk(per, r.path)
  {
    if index >= 12 + per {
      var j := index - 12 - per;
      if j < per * per {
        Digits(j, per, per);
      } else {
        var m := j - per * per;
        Digits(m, per, per * per);
        Digits(m % (per * per), per, per);
      }
    }
  }

  lemma Digits(x: nat, n: nat, d: nat)
    requires d > 0 && x < n * d
    ensures 0 <= x / d < n && 0 <= x % d < d && x == (x / d) * d + x % d
  {
    ModBelow(x, d);
    if x / d >= n {
      MulOrder(n, x / d, d);
    }
  }

  lemma RouteInjective(per: nat, i: nat, j: nat)
    requires per > 0 && RouteOf(per, i).Some? && RouteOf(per, i) == RouteOf(per, j)
    ensures i == j
  {
    var r := RouteOf(per, i).value;
    if r.slot == 13 {
      Digits(i - 12 - per, per, per);
      Digits(j - 12 - per, per, per);
    } else if r.slot == 14 {
      var m, n := i - 12 - per - per * per, j - 12 - per - per * per;
      TripleDigits(m, per);
      TripleDigits(n, per);
    }
  }

  lemma TripleDigits(m: nat, per: nat)
    requires per > 0 && m < per * per * per
    ensures m == (m / (per * per)) * (per * per) + ((m % (per * per)) / per) * per + m % per
  {
    Digits(m, per, per * per);
    var q := m / (per * per);
    var low := m % (per * per);
    Digits(low, per, per);
    assert q * (per * per) == (q * per) * per;
    MultipleMod(q * per, per);
    ModShift(low, (q * per) * per, per);
  }

  /**
   The number of the file block at the end of a path: the twelve direct blocks come first, then the trees of one, two
   and three levels, each in the order of its words.
   */
  function IndexAt(per: nat, slot: nat, path: seq<nat>): nat
    requires slot < N_BLOCKS && |path| == RootLevel(slot)
  {
    if slot < 12 then slot
    else if slot == 12 then 12 + path[0]
    else if slot == 13 then 12 + per + path[0] * per + path[1]
    else 12 + per + per * per + (path[0] * per + path[1]) * per + path[2]
  }

  /** The path of a file block ends at its number, and there is one exactly up to the end of the largest tree. */
  lemma RouteNumbers(per: nat, index: nat)
    requires per > 0
    ensures RouteOf(per, index).Some? <==> index < 12 + per + per * per + per * per * per
    ensures RouteOf(per, index).Some? ==>
      var r := RouteOf(per, index).value;
      r.slot < N_BLOCKS && |r.path| == RootLevel(r.slot) && PathOk(per, r.path) && IndexAt(per, r.slot, r.path) == index
  {
    MulOrder(0, per, per);
    if RouteOf(per, index).Some? {
      RouteFacts(per, index);
      var r := RouteOf(per, index).value;
      if r.slot == 13 {
        Digits(index - 12 - per, per, per);
      } else if r.slot == 14 {
        var m := index - 12 - per - per * per;
        TripleDigits(m, per);
        TripleHorner(r.path[0], r.path[1], r.path[2], per);
      }
    }
  }

  lemma TripleHorner(i: nat, j: nat, k: nat, per: nat)
    ensures (i * per + j) * per + k == i * (per * per) + j * per + k
  {
    MulDistribute(i * per, j, per);
    assert (i * per) * per == i * (per * per);
  }

  /** Every path of full length is the path of the file block with its number. */
  lemma RouteBack(per: nat, slot: nat, path: seq<nat>)
    requires per > 0 && slot < N_BLOCKS && |path| == RootLevel(slot) && PathOk(per, path)
    ensures RouteOf(per, IndexAt(per, slot, path)) == Some(Route(slot, path))
  {
    if slot == 12 {
      assert path == [path[0]];
    } else if slot == 13 {
      PairNumber(path[0], path[1], per, per);
      assert path == [path[0], path[1]];
    } else if slot == 14 {
      TripleNumber(path[0], path[1], path[2], per);
      assert path == [path[0], path[1], path[2]];
    }
  }

  lemma PairNumber(i: nat, j: nat, n: nat, d: nat)
    requires i < n && j < d
    ensures 0 <= i * d + j < n * d && (i * d + j) / d == i && (i * d + j) % d == j
  {
    MulOrder(0, i, d);
    MulOrder(i + 1, n, d);
    MulDistribute(i, 1, d);
    DivModUnique(i * d + j, d, i, j);
  }

  lemma TripleNumber(i: nat, j: nat, k: nat, per: nat)
    requires i < per && j < per && k < per
    ensures
      var m := (i * per + j) * per + k;
      && 0 <= m < per * per * per && m / (per * per) == i && (m % (per * per)) / per == j && m % per == k
  {
    TripleHorner(i, j, k, per);
    PairNumber(j, k, per, per);
    PairNumber(i, j * per + k, per, per * per);
    PairNumber(i, j, per, per);
    PairNumber(i * per + j, k, per * per, per);
  }

  // ---------------------------------------------------------------- the words a mapping reads

  /** Word i of the indirect block b, 0 if there is no such block. */
  function IndirectWord(disk: Disk, b: nat, i: nat): nat {
    if b != 0 && b in disk && i < |disk[b]| then disk[b][i] else 0
  }

  /** v is what the inode's words and the indirect blocks on the disk say about file block `index`. */
  ghost predicate MapsTo(per: nat, disk: Disk, data: seq<nat>, index: nat, v: nat)
    requires |data| == N_BLOCKS
  {
    && (index < 12 ==> v == data[index])
    && (forall i: nat :: i < per && index == 12 + i ==> v == IndirectWord(disk, data[12], i))
    && (forall i: nat, j: nat :: i < per && j < per && index == 12 + per + i * per + j ==>
          v == IndirectWord(disk, IndirectWord(disk, data[13], i), j))
    && (forall i: nat, j: nat, k: nat ::
          i < per && j < per && k < per && index == 12 + per + per * per + (i * per + j) * per + k ==>
          v == IndirectWord(disk, IndirectWord(disk, IndirectWord(disk, data[14], i), j), k))
  }

  lemma MapWords(disk: Disk, inodes: Inodes, ino: nat, i: nat, j: nat, k: nat)
    requires ino in inodes && |inodes[ino]| == N_BLOCKS
    ensures MapAt(disk, inodes, ino, 12, [i]) == IndirectWord(disk, inodes[ino][12], i)
    ensures MapAt(disk, inodes, ino, 13, [i, j]) == IndirectWord(disk, IndirectWord(disk, inodes[ino][13], i), j)
    ensures MapAt(disk, inodes, ino, 14, [i, j, k]) ==
            IndirectWord(disk, IndirectWord(disk, IndirectWord(disk, inodes[ino][14], i), j), k)
  {
    var one, two, three := inodes[ino][12], inodes[ino][13], inodes[ino][14];
    WalkSnoc(disk, one, [], i);
    WalkSnoc(disk, two, [], i);
    WalkSnoc(disk, two, [i], j);
    WalkSnoc(disk, three, [], i);
    WalkSnoc(disk, three, [i], j);
    WalkSnoc(disk, three, [i, j], k);
    assert [] + [i] == [i] && [i] + [j] == [i, j] && [i, j] + [k] == [i, j, k];
  }

  /** The walk along the path of a file block reads exactly these words. */
  lemma RouteMapsTo(per: nat, disk: Disk, inodes: Inodes, ino: nat, index: nat)
    requires per > 0 && ino in inodes && |inodes[ino]| == N_BLOCKS && RouteOf(per, index).Some?
    ensures
      var r := RouteOf(per, index).value;
      MapsTo(per, disk, inodes[ino], index, MapAt(disk, inodes, ino, r.slot, r.path))
  {
    hide RouteOf, MapAt, IndirectWord;
    var data, r := inodes[ino], RouteOf(per, index).value;
    var v := MapAt(disk, inodes, ino, r.slot, r.path);
    if index < 12 {
      RouteBack(per, index, []);
      DirectWord(disk, inodes, ino, index);
    }
    forall i: nat | i < per && index == 12 + i ensures v == IndirectWord(disk, data[12], i) {
      RouteBack(per, 12, [i]);
      MapWords(disk, inodes, ino, i, 0, 0);
    }
    forall i: nat, j: nat | i < per && j < per && index == 12 + per + i * per + j
      ensures v == IndirectWord(disk, IndirectWord(disk, data[13], i), j)
    {
      RouteBack(per, 13, [i, j]);
      MapWords(disk, inodes, ino, i, j, 0);
    }
    forall i: nat, j: nat, k: nat |
      i < per && j < per && k < per && index == 12 + per + per * per + (i * per + j) * per + k
      ensures v == IndirectWord(disk, IndirectWord(disk, IndirectWord(disk, data[14], i), j), k)
    {
      RouteBack(per, 14, [i, j, k]);
      MapWords(disk, inodes, ino, i, j, k);
    }
  }

  lemma DirectWord(disk: Disk, inodes: Inodes, ino: nat, k: nat)
    requires ino in inodes && k < |inodes[ino]|
    ensures MapAt(disk, inodes, ino, k, []) == inodes[ino][k]
  {
  }

  /** Some word is read for every index a file can have, so the value is determined. */
  lemma MapsToOne(per: nat, disk: Disk, data: seq<nat>, index: nat, v: nat, w: nat)
    requires per > 0 && |data| == N_BLOCKS && index < 12 + per + per * per + per * per * per
    requires MapsTo(per, disk, data, index, v) && MapsTo(per, disk, data, index, w)
    ensures v == w
  {
    hide RouteOf, IndirectWord;
    RouteNumbers(per, index);
    var r := RouteOf(per, index).value;
    if r.slot == 12 {
      assert v == IndirectWord(disk, data[12], r.path[0]);
    } else if r.slot == 13 {
      assert v == IndirectWord(disk, IndirectWord(disk, data[13], r.path[0]), r.path[1]);
    } else if r.slot == 14 {
      assert v == IndirectWord(disk, IndirectWord(disk, IndirectWord(disk, data[14], r.path[0]), r.path[1]), r.path[2]);
    }
  }
}
