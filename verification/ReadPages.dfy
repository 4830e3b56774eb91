/** ext2_readpages: many pages read with few requests (fs/ext2/ext2_dir.c). */
module ReadPages {
  import opened Arithmetic
  import opened Bytes
  import opened PageIo

  /**
   * The pages to fill, by their index in the file; a page has bpp blocks of bs bytes. maps gives the disk block
   * of each file block, 0 for a hole; a request takes at most maxBytes bytes and maxVecs parts of pages.
   */
  datatype Job = Job(pages: seq<nat>, bpp: nat, bs: nat, fileSize: nat, maps: map<nat, nat>, disk: Disk,
                     maxBytes: nat, maxVecs: nat)
  {
    ghost predicate Valid() {
      && 0 < bpp && 0 < bs <= maxBytes && 0 < maxVecs
      && (forall f :: f in maps && maps[f] != 0 ==> maps[f] in disk && |disk[maps[f]]| == bs)
    }

    function FileBlock(k: nat, b: nat): nat
      requires k < |pages|
    {
      pages[k] * bpp + b
    }

    /** The disk block of block b of page k, 0 for a hole and behind the end of the file. */
    function Wanted(k: nat, b: nat): nat
      requires k < |pages|
    {
      var f := FileBlock(k, b);
      if f * bs >= fileSize then 0 else if f in maps then maps[f] else 0
    }

    /** What a read of this block alone gives. */
    function Expected(k: nat, b: nat): Block
      requires k < |pages|
    {
      if Wanted(k, b) in disk && Wanted(k, b) != 0 then disk[Wanted(k, b)] else ZeroBytes(bs)
    }
  }

  datatype Pos = Pos(page: nat, block: nat)

  /** len blocks of a page from block off on. */
  datatype Vec = Vec(page: nat, off: nat, len: nat)

  ghost function Part(v: Vec): seq<Pos> {
    seq(v.len, j requires 0 <= j < v.len => Pos(v.page, v.off + j))
  }

  /** The blocks of a request in disk order. */
  ghost function Targets(vecs: seq<Vec>): seq<Pos> {
    if vecs == [] then [] else Targets(vecs[..|vecs| - 1]) + Part(vecs[|vecs| - 1])
  }

  lemma TargetsAdd(vecs: seq<Vec>, k: nat, b: nat)
    ensures Targets(vecs + [Vec(k, b, 1)]) == Targets(vecs) + [Pos(k, b)]
  {
    assert (vecs + [Vec(k, b, 1)])[..|vecs|] == vecs;
    assert Part(Vec(k, b, 1)) == [Pos(k, b)];
  }

  lemma TargetsExtend(vecs: seq<Vec>)
    requires vecs != []
    ensures
      var n, v := |vecs| - 1, vecs[|vecs| - 1];
      Targets(vecs[n := v.(len := v.len + 1)]) == Targets(vecs) + [Pos(v.page, v.off + v.len)]
  {
    var n, v := |vecs| - 1, vecs[|vecs| - 1];
    assert vecs[n := v.(len := v.len + 1)][..n] == vecs[..n];
    assert Part(v.(len := v.len + 1)) == Part(v) + [Pos(v.page, v.off + v.len)];
  }

  /** A request the device takes: not too long, not too many parts, every part inside its page. */
  ghost predicate RequestOk(job: Job, vecs: seq<Vec>, n: nat) {
    && |vecs| <= job.maxVecs && n * job.bs <= job.maxBytes && n == |Targets(vecs)|
    && (forall i :: 0 <= i < |vecs| ==>
       vecs[i].page < |job.pages| && 0 < vecs[i].len && vecs[i].off + vecs[i].len <= job.bpp)
  }

  /** The blocks of a request are wanted from consecutive disk blocks. */
  ghost predicate Pending(job: Job, targets: seq<Pos>, start: nat) {
    forall j :: 0 <= j < |targets| ==>
      && targets[j].page < |job.pages| && targets[j].block < job.bpp
      && job.Wanted(targets[j].page, targets[j].block) == start + j && start + j != 0
  }

  ghost predicate Shaped(job: Job, bufs: seq<seq<Block>>) {
    |bufs| == |job.pages| && forall k :: 0 <= k < |bufs| ==> |bufs[k]| == job.bpp
  }

  ghost predicate Before(p: Pos, k: nat, b: nat) {
    p.page < k || (p.page == k && p.block < b)
  }

  /** Every block before (k, b) is in the pending request or as a read of it alone would leave it. */
  ghost predicate Settled(job: Job, bufs: seq<seq<Block>>, targets: seq<Pos>, k: nat, b: nat)
    requires Shaped(job, bufs)
  {
    forall p: Pos :: p.page < |job.pages| && p.block < job.bpp && Before(p, k, b) ==>
      p in targets || bufs[p.page][p.block] == job.Expected(p.page, p.block)
  }

  /** submit_bio_wait on a read request: the disk blocks from start on go to the parts of pages, in order. */
  method SubmitRead(job: Job, bufs: seq<seq<Block>>, vecs: seq<Vec>, start: nat, n: nat)
                    returns (bufs': seq<seq<Block>>)
    requires job.Valid() && Shaped(job, bufs) && RequestOk(job, vecs, n) && Pending(job, Targets(vecs), start)
    ensures Shaped(job, bufs')
    ensures forall p: Pos :: p.page < |job.pages| && p.block < job.bpp ==>
      bufs'[p.page][p.block] ==
        if p in Targets(vecs) then job.Expected(p.page, p.block) else bufs[p.page][p.block]
  {
    hide RequestOk;
    bufs' := bufs;
    ghost var done: seq<Pos> := [];
    var i, at := 0, start;
    RequestParts(job, vecs, n);
    assert vecs[..0] == [];
    while i < |vecs|
      invariant 0 <= i <= |vecs| && Shaped(job, bufs') && done == Targets(vecs[..i]) && at == start + |done|
      invariant Copied(job, bufs, bufs', done)
    {
      PartInside(vecs, i);
      PendingPart(job, vecs, start, i);
      bufs' := CopyPart(job, bufs, bufs', vecs[i], at, done);
      at := at + vecs[i].len;
      done := done + Part(vecs[i]);
      i := i + 1;
    }
    assert vecs[..i] == vecs;
  }

  /** The blocks of done hold what is expected of them, all others what bufs has. */
  ghost predicate Copied(job: Job, bufs: seq<seq<Block>>, bufs': seq<seq<Block>>, done: seq<Pos>)
    requires Shaped(job, bufs) && Shaped(job, bufs')
  {
    forall p: Pos :: p.page < |job.pages| && p.block < job.bpp ==>
      bufs'[p.page][p.block] == if p in done then job.Expected(p.page, p.block) else bufs[p.page][p.block]
  }

  lemma RequestParts(job: Job, vecs: seq<Vec>, n: nat)
    requires RequestOk(job, vecs, n)
    ensures forall i :: 0 <= i < |vecs| ==> vecs[i].page < |job.pages| && vecs[i].off + vecs[i].len <= job.bpp
  {
  }

  lemma {:induction false} PartInside(vecs: seq<Vec>, i: nat)
    requires i < |vecs|
    ensures Targets(vecs[..i + 1]) == Targets(vecs[..i]) + Part(vecs[i])
    ensures |Targets(vecs[..i + 1])| <= |Targets(vecs)|
            && Targets(vecs)[..|Targets(vecs[..i + 1])|] == Targets(vecs[..i + 1])
    decreases |vecs| - i
  {
    assert vecs[..i + 1][..i] == vecs[..i];
    if i + 1 == |vecs| {
      assert vecs[..i + 1] == vecs;
    } else {
      PartInside(vecs, i + 1);
    }
  }

  /** One part of a request. */
  method CopyPart(job: Job, ghost bufs: seq<seq<Block>>, now: seq<seq<Block>>, v: Vec, at: nat, ghost done: seq<Pos>)
    returns (bufs': seq<seq<Block>>)
    requires job.Valid() && Shaped(job, bufs) && Shaped(job, now) && Copied(job, bufs, now, done)
    requires v.page < |job.pages| && v.off + v.len <= job.bpp
    requires Pending(job, Part(v), at)
    ensures Shaped(job, bufs') && Copied(job, bufs, bufs', done + Part(v))
  {
    bufs' := now;
    ghost var copied := done;
    var j := 0;
    assert Part(v)[..0] == [] && done + [] == done;
    while j < v.len
      invariant 0 <= j <= v.len && Shaped(job, bufs') && copied == done + Part(v)[..j]
      invariant Copied(job, bufs, bufs', copied)
    {
      PendingFrom(job, Part(v), at, j);
      var row := bufs'[v.page];
      row := row[v.off + j := job.disk[at + j]];
      CopyOne(job, bufs, bufs', copied, v.page, v.off + j, at + j);
      bufs' := bufs'[v.page := row];
      assert Part(v)[..j + 1] == Part(v)[..j] + [Pos(v.page, v.off + j)];
      copied := copied + [Pos(v.page, v.off + j)];
      j := j + 1;
    }
    assert Part(v)[..j] == Part(v);
  }

  /** Block b of page k comes from disk block d. */
  ghost predicate FromDisk(job: Job, k: nat, b: nat, d: nat) {
    k < |job.pages| && b < job.bpp && d in job.disk && job.Expected(k, b) == job.disk[d]
  }

  lemma PendingFrom(job: Job, targets: seq<Pos>, start: nat, j: nat)
    requires job.Valid() && Pending(job, targets, start) && j < |targets|
    ensures FromDisk(job, targets[j].page, targets[j].block, start + j)
  {
    var p := targets[j];
    assert job.Wanted(p.page, p.block) == start + j;
  }

  /** The part i of a request comes from the disk blocks behind those of the parts before it. */
  lemma PendingPart(job: Job, vecs: seq<Vec>, start: nat, i: nat)
    requires Pending(job, Targets(vecs), start) && i < |vecs|
    ensures Pending(job, Part(vecs[i]), start + |Targets(vecs[..i])|)
  {
    PartInside(vecs, i);
    var all, m, part := Targets(vecs), |Targets(vecs[..i])|, Part(vecs[i]);
    forall j | 0 <= j < |part| ensures part[j] == all[m + j] {
      assert all[m + j] == all[..m + |part|][m + j];
    }
  }

  lemma CopyOne(job: Job, bufs: seq<seq<Block>>, now: seq<seq<Block>>, copied: seq<Pos>, k: nat, b: nat, d: nat)
    requires Shaped(job, bufs) && Shaped(job, now) && Copied(job, bufs, now, copied) && FromDisk(job, k, b, d)
    ensures
      var now' := now[k := now[k][b := job.disk[d]]];
      Shaped(job, now') && Copied(job, bufs, now', copied + [Pos(k, b)])
  {
  }

  // ---------------------------------------------------------------- collecting the requests

  /** The request collected so far and the pages, with the scan at block b of page k. */
  ghost predicate Gathered(job: Job, bufs: seq<seq<Block>>, vecs: seq<Vec>, start: nat, n: nat, k: nat, b: nat) {
    && Shaped(job, bufs) && RequestOk(job, vecs, n) && Pending(job, Targets(vecs), start)
    && Settled(job, bufs, Targets(vecs), k, b)
    && (forall j :: 0 <= j < |Targets(vecs)| ==> Before(Targets(vecs)[j], k, b))
  }

  /** In the middle of page k, whose blocks from b on are still zero. */
  ghost predicate Scan(job: Job, bufs: seq<seq<Block>>, vecs: seq<Vec>, start: nat, n: nat, k: nat, b: nat) {
    && Gathered(job, bufs, vecs, start, n, k, b)
    && (k < |bufs| ==> forall c :: b <= c < job.bpp ==> bufs[k][c] == ZeroBytes(job.bs))
  }

  lemma EmptyRequest(job: Job)
    requires job.Valid()
    ensures Targets([]) == [] && RequestOk(job, [], 0) && Pending(job, [], 0)
  {
  }

  /** The pending request is read. */
  lemma Flushed(job: Job, bufs: seq<seq<Block>>, bufs': seq<seq<Block>>, vecs: seq<Vec>, start: nat, n: nat, k: nat,
                b: nat)
    requires job.Valid() && Gathered(job, bufs, vecs, start, n, k, b) && Shaped(job, bufs')
    requires forall p: Pos :: p.page < |job.pages| && p.block < job.bpp ==>
      bufs'[p.page][p.block] ==
        if p in Targets(vecs) then job.Expected(p.page, p.block) else bufs[p.page][p.block]
    ensures Gathered(job, bufs', [], 0, 0, k, b)
    ensures Scan(job, bufs, vecs, start, n, k, b) ==> Scan(job, bufs', [], 0, 0, k, b)
  {
    EmptyRequest(job);
    forall p: Pos | p.page < |job.pages| && p.block < job.bpp && Before(p, k, b)
      ensures bufs'[p.page][p.block] == job.Expected(p.page, p.block)
    {
      assert p in Targets(vecs) || bufs[p.page][p.block] == job.Expected(p.page, p.block);
    }
    if Scan(job, bufs, vecs, start, n, k, b) && k < |bufs| {
      forall c | b <= c < job.bpp ensures bufs'[k][c] == ZeroBytes(job.bs) {
        var p := Pos(k, c);
        assert p !in Targets(vecs);
        assert bufs'[p.page][p.block] == bufs[p.page][p.block];
      }
    }
  }

  /** A block without a disk block is zero already. */
  lemma PassHole(job: Job, bufs: seq<seq<Block>>, vecs: seq<Vec>, start: nat, n: nat, k: nat, b: nat)
    requires Scan(job, bufs, vecs, start, n, k, b) && k < |job.pages| && b < job.bpp && job.Wanted(k, b) == 0
    ensures Scan(job, bufs, vecs, start, n, k, b + 1)
  {
    hide Targets, RequestOk;
    forall p: Pos | p.page < |job.pages| && p.block < job.bpp && Before(p, k, b + 1)
      ensures p in Targets(vecs) || bufs[p.page][p.block] == job.Expected(p.page, p.block)
    {
      if !Before(p, k, b) {
        assert p == Pos(k, b);
      }
    }
  }

  lemma {:induction false} PassRest(job: Job, bufs: seq<seq<Block>>, vecs: seq<Vec>, start: nat, n: nat, k: nat, b: nat)
    requires job.Valid() && Scan(job, bufs, vecs, start, n, k, b) && k < |job.pages| && b <= job.bpp
    requires b < job.bpp ==> job.FileBlock(k, b) * job.bs >= job.fileSize
    ensures Scan(job, bufs, vecs, start, n, k, job.bpp)
    decreases job.bpp - b
  {
    hide Scan;
    if b < job.bpp {
      PassHole(job, bufs, vecs, start, n, k, b);
      MulOrder(job.FileBlock(k, b), job.FileBlock(k, b + 1), job.bs);
      PassRest(job, bufs, vecs, start, n, k, b + 1);
    }
  }

  /** The next page is cleared. */
  lemma NextPage(job: Job, bufs: seq<seq<Block>>, vecs: seq<Vec>, start: nat, n: nat, k: nat, zeros: seq<Block>)
    requires Gathered(job, bufs, vecs, start, n, k, 0) && k < |job.pages|
    requires |zeros| == job.bpp && forall c :: 0 <= c < job.bpp ==> zeros[c] == ZeroBytes(job.bs)
    ensures k < |bufs| && Scan(job, bufs[k := zeros], vecs, start, n, k, 0)
  {
    hide Targets, RequestOk;
    var bufs' := bufs[k := zeros];
    forall p: Pos | p.page < |job.pages| && p.block < job.bpp && Before(p, k, 0)
      ensures p in Targets(vecs) || bufs'[p.page][p.block] == job.Expected(p.page, p.block)
    {
      assert bufs'[p.page] == bufs[p.page];
    }
  }

  lemma PageDone(job: Job, bufs: seq<seq<Block>>, vecs: seq<Vec>, start: nat, n: nat, k: nat)
    requires Scan(job, bufs, vecs, start, n, k, job.bpp)
    ensures Gathered(job, bufs, vecs, start, n, k + 1, 0)
  {
    hide Targets, RequestOk;
    forall p: Pos | p.page < |job.pages| && p.block < job.bpp && Before(p, k + 1, 0)
      ensures p in Targets(vecs) || bufs[p.page][p.block] == job.Expected(p.page, p.block)
    {
      assert Before(p, k, job.bpp);
    }
    forall j | 0 <= j < |Targets(vecs)| ensures Before(Targets(vecs)[j], k + 1, 0) {
      assert Before(Targets(vecs)[j], k, job.bpp);
    }
  }

  /** A block joins the request. */
  lemma Joins(job: Job, bufs: seq<seq<Block>>, vecs: seq<Vec>, vecs': seq<Vec>, start: nat, n: nat, k: nat, b: nat)
    requires job.Valid() && Scan(job, bufs, vecs, start, n, k, b) && k < |job.pages| && b < job.bpp
    requires job.Wanted(k, b) == start + n && start + n != 0
    requires Targets(vecs') == Targets(vecs) + [Pos(k, b)] && RequestOk(job, vecs', n + 1)
    ensures Scan(job, bufs, vecs', start, n + 1, k, b + 1)
  {
    hide Targets, Pending, Settled, RequestOk, Before, Job.Wanted, Job.Expected, Job.Valid;
    var was := Targets(vecs);
    RequestSize(job, vecs, n);
    JoinsPending(job, was, start, k, b);
    JoinsSettled(job, bufs, was, k, b);
    JoinsBefore(was, k, b);
  }

  lemma JoinsBefore(targets: seq<Pos>, k: nat, b: nat)
    requires forall j :: 0 <= j < |targets| ==> Before(targets[j], k, b)
    ensures forall j :: 0 <= j < |targets + [Pos(k, b)]| ==> Before((targets + [Pos(k, b)])[j], k, b + 1)
  {
  }

  lemma RequestSize(job: Job, vecs: seq<Vec>, n: nat)
    requires RequestOk(job, vecs, n)
    ensures n == |Targets(vecs)|
  {
  }

  lemma RequestIs(job: Job, vecs: seq<Vec>, n: nat)
    requires |vecs| <= job.maxVecs && n * job.bs <= job.maxBytes && n == |Targets(vecs)|
    requires forall i :: 0 <= i < |vecs| ==>
             vecs[i].page < |job.pages| && 0 < vecs[i].len && vecs[i].off + vecs[i].len <= job.bpp
    ensures RequestOk(job, vecs, n)
  {
  }

  lemma JoinsPending(job: Job, targets: seq<Pos>, start: nat, k: nat, b: nat)
    requires Pending(job, targets, start) && k < |job.pages| && b < job.bpp
    requires job.Wanted(k, b) == start + |targets| && start + |targets| != 0
    ensures Pending(job, targets + [Pos(k, b)], start)
  {
  }

  lemma JoinsSettled(job: Job, bufs: seq<seq<Block>>, targets: seq<Pos>, k: nat, b: nat)
    requires Shaped(job, bufs) && Settled(job, bufs, targets, k, b)
    ensures Settled(job, bufs, targets + [Pos(k, b)], k, b + 1)
  {
    forall p: Pos | p.page < |job.pages| && p.block < job.bpp && Before(p, k, b + 1)
      ensures p in targets + [Pos(k, b)] || bufs[p.page][p.block] == job.Expected(p.page, p.block)
    {
      assert Before(p, k, b) || p == Pos(k, b);
    }
  }

  // ---------------------------------------------------------------- the whole read

  ghost predicate InFile(job: Job, k: nat, b: nat) {
    k < |job.pages| && job.FileBlock(k, b) * job.bs < job.fileSize
  }

  /** No mapping of a file block before (k, b) fails. */
  ghost predicate Usable(job: Job, bad: set<nat>, k: nat, b: nat) {
    forall p: Pos :: p.page < |job.pages| && p.block < job.bpp && Before(p, k, b) && InFile(job, p.page, p.block) ==>
      job.FileBlock(p.page, p.block) !in bad
  }

  /** ext2_read_batch: the pending request, if there is one, is read. */
  method ReadBatch(job: Job, bufs: seq<seq<Block>>, vecs: seq<Vec>, start: nat, n: nat, ghost k: nat, ghost b: nat)
    returns (bufs': seq<seq<Block>>)
    requires job.Valid() && Gathered(job, bufs, vecs, start, n, k, b)
    ensures Gathered(job, bufs', [], 0, 0, k, b)
    ensures Scan(job, bufs, vecs, start, n, k, b) ==> Scan(job, bufs', [], 0, 0, k, b)
  {
    hide RequestOk, Pending, Settled, Job.Valid;
    bufs' := bufs;
    EmptyRequest(job);
    if n == 0 {
      NoTargets(job, vecs);
      return;
    }
    bufs' := SubmitRead(job, bufs, vecs, start, n);
    Flushed(job, bufs, bufs', vecs, start, n, k, b);
  }

  lemma NoTargets(job: Job, vecs: seq<Vec>)
    requires RequestOk(job, vecs, 0)
    ensures Targets(vecs) == []
  {
  }

  /** The inner loop: one page; false if a mapping fails. */
  method ReadPage(job: Job, bad: set<nat>, bufs0: seq<seq<Block>>, vecs0: seq<Vec>, start0: nat, n0: nat, k: nat)
    returns (ok: bool, bufs: seq<seq<Block>>, vecs: seq<Vec>, start: nat, n: nat)
    requires job.Valid() && k < |job.pages| && Scan(job, bufs0, vecs0, start0, n0, k, 0) && Usable(job, bad, k, 0)
    ensures Shaped(job, bufs)
    ensures ok ==> Gathered(job, bufs, vecs, start, n, k + 1, 0)
    ensures ok <==> Usable(job, bad, k + 1, 0)
  {
    hide Scan, Gathered, RequestOk, Pending, Settled, Job.Valid, Usable, Targets, Job.FileBlock, Job.Wanted;
    bufs, vecs, start, n := bufs0, vecs0, start0, n0;
    JobSizes(job);
    var b: nat := 0;
    while b < job.bpp
      invariant b <= job.bpp && Scan(job, bufs, vecs, start, n, k, b) && Usable(job, bad, k, b)
    {
      var f := job.FileBlock(k, b);
      ScanShape(job, bufs, vecs, start, n, k, b);
      UsableStep(job, bad, k, b);
      if f * job.bs >= job.fileSize {
        PassRest(job, bufs, vecs, start, n, k, b);
        UsableRest(job, bad, k, b);
        b := job.bpp;
        break;
      }
      if f in bad {
        UsableFails(job, bad, k, b);
        return false, bufs, vecs, start, n;
      }
      var block := if f in job.maps then job.maps[f] else 0;
      WantedIs(job, k, b);
      if block == 0 {
        bufs := ReadBatch(job, bufs, vecs, start, n, k, b);
        ScanGathered(job, bufs, k, b);
        vecs, start, n := [], 0, 0;
        PassHole(job, bufs, vecs, start, n, k, b);
        b := b + 1;
        continue;
      }
      var extend := vecs != [] && vecs[|vecs| - 1].page == k && vecs[|vecs| - 1].off + vecs[|vecs| - 1].len == b;
      if n != 0 && (block != start + n || n * job.bs > job.maxBytes - job.bs || (!extend && |vecs| == job.maxVecs)) {
        bufs := ReadBatch(job, bufs, vecs, start, n, k, b);
        vecs, start, n := [], 0, 0;
        extend := false;
      }
      var vecs1 := vecs;
      if n == 0 {
        Restart(job, bufs, vecs, start, block, k, b);
        start := block;
      }
      RoomForOne(job, bufs, vecs, start, n, k, b);
      assert n == 0 ==> vecs == [] && !extend;
      if extend {
        TargetsExtend(vecs);
        var last := vecs[|vecs| - 1];
        vecs1 := vecs[|vecs| - 1 := last.(len := last.len + 1)];
      } else {
        TargetsAdd(vecs, k, b);
        vecs1 := vecs + [Vec(k, b, 1)];
      }
      ScanSize(job, bufs, vecs, start, n, k, b);
      RequestIs(job, vecs1, n + 1);
      Joins(job, bufs, vecs, vecs1, start, n, k, b);
      vecs := vecs1;
      n := n + 1;
      b := b + 1;
    }
    ScanShape(job, bufs, vecs, start, n, k, job.bpp);
    PageDone(job, bufs, vecs, start, n, k);
    UsablePage(job, bad, k);
    ok := true;
  }

  lemma JobSizes(job: Job)
    requires job.Valid()
    ensures 0 < job.bpp && 0 < job.bs <= job.maxBytes && 0 < job.maxVecs
  {
  }

  lemma ScanShape(job: Job, bufs: seq<seq<Block>>, vecs: seq<Vec>, start: nat, n: nat, k: nat, b: nat)
    requires Scan(job, bufs, vecs, start, n, k, b)
    ensures Shaped(job, bufs) && Gathered(job, bufs, vecs, start, n, k, b)
  {
  }

  lemma ScanSize(job: Job, bufs: seq<seq<Block>>, vecs: seq<Vec>, start: nat, n: nat, k: nat, b: nat)
    requires Scan(job, bufs, vecs, start, n, k, b)
    ensures n == |Targets(vecs)|
  {
  }

  lemma ScanGathered(job: Job, bufs: seq<seq<Block>>, k: nat, b: nat)
    requires Scan(job, bufs, [], 0, 0, k, b)
    ensures Shaped(job, bufs)
  {
  }

  lemma WantedIs(job: Job, k: nat, b: nat)
    requires k < |job.pages|
    ensures var f := job.FileBlock(k, b);
      f * job.bs < job.fileSize ==> job.Wanted(k, b) == if f in job.maps then job.maps[f] else 0
  {
  }

  /** An empty request may begin anywhere. */
  lemma Restart(job: Job, bufs: seq<seq<Block>>, vecs: seq<Vec>, start: nat, start': nat, k: nat, b: nat)
    requires Scan(job, bufs, vecs, start, 0, k, b)
    ensures Scan(job, bufs, vecs, start', 0, k, b)
  {
    hide Settled;
    NoTargets(job, vecs);
  }

  lemma RoomForOne(job: Job, bufs: seq<seq<Block>>, vecs: seq<Vec>, start: nat, n: nat, k: nat, b: nat)
    requires job.Valid() && Scan(job, bufs, vecs, start, n, k, b)
    ensures forall i :: 0 <= i < |vecs| ==>
            vecs[i].page < |job.pages| && 0 < vecs[i].len && vecs[i].off + vecs[i].len <= job.bpp
    ensures |vecs| <= job.maxVecs && 0 < job.maxVecs
    ensures n == 0 ==> vecs == [] && (n + 1) * job.bs <= job.maxBytes
    ensures n * job.bs <= job.maxBytes - job.bs ==> (n + 1) * job.bs <= job.maxBytes
  {
    MulDistribute(n, 1, job.bs);
    if n == 0 && vecs != [] {
      NoTargets(job, vecs);
      PartNotEmpty(vecs);
    }
  }

  lemma PartNotEmpty(vecs: seq<Vec>)
    requires vecs != [] && vecs[|vecs| - 1].len > 0
    ensures Targets(vecs) != []
  {
    assert |Part(vecs[|vecs| - 1])| > 0;
  }

  lemma UsableStep(job: Job, bad: set<nat>, k: nat, b: nat)
    requires Usable(job, bad, k, b) && k < |job.pages| && b < job.bpp
    ensures !InFile(job, k, b) || job.FileBlock(k, b) !in bad ==> Usable(job, bad, k, b + 1)
    ensures InFile(job, k, b) <==> job.FileBlock(k, b) * job.bs < job.fileSize
  {
    if !InFile(job, k, b) || job.FileBlock(k, b) !in bad {
      forall p: Pos | p.page < |job.pages| && p.block < job.bpp && Before(p, k, b + 1) && InFile(job, p.page, p.block)
        ensures job.FileBlock(p.page, p.block) !in bad
      {
        assert Before(p, k, b) || p == Pos(k, b);
      }
    }
  }

  lemma UsableFails(job: Job, bad: set<nat>, k: nat, b: nat)
    requires k < |job.pages| && b < job.bpp && job.FileBlock(k, b) * job.bs < job.fileSize && job.FileBlock(k, b) in bad
    ensures !Usable(job, bad, k + 1, 0)
  {
    assert Before(Pos(k, b), k + 1, 0) && InFile(job, Pos(k, b).page, Pos(k, b).block);
  }

  lemma {:induction false} UsableRest(job: Job, bad: set<nat>, k: nat, b: nat)
    requires Usable(job, bad, k, b) && k < |job.pages| && b <= job.bpp
    requires b < job.bpp ==> job.FileBlock(k, b) * job.bs >= job.fileSize
    ensures Usable(job, bad, k, job.bpp)
    decreases job.bpp - b
  {
    hide Usable;
    if b < job.bpp {
      UsableStep(job, bad, k, b);
      MulOrder(job.FileBlock(k, b), job.FileBlock(k, b + 1), job.bs);
      UsableRest(job, bad, k, b + 1);
    }
  }

  lemma UsablePage(job: Job, bad: set<nat>, k: nat)
    requires Usable(job, bad, k, job.bpp)
    ensures Usable(job, bad, k + 1, 0)
  {
    forall p: Pos | p.page < |job.pages| && p.block < job.bpp && Before(p, k + 1, 0) && InFile(job, p.page, p.block)
      ensures job.FileBlock(p.page, p.block) !in bad
    {
      assert Before(p, k, job.bpp);
    }
  }

  // ---------------------------------------------------------------- the end of the file

  /** The first `valid` bytes of a block, then zeros. */
  function TrimBlock(block: Block, valid: int): Block {
    seq(|block|, i requires 0 <= i < |block| => if i < valid then block[i] else 0)
  }

  /**
   * ext2_readpages: every page is as block-by-block reads would leave it, with zeros for holes and behind the
   * end of the file. It fails exactly if the mapping of one of the file's blocks does; bad are those blocks.
   */
  method ReadPages(job: Job, bad: set<nat>, pages: seq<seq<Block>>) returns (ok: bool, bufs: seq<seq<Block>>)
    requires job.Valid() && Shaped(job, pages)
    ensures Shaped(job, bufs)
    ensures ok <==> forall p: Pos :: p.page < |job.pages| && p.block < job.bpp ==>
      var f := job.pages[p.page] * job.bpp + p.block; f * job.bs < job.fileSize ==> f !in bad
    ensures ok ==> forall p: Pos :: p.page < |job.pages| && p.block < job.bpp ==> |bufs[p.page][p.block]| == job.bs
    ensures ok ==> forall p: Pos, i: nat :: p.page < |job.pages| && p.block < job.bpp && i < job.bs ==>
      var f := job.pages[p.page] * job.bpp + p.block;
      bufs[p.page][p.block][i] ==
        if f * job.bs + i < job.fileSize && f in job.maps && job.maps[f] != 0 then job.disk[job.maps[f]][i] else 0
  {
    hide Gathered, Scan, RequestOk, Pending, Settled, Job.Valid, Usable, Targets, Job.FileBlock, Job.Wanted;
    bufs := pages;
    var vecs: seq<Vec>, start: nat, n: nat := [], 0, 0;
    Begins(job, pages, bad);
    var k: nat := 0;
    while k < |job.pages|
      invariant k <= |job.pages| && Shaped(job, bufs)
      invariant Gathered(job, bufs, vecs, start, n, k, 0) && Usable(job, bad, k, 0)
    {
      var zeros := seq(job.bpp, _ => ZeroBytes(job.bs));
      NextPage(job, bufs, vecs, start, n, k, zeros);
      var done;
      done, bufs, vecs, start, n := ReadPage(job, bad, bufs[k := zeros], vecs, start, n, k);
      if !done {
        UsableMore(job, bad, k + 1);
        AllUsable(job, bad);
        return false, bufs;
      }
      GatheredShape(job, bufs, vecs, start, n, k + 1);
      k := k + 1;
    }
    bufs := ReadBatch(job, bufs, vecs, start, n, k, 0);
    AllSettled(job, bufs);
    bufs := ZeroTail(job, bufs);
    AllUsable(job, bad);
    ok := true;
  }

  /** The last loop: the bytes behind the end of the file. */
  method ZeroTail(job: Job, pages: seq<seq<Block>>) returns (bufs: seq<seq<Block>>)
    requires job.Valid() && Shaped(job, pages)
    requires forall p: Pos :: p.page < |job.pages| && p.block < job.bpp ==>
      pages[p.page][p.block] == job.Expected(p.page, p.block)
    ensures Shaped(job, bufs)
    ensures forall p: Pos :: p.page < |job.pages| && p.block < job.bpp ==> |bufs[p.page][p.block]| == job.bs
    ensures forall p: Pos, i: nat :: p.page < |job.pages| && p.block < job.bpp && i < job.bs ==>
      var f := job.pages[p.page] * job.bpp + p.block;
      bufs[p.page][p.block][i] ==
        if f * job.bs + i < job.fileSize && f in job.maps && job.maps[f] != 0 then job.disk[job.maps[f]][i] else 0
  {
    hide Job.Valid, Job.Expected, TrimBlock, Final;
    bufs := pages;
    var i: nat := 0;
    while i < |job.pages|
      invariant i <= |job.pages| && Shaped(job, bufs)
      invariant forall k :: i <= k < |job.pages| ==> bufs[k] == pages[k]
      invariant forall p: Pos :: p.page < i && p.block < job.bpp ==>
                bufs[p.page][p.block] == Final(job, p.page, p.block)
    {
      var pos := job.pages[i] * job.bpp * job.bs;
      RowBefore(job, pages, i);
      if pos < job.fileSize && job.fileSize - pos < job.bpp * job.bs {
        var valid := job.fileSize - pos;
        bufs := bufs[i := seq(job.bpp, b requires 0 <= b < job.bpp => TrimBlock(pages[i][b], valid - b * job.bs))];
        RowAfter(job, pages, i, bufs[i]);
      }
      i := i + 1;
    }
    FinalBytes(job);
  }

  lemma RowAfter(job: Job, pages: seq<seq<Block>>, i: nat, row: seq<Block>)
    requires job.Valid() && Shaped(job, pages) && i < |job.pages| && |row| == job.bpp
    requires forall p: Pos :: p.page < |job.pages| && p.block < job.bpp ==>
      pages[p.page][p.block] == job.Expected(p.page, p.block)
    requires forall b :: 0 <= b < job.bpp ==>
      row[b] == TrimBlock(pages[i][b], job.fileSize - job.pages[i] * job.bpp * job.bs - b * job.bs)
    ensures forall b :: 0 <= b < job.bpp ==> row[b] == Final(job, i, b)
  {
    hide Job.Valid, Job.Expected, TrimBlock;
    RowBefore(job, pages, i);
  }

  /** Every byte of the trimmed blocks. */
  lemma FinalBytes(job: Job)
    requires job.Valid()
    ensures forall k: nat, b: nat :: k < |job.pages| && b < job.bpp ==> |Final(job, k, b)| == job.bs
    ensures forall k: nat, b: nat, i: nat :: k < |job.pages| && b < job.bpp && i < job.bs ==>
      var f := job.pages[k] * job.bpp + b;
      Final(job, k, b)[i] ==
        if f * job.bs + i < job.fileSize && f in job.maps && job.maps[f] != 0 then job.disk[job.maps[f]][i] else 0
  {
    forall k: nat, b: nat | k < |job.pages| && b < job.bpp ensures |Final(job, k, b)| == job.bs {
      assert |job.Expected(k, b)| == job.bs;
    }
    forall k: nat, b: nat, i: nat | k < |job.pages| && b < job.bpp && i < job.bs
      ensures
        var f := job.pages[k] * job.bpp + b;
        Final(job, k, b)[i] ==
          if f * job.bs + i < job.fileSize && f in job.maps && job.maps[f] != 0 then job.disk[job.maps[f]][i] else 0
    {
      assert |job.Expected(k, b)| == job.bs;
    }
  }

  lemma AllUsable(job: Job, bad: set<nat>)
    ensures Usable(job, bad, |job.pages|, 0) <==> forall p: Pos :: p.page < |job.pages| && p.block < job.bpp ==>
      var f := job.pages[p.page] * job.bpp + p.block; f * job.bs < job.fileSize ==> f !in bad
  {
    if Usable(job, bad, |job.pages|, 0) {
      forall p: Pos | p.page < |job.pages| && p.block < job.bpp && InFile(job, p.page, p.block)
        ensures job.FileBlock(p.page, p.block) !in bad
      {
        assert Before(p, |job.pages|, 0);
      }
    }
  }

  ghost function Final(job: Job, k: nat, b: nat): Block
    requires k < |job.pages|
  {
    TrimBlock(job.Expected(k, b), job.fileSize - job.FileBlock(k, b) * job.bs)
  }

  /** A page wholly inside the file, or behind its end, needs no trimming; else its blocks are trimmed. */
  lemma RowBefore(job: Job, pages: seq<seq<Block>>, i: nat)
    requires job.Valid() && Shaped(job, pages) && i < |job.pages|
    requires forall p: Pos :: p.page < |job.pages| && p.block < job.bpp ==>
      pages[p.page][p.block] == job.Expected(p.page, p.block)
    ensures
      var pos := job.pages[i] * job.bpp * job.bs;
      && (forall b :: 0 <= b < job.bpp ==>
         job.fileSize - pos - b * job.bs == job.fileSize - job.FileBlock(i, b) * job.bs)
      && (forall b :: 0 <= b < job.bpp ==> pages[i][b] == job.Expected(i, b))
      && (pos >= job.fileSize || job.fileSize - pos >= job.bpp * job.bs ==>
           forall b :: 0 <= b < job.bpp ==> pages[i][b] == Final(job, i, b))
  {
    var pos := job.pages[i] * job.bpp * job.bs;
    forall b | 0 <= b < job.bpp
      ensures job.fileSize - pos - b * job.bs == job.fileSize - job.FileBlock(i, b) * job.bs
      ensures pages[i][b] == job.Expected(i, b)
      ensures pos >= job.fileSize || job.fileSize - pos >= job.bpp * job.bs ==> pages[i][b] == Final(job, i, b)
    {
      MulDistribute(job.pages[i] * job.bpp, b, job.bs);
      var p := Pos(i, b);
      assert pages[p.page][p.block] == job.Expected(p.page, p.block);
      if pos >= job.fileSize || job.fileSize - pos >= job.bpp * job.bs {
        MulOrder(b + 1, job.bpp, job.bs);
        MulDistribute(b, 1, job.bs);
        MulOrder(0, b, job.bs);
        Untrimmed(job, i, b);
      }
    }
  }

  lemma Untrimmed(job: Job, k: nat, b: nat)
    requires job.Valid() && k < |job.pages|
    requires job.FileBlock(k, b) * job.bs >= job.fileSize || job.fileSize - job.FileBlock(k, b) * job.bs >= job.bs
    ensures Final(job, k, b) == job.Expected(k, b)
  {
    var block := job.Expected(k, b);
    assert |block| == job.bs;
  }

  lemma Begins(job: Job, pages: seq<seq<Block>>, bad: set<nat>)
    requires job.Valid() && Shaped(job, pages)
    ensures Gathered(job, pages, [], 0, 0, 0, 0) && Usable(job, bad, 0, 0)
  {
    EmptyRequest(job);
  }

  lemma GatheredShape(job: Job, bufs: seq<seq<Block>>, vecs: seq<Vec>, start: nat, n: nat, k: nat)
    requires Gathered(job, bufs, vecs, start, n, k, 0)
    ensures Shaped(job, bufs)
  {
  }

  lemma UsableMore(job: Job, bad: set<nat>, k: nat)
    requires !Usable(job, bad, k, 0) && k <= |job.pages|
    ensures !Usable(job, bad, |job.pages|, 0)
  {
    var p: Pos :| p.page < |job.pages| && p.block < job.bpp && Before(p, k, 0) && InFile(job, p.page, p.block)
                  && job.FileBlock(p.page, p.block) in bad;
    assert Before(p, |job.pages|, 0);
  }

  lemma AllSettled(job: Job, bufs: seq<seq<Block>>)
    requires Gathered(job, bufs, [], 0, 0, |job.pages|, 0)
    ensures Shaped(job, bufs)
    ensures forall p: Pos :: p.page < |job.pages| && p.block < job.bpp ==>
      bufs[p.page][p.block] == job.Expected(p.page, p.block)
  {
    forall p: Pos | p.page < |job.pages| && p.block < job.bpp
      ensures bufs[p.page][p.block] == job.Expected(p.page, p.block)
    {
      assert Before(p, |job.pages|, 0);
    }
  }
}
