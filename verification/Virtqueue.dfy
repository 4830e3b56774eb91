/** The split virtqueue driver (drivers/virtio/virtio_queue.c) and the device's side of the rings. */
module Virtqueue {
  import opened Arithmetic
  import opened VirtqueueRuns
  import opened Options
  import opened UniqueLists

  const VIRTQUEUE_DEFAULT_SIZE: nat := 128
  const VIRTQUEUE_END: nat := 0xffff
  const U16: nat := 0x10000

  datatype Buffer = Buffer(addr: nat, len: nat, deviceWrite: bool)

  /** struct virtq_desc; `hasNext` is VIRTQ_DESC_F_NEXT. */
  datatype Desc = Desc(buffer: Buffer, next: nat, hasNext: bool)

  datatype AddResult = Added | InvalidArgument | NoSpace

  function HeadOf(list: seq<nat>): nat {
    if list == [] then VIRTQUEUE_END else list[0]
  }

  /** The free list hangs together through the next fields and ends with VIRTQUEUE_END. */
  ghost predicate FreeLinked(desc: seq<Desc>, head: nat, list: seq<nat>) {
    && head == HeadOf(list)
    && (forall i :: 0 <= i < |list| ==> list[i] < |desc| && desc[list[i]].next == HeadOf(list[i + 1..]))
  }

  /** A chain is linked through NEXT flags and describes the buffers it was added for. */
  ghost predicate ChainLinked(desc: seq<Desc>, chain: seq<nat>, bufs: seq<Buffer>) {
    && |bufs| == |chain|
    && (forall i :: 0 <= i < |chain| ==>
          && chain[i] < |desc|
          && desc[chain[i]].buffer == bufs[i]
          && (desc[chain[i]].hasNext <==> i < |chain| - 1)
          && (i < |chain| - 1 ==> desc[chain[i]].next == chain[i + 1]))
  }

  ghost predicate ChainsLinked(desc: seq<Desc>, s: State, bufs: map<nat, seq<Buffer>>) {
    forall h :: h in s.inflight ==> h in bufs && ChainLinked(desc, s.inflight[h].chain, bufs[h])
  }

  /** The token slot of every head in flight holds the token it was added with. */
  ghost predicate TokensHeld(tokens: seq<Option<nat>>, s: State) {
    forall h :: h in s.inflight ==>
      h < |tokens| && s.inflight[h].serial < |s.tokens| && tokens[h] == Some(s.tokens[s.inflight[h].serial])
  }

  /** The entries of `queue` stand in the ring up to position `count`. */
  ghost predicate InRing<T>(ring: seq<T>, num: nat, count: nat, queue: seq<T>)
    requires 0 < num == |ring|
  {
    && |queue| <= count && |queue| <= num
    && (forall i :: 0 <= i < |queue| ==> ring[(count - |queue| + i) % num] == queue[i])
  }

  /** The ring slot of an index. */
  function Slot(idx: nat, num: nat): (i: nat)
    requires num > 0
    ensures i < num
  {
    idx % num
  }

  /** Producer and consumer index of a ring, wrapped to sixteen bits, around the outstanding entries. */
  ghost predicate RingOk<T>(ring: seq<T>, num: nat, producer: nat, consumer: nat, count: nat, queue: seq<T>)
    requires 0 < num == |ring|
  {
    && InRing(ring, num, count, queue)
    && producer == count % U16 && consumer == (count - |queue|) % U16
  }

  class Queue {
    const num: nat
    var desc: seq<Desc>
    var freeHead: nat
    var numFree: nat
    var tokens: seq<Option<nat>>
    var availRing: seq<nat>
    var availIdx: nat
    var deviceIdx: nat      // how far the device has read the available ring
    var usedRing: seq<Used>
    var usedIdx: nat
    var lastUsedIdx: nat

    ghost var s: State
    ghost var bufs: map<nat, seq<Buffer>>
    ghost var availCount: nat
    ghost var usedCount: nat

    ghost predicate Sized()
      reads this
    {
      && 0 < num <= VIRTQUEUE_DEFAULT_SIZE && U16 % num == 0
      && |desc| == |tokens| == |availRing| == |usedRing| == num
    }

    /** The wrapped indices stand for the unbounded counters. */
    ghost predicate Indices()
      requires Sized()
      reads this
    {
      && RingOk(availRing, num, availIdx, deviceIdx, availCount, s.avail)
      && RingOk(usedRing, num, usedIdx, lastUsedIdx, usedCount, s.used)
    }

    ghost predicate Valid()
      reads this
    {
      && Sized() && Inv(s, num) && Indices()
      && FreeLinked(desc, freeHead, s.free) && numFree == |s.free|
      && ChainsLinked(desc, s, bufs)
      && TokensHeld(tokens, s)
    }

    /** The set-up loop of virtqueue_create. */
    constructor (size: nat)
      requires 0 < size <= VIRTQUEUE_DEFAULT_SIZE && U16 % size == 0
      ensures Valid() && num == size
      ensures s == State(seq(size, i => i), [], {}, [], map[], [], [])
    {
      num := size;
      desc := seq(size, i requires 0 <= i < size =>
                  Desc(Buffer(0, 0, false), if i < size - 1 then i + 1 else VIRTQUEUE_END, false));
      freeHead, numFree := 0, size;
      tokens := seq(size, _ => None);
      availRing, availIdx, deviceIdx := seq(size, _ => 0), 0, 0;
      usedRing, usedIdx, lastUsedIdx := seq(size, _ => Used(0, 0)), 0, 0;
      s := State(seq(size, i => i), [], {}, [], map[], [], []);
      bufs, availCount, usedCount := map[], 0, 0;
      new;
      InitialState(s, size);
      assert forall i :: 0 <= i < size ==> s.free[i] == i;
    }

    /** virtqueue_add: one descriptor per buffer from the free list, published as one chain. */
    method Add(buffers: seq<Buffer>, token: nat) returns (r: AddResult)
      requires Valid()
      modifies this
      ensures Valid()
      ensures r == if buffers == [] then InvalidArgument else if old(numFree) < |buffers| then NoSpace else Added
      ensures r != Added ==> s == old(s)
      ensures r == Added ==>
              Next(old(s), s, VirtqueueRuns.Add(|buffers|, token)) && bufs == old(bufs)[old(freeHead) := buffers]
    {
      if buffers == [] {
        return InvalidArgument;
      }
      if numFree < |buffers| {
        return NoSpace;
      }
      AddChain(buffers, token);
      r := Added;
    }

    method AddChain(buffers: seq<Buffer>, token: nat)
      requires Valid() && 0 < |buffers| <= numFree
      modifies this
      ensures Valid()
      ensures Next(old(s), s, VirtqueueRuns.Add(|buffers|, token)) && bufs == old(bufs)[old(freeHead) := buffers]
    {
      hide Inv, RingOk, FreeLinked, ChainLinked, Next, Untouched, NoDup, AddState, ChainsLinked, TokensHeld, Slot;
      FreeFacts(desc, freeHead, s.free, num, s);
      var thisHead := freeHead;
      TakeChain(buffers, token);
      ghost var s' := AddState(s, |buffers|, token);
      AddKeeps(s, s', |buffers|, token, num, old(desc), desc, bufs, buffers, tokens);
      Publish(availRing, num, availIdx, deviceIdx, availCount, s.avail, thisHead);
      tokens, availRing, availIdx :=
        tokens[thisHead := Some(token)], availRing[Slot(availIdx, num) := thisHead], (availIdx + 1) % U16;
      availCount, s, bufs := availCount + 1, s', bufs[thisHead := buffers];
    }

    /** The loop of virtqueue_add. */
    method TakeChain(buffers: seq<Buffer>, ghost token: nat)
      requires 0 < |buffers| <= |s.free| && |desc| == num && num <= VIRTQUEUE_DEFAULT_SIZE
      requires FreeLinked(desc, freeHead, s.free) && NoDup(s.free) && numFree == |s.free|
      modifies this`desc, this`freeHead, this`numFree
      ensures |desc| == num && numFree == |s.free| - |buffers|
      ensures FreeLinked(desc, freeHead, s.free[|buffers|..])
      ensures ChainLinked(desc, s.free[..|buffers|], buffers)
      ensures Untouched(old(desc), desc, s.free[..|buffers|])
    {
      hide FreeLinked, ChainLinked, TakenSoFar, Untouched, NoDup;
      var n := |buffers|;
      var i := 0;
      assert s.free[0..] == s.free && s.free[..0] == [];
      NothingTaken(desc, s.free, buffers);
      while i < n
        invariant 0 <= i <= n && |desc| == num && numFree == |s.free| - i
        invariant FreeLinked(desc, freeHead, s.free[i..])
        invariant TakenSoFar(desc, s.free, buffers, i)
        invariant Untouched(old(desc), desc, s.free[..i])
      {
        TakeStep(old(desc), desc, freeHead, s.free, buffers, i);
        var current := freeHead;
        freeHead := desc[current].next;
        var last := i == n - 1;
        desc := desc[current := Desc(buffers[i], if last then VIRTQUEUE_END else freeHead, !last)];
        numFree := numFree - 1;
        i := i + 1;
      }
      TakenAll(desc, s.free, buffers);
    }

    /** The device takes the next published head. */
    method DeviceTake() returns (head: Option<nat>)
      requires Valid()
      modifies this`s, this`deviceIdx
      ensures Valid()
      ensures head.None? <==> old(s.avail) == []
      ensures head.None? ==> s == old(s)
      ensures head.Some? ==>
                && Next(old(s), s, Take) && head.value == old(s.avail)[0]
                && head.value in s.inflight && head.value in bufs
                && ChainLinked(desc, s.inflight[head.value].chain, bufs[head.value])
    {
      hide Inv, RingOk, FreeLinked, ChainLinked, NoDup;
      RingEmpty(availRing, num, availIdx, deviceIdx, availCount, s.avail);
      if deviceIdx == availIdx {
        return None;
      }
      Consume(availRing, num, availIdx, deviceIdx, availCount, s.avail);
      head := Some(availRing[Slot(deviceIdx, num)]);
      QueuedInFlight(s, num);
      deviceIdx := (deviceIdx + 1) % U16;
      s := s.(avail := s.avail[1..], taken := s.taken + {s.avail[0]});
      NextInv(old(s), s, Take, num);
    }

    /** The device reports a head it took as used. */
    method DeviceComplete(head: nat, len: nat)
      requires Valid() && head in s.taken
      modifies this
      ensures Valid() && Next(old(s), s, Complete(head, len))
    {
      hide Inv, RingOk, FreeLinked, ChainLinked;
      RoomInUsed(s, num);
      Publish(usedRing, num, usedIdx, lastUsedIdx, usedCount, s.used, Used(head, len));
      usedRing := usedRing[Slot(usedIdx, num) := Used(head, len)];
      usedIdx := (usedIdx + 1) % U16;
      usedCount := usedCount + 1;
      s := s.(taken := s.taken - {head}, used := s.used + [Used(head, len)]);
      NextInv(old(s), s, Complete(head, len), num);
    }

    /** virtqueue_get_buf: the token of the oldest unreaped completion; its chain goes back to the free list. */
    method GetBuf() returns (token: Option<nat>, len: nat)
      requires Valid()
      modifies this
      ensures Valid()
      ensures token.None? <==> old(s.used) == []
      ensures token.None? ==> s == old(s)
      ensures token.Some? ==>
                && Next(old(s), s, Get) && len == old(s.used)[0].len
                && |s.returned| > 0 && s.returned[|s.returned| - 1] < |s.tokens|
                && token.value == s.tokens[s.returned[|s.returned| - 1]]
    {
      hide Inv, RingOk, FreeLinked, ChainLinked, ChainsLinked, NoDup, Reverse, GetState, Next, Untouched, Slot;
      RingEmpty(usedRing, num, usedIdx, lastUsedIdx, usedCount, s.used);
      token, len := None, 0;
      if lastUsedIdx == usedIdx {
        return;
      }
      Consume(usedRing, num, usedIdx, lastUsedIdx, usedCount, s.used);
      var elem := usedRing[Slot(lastUsedIdx, num)];
      var head := elem.head;
      ReapFacts(s, num);
      ghost var serial := s.inflight[head].serial;
      assert tokens[head] == Some(s.tokens[serial]) && head in s.inflight;
      ChainOf(desc, s, bufs, head);
      hide TokensHeld;
      if head >= num {
        return;
      }
      len := elem.len;
      token := tokens[head];
      ReturnChain(head);
      ghost var s' := GetState(s);
      GetKeeps(s, s', num, old(desc), desc, bufs, tokens);
      tokens, lastUsedIdx := tokens[head := None], (lastUsedIdx + 1) % U16;
      s := s';
    }

    /** The loop of virtqueue_get_buf: the whole chain is pushed, descriptor by descriptor. */
    method ReturnChain(first: nat)
      requires |desc| == num && first in s.inflight && first in bufs
      requires var c := s.inflight[first].chain;
               c != [] && c[0] == first && NoDup(c) && ChainLinked(desc, c, bufs[first])
               && forall d :: d in c ==> d !in s.free
      requires FreeLinked(desc, freeHead, s.free) && numFree == |s.free|
      modifies this`desc, this`freeHead, this`numFree
      ensures |desc| == num && numFree == |s.free| + |s.inflight[first].chain|
      ensures FreeLinked(desc, freeHead, Reverse(s.inflight[first].chain) + s.free)
      ensures Untouched(old(desc), desc, s.inflight[first].chain)
    {
      hide FreeLinked, Reverse, Untouched, NoDup;
      ghost var c := s.inflight[first].chain;
      var head := first;
      ghost var k := 0;
      var more := true;
      NothingReturned(desc, c, s.free);
      while more
        invariant 0 <= k <= |c| && |desc| == num && numFree == |s.free| + k
        invariant more <==> k < |c|
        invariant more ==> head == c[k]
        invariant FreeLinked(desc, freeHead, Reverse(c[..k]) + s.free)
        invariant Untouched(old(desc), desc, c[..k])
        decreases |c| - k
      {
        ReturnStep(old(desc), desc, freeHead, c, s.free, k, bufs[first]);
        var next := desc[head].next;
        var hasNext := desc[head].hasNext;
        desc := desc[head := desc[head].(hasNext := false, next := freeHead)];
        freeHead := head;
        numFree := numFree + 1;
        more := hasNext;
        head := next;
        k := k + 1;
      }
      assert c[..k] == c;
    }
  }

  function AddState(s: State, n: nat, token: nat): State
    requires 0 < n <= |s.free|
  {
    s.(free := s.free[n..], avail := s.avail + [s.free[0]],
       inflight := s.inflight[s.free[0] := Request(|s.tokens|, s.free[..n])],
       tokens := s.tokens + [token])
  }

  function GetState(s: State): State
    requires s.used != [] && s.used[0].head in s.inflight
  {
    var r := s.inflight[s.used[0].head];
    s.(used := s.used[1..], inflight := s.inflight - {s.used[0].head},
       free := Reverse(r.chain) + s.free, returned := s.returned + [r.serial])
  }

  lemma AddIsNext(s: State, s': State, n: nat, token: nat)
    requires 0 < n <= |s.free| && s' == AddState(s, n, token)
    ensures Next(s, s', VirtqueueRuns.Add(n, token))
  {
  }

  lemma GetIsNext(s: State)
    requires s.used != [] && s.used[0].head in s.inflight
    ensures Next(s, GetState(s), Get)
  {
  }

  // ---------------------------------------------------------------- linked lists in the descriptor table

  lemma FreeFacts(desc: seq<Desc>, head: nat, list: seq<nat>, num: nat, s: State)
    requires FreeLinked(desc, head, list) && list == s.free && Inv(s, num)
    ensures NoDup(s.free)
    ensures list != [] ==> head == list[0] < num && head !in s.inflight
  {
    FirstIn(list);
    if list != [] && list[0] in s.inflight {
      HeadBusy(s, num, list[0]);
      assert false;
    }
  }

  /** Descriptors outside `where` are as before. */
  ghost predicate Untouched(desc: seq<Desc>, desc': seq<Desc>, where: seq<nat>) {
    |desc'| == |desc| && forall d: nat :: d < |desc| && d !in where ==> desc'[d] == desc[d]
  }

  /** The first `i` descriptors of the new chain are filled in. */
  ghost predicate TakenSoFar(desc: seq<Desc>, free: seq<nat>, buffers: seq<Buffer>, i: nat)
    requires i <= |buffers| <= |free|
  {
    forall k :: 0 <= k < i ==> free[k] < |desc| && desc[free[k]] == ChainDesc(free, buffers, k)
  }

  function ChainDesc(free: seq<nat>, buffers: seq<Buffer>, k: nat): Desc
    requires k < |buffers| <= |free|
  {
    Desc(buffers[k], if k < |buffers| - 1 then free[k + 1] else VIRTQUEUE_END, k < |buffers| - 1)
  }

  lemma NothingTaken(desc: seq<Desc>, free: seq<nat>, buffers: seq<Buffer>)
    requires |buffers| <= |free|
    ensures TakenSoFar(desc, free, buffers, 0) && Untouched(desc, desc, [])
  {
  }

  /** One round of the loop in virtqueue_add. */
  lemma TakeStep(desc0: seq<Desc>, desc: seq<Desc>, head: nat, free: seq<nat>, buffers: seq<Buffer>, i: nat)
    requires i < |buffers| <= |free| && NoDup(free) && FreeLinked(desc, head, free[i..])
    requires TakenSoFar(desc, free, buffers, i) && Untouched(desc0, desc, free[..i])
    ensures head < |desc|
    ensures var last := i == |buffers| - 1;
            var desc' := desc[head := Desc(buffers[i], if last then VIRTQUEUE_END else desc[head].next, !last)];
            && FreeLinked(desc', desc[head].next, free[i + 1..])
            && TakenSoFar(desc', free, buffers, i + 1) && Untouched(desc0, desc', free[..i + 1])
  {
    var rest := free[i..];
    assert rest[0] == free[i] == head && rest[1..] == free[i + 1..];
    var last := i == |buffers| - 1;
    var v := Desc(buffers[i], if last then VIRTQUEUE_END else desc[head].next, !last);
    PopLinked(desc, rest, v);
    assert desc[head].next == HeadOf(free[i + 1..]);
    assert free[..i + 1] == free[..i] + [free[i]];
  }

  lemma TakenAll(desc: seq<Desc>, free: seq<nat>, buffers: seq<Buffer>)
    requires |buffers| <= |free| && TakenSoFar(desc, free, buffers, |buffers|)
    ensures ChainLinked(desc, free[..|buffers|], buffers)
  {
    var chain := free[..|buffers|];
    forall i | 0 <= i < |chain|
      ensures chain[i] < |desc| && desc[chain[i]].buffer == buffers[i]
           && (desc[chain[i]].hasNext <==> i < |chain| - 1)
           && (i < |chain| - 1 ==> desc[chain[i]].next == chain[i + 1])
    {
      assert free[i] < |desc| && desc[free[i]] == ChainDesc(free, buffers, i);
    }
  }

  lemma PopLinked(desc: seq<Desc>, list: seq<nat>, v: Desc)
    requires list != [] && FreeLinked(desc, list[0], list) && NoDup(list)
    ensures FreeLinked(desc[list[0] := v], desc[list[0]].next, list[1..])
  {
    var tail := list[1..];
    forall i | 0 <= i < |tail| ensures tail[i] < |desc| && desc[list[0] := v][tail[i]].next == HeadOf(tail[i + 1..]) {
      assert tail[i] == list[i + 1] && tail[i + 1..] == list[i + 2..];
    }
  }

  lemma PushLinked(desc: seq<Desc>, head: nat, list: seq<nat>, d: nat, v: Desc)
    requires FreeLinked(desc, head, list) && d < |desc| && d !in list && v.next == head
    ensures FreeLinked(desc[d := v], d, [d] + list)
  {
    var longer := [d] + list;
    forall i | 0 <= i < |longer| ensures longer[i] < |desc| && desc[d := v][longer[i]].next == HeadOf(longer[i + 1..]) {
      if i == 0 {
        assert longer[1..] == list;
      } else {
        assert longer[i] == list[i - 1] && longer[i + 1..] == list[i..];
      }
    }
  }

  lemma NothingReturned(desc: seq<Desc>, c: seq<nat>, free: seq<nat>)
    ensures Reverse(c[..0]) + free == free && Untouched(desc, desc, c[..0])
  {
  }

  /** One round of the loop in virtqueue_get_buf. */
  lemma ReturnStep(desc0: seq<Desc>, desc: seq<Desc>, head: nat, c: seq<nat>, free: seq<nat>, k: nat, bufs: seq<Buffer>)
    requires k < |c| && NoDup(c) && ChainLinked(desc0, c, bufs) && (forall d :: d in c ==> d !in free)
    requires FreeLinked(desc, head, Reverse(c[..k]) + free) && Untouched(desc0, desc, c[..k])
    ensures c[k] < |desc| == |desc0|
    ensures desc[c[k]].hasNext <==> k < |c| - 1
    ensures k < |c| - 1 ==> desc[c[k]].next == c[k + 1]
    ensures var desc' := desc[c[k] := desc[c[k]].(hasNext := false, next := head)];
            FreeLinked(desc', c[k], Reverse(c[..k + 1]) + free) && Untouched(desc0, desc', c[..k + 1])
  {
    ReverseStep(c, k, free);
    var d := c[k];
    assert d !in c[..k];
    assert desc[d] == desc0[d];
    PushLinked(desc, head, Reverse(c[..k]) + free, d, desc[d].(hasNext := false, next := head));
    assert c[..k + 1] == c[..k] + [d];
  }

  lemma ReverseStep(c: seq<nat>, k: nat, free: seq<nat>)
    requires k < |c| && NoDup(c) && forall d :: d in c ==> d !in free
    ensures Reverse(c[..k + 1]) + free == [c[k]] + (Reverse(c[..k]) + free)
    ensures c[k] !in Reverse(c[..k]) + free
  {
    assert c[..k + 1] == c[..k] + [c[k]];
    ReverseAppend(c[..k], c[k]);
    assert c[k] in c;
    if c[k] in c[..k] {
      assert false;
    }
  }

  lemma {:induction false} ReverseAppend(s: seq<nat>, x: nat)
    ensures Reverse(s + [x]) == [x] + Reverse(s)
  {
    if s == [] {
      assert s + [x] == [x];
      assert [x][1..] == [];
    } else {
      assert (s + [x])[1..] == s[1..] + [x];
      ReverseAppend(s[1..], x);
    }
  }

  // ---------------------------------------------------------------- rings and wrapped indices

  /** The slot of a wrapped index is the slot of the counter, because num divides 2^16. */
  lemma WrapIndex(count: nat, num: nat)
    requires num > 0 && U16 % num == 0
    ensures (count % U16) % num == count % num
  {
    AlignFacts(count, U16);
    ModTransitive(AlignDown(count, U16), U16, num);
    ModShift(count % U16, AlignDown(count, U16), num);
  }

  lemma NextU16(count: nat)
    ensures (count % U16 + 1) % U16 == (count + 1) % U16
  {
  }

  /** Equal wrapped indices mean equal counters, as long as fewer than 2^16 entries are outstanding. */
  lemma SameU16(a: int, b: int, num: nat)
    requires 0 <= a <= b <= a + num && num < U16
    ensures a % U16 == b % U16 <==> a == b
  {
  }

  lemma RingEmpty<T>(ring: seq<T>, num: nat, producer: nat, consumer: nat, count: nat, queue: seq<T>)
    requires 0 < num == |ring| < U16 && RingOk(ring, num, producer, consumer, count, queue)
    ensures consumer == producer <==> queue == []
  {
    SameU16(count - |queue|, count, num);
  }

  lemma Publish<T>(ring: seq<T>, num: nat, producer: nat, consumer: nat, count: nat, queue: seq<T>, x: T)
    requires 0 < num == |ring| && U16 % num == 0 && RingOk(ring, num, producer, consumer, count, queue) && |queue| < num
    ensures RingOk(ring[Slot(producer, num) := x], num, (producer + 1) % U16, consumer, count + 1, queue + [x])
  {
    WrapIndex(count, num);
    NextU16(count);
    PublishRing(ring, num, count, queue, x);
  }

  lemma Consume<T>(ring: seq<T>, num: nat, producer: nat, consumer: nat, count: nat, queue: seq<T>)
    requires 0 < num == |ring| && U16 % num == 0 && RingOk(ring, num, producer, consumer, count, queue) && queue != []
    ensures ring[Slot(consumer, num)] == queue[0]
    ensures RingOk(ring, num, producer, (consumer + 1) % U16, count, queue[1..])
  {
    RingFront(ring, num, count, queue);
    WrapIndex(count - |queue|, num);
    PopRing(ring, num, count, queue);
    NextU16(count - |queue|);
  }

  lemma RingFront<T>(ring: seq<T>, num: nat, count: nat, queue: seq<T>)
    requires 0 < num == |ring| && InRing(ring, num, count, queue) && queue != []
    ensures |queue| <= count && ring[(count - |queue|) % num] == queue[0]
  {
    assert queue[0] == ring[(count - |queue| + 0) % num];
  }

  /** Writing the next slot of a ring that is not full overwrites nothing outstanding. */
  lemma PublishRing<T>(ring: seq<T>, num: nat, count: nat, queue: seq<T>, x: T)
    requires 0 < num == |ring| && InRing(ring, num, count, queue) && |queue| < num
    ensures InRing(ring[count % num := x], num, count + 1, queue + [x])
  {
    var ring', queue' := ring[count % num := x], queue + [x];
    forall i | 0 <= i < |queue'| ensures ring'[(count + 1 - |queue'| + i) % num] == queue'[i] {
      if i < |queue| {
        DistinctSlots(count - |queue| + i, count, num);
        assert ring[(count - |queue| + i) % num] == queue[i];
      }
    }
  }

  lemma DistinctSlots(a: int, b: int, n: int)
    requires n > 0 && 0 <= a < b < a + n
    ensures a % n != b % n
  {
    if a % n == b % n {
      MulDistribute(b / n, a / n, n);
      MulAtLeast(b / n - a / n, n);
      assert false;
    }
  }

  lemma PopRing<T>(ring: seq<T>, num: nat, count: nat, queue: seq<T>)
    requires 0 < num == |ring| && InRing(ring, num, count, queue) && queue != []
    ensures InRing(ring, num, count, queue[1..])
  {
    var tail := queue[1..];
    forall i | 0 <= i < |tail| ensures ring[(count - |tail| + i) % num] == tail[i] {
      assert ring[(count - |queue| + (i + 1)) % num] == queue[i + 1];
    }
  }

  // ---------------------------------------------------------------- what the queues leave room for

  /** With a free descriptor left, the available ring has a free slot. */
  lemma RoomInRing(s: State, num: nat)
    requires Inv(s, num) && s.free != []
    ensures |s.avail| < num
  {
    var h := s.free[0];
    FirstIn(s.free);
    forall x | x in s.avail ensures x < num && x != h {
      assert x in s.inflight;
      HeadBusy(s, num, x);
    }
    ConcatNoDup(s.avail, [h]);
    Pigeonhole(s.avail + [h], num);
  }

  /** While the device still works on a head, the used ring has a free slot. */
  lemma RoomInUsed(s: State, num: nat)
    requires Inv(s, num) && s.taken != {}
    ensures |s.used| < num
  {
    var h :| h in s.taken;
    var heads := Heads(s.used);
    HeadBusy(s, num, h);
    forall x | x in heads ensures x < num && x != h {
      assert x in s.inflight;
      HeadBusy(s, num, x);
    }
    ConcatNoDup(heads, [h]);
    Pigeonhole(heads + [h], num);
  }

  lemma QueuedInFlight(s: State, num: nat)
    requires Inv(s, num) && s.avail != []
    ensures s.avail[0] in s.inflight
  {
    FirstIn(s.avail);
  }

  lemma ReapFacts(s: State, num: nat)
    requires Inv(s, num) && s.used != []
    ensures var h := s.used[0].head;
            && h in s.inflight && h < num
            && s.inflight[h].chain != [] && s.inflight[h].chain[0] == h && NoDup(s.inflight[h].chain)
            && (forall d :: d in s.inflight[h].chain ==> d !in s.free)
  {
    FirstIn(Heads(s.used));
    var h := s.used[0].head;
    assert Heads(s.used)[0] == h;
    HeadBusy(s, num, h);
    assert ChainOk(s, num, h);
  }

  /** Chains that were in flight before are untouched by an add, and the new one is linked. */
  lemma AddChains(s: State, n: nat, token: nat, num: nat, desc: seq<Desc>, desc': seq<Desc>,
                  bufs: map<nat, seq<Buffer>>, buffers: seq<Buffer>)
    requires Inv(s, num) && 0 < n <= |s.free| && |desc| == |desc'| == num
    requires ChainsLinked(desc, s, bufs) && ChainLinked(desc', s.free[..n], buffers)
    requires Untouched(desc, desc', s.free[..n])
    ensures ChainsLinked(desc', AddState(s, n, token), bufs[s.free[0] := buffers])
  {
    var s', bufs' := AddState(s, n, token), bufs[s.free[0] := buffers];
    assert forall d :: d in s.free[..n] ==> d in s.free;
    forall h | h in s'.inflight ensures h in bufs' && ChainLinked(desc', s'.inflight[h].chain, bufs'[h]) {
      if h != s.free[0] {
        assert ChainOk(s, num, h);
        ChainFrame(desc, desc', s.inflight[h].chain, bufs[h]);
      }
    }
  }

  lemma ChainOf(desc: seq<Desc>, s: State, bufs: map<nat, seq<Buffer>>, h: nat)
    requires ChainsLinked(desc, s, bufs) && h in s.inflight
    ensures h in bufs && ChainLinked(desc, s.inflight[h].chain, bufs[h])
  {
  }

  lemma AddTokens(s: State, n: nat, token: nat, num: nat, tokens: seq<Option<nat>>)
    requires Inv(s, num) && 0 < n <= |s.free| && |tokens| == num && TokensHeld(tokens, s) && s.free[0] < num
    ensures TokensHeld(tokens[s.free[0] := Some(token)], AddState(s, n, token))
  {
    hide Inv;
  }

  lemma GetTokens(s: State, num: nat, tokens: seq<Option<nat>>)
    requires s.used != [] && s.used[0].head in s.inflight && TokensHeld(tokens, s) && s.used[0].head < |tokens|
    ensures TokensHeld(tokens[s.used[0].head := None], GetState(s))
  {
  }

  lemma AddFields(s: State, n: nat, token: nat)
    requires 0 < n <= |s.free|
    ensures AddState(s, n, token).free == s.free[n..] && AddState(s, n, token).avail == s.avail + [s.free[0]]
    ensures AddState(s, n, token).used == s.used
  {
  }

  lemma GetFields(s: State)
    requires s.used != [] && s.used[0].head in s.inflight
    ensures var s' := GetState(s);
            var r := s.inflight[s.used[0].head];
            s'.free == Reverse(r.chain) + s.free && s'.avail == s.avail && s'.used == s.used[1..]
            && s'.tokens == s.tokens && s'.returned == s.returned + [r.serial]
  {
  }

  lemma AddKeeps(s: State, s': State, n: nat, token: nat, num: nat, desc: seq<Desc>, desc': seq<Desc>,
                 bufs: map<nat, seq<Buffer>>, buffers: seq<Buffer>, tokens: seq<Option<nat>>)
    requires Inv(s, num) && 0 < n <= |s.free| && |desc| == |desc'| == |tokens| == num && s.free[0] < num
    requires ChainsLinked(desc, s, bufs) && ChainLinked(desc', s.free[..n], buffers)
    requires Untouched(desc, desc', s.free[..n]) && TokensHeld(tokens, s)
    requires s' == AddState(s, n, token)
    ensures Inv(s', num) && Next(s, s', VirtqueueRuns.Add(n, token)) && |s.avail| < num
    ensures ChainsLinked(desc', s', bufs[s.free[0] := buffers]) && TokensHeld(tokens[s.free[0] := Some(token)], s')
    ensures s'.free == s.free[n..] && s'.avail == s.avail + [s.free[0]] && s'.used == s.used
  {
    hide Inv, ChainsLinked, TokensHeld, Untouched, AddState, Next;
    RoomInRing(s, num);
    AddIsNext(s, s', n, token);
    NextInv(s, s', VirtqueueRuns.Add(n, token), num);
    AddTokens(s, n, token, num, tokens);
    AddFields(s, n, token);
    AddChains(s, n, token, num, desc, desc', bufs, buffers);
  }

  lemma GetKeeps(s: State, s': State, num: nat, desc: seq<Desc>, desc': seq<Desc>,
                 bufs: map<nat, seq<Buffer>>, tokens: seq<Option<nat>>)
    requires Inv(s, num) && s.used != [] && s.used[0].head in s.inflight && |desc| == |desc'| == |tokens| == num
    requires s.used[0].head < num && TokensHeld(tokens, s) && s' == GetState(s)
    requires ChainsLinked(desc, s, bufs) && Untouched(desc, desc', s.inflight[s.used[0].head].chain)
    ensures Inv(s', num) && Next(s, s', Get)
    ensures ChainsLinked(desc', s', bufs) && TokensHeld(tokens[s.used[0].head := None], s')
    ensures var r := s.inflight[s.used[0].head];
            s'.free == Reverse(r.chain) + s.free && s'.avail == s.avail && s'.used == s.used[1..]
            && s'.tokens == s.tokens && s'.returned == s.returned + [r.serial]
  {
    hide Inv, ChainsLinked, TokensHeld, Untouched, GetState, Next, Reverse;
    GetIsNext(s);
    NextInv(s, s', Get, num);
    GetTokens(s, num, tokens);
    GetFields(s);
    GetChains(s, num, desc, desc', bufs);
  }

  lemma ChainFrame(desc: seq<Desc>, desc': seq<Desc>, chain: seq<nat>, bufs: seq<Buffer>)
    requires ChainLinked(desc, chain, bufs) && |desc'| == |desc|
    requires forall d :: d in chain && d < |desc| ==> desc'[d] == desc[d]
    ensures ChainLinked(desc', chain, bufs)
  {
    assert forall i :: 0 <= i < |chain| ==> chain[i] in chain;
  }

  lemma GetChains(s: State, num: nat, desc: seq<Desc>, desc': seq<Desc>, bufs: map<nat, seq<Buffer>>)
    requires Inv(s, num) && s.used != [] && s.used[0].head in s.inflight && |desc| == |desc'| == num
    requires ChainsLinked(desc, s, bufs) && Untouched(desc, desc', s.inflight[s.used[0].head].chain)
    ensures ChainsLinked(desc', GetState(s), bufs)
  {
    forall h | h in GetState(s).inflight ensures h in bufs && ChainLinked(desc', s.inflight[h].chain, bufs[h]) {
      ChainFrame(desc, desc', s.inflight[h].chain, bufs[h]);
    }
  }

  lemma InitialState(s: State, num: nat)
    requires s == State(seq(num, i => i), [], {}, [], map[], [], [])
    ensures Inv(s, num)
  {
    assert forall i :: 0 <= i < num ==> s.free[i] == i;
    forall d: nat | d < num ensures d in s.free {
      assert s.free[d] == d;
    }
    assert Heads(s.used) == [];
  }
}
