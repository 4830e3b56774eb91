/**
 Every run of the split virtqueue protocol between the driver of drivers/virtio/virtio_queue.c and a
 conforming device (section 2.6, Split Virtqueues, of VIRTIO 1.1), on unbounded counters.

 Each added request gets a serial number; `tokens` records the token of every request ever added and
 `returned` the serials handed back, in order.
 */
module VirtqueueRuns {
  import opened UniqueLists

  datatype Request = Request(serial: nat, chain: seq<nat>)

  datatype Used = Used(head: nat, len: nat)

  datatype State = State(
    free: seq<nat>,                 // the free list, first element first
    avail: seq<nat>,                // published heads the device has not taken
    taken: set<nat>,                // heads the device works on
    used: seq<Used>,                // completions the driver has not reaped
    inflight: map<nat, Request>,    // by head descriptor
    tokens: seq<nat>,
    returned: seq<nat>)

  datatype Action = Add(n: nat, token: nat) | Take | Complete(head: nat, len: nat) | Get

  function Reverse(s: seq<nat>): (r: seq<nat>)
    ensures |r| == |s|
    ensures forall x :: x in r <==> x in s
  {
    if s == [] then [] else Reverse(s[1..]) + [s[0]]
  }

  ghost function Heads(used: seq<Used>): seq<nat> {
    seq(|used|, i requires 0 <= i < |used| => used[i].head)
  }

  ghost predicate Next(s: State, s': State, a: Action) {
    match a
    case Add(n, token) =>
      && 0 < n <= |s.free|
      && s' == s.(free := s.free[n..], avail := s.avail + [s.free[0]],
                  inflight := s.inflight[s.free[0] := Request(|s.tokens|, s.free[..n])],
                  tokens := s.tokens + [token])
    case Take =>
      && s.avail != []
      && s' == s.(avail := s.avail[1..], taken := s.taken + {s.avail[0]})
    case Complete(head, len) =>
      && head in s.taken
      && s' == s.(taken := s.taken - {head}, used := s.used + [Used(head, len)])
    case Get =>
      && s.used != [] && s.used[0].head in s.inflight
      && var r := s.inflight[s.used[0].head];
         s' == s.(used := s.used[1..], inflight := s.inflight - {s.used[0].head},
                  free := Reverse(r.chain) + s.free, returned := s.returned + [r.serial])
  }

  /** Free list and chains split up the descriptors. */
  ghost predicate Descriptors(s: State, num: nat) {
    && NoDup(s.free) && (forall d :: d in s.free ==> d < num)
    && (forall h :: h in s.inflight ==> ChainOk(s, num, h))
    && (forall h, k, d :: h in s.inflight && k in s.inflight && d in s.inflight[h].chain && d in s.inflight[k].chain ==>
       h == k)
    && (forall d: nat :: d < num ==> d in s.free || Busy(s, d))
  }

  ghost predicate ChainOk(s: State, num: nat, h: nat)
    requires h in s.inflight
  {
    var c := s.inflight[h].chain;
    c != [] && c[0] == h && NoDup(c) && forall d :: d in c ==> d < num && d !in s.free
  }

  ghost predicate Busy(s: State, d: nat) {
    exists h :: h in s.inflight && d in s.inflight[h].chain
  }

  /** Every head in flight is published, taken or completed, and in one of these ways only. */
  ghost predicate Queues(s: State) {
    && NoDup(s.avail) && NoDup(Heads(s.used))
    && (forall h :: h in s.avail ==> h in s.inflight && h !in s.taken && h !in Heads(s.used))
    && (forall h :: h in s.taken ==> h in s.inflight && h !in Heads(s.used))
    && (forall h :: h in Heads(s.used) ==> h in s.inflight)
    && (forall h :: h in s.inflight ==> h in s.avail || h in s.taken || h in Heads(s.used))
  }

  /** Every serial is in flight once or has been returned once. */
  ghost predicate Serials(s: State) {
    && (forall h :: h in s.inflight ==> s.inflight[h].serial < |s.tokens| && s.inflight[h].serial !in s.returned)
    && (forall h, k :: h in s.inflight && k in s.inflight && s.inflight[h].serial == s.inflight[k].serial ==> h == k)
    && NoDup(s.returned) && (forall q :: q in s.returned ==> q < |s.tokens|)
    && (forall q: nat :: q < |s.tokens| ==> q in s.returned || Pending(s, q))
  }

  ghost predicate Pending(s: State, q: nat) {
    exists h :: h in s.inflight && s.inflight[h].serial == q
  }

  ghost predicate Inv(s: State, num: nat) {
    Descriptors(s, num) && Queues(s) && Serials(s)
  }

  // ---------------------------------------------------------------- one step

  lemma {:induction false} ReverseNoDup(s: seq<nat>)
    requires NoDup(s)
    ensures NoDup(Reverse(s))
  {
    if s != [] {
      ReverseNoDup(s[1..]);
      var r := Reverse(s[1..]);
      assert s[0] !in s[1..];
      assert forall i :: 0 <= i < |r| ==> r[i] in r;
    }
  }

  lemma ConcatNoDup(a: seq<nat>, b: seq<nat>)
    requires NoDup(a) && NoDup(b) && forall x :: x in a ==> x !in b
    ensures NoDup(a + b)
  {
    var c := a + b;
    forall i, j | 0 <= i < j < |c| ensures c[i] != c[j] {
      if i < |a| <= j {
        assert c[i] in a && c[j] in b;
      }
    }
  }

  lemma FirstIn(s: seq<nat>)
    ensures s != [] ==> s[0] in s
  {
  }

  lemma HeadBusy(s: State, num: nat, h: nat)
    requires Descriptors(s, num) && h in s.inflight
    ensures h < num && h !in s.free && h in s.inflight[h].chain
  {
    assert ChainOk(s, num, h);
    FirstIn(s.inflight[h].chain);
  }

  lemma AddDescriptors(s: State, s': State, n: nat, token: nat, num: nat)
    requires Inv(s, num) && Next(s, s', Add(n, token))
    ensures Descriptors(s', num) && s.free[0] !in s.inflight
  {
    var h := s.free[0];
    assert h in s.free;
    if h in s.inflight {
      HeadBusy(s, num, h);
      assert false;
    }
    var c := s.free[..n];
    assert s.free == c + s.free[n..];
    assert forall d :: d in s.free <==> d in c || d in s.free[n..];
    forall d | d in c ensures d !in s.free[n..] {
      var i :| 0 <= i < n && c[i] == d;
    }
    forall k | k in s'.inflight ensures ChainOk(s', num, k) {
      if k != h {
        assert ChainOk(s, num, k);
      }
    }
    forall x, y, d | x in s'.inflight && y in s'.inflight && d in s'.inflight[x].chain && d in s'.inflight[y].chain
      ensures x == y
    {
      if x != h {
        assert ChainOk(s, num, x);
      }
      if y != h {
        assert ChainOk(s, num, y);
      }
    }
    forall d: nat | d < num ensures d in s'.free || Busy(s', d) {
      if d in c {
        assert d in s'.inflight[h].chain;
      } else if d !in s.free {
        assert Busy(s, d);
        var k :| k in s.inflight && d in s.inflight[k].chain;
        assert k in s'.inflight && d in s'.inflight[k].chain;
      }
    }
  }

  lemma AddRest(s: State, s': State, n: nat, token: nat, num: nat)
    requires Inv(s, num) && Next(s, s', Add(n, token)) && s.free[0] !in s.inflight
    ensures Queues(s') && Serials(s')
  {
    var h := s.free[0];
    forall q: nat | q < |s'.tokens| ensures q in s'.returned || Pending(s', q) {
      if q == |s.tokens| {
        assert s'.inflight[h].serial == q;
      } else if q !in s.returned {
        assert Pending(s, q);
        var k :| k in s.inflight && s.inflight[k].serial == q;
        assert k in s'.inflight && s'.inflight[k].serial == q;
      }
    }
    assert s'.avail[|s.avail|] == h;
  }

  lemma TakeInv(s: State, s': State, num: nat)
    requires Inv(s, num) && Next(s, s', Take)
    ensures Inv(s', num)
  {
    SameDescriptors(s, s', num);
    hide Descriptors, Serials;
    assert forall h :: h in s.avail <==> h == s.avail[0] || h in s'.avail;
  }

  lemma SameDescriptors(s: State, s': State, num: nat)
    requires Descriptors(s, num) && Serials(s)
    requires s'.free == s.free && s'.inflight == s.inflight && s'.tokens == s.tokens && s'.returned == s.returned
    ensures Descriptors(s', num) && Serials(s')
  {
    forall h | h in s'.inflight ensures ChainOk(s', num, h) {
      assert ChainOk(s, num, h);
    }
    forall d: nat | d < num ensures d in s'.free || Busy(s', d) {
      if Busy(s, d) {
        var h :| h in s.inflight && d in s.inflight[h].chain;
        assert h in s'.inflight;
      }
    }
    forall q: nat | q < |s'.tokens| ensures q in s'.returned || Pending(s', q) {
      if Pending(s, q) {
        var h :| h in s.inflight && s.inflight[h].serial == q;
        assert h in s'.inflight;
      }
    }
  }

  lemma CompleteInv(s: State, s': State, head: nat, len: nat, num: nat)
    requires Inv(s, num) && Next(s, s', Complete(head, len))
    ensures Inv(s', num)
  {
    SameDescriptors(s, s', num);
    hide Descriptors, Serials;
    var hs, hs' := Heads(s.used), Heads(s'.used);
    assert hs' == hs + [head];
  }

  lemma GetDescriptors(s: State, s': State, num: nat)
    requires Inv(s, num) && Next(s, s', Get)
    ensures Descriptors(s', num)
  {
    var h := s.used[0].head;
    var c := s.inflight[h].chain;
    assert ChainOk(s, num, h);
    ReverseNoDup(c);
    ConcatNoDup(Reverse(c), s.free);
    forall k | k in s'.inflight ensures ChainOk(s', num, k) {
      assert ChainOk(s, num, k);
      forall d | d in s'.inflight[k].chain ensures d !in s'.free {
        assert d in s.inflight[k].chain;
      }
    }
    forall d: nat | d < num ensures d in s'.free || Busy(s', d) {
      if d !in s.free && d !in c {
        assert Busy(s, d);
        var k :| k in s.inflight && d in s.inflight[k].chain;
        assert k in s'.inflight;
      }
    }
  }

  lemma GetQueues(s: State, s': State, num: nat)
    requires Queues(s) && Next(s, s', Get)
    ensures Queues(s')
  {
    var h := s.used[0].head;
    var hs, hs' := Heads(s.used), Heads(s'.used);
    assert hs' == hs[1..] && hs[0] == h;
    hide Heads, Reverse;
    assert forall x :: x in hs <==> x == h || x in hs';
  }

  lemma GetSerials(s: State, s': State, num: nat)
    requires Serials(s) && Next(s, s', Get)
    ensures Serials(s')
  {
    hide Reverse;
    var h := s.used[0].head;
    var r := s.inflight[h].serial;
    assert forall q :: q in s'.returned <==> q in s.returned || q == r;
    forall q: nat | q < |s'.tokens| ensures q in s'.returned || Pending(s', q) {
      if q !in s'.returned {
        assert Pending(s, q);
        var k :| k in s.inflight && s.inflight[k].serial == q;
        assert k in s'.inflight;
      }
    }
  }

  /** Driver and device steps keep the descriptors partitioned and every request accounted for once. */
  lemma NextInv(s: State, s': State, a: Action, num: nat)
    requires Inv(s, num) && Next(s, s', a)
    ensures Inv(s', num)
  {
    match a
    case Add(n, token) =>
      AddDescriptors(s, s', n, token, num);
      AddRest(s, s', n, token, num);
    case Take => TakeInv(s, s', num);
    case Complete(head, len) => CompleteInv(s, s', head, len, num);
    case Get =>
      GetDescriptors(s, s', num);
      GetQueues(s, s', num);
      GetSerials(s, s', num);
  }

  // ---------------------------------------------------------------- whole runs

  ghost predicate Run(trace: seq<State>, acts: seq<Action>) {
    && |trace| == |acts| + 1
    && (forall i :: 0 <= i < |acts| ==> Next(trace[i], trace[i + 1], acts[i]))
  }

  lemma {:induction false} RunInv(trace: seq<State>, acts: seq<Action>, num: nat, k: nat)
    requires Run(trace, acts) && Inv(trace[0], num) && k < |trace|
    ensures Inv(trace[k], num)
  {
    if k > 0 {
      RunInv(trace, acts, num, k - 1);
      NextInv(trace[k - 1], trace[k], acts[k - 1], num);
    }
  }

  /** In every run a request is returned at most once, and is pending exactly until then. */
  lemma ReturnedOnce(trace: seq<State>, acts: seq<Action>, num: nat, k: nat, q: nat)
    requires Run(trace, acts) && Inv(trace[0], num) && k < |trace| && q < |trace[k].tokens|
    ensures NoDup(trace[k].returned)
    ensures q in trace[k].returned <==> !Pending(trace[k], q)
  {
    RunInv(trace, acts, num, k);
  }

  /** When nothing is in flight, every added request has been returned and every descriptor is free. */
  lemma DrainedReturnsAll(trace: seq<State>, acts: seq<Action>, num: nat, k: nat)
    requires Run(trace, acts) && Inv(trace[0], num) && k < |trace| && trace[k].inflight == map[]
    ensures forall q: nat :: q < |trace[k].tokens| ==> q in trace[k].returned
    ensures forall d: nat :: d < num ==> d in trace[k].free
    ensures trace[k].avail == [] && trace[k].used == []
  {
    RunInv(trace, acts, num, k);
    var s := trace[k];
    FirstIn(s.avail);
    FirstIn(Heads(s.used));
  }

  /** Requests keep their chain and serial from the add to the get. */
  lemma {:induction false} ChainUnchanged(trace: seq<State>, acts: seq<Action>, num: nat, j: nat, k: nat, h: nat)
    requires Run(trace, acts) && Inv(trace[0], num) && j <= k < |trace|
    requires h in trace[j].inflight && trace[j].inflight[h].serial !in trace[k].returned
    ensures h in trace[k].inflight && trace[k].inflight[h] == trace[j].inflight[h]
    decreases k - j
  {
    if j < k {
      RunInv(trace, acts, num, j);
      var s, s' := trace[j], trace[j + 1];
      ReturnedGrow(trace, acts, j + 1, k);
      if acts[j].Add? {
        AddDescriptors(s, s', acts[j].n, acts[j].token, num);
      } else if acts[j].Get? {
        GotReturned(s, s');
      }
      assert h in s'.inflight && s'.inflight[h] == s.inflight[h];
      ChainUnchanged(trace, acts, num, j + 1, k, h);
    }
  }

  lemma GotReturned(s: State, s': State)
    requires Next(s, s', Get)
    ensures s.inflight[s.used[0].head].serial in s'.returned
  {
    assert s'.returned[|s.returned|] == s.inflight[s.used[0].head].serial;
  }

  lemma {:induction false} ReturnedGrow(trace: seq<State>, acts: seq<Action>, j: nat, k: nat)
    requires Run(trace, acts) && j <= k < |trace|
    ensures forall q :: q in trace[j].returned ==> q in trace[k].returned
    decreases k - j
  {
    if j < k {
      ReturnedGrow(trace, acts, j + 1, k);
    }
  }
}
