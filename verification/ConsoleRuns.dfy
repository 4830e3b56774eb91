/**
 The console hand-off of kernel/console.c under every interleaving of its threads.

 Records are named by their sequence numbers; the ring is the pair (first, next) with drops allowed at any
 store.  `read`, `kicked` and `floor` are history: what each console has read, the end of the log at the latest
 kick that has returned, and the end of the log when the current pass over the consoles began.
 */
module ConsoleRuns {
  import opened Arithmetic

  /**
   Where a thread is inside vprintk_emit and console_kick; `target` is the log's end at its own store and, from its
   kick on, at that kick.
   */
  datatype Pc =
    | Idle
    | Kicking(target: nat)
    | Draining(con: nat, target: nat)
    | Checking(target: nat)

  datatype State = State(
    first: nat, next: nat,
    cursor: seq<nat>, read: seq<seq<nat>>,
    owned: bool, pending: bool,
    pc: seq<Pc>,
    kicked: nat, floor: nat)

  datatype Action =
    | Store(t: nat, drop: nat, stored: bool)
    | Nudge(t: nat)
    | Kick(t: nat)
    | ReadOne(t: nat)
    | CaughtUp(t: nat)
    | Check(t: nat)

  predicate Owner(p: Pc) { p.Draining? || p.Checking? }

  /** One atomic step of thread a.t: a section under logbuf_lock or under console_state_lock. */
  ghost predicate Next(s: State, s': State, a: Action) {
    && a.t < |s.pc|
    && var p := s.pc[a.t];
       match a
       case Store(t, drop, stored) =>   // log_store: `drop` is then the first retained record
         && p.Idle? && s.first <= drop <= s.next
         && var end := if stored then s.next + 1 else s.next;
            s' == s.(first := drop, next := end, pc := s.pc[t := Kicking(end)])
       case Nudge(t) =>                 // a kick without a store, as in console_register
         && p.Idle?
         && s' == s.(pc := s.pc[t := Kicking(s.next)])
       case Kick(t) =>
         && p.Kicking?
         && if s.owned then
              s' == s.(pending := true, kicked := Max(s.kicked, s.next), pc := s.pc[t := Idle])
            else
              s' == s.(owned := true, floor := s.next, pc := s.pc[t := Draining(0, s.next)])
       case ReadOne(t) =>               // printk_read_record returns a record
         && p.Draining? && p.con < |s.cursor| == |s.read|
         && var c := Max(s.cursor[p.con], s.first);
            && s.cursor[p.con] < s.next && c < s.next
            && s' == s.(cursor := s.cursor[p.con := c + 1], read := s.read[p.con := s.read[p.con] + [c]])
       case CaughtUp(t) =>              // printk_read_record returns nothing, or there is no further console
         && p.Draining?
         && if p.con < |s.cursor| then
              && Max(s.cursor[p.con], s.first) >= s.next
              && s' == s.(cursor := s.cursor[p.con := Max(s.cursor[p.con], s.first)],
                          pc := s.pc[t := Draining(p.con + 1, p.target)])
            else s' == s.(pc := s.pc[t := Checking(p.target)])
       case Check(t) =>
         && p.Checking?
         && if s.pending then
              s' == s.(pending := false, floor := s.next, pc := s.pc[t := Draining(0, p.target)])
            else
              s' == s.(owned := false, kicked := Max(s.kicked, p.target), pc := s.pc[t := Idle])
  }

  ghost predicate Init(s: State, consoles: nat, threads: nat) {
    && s.first == s.next == s.floor == s.kicked
    && |s.cursor| == |s.read| == consoles && |s.pc| == threads
    && (forall c :: 0 <= c < consoles ==> s.cursor[c] == s.first && s.read[c] == [])
    && (forall t :: 0 <= t < threads ==> s.pc[t] == Idle)
    && !s.owned && !s.pending
  }

  predicate Increasing(r: seq<nat>) {
    forall i, j :: 0 <= i < j < |r| ==> r[i] < r[j]
  }

  /** A console reads increasing sequence numbers and misses only dropped records. */
  ghost predicate ReadsInOrder(s: State, c: nat)
    requires c < |s.cursor| == |s.read|
  {
    && s.cursor[c] <= s.next
    && Increasing(s.read[c])
    && (forall i :: 0 <= i < |s.read[c]| ==> s.read[c][i] < s.cursor[c])
    && (forall q: nat :: s.first <= q < s.cursor[c] ==> q in s.read[c])
  }

  /** What the owner's pass guarantees so far: consoles before `con` have reached `floor`. */
  ghost predicate Pass(s: State, con: nat, target: nat) {
    && con <= |s.cursor| && target <= s.floor
    && (forall c :: 0 <= c < con ==> Max(s.cursor[c], s.first) >= s.floor)
    && (!s.pending ==> s.kicked <= s.floor)
  }

  ghost predicate OwnerOk(s: State, p: Pc) {
    match p
    case Draining(con, target) => Pass(s, con, target)
    case Checking(target) => Pass(s, |s.cursor|, target)
    case _ => true
  }

  /** The newest record is vouched for by a completed kick or by a thread still on its way. */
  ghost predicate Vouched(s: State) {
    s.next <= s.kicked || exists t :: 0 <= t < |s.pc| && !s.pc[t].Idle? && s.pc[t].target >= s.next
  }

  ghost predicate Inv(s: State) {
    && |s.cursor| == |s.read| && s.first <= s.next && s.kicked <= s.next && s.floor <= s.next
    && (forall c :: 0 <= c < |s.cursor| ==> ReadsInOrder(s, c))
    && (forall t :: 0 <= t < |s.pc| && !s.pc[t].Idle? ==> s.pc[t].target <= s.next)
    && (forall t :: 0 <= t < |s.pc| && Owner(s.pc[t]) ==> s.owned && OwnerOk(s, s.pc[t]))
    && (forall t, u :: 0 <= t < |s.pc| && 0 <= u < |s.pc| && Owner(s.pc[t]) && Owner(s.pc[u]) ==> t == u)
    && (s.owned ==> exists t :: 0 <= t < |s.pc| && Owner(s.pc[t]))
    && (!s.owned ==> !s.pending && forall c :: 0 <= c < |s.cursor| ==> Max(s.cursor[c], s.first) >= s.kicked)
    && Vouched(s)
  }

  lemma KeepReads(s: State, s': State, c: nat)
    requires c < |s.cursor| == |s.read| && |s'.cursor| == |s'.read| == |s.cursor| && ReadsInOrder(s, c)
    requires s'.read[c] == s.read[c] && s'.first >= s.first && s'.next >= s.next
    requires s'.cursor[c] == s.cursor[c] || (s'.first == s.first <= s.next && s'.cursor[c] == Max(s.cursor[c], s.first))
    ensures ReadsInOrder(s', c)
  {
  }

  lemma KeepAllReads(s: State, s': State)
    requires Inv(s) && |s'.cursor| == |s.cursor| && s'.read == s.read && s'.first >= s.first && s'.next >= s.next
    requires forall c :: 0 <= c < |s.cursor| ==>
               s'.cursor[c] == s.cursor[c] || (s'.first == s.first && s'.cursor[c] == Max(s.cursor[c], s.first))
    ensures forall c :: 0 <= c < |s'.cursor| ==> ReadsInOrder(s', c)
  {
    forall c | 0 <= c < |s'.cursor| ensures ReadsInOrder(s', c) {
      KeepReads(s, s', c);
    }
  }

  lemma InitInv(s: State, consoles: nat, threads: nat)
    requires Init(s, consoles, threads)
    ensures Inv(s)
  {
  }

  lemma StoreInv(s: State, s': State, t: nat, drop: nat, stored: bool)
    requires Inv(s) && Next(s, s', Store(t, drop, stored))
    ensures Inv(s')
  {
    KeepAllReads(s, s');
    assert s'.pc[t].target >= s'.next;
    if s.owned {
      var o :| 0 <= o < |s.pc| && Owner(s.pc[o]);
      assert Owner(s'.pc[o]);
    }
  }

  lemma NudgeInv(s: State, s': State, t: nat)
    requires Inv(s) && Next(s, s', Nudge(t))
    ensures Inv(s')
  {
    KeepAllReads(s, s');
    assert s'.pc[t].target >= s'.next;
    if s.owned {
      var o :| 0 <= o < |s.pc| && Owner(s.pc[o]);
      assert Owner(s'.pc[o]);
    }
  }

  lemma KeepVouched(s: State, s': State, t: nat)
    requires Vouched(s) && |s'.pc| == |s.pc| && t < |s.pc| && s'.next == s.next && s'.kicked >= s.kicked
    requires forall u :: 0 <= u < |s.pc| && u != t ==> s'.pc[u] == s.pc[u]
    requires !s.pc[t].Idle? ==> (!s'.pc[t].Idle? && s'.pc[t].target >= s.pc[t].target) || s'.kicked >= s.pc[t].target
    ensures Vouched(s')
  {
    if s.next > s.kicked {
      var u :| 0 <= u < |s.pc| && !s.pc[u].Idle? && s.pc[u].target >= s.next;
      assert u != t ==> s'.pc[u] == s.pc[u];
    }
  }

  lemma KickInv(s: State, s': State, t: nat)
    requires Inv(s) && Next(s, s', Kick(t))
    ensures Inv(s')
  {
    KeepAllReads(s, s');
    KeepVouched(s, s', t);
    if s.owned {
      var o :| 0 <= o < |s.pc| && Owner(s.pc[o]);
      assert Owner(s'.pc[o]);
    } else {
      assert Owner(s'.pc[t]);
    }
  }

  lemma ReadInv(s: State, s': State, t: nat)
    requires Inv(s) && Next(s, s', ReadOne(t))
    ensures Inv(s')
  {
    KeepVouched(s, s', t);
    var p := s.pc[t];
    var c := Max(s.cursor[p.con], s.first);
    assert ReadsInOrder(s, p.con);
    forall d | 0 <= d < |s.cursor| && d != p.con ensures ReadsInOrder(s', d) {
      KeepReads(s, s', d);
    }
    forall q: nat | s'.first <= q < s'.cursor[p.con] ensures q in s'.read[p.con] {
      if q == c {
        assert s'.read[p.con][|s.read[p.con]|] == c;
      } else {
        assert q in s.read[p.con];
      }
    }
    assert Owner(s'.pc[t]);
  }

  lemma CaughtUpInv(s: State, s': State, t: nat)
    requires Inv(s) && Next(s, s', CaughtUp(t))
    ensures Inv(s')
  {
    KeepAllReads(s, s');
    KeepVouched(s, s', t);
    assert Owner(s'.pc[t]);
  }

  lemma CheckInv(s: State, s': State, t: nat)
    requires Inv(s) && Next(s, s', Check(t))
    ensures Inv(s')
  {
    KeepAllReads(s, s');
    KeepVouched(s, s', t);
    if s.pending {
      assert Owner(s'.pc[t]);
    }
  }

  lemma NextInv(s: State, s': State, a: Action)
    requires Inv(s) && Next(s, s', a)
    ensures Inv(s')
  {
    match a
    case Store(t, drop, stored) => StoreInv(s, s', t, drop, stored);
    case Nudge(t) => NudgeInv(s, s', t);
    case Kick(t) => KickInv(s, s', t);
    case ReadOne(t) => ReadInv(s, s', t);
    case CaughtUp(t) => CaughtUpInv(s, s', t);
    case Check(t) => CheckInv(s, s', t);
  }

  ghost predicate Run(trace: seq<State>, acts: seq<Action>) {
    && |trace| == |acts| + 1
    && (forall i :: 0 <= i < |acts| ==> Next(trace[i], trace[i + 1], acts[i]))
  }

  lemma {:induction false} RunInv(trace: seq<State>, acts: seq<Action>, k: nat)
    requires Run(trace, acts) && Inv(trace[0]) && k < |trace|
    ensures Inv(trace[k])
  {
    if k > 0 {
      RunInv(trace, acts, k - 1);
      NextInv(trace[k - 1], trace[k], acts[k - 1]);
    }
  }

  /** At most one thread drains at any point of any run. */
  lemma OneDrains(trace: seq<State>, acts: seq<Action>, k: nat, t: nat, u: nat)
    requires Run(trace, acts) && Inv(trace[0]) && k < |trace|
    requires t < |trace[k].pc| && u < |trace[k].pc| && trace[k].pc[t].Draining? && trace[k].pc[u].Draining?
    ensures t == u
  {
    RunInv(trace, acts, k);
    assert Owner(trace[k].pc[t]) && Owner(trace[k].pc[u]);
  }

  /** Each console reads an increasing sequence of records and misses only dropped ones. */
  lemma ConsolesMissOnlyDropped(trace: seq<State>, acts: seq<Action>, k: nat, c: nat)
    requires Run(trace, acts) && Inv(trace[0]) && k < |trace| && c < |trace[k].cursor|
    ensures |trace[k].read| == |trace[k].cursor| && Increasing(trace[k].read[c])
    ensures forall q: nat :: q < trace[k].cursor[c] ==> q in trace[k].read[c] || q < trace[k].first
  {
    RunInv(trace, acts, k);
    assert ReadsInOrder(trace[k], c);
  }

  /** The records before x are those of a kick that has returned, or of the owner's. */
  ghost predicate Covers(s: State, x: nat) {
    x <= s.kicked || exists t :: 0 <= t < |s.pc| && Owner(s.pc[t]) && s.pc[t].target >= x
  }

  /** A kick covers the whole log as it is then. */
  lemma KickCovers(s: State, s': State, t: nat)
    requires Inv(s) && Next(s, s', Kick(t))
    ensures Covers(s', s.next)
  {
    if !s.owned {
      assert Owner(s'.pc[t]) && s'.pc[t].target >= s.next;
    }
  }

  /** What is covered stays covered: the owner hands its records to `kicked` when it leaves. */
  lemma StillCovers(s: State, s': State, a: Action, x: nat)
    requires Inv(s) && Next(s, s', a) && Covers(s, x)
    ensures Covers(s', x)
  {
    if x > s'.kicked {
      var t :| 0 <= t < |s.pc| && Owner(s.pc[t]) && s.pc[t].target >= x;
      assert t != a.t ==> s'.pc[t] == s.pc[t];
      assert Owner(s'.pc[t]) && s'.pc[t].target >= x;
    }
  }

  lemma {:induction false} RunCovers(trace: seq<State>, acts: seq<Action>, i: nat, k: nat)
    requires Run(trace, acts) && Inv(trace[0]) && i < k < |trace| && acts[i].Kick?
    ensures Covers(trace[k], trace[i].next)
    decreases k
  {
    hide Inv, Next, Covers;
    RunInv(trace, acts, k - 1);
    if k == i + 1 {
      KickCovers(trace[i], trace[k], acts[i].t);
    } else {
      RunCovers(trace, acts, i, k - 1);
      StillCovers(trace[k - 1], trace[k], acts[k - 1], trace[i].next);
    }
  }

  /**
   No request is lost: whenever nobody owns the console, every record that was in the log at any earlier kick, whoever
   stored it, has been read by every console or dropped.
   */
  lemma NoRequestLost(trace: seq<State>, acts: seq<Action>, i: nat, k: nat, c: nat, q: nat)
    requires Run(trace, acts) && Inv(trace[0]) && i < k < |trace| && acts[i].Kick?
    requires !trace[k].owned && c < |trace[k].cursor| && q < trace[i].next
    ensures |trace[k].read| == |trace[k].cursor| && (q in trace[k].read[c] || q < trace[k].first)
  {
    RunInv(trace, acts, k);
    RunCovers(trace, acts, i, k);
    KickedRead(trace, acts, k, c, q);
  }

  lemma KickedRead(trace: seq<State>, acts: seq<Action>, k: nat, c: nat, q: nat)
    requires Run(trace, acts) && Inv(trace[0]) && k < |trace| && c < |trace[k].cursor|
    requires !trace[k].owned && q < trace[k].kicked
    ensures |trace[k].read| == |trace[k].cursor| && (q in trace[k].read[c] || q < trace[k].first)
  {
    RunInv(trace, acts, k);
    ConsolesMissOnlyDropped(trace, acts, k, c);
  }

  /** When every thread is out of printk, every record was read by every console or dropped. */
  lemma QuietMeansPrinted(trace: seq<State>, acts: seq<Action>, k: nat, c: nat, q: nat)
    requires Run(trace, acts) && Inv(trace[0]) && k < |trace| && c < |trace[k].cursor| && q < trace[k].next
    requires forall t :: 0 <= t < |trace[k].pc| ==> trace[k].pc[t] == Idle
    ensures |trace[k].read| == |trace[k].cursor| && (q in trace[k].read[c] || q < trace[k].first)
  {
    RunInv(trace, acts, k);
    assert !trace[k].owned;
    KickedRead(trace, acts, k, c, q);
  }
}
