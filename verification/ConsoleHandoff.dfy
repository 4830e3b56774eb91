/**
 The sections of vprintk_emit, console_kick and console_drain on the ring and the cursors of the consoles
 (kernel/printk.c, kernel/console.c): each takes one step of the transition system.
 */
module ConsoleHandoff {
  import opened Arithmetic
  import opened LogRecord
  import opened LogRing
  import opened Options
  import Runs = ConsoleRuns

  class Handoff {
    const ring: Ring
    /** The cursors of the registered consoles, in list order. */
    const cursors: seq<Cursor>
    var owned: bool
    var pending: bool
    /** Where each thread is, and the history of the transition system. */
    ghost var pc: seq<Runs.Pc>
    ghost var read: seq<seq<nat>>
    ghost var kicked: nat
    ghost var floor: nat

    ghost function Positions(): (s: seq<nat>)
      reads cursors
      ensures |s| == |cursors|
    {
      seq(|cursors|, i requires 0 <= i < |cursors| reads cursors => cursors[i].seqNo)
    }

    ghost function View(): Runs.State
      reads this, ring, cursors
    {
      Runs.State(ring.firstSeq, ring.nextSeq, Positions(), read, owned, pending, pc, kicked, floor)
    }

    ghost predicate CursorsOk()
      reads ring, cursors
    {
      && ring.firstSeq <= |ring.log|
      && (forall i :: 0 <= i < |cursors| ==> ring.CursorAt(cursors[i].seqNo, cursors[i].idx))
      && (forall i, j :: 0 <= i < j < |cursors| ==> cursors[i] != cursors[j])
    }

    ghost predicate Valid()
      reads this, ring, ring.buf, cursors
    {
      ring.Valid() && CursorsOk() && Runs.Inv(View())
    }

    /** Registered consoles at the start of an empty log, no thread inside. */
    constructor (ring: Ring, cursors: seq<Cursor>, threads: nat)
      requires ring.Valid() && ring.log == [] && ring.firstSeq == 0
      requires forall i :: 0 <= i < |cursors| ==> cursors[i].seqNo == 0 && cursors[i].idx == ring.firstIdx
      requires forall i, j :: 0 <= i < j < |cursors| ==> cursors[i] != cursors[j]
      ensures Valid() && this.ring == ring && this.cursors == cursors && Runs.Init(View(), |cursors|, threads)
    {
      this.ring, this.cursors, owned, pending := ring, cursors, false, false;
      pc, read, kicked, floor := seq(threads, _ => Runs.Idle), seq(|cursors|, _ => []), 0, 0;
      new;
      assert ring.log[0..] == [];
      Runs.InitInv(View(), |cursors|, threads);
    }

    /** log_store under logbuf_lock. printk has no dictionary, so its records fit the length field. */
    method StoreSection(t: nat, r: Record) returns (n: nat)
      requires Valid() && t < |pc| && pc[t] == Runs.Idle
      requires Storable(r) && TextFits(r) && Size(r) < 0x10000
      modifies this`pc, ring, ring.buf
      ensures Valid() && |pc| == |old(pc)|
      ensures Runs.Next(old(View()), View(), Runs.Store(t, ring.firstSeq, |ring.log| > |old(ring.log)|))
    {
      hide Ring.Valid, Ring.CursorAt, Runs.Inv, Size, Storable, TextFits;
      RingFacts(ring);
      ghost var at;
      n, at := ring.Store(r);
      StoredSmall(ring, old(ring.log), r);
      RingFacts(ring);
      pc := pc[t := Runs.Kicking(ring.nextSeq)];
      assert Positions() == old(Positions());
      Runs.NextInv(old(View()), View(), Runs.Store(t, ring.firstSeq, |ring.log| > |old(ring.log)|));
    }

    /** The first section of console_kick: leave a request to the owner, or become the owner. */
    method KickSection(t: nat) returns (mine: bool)
      requires Valid() && t < |pc| && pc[t].Kicking?
      modifies this
      ensures Valid() && mine == !old(owned) && Runs.Next(old(View()), View(), Runs.Kick(t))
    {
      hide Ring.Valid, Ring.CursorAt, Runs.Inv;
      if owned {
        pending := true;
        kicked, pc := Max(kicked, ring.nextSeq), pc[t := Runs.Idle];
        mine := false;
      } else {
        owned := true;
        floor, pc := ring.nextSeq, pc[t := Runs.Draining(0, ring.nextSeq)];
        mine := true;
      }
      Runs.NextInv(old(View()), View(), Runs.Kick(t));
    }

    /** One call of printk_read_record for the console the owner is at. */
    method ReadSection(t: nat, con: nat) returns (r: Option<View>)
      requires Valid() && t < |pc| && pc[t].Draining? && pc[t].con == con < |cursors|
      modifies this`pc, this`read, cursors[con]
      ensures Valid() && |pc| == |old(pc)|
      ensures Runs.Next(old(View()), View(), if r.Some? then Runs.ReadOne(t) else Runs.CaughtUp(t))
      ensures r.Some? ==>
        var q := Max(old(cursors[con].seqNo), ring.firstSeq);
        q < |ring.log| && r.value == ViewOf(ring.log[q])
    {
      hide Ring.Valid, Ring.CursorAt, Runs.Inv, ViewOf, Runs.Next;
      RingFacts(ring);
      InvSizes(View());
      ghost var s, q := View(), Max(cursors[con].seqNo, ring.firstSeq);
      ghost var before := Positions();
      BehindEnd(ring, cursors[con].seqNo, cursors[con].idx);
      r := ring.ReadRecord(cursors[con]);
      assert Positions() == before[con := cursors[con].seqNo];
      if r.Some? {
        read := read[con := read[con] + [q]];
        ReadStep(s, View(), t, con, q);
      } else {
        pc := pc[t := Runs.Draining(con + 1, pc[t].target)];
        CaughtUpStep(s, View(), t, con, q);
      }
    }

    /** The end of the console list. */
    ghost method LastSection(t: nat)
      requires Valid() && t < |pc| && pc[t].Draining? && pc[t].con >= |cursors|
      modifies this`pc
      ensures Valid() && Runs.Next(old(View()), View(), Runs.CaughtUp(t))
    {
      hide Ring.Valid, Ring.CursorAt, Runs.Inv;
      pc := pc[t := Runs.Checking(pc[t].target)];
      Runs.NextInv(old(View()), View(), Runs.CaughtUp(t));
    }

    /** The last section of console_kick: another pass if there was a request, else the console is free. */
    method CheckSection(t: nat) returns (again: bool)
      requires Valid() && t < |pc| && pc[t].Checking?
      modifies this
      ensures Valid() && again == old(pending) && Runs.Next(old(View()), View(), Runs.Check(t))
    {
      hide Ring.Valid, Ring.CursorAt, Runs.Inv;
      ghost var target := pc[t].target;
      if pending {
        pending := false;
        floor, pc := ring.nextSeq, pc[t := Runs.Draining(0, target)];
        again := true;
      } else {
        owned := false;
        kicked, pc := Max(kicked, target), pc[t := Runs.Idle];
        again := false;
      }
      Runs.NextInv(old(View()), View(), Runs.Check(t));
    }

    /** The first n consoles have read everything. */
    ghost predicate ReadUp(n: nat)
      reads ring, cursors
    {
      forall i :: 0 <= i < n && i < |cursors| ==> cursors[i].seqNo == ring.nextSeq
    }

    /** console_drain by the owner, as it runs while no other thread does. */
    method DrainAll(t: nat, ghost target: nat)
      requires Valid() && t < |pc| && pc[t] == Runs.Draining(0, target)
      modifies this`pc, this`read, cursors
      ensures Valid() && pc == old(pc)[t := Runs.Checking(target)] && ReadUp(|cursors|)
    {
      hide Ring.Valid, Ring.CursorAt, Runs.Inv, CursorsOk;
      var con := 0;
      while con < |cursors|
        invariant 0 <= con <= |cursors| && Valid() && ReadUp(con)
        invariant t < |old(pc)| && pc == old(pc)[t := Runs.Draining(con, target)]
      {
        DrainOne(t, con, target);
        con := con + 1;
      }
      LastSection(t);
    }

    /** The inner loop of console_drain. */
    method DrainOne(t: nat, con: nat, ghost target: nat)
      requires Valid() && t < |pc| && con < |cursors| && pc[t] == Runs.Draining(con, target) && ReadUp(con)
      modifies this`pc, this`read, cursors
      ensures Valid() && pc == old(pc)[t := Runs.Draining(con + 1, target)] && ReadUp(con + 1)
    {
      hide Ring.Valid, Ring.CursorAt, Runs.Inv;
      var more := true;
      RingFacts(ring);
      BehindEnd(ring, cursors[con].seqNo, cursors[con].idx);
      while more
        invariant Valid() && ReadUp(con) && ring.firstSeq <= ring.nextSeq && cursors[con].seqNo <= ring.nextSeq
        invariant if more then pc == old(pc)
                  else pc == old(pc)[t := Runs.Draining(con + 1, target)] && cursors[con].seqNo == ring.nextSeq
        decreases more, ring.nextSeq - cursors[con].seqNo
      {
        var r := ReadSection(t, con);
        assert Positions()[con] == cursors[con].seqNo;
        more := r.Some?;
      }
    }

    /** console_kick, as it runs while no other thread does: afterwards the console is free and has read everything. */
    method ConsoleKick(t: nat)
      requires Valid() && t < |pc| && pc[t].Kicking?
      modifies this, cursors
      ensures Valid() && pc == old(pc)[t := Runs.Idle]
      ensures if old(owned) then owned && pending && Positions() == old(Positions()) else !owned && ReadUp(|cursors|)
    {
      hide Ring.Valid, Ring.CursorAt, Runs.Inv, CursorsOk, ReadUp;
      ghost var target := ring.nextSeq;
      var mine := KickSection(t);
      if !mine {
        return;
      }
      var again := true;
      while again
        invariant Valid() && t < |old(pc)|
        invariant if again then pc == old(pc)[t := Runs.Draining(0, target)]
                  else pc == old(pc)[t := Runs.Idle] && !owned && ReadUp(|cursors|)
        decreases again, pending
      {
        DrainAll(t, target);
        again := CheckSection(t);
      }
    }
  }

  lemma ReadStep(s: Runs.State, s': Runs.State, t: nat, con: nat, q: nat)
    requires Runs.Inv(s) && t < |s.pc| && s.pc[t].Draining? && s.pc[t].con == con < |s.cursor| == |s.read|
    requires q == Max(s.cursor[con], s.first) < s.next
    requires s' == s.(cursor := s.cursor[con := q + 1], read := s.read[con := s.read[con] + [q]])
    ensures Runs.Next(s, s', Runs.ReadOne(t)) && Runs.Inv(s')
  {
    hide Runs.Inv;
    Runs.NextInv(s, s', Runs.ReadOne(t));
  }

  lemma CaughtUpStep(s: Runs.State, s': Runs.State, t: nat, con: nat, q: nat)
    requires Runs.Inv(s) && t < |s.pc| && s.pc[t].Draining? && s.pc[t].con == con < |s.cursor| == |s.read|
    requires q == Max(s.cursor[con], s.first) >= s.next
    requires s' == s.(cursor := s.cursor[con := q], pc := s.pc[t := Runs.Draining(con + 1, s.pc[t].target)])
    ensures Runs.Next(s, s', Runs.CaughtUp(t)) && Runs.Inv(s')
  {
    hide Runs.Inv;
    Runs.NextInv(s, s', Runs.CaughtUp(t));
  }

  lemma RingFacts(ring: Ring)
    requires ring.Valid()
    ensures ring.firstSeq <= ring.nextSeq == |ring.log|
  {
  }

  lemma InvSizes(s: Runs.State)
    requires Runs.Inv(s)
    ensures |s.cursor| == |s.read|
  {
  }

  lemma BehindEnd(ring: Ring, s: nat, i: nat)
    requires ring.firstSeq <= |ring.log| && ring.CursorAt(s, i)
    ensures s <= |ring.log|
  {
  }

  /** What is stored of a record that fits its field fits it too. */
  lemma StoredSmall(ring: Ring, log: seq<Record>, r: Record)
    requires TextFits(r) && Size(r) < 0x10000
    requires ring.log == log || ring.log == log + [r] || ring.log == log + [Truncated(r, ring.buf.Length)]
    ensures ring.log == log || Size(ring.log[|ring.log| - 1]) < 0x10000
  {
  }
}
