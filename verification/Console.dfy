/** console_drain: every console reads the ring until it has caught up (kernel/console.c). */
module Console {
  import opened Arithmetic
  import opened LogRecord
  import opened LogRing
  import opened Options

  /** The records from `from` up to `end` that pass the console log level. */
  function Shown(log: seq<Record>, from: nat, end: nat, loglevel: nat): seq<View>
    requires end <= |log|
    decreases end
  {
    if end <= from then []
    else Shown(log, from, end - 1, loglevel) + (if log[end - 1].level < loglevel then [ViewOf(log[end - 1])] else [])
  }

  /** The views `out` are those of the records numbered `at`: all that pass the level, each once and in order. */
  ghost predicate Prints(log: seq<Record>, from: nat, end: nat, loglevel: nat, at: seq<nat>, out: seq<View>)
    requires end <= |log|
  {
    && |at| == |out|
    && (forall i :: 0 <= i < |at| ==>
          from <= at[i] < end && log[at[i]].level < loglevel && out[i] == ViewOf(log[at[i]]))
    && (forall i, j :: 0 <= i < j < |at| ==> at[i] < at[j])
    && (forall q :: from <= q < end && log[q].level < loglevel ==> q in at)
  }

  lemma {:induction false} ShownPrints(log: seq<Record>, from: nat, end: nat, loglevel: nat) returns (at: seq<nat>)
    requires end <= |log|
    ensures Prints(log, from, end, loglevel, at, Shown(log, from, end, loglevel))
    decreases end
  {
    hide ViewOf, Prints;
    if end <= from {
      at := [];
      NothingPrints(log, from, end, loglevel);
    } else {
      at := ShownPrints(log, from, end - 1, loglevel);
      var shown := Shown(log, from, end - 1, loglevel);
      OneMorePrints(log, from, end, loglevel, at, shown);
      assert shown + [] == shown;
      at := if log[end - 1].level < loglevel then at + [end - 1] else at;
    }
  }

  lemma NothingPrints(log: seq<Record>, from: nat, end: nat, loglevel: nat)
    requires end <= |log| && end <= from
    ensures Prints(log, from, end, loglevel, [], [])
  {
  }

  lemma OneMorePrints(log: seq<Record>, from: nat, end: nat, loglevel: nat, at: seq<nat>, out: seq<View>)
    requires from < end <= |log| && Prints(log, from, end - 1, loglevel, at, out)
    ensures log[end - 1].level < loglevel ==>
      Prints(log, from, end, loglevel, at + [end - 1], out + [ViewOf(log[end - 1])])
    ensures log[end - 1].level >= loglevel ==> Prints(log, from, end, loglevel, at, out)
  {
    hide ViewOf;
    assert (at + [end - 1])[|at|] == end - 1;
    forall q | from <= q < end && log[q].level < loglevel && q < end - 1 ensures q in at + [end - 1] {
      assert q in at;
    }
  }

  /** One console: read to the end, emitting what the log level lets through. */
  method DrainOne(ring: Ring, cursor: Cursor, loglevel: nat) returns (out: seq<View>, ghost at: seq<nat>)
    requires ring.Valid() && ring.CursorAt(cursor.seqNo, cursor.idx)
    modifies cursor
    ensures ring.CursorAt(cursor.seqNo, cursor.idx) && cursor.seqNo == |ring.log|
    ensures out == Shown(ring.log, Max(old(cursor.seqNo), ring.firstSeq), |ring.log|, loglevel)
    ensures Prints(ring.log, Max(old(cursor.seqNo), ring.firstSeq), |ring.log|, loglevel, at, out)
  {
    hide Ring.Valid, Ring.CursorAt, Prints, ViewOf;
    out := [];
    ghost var from := Max(cursor.seqNo, ring.firstSeq);
    BehindEnd(ring, cursor);
    while true
      invariant ring.Valid() && ring.CursorAt(cursor.seqNo, cursor.idx)
      invariant from <= |ring.log| && Max(cursor.seqNo, ring.firstSeq) <= |ring.log|
      invariant from <= Max(cursor.seqNo, ring.firstSeq)
      invariant out == Shown(ring.log, from, Max(cursor.seqNo, ring.firstSeq), loglevel)
      decreases |ring.log| + 1 - Max(cursor.seqNo, ring.firstSeq)
    {
      ghost var s := Max(cursor.seqNo, ring.firstSeq);
      var r := ring.ReadRecord(cursor);
      if r.None? {
        at := ShownPrints(ring.log, from, |ring.log|, loglevel);
        return;
      }
      if r.value.level < loglevel {
        out := out + [r.value];
      }
    }
  }

  lemma BehindEnd(ring: Ring, cursor: Cursor)
    requires ring.Valid() && ring.CursorAt(cursor.seqNo, cursor.idx)
    ensures Max(cursor.seqNo, ring.firstSeq) <= |ring.log|
  {
  }

  lemma FirstInLog(ring: Ring)
    requires ring.Valid()
    ensures ring.firstSeq <= |ring.log|
  {
  }

  /** console_drain over the registered consoles, in list order. */
  method Drain(ring: Ring, cursors: seq<Cursor>, loglevel: nat) returns (out: seq<seq<View>>)
    requires ring.Valid()
    requires forall i :: 0 <= i < |cursors| ==> ring.CursorAt(cursors[i].seqNo, cursors[i].idx)
    requires forall i, j :: 0 <= i < j < |cursors| ==> cursors[i] != cursors[j]
    modifies cursors
    ensures |out| == |cursors|
    ensures forall i :: 0 <= i < |cursors| ==>
              && ring.CursorAt(cursors[i].seqNo, cursors[i].idx) && cursors[i].seqNo == |ring.log|
              && out[i] == Shown(ring.log, Max(old(cursors[i].seqNo), ring.firstSeq), |ring.log|, loglevel)
  {
    hide Ring.Valid, Ring.CursorAt, Shown, Prints;
    FirstInLog(ring);
    out := [];
    var k := 0;
    while k < |cursors|
      invariant 0 <= k == |out| <= |cursors| && ring.Valid() && ring.firstSeq <= |ring.log|
      invariant forall i :: 0 <= i < k ==>
                  && ring.CursorAt(cursors[i].seqNo, cursors[i].idx) && cursors[i].seqNo == |ring.log|
                  && out[i] == Shown(ring.log, Max(old(cursors[i].seqNo), ring.firstSeq), |ring.log|, loglevel)
      invariant forall i :: k <= i < |cursors| ==>
                  cursors[i].seqNo == old(cursors[i].seqNo) && cursors[i].idx == old(cursors[i].idx)
    {
      var shown, _ := DrainOne(ring, cursors[k], loglevel);
      out := out + [shown];
      k := k + 1;
    }
  }
}
