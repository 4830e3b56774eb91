/** What the directory operations do to the list of entries of a page (fs/ext2/ext2_dir.c). */
module DirEntries {
  import opened Bytes
  import opened DirPage
  import opened Options

  // ---------------------------------------------------------------- finding room

  /** No room for a name of n bytes in an unused entry, or behind the name of one in use. */
  predicate TooSmall(e: Entry, n: nat) {
    e.rec < RecLen(n) + (if e.Used() then RecLen(|e.name|) else 0)
  }

  ghost predicate AllUsed(chain: seq<Entry>) {
    forall i :: 0 <= i < |chain| ==> chain[i].Used()
  }

  /** No room up to and including the first unused entry. */
  ghost predicate GivenUp(chain: seq<Entry>, n: nat) {
    forall i :: 0 <= i < |chain| && AllUsed(chain[..i]) ==> TooSmall(chain[i], n)
  }

  ghost predicate AllTooSmall(chain: seq<Entry>, n: nat) {
    forall i :: 0 <= i < |chain| ==> TooSmall(chain[i], n)
  }

  /** The entry with room becomes the new one, or shares its space with it. */
  function Share(e: Entry, ino: nat, kind: byte, name: seq<byte>): seq<Entry>
    requires !TooSmall(e, |name|)
  {
    if e.Used() then
      var keep := RecLen(|e.name|);
      [e.(rec := keep), Entry(e.off + keep, ino, e.rec - keep, kind, name)]
    else [Entry(e.off, ino, e.rec, kind, name)]
  }

  /** The entries after an insertion into the first room; None if the page is given up. */
  function Insert(chain: seq<Entry>, ino: nat, kind: byte, name: seq<byte>): Option<seq<Entry>> {
    if chain == [] then None
    else if !TooSmall(chain[0], |name|) then Some(Share(chain[0], ino, kind, name) + chain[1..])
    else if !chain[0].Used() then None
    else match Insert(chain[1..], ino, kind, name)
         case None => None
         case Some(rest) => Some([chain[0]] + rest)
  }

  lemma {:induction false} InsertAt(pre: seq<Entry>, e: Entry, post: seq<Entry>, ino: nat, kind: byte, name: seq<byte>)
    requires AllUsed(pre) && AllTooSmall(pre, |name|) && !TooSmall(e, |name|)
    ensures Insert(pre + [e] + post, ino, kind, name) == Some(pre + Share(e, ino, kind, name) + post)
    decreases |pre|
  {
    hide TooSmall, Share;
    var c := pre + [e] + post;
    if pre == [] {
      assert c[0] == e && c[1..] == post;
      assert pre + Share(e, ino, kind, name) + post == Share(e, ino, kind, name) + post;
    } else {
      assert c[0] == pre[0] && c[1..] == pre[1..] + [e] + post;
      InsertAt(pre[1..], e, post, ino, kind, name);
      assert [pre[0]] + (pre[1..] + Share(e, ino, kind, name) + post) == pre + Share(e, ino, kind, name) + post;
    }
  }

  lemma {:induction false} InsertNone(chain: seq<Entry>, ino: nat, kind: byte, name: seq<byte>)
    ensures Insert(chain, ino, kind, name).None? <==> GivenUp(chain, |name|)
  {
    hide TooSmall, Share;
    if chain != [] {
      assert chain[..0] == [];
      InsertNone(chain[1..], ino, kind, name);
      if TooSmall(chain[0], |name|) && chain[0].Used() {
        UsedFirst(chain, |name|);
      } else if TooSmall(chain[0], |name|) {
        forall i | 0 < i <= |chain| ensures !AllUsed(chain[..i]) {
          assert chain[..i][0] == chain[0];
        }
      }
    }
  }

  lemma UsedFirst(chain: seq<Entry>, n: nat)
    requires chain != [] && TooSmall(chain[0], n) && chain[0].Used()
    ensures GivenUp(chain, n) <==> GivenUp(chain[1..], n)
  {
    hide TooSmall;
    var rest := chain[1..];
    forall i | 0 <= i < |rest| ensures AllUsed(rest[..i]) <==> AllUsed(chain[..i + 1]) {
      assert chain[..i + 1] == [chain[0]] + rest[..i];
      assert forall k :: 0 <= k < i ==> chain[..i + 1][k + 1] == rest[..i][k];
    }
    assert forall i :: 0 <= i < |rest| ==> chain[i + 1] == rest[i];
    if GivenUp(rest, n) {
      forall i | 0 <= i < |chain| && AllUsed(chain[..i]) ensures TooSmall(chain[i], n) {
        if i > 0 {
          assert rest[i - 1] == chain[i] && AllUsed(rest[..i - 1]);
        }
      }
    }
  }

  lemma NoneSmall(n: nat)
    ensures AllUsed([]) && AllTooSmall([], n)
  {
  }

  /** After used entries without room the next one decides, if it has room or is unused. */
  lemma Decides(pre: seq<Entry>, e: Entry, post: seq<Entry>, n: nat)
    requires AllUsed(pre) && AllTooSmall(pre, n)
    ensures !TooSmall(e, n) ==> !GivenUp(pre + [e] + post, n)
    ensures TooSmall(e, n) && !e.Used() ==> GivenUp(pre + [e] + post, n)
  {
    hide TooSmall;
    var c := pre + [e] + post;
    assert c[..|pre|] == pre && c[|pre|] == e;
    if TooSmall(e, n) && !e.Used() {
      forall i | |pre| < i <= |c| ensures !AllUsed(c[..i]) {
        assert c[..i][|pre|] == e;
      }
      forall i | 0 <= i <= |pre| ensures TooSmall(c[i], n) {
        assert i < |pre| ==> c[i] == pre[i];
      }
    }
  }

  lemma OneMore(pre: seq<Entry>, e: Entry, n: nat)
    requires AllUsed(pre) && AllTooSmall(pre, n) && e.Used() && TooSmall(e, n)
    ensures AllUsed(pre + [e]) && AllTooSmall(pre + [e], n)
  {
    hide TooSmall;
  }

  lemma SmallCons(e: Entry, rest: seq<Entry>, n: nat)
    requires TooSmall(e, n) && AllTooSmall(rest, n)
    ensures AllTooSmall([e] + rest, n)
  {
    hide TooSmall;
  }

  lemma SmallJoin(pre: seq<Entry>, post: seq<Entry>, n: nat)
    requires AllTooSmall(pre, n) && AllTooSmall(post, n)
    ensures GivenUp(pre + post, n)
  {
    hide TooSmall;
  }

  // ---------------------------------------------------------------- deletion

  predicate Named(e: Entry, name: seq<byte>) { e.Used() && e.name == name }

  predicate NoneNamed(chain: seq<Entry>, name: seq<byte>) {
    forall i :: 0 <= i < |chain| ==> !Named(chain[i], name)
  }

  /** The entries after a deletion: the first one is marked unused, a later one leaves its space to the one before. */
  function Erase(chain: seq<Entry>, name: seq<byte>): Option<seq<Entry>> {
    if chain == [] then None
    else if Named(chain[0], name) then Some([Entry(chain[0].off, 0, chain[0].rec, 0, [])] + chain[1..])
    else Absorb(chain, name)
  }

  lemma EraseHead(e: Entry, rest: seq<Entry>, name: seq<byte>)
    requires Named(e, name)
    ensures Erase([e] + rest, name) == Some([Entry(e.off, 0, e.rec, 0, [])] + rest)
  {
    assert ([e] + rest)[1..] == rest;
  }

  function Absorb(chain: seq<Entry>, name: seq<byte>): Option<seq<Entry>>
    requires chain != []
  {
    if |chain| == 1 then None
    else if Named(chain[1], name) then Some([chain[0].(rec := chain[0].rec + chain[1].rec)] + chain[2..])
    else match Absorb(chain[1..], name)
         case None => None
         case Some(rest) => Some([chain[0]] + rest)
  }

  lemma {:induction false} AbsorbAt(pre: seq<Entry>, e: Entry, f: Entry, post: seq<Entry>, name: seq<byte>)
    requires NoneNamed(pre + [e], name) && Named(f, name)
    ensures Absorb(pre + [e, f] + post, name) == Some(pre + [e.(rec := e.rec + f.rec)] + post)
    decreases |pre|
  {
    hide Named;
    var c := pre + [e, f] + post;
    if pre == [] {
      assert c[0] == e && c[1] == f && c[2..] == post;
      assert pre + [e.(rec := e.rec + f.rec)] + post == [e.(rec := e.rec + f.rec)] + post;
    } else {
      assert c[0] == pre[0] && c[1..] == pre[1..] + [e, f] + post;
      assert c[1] == (pre + [e])[1];
      assert (pre + [e])[1..] == pre[1..] + [e];
      forall i | 0 <= i < |pre[1..] + [e]| ensures !Named((pre[1..] + [e])[i], name) {
        assert (pre[1..] + [e])[i] == (pre + [e])[i + 1];
      }
      AbsorbAt(pre[1..], e, f, post, name);
      assert [pre[0]] + (pre[1..] + [e.(rec := e.rec + f.rec)] + post) == pre + [e.(rec := e.rec + f.rec)] + post;
    }
  }

  /** A name behind the first entry of the page. */
  lemma EraseAt(pre: seq<Entry>, e: Entry, f: Entry, post: seq<Entry>, name: seq<byte>)
    requires NoneNamed(pre + [e], name) && Named(f, name)
    ensures Erase(pre + [e, f] + post, name) == Some(pre + [e.(rec := e.rec + f.rec)] + post)
  {
    hide Named, Absorb;
    AbsorbAt(pre, e, f, post, name);
    assert (pre + [e, f] + post)[0] == (pre + [e])[0];
  }

  lemma {:induction false} AbsorbNone(chain: seq<Entry>, name: seq<byte>)
    requires chain != [] && NoneNamed(chain, name)
    ensures Absorb(chain, name).None?
  {
    hide Named;
    if |chain| > 1 {
      AbsorbNone(chain[1..], name);
    }
  }

  lemma EraseNone(chain: seq<Entry>, name: seq<byte>)
    requires NoneNamed(chain, name)
    ensures Erase(chain, name).None?
  {
    hide Named, Absorb;
    if chain != [] {
      AbsorbNone(chain, name);
    }
  }
}
