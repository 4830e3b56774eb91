/** Lists without repetitions: the value of the kernel's intrusive lists. */
module UniqueLists {

  predicate NoDup(s: seq<nat>) {
    forall i, j :: 0 <= i < j < |s| ==> s[i] != s[j]
  }

  ghost function Elems(s: seq<nat>): set<nat> {
    set i | 0 <= i < |s| :: s[i]
  }

  lemma ElemsIn(s: seq<nat>, x: nat)
    ensures x in Elems(s) <==> x in s
  {
  }

  lemma ElemsAppend(s: seq<nat>, x: nat)
    ensures Elems(s + [x]) == Elems(s) + {x}
  {
    forall y ensures y in Elems(s + [x]) <==> y in Elems(s) + {x} {
      ElemsIn(s, y);
      ElemsIn(s + [x], y);
    }
  }

  lemma HeadAndTail(list: seq<nat>)
    requires NoDup(list) && list != []
    ensures NoDup(list[1..]) && Elems(list[1..]) == Elems(list) - {list[0]} && list[0] in Elems(list)
  {
    forall x ensures x in Elems(list[1..]) <==> x in Elems(list) && x != list[0] {
      if i :| 0 <= i < |list| && x == list[i] && x != list[0] {
        assert x == list[1..][i - 1];
      }
    }
  }

  lemma {:induction false} ElemsCount(list: seq<nat>)
    requires NoDup(list)
    ensures |Elems(list)| == |list|
  {
    if list != [] {
      HeadAndTail(list);
      ElemsCount(list[1..]);
      assert Elems(list) == Elems(list[1..]) + {list[0]};
    } else {
      assert Elems(list) == {};
    }
  }

  /** A list without one of its elements. */
  function Without(s: seq<nat>, x: nat): (r: seq<nat>)
    ensures forall y :: y in r ==> y in s
  {
    if s == [] then [] else if s[0] == x then s[1..] else [s[0]] + Without(s[1..], x)
  }

  lemma {:induction false} WithoutFacts(s: seq<nat>, x: nat)
    requires NoDup(s) && x in s
    ensures |Without(s, x)| == |s| - 1
    ensures NoDup(Without(s, x))
    ensures forall y :: y in Without(s, x) <==> y in s && y != x
  {
    if s[0] == x {
      assert forall y :: y in s <==> y == s[0] || y in s[1..];
    } else {
      assert x in s[1..];
      WithoutFacts(s[1..], x);
      var w := Without(s[1..], x);
      assert s[0] !in w;
      assert forall y :: y in s <==> y == s[0] || y in s[1..];
    }
  }

  lemma {:induction false} WithoutAt(s: seq<nat>, i: nat)
    requires NoDup(s) && i < |s|
    ensures Without(s, s[i]) == s[..i] + s[i + 1..]
  {
    if i > 0 {
      WithoutAt(s[1..], i - 1);
      assert s[1..][..i - 1] == s[1..i] && s[..i] == [s[0]] + s[1..i];
      assert s[1..][i..] == s[i + 1..];
    }
  }

  ghost function Below(n: nat): set<nat> {
    if n == 0 then {} else Below(n - 1) + {n - 1}
  }

  lemma {:induction false} BelowFacts(n: nat, x: nat)
    ensures |Below(n)| == n && (x in Below(n) <==> x < n)
  {
    if n > 0 {
      BelowFacts(n - 1, x);
      BelowFacts(n - 1, n - 1);
    }
  }

  /** Distinct numbers below n are at most n. */
  lemma Pigeonhole(s: seq<nat>, n: nat)
    requires NoDup(s) && forall x :: x in s ==> x < n
    ensures |s| <= n
  {
    ElemsCount(s);
    forall x | x in Elems(s) ensures x in Below(n) {
      assert x in s;
      BelowFacts(n, x);
    }
    BelowFacts(n, 0);
    assert Below(n) == Elems(s) + (Below(n) - Elems(s));
  }
}
