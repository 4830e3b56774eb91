/** Numbers in 32-bit words: next_power_of_two of a number of pages (lib/utils.c, mm/buddy.c). */
module Words {
  import opened Arithmetic
  import opened Division

  // The operations on words have names, so that proofs about numbers can hide the bits.

  predicate Less(x: bv32, y: bv32) { x < y }

  predicate AtMost(x: bv32, y: bv32) { x <= y }

  function Twice(x: bv32): bv32 { x << 1 }

  function TwiceAndOne(x: bv32): bv32 { (x << 1) | 1 }

  /** The word of a number, or of its low 32 bits. */
  function Word(n: nat): bv32 {
    if n == 0 then 0 else if n % 2 == 1 then TwiceAndOne(Word(n / 2)) else Twice(Word(n / 2))
  }

  /** 2^k as a word. */
  function Power(k: nat): bv32
    requires k < 32
  {
    [0x1, 0x2, 0x4, 0x8, 0x10, 0x20, 0x40, 0x80, 0x100, 0x200, 0x400, 0x800, 0x1000, 0x2000, 0x4000, 0x8000,
     0x1_0000, 0x2_0000, 0x4_0000, 0x8_0000, 0x10_0000, 0x20_0000, 0x40_0000, 0x80_0000, 0x100_0000, 0x200_0000,
     0x400_0000, 0x800_0000, 0x1000_0000, 0x2000_0000, 0x4000_0000, 0x8000_0000][k]
  }

  // ---------------------------------------------------------------- bits

  lemma EndPowers()
    ensures Power(31) == 0x8000_0000 && Power(0) == 1
  {
  }

  lemma LowPowers(k: nat)
    requires 0 < k <= 16
    ensures Power(k) == Twice(Power(k - 1)) && Less(Power(k - 1), 0x8000_0000)
  {
  }

  lemma HighPowers(k: nat)
    requires 16 < k < 32
    ensures Power(k) == Twice(Power(k - 1)) && Less(Power(k - 1), 0x8000_0000)
  {
  }

  lemma PowersDouble(k: nat)
    requires 0 < k < 32
    ensures Power(k) == Twice(Power(k - 1)) && Less(Power(k - 1), Power(31))
  {
    EndPowers();
    hide Power, Twice, Less;
    if k <= 16 {
      LowPowers(k);
    } else {
      HighPowers(k);
    }
  }

  lemma TwicePower(p: bv32)
    requires IsPowerOfTwo(p) && Less(p, 0x8000_0000)
    ensures IsPowerOfTwo(Twice(p))
  {
  }

  lemma {:induction false} PowersArePowers(k: nat)
    requires k < 32
    ensures IsPowerOfTwo(Power(k)) && Less(0, Power(k))
  {
    EndPowers();
    hide Power, Twice;
    if k > 0 {
      PowersDouble(k);
      PowersArePowers(k - 1);
      TwicePower(Power(k - 1));
    }
  }

  lemma EvenEven(x: bv32, y: bv32)
    requires Less(x, y) && Less(y, 0x8000_0000)
    ensures Less(Twice(x), Twice(y))
  {
  }

  lemma OddEven(x: bv32, y: bv32)
    requires Less(x, y) && Less(y, 0x8000_0000)
    ensures Less(TwiceAndOne(x), Twice(y))
  {
  }

  lemma EvenOdd(x: bv32, y: bv32)
    requires Less(x, y) && Less(y, 0x8000_0000)
    ensures Less(Twice(x), TwiceAndOne(y))
  {
  }

  lemma OddOdd(x: bv32, y: bv32)
    requires Less(x, y) && Less(y, 0x8000_0000)
    ensures Less(TwiceAndOne(x), TwiceAndOne(y))
  {
  }

  lemma TwiceOrder(x: bv32, y: bv32)
    requires Less(x, y) && Less(y, 0x8000_0000)
    ensures Less(Twice(x), Twice(y)) && Less(TwiceAndOne(x), Twice(y))
    ensures Less(Twice(x), TwiceAndOne(y)) && Less(TwiceAndOne(x), TwiceAndOne(y))
  {
    hide Less, Twice, TwiceAndOne;
    EvenEven(x, y);
    OddEven(x, y);
    EvenOdd(x, y);
    OddOdd(x, y);
  }

  lemma LowBit(x: bv32)
    ensures Less(Twice(x), TwiceAndOne(x)) && Less(0, TwiceAndOne(x)) && Twice(0) == 0 && TwiceAndOne(0) == 1
  {
  }

  lemma NoPowerBetween(p: bv32, w: bv32, q: bv32)
    requires IsPowerOfTwo(p) && IsPowerOfTwo(q) && Less(p, 0x8000_0000)
    requires Less(p, w) && AtMost(w, q) && AtMost(q, Twice(p))
    ensures q == Twice(p)
  {
  }

  // ---------------------------------------------------------------- numbers

  lemma TopNumber()
    ensures Pow2(31) == 0x8000_0000
  {
    assert Pow2(8) == 256;
    assert Pow2(16) == 65536;
    assert Pow2(24) == 0x100_0000;
  }

  lemma {:induction false} WordBelow(n: nat, k: nat)
    requires n < Pow2(k) && k < 32
    ensures Less(Word(n), Power(k))
  {
    hide Power, Less, Twice, TwiceAndOne;
    EndPowers();
    PowersArePowers(k);
    if k > 0 && n > 0 {
      WordBelow(n / 2, k - 1);
      PowersDouble(k);
      TwiceOrder(Word(n / 2), Power(k - 1));
    }
  }

  /** Words are ordered as their numbers. */
  lemma {:induction false} WordOrder(m: nat, n: nat)
    requires m < n < 0x1_0000_0000
    ensures Less(Word(m), Word(n))
  {
    hide Power, Less, Twice, TwiceAndOne, Pow2;
    EndPowers();
    TopNumber();
    WordBelow(n / 2, 31);
    LowBit(Word(n / 2));
    LowBit(0);
    if m / 2 < n / 2 {
      WordOrder(m / 2, n / 2);
      TwiceOrder(Word(m / 2), Word(n / 2));
    }
  }

  lemma {:induction false} WordPower(k: nat)
    requires k < 32
    ensures Word(Pow2(k)) == Power(k)
  {
    hide Power, Less, Twice, TwiceAndOne;
    EndPowers();
    if k == 0 {
      LowBit(0);
    } else {
      WordPower(k - 1);
      PowersDouble(k);
    }
  }

  lemma PowersOrder(i: nat, j: nat)
    requires i < j < 32
    ensures Less(Power(i), Power(j))
  {
    hide Power, Less, Word;
    WordPower(i);
    WordPower(j);
    Pow2Monotone(i, j);
    Pow2Monotone(j, 31);
    TopNumber();
    WordOrder(Pow2(i), Pow2(j));
  }

  /** The least order whose blocks have n pages or more. */
  function LeastOrder(n: nat): (k: nat)
    ensures n <= Pow2(k) && (k > 0 ==> Pow2(k - 1) < n)
  {
    if n <= 1 then 0 else LeastOrder((n + 1) / 2) + 1
  }

  lemma LeastOrderBound(n: nat)
    requires n <= 0x8000_0000
    ensures LeastOrder(n) < 32
  {
    TopNumber();
    if LeastOrder(n) >= 32 {
      Pow2Monotone(31, LeastOrder(n) - 1);
    }
  }

  lemma LessAtMost(x: bv32, y: bv32)
    requires Less(x, y)
    ensures AtMost(x, y)
  {
  }

  lemma SameAtMost(x: bv32)
    ensures AtMost(x, x)
  {
  }

  lemma WordAtMost(n: nat, k: nat)
    requires n <= Pow2(k) && k < 32
    ensures AtMost(Word(n), Power(k))
  {
    hide Power, Less, Word, AtMost, Pow2;
    WordPower(k);
    Pow2Monotone(k, 31);
    TopNumber();
    if n < Pow2(k) {
      WordOrder(n, Pow2(k));
      LessAtMost(Word(n), Power(k));
    } else {
      SameAtMost(Power(k));
    }
  }

  /** next_power_of_two gives the pages of a block of the least order, as a word; above 2^31 it gives 0. */
  lemma NextPowerOfWord(n: nat)
    requires n < 0x1_0000_0000
    ensures n <= 0x8000_0000 ==> LeastOrder(n) < 32 && NextPowerOfTwo(Word(n)) == Power(LeastOrder(n))
    ensures n > 0x8000_0000 ==> NextPowerOfTwo(Word(n)) == 0
  {
    hide NextPowerOfTwo, Word, IsPowerOfTwo, Power, Pow2, LeastOrder, Less, AtMost, Twice;
    EndPowers();
    TopNumber();
    WordPower(31);
    if n > 0x8000_0000 {
      WordOrder(0x8000_0000, n);
      AboveTop(Word(n));
    } else {
      var k := LeastOrder(n);
      LeastOrderBound(n);
      WordAtMost(n, 31);
      WordAtMost(n, k);
      PowersArePowers(k);
      if k > 0 {
        WordPower(k - 1);
        WordOrder(Pow2(k - 1), n);
        PowersDouble(k);
        PowersArePowers(k - 1);
        BetweenPowers(Word(n), Power(k - 1));
      } else {
        UpToOne(Word(n));
      }
    }
  }

  lemma AboveTop(w: bv32)
    requires Less(0x8000_0000, w)
    ensures NextPowerOfTwo(w) == 0
  {
    NextPowerIsLeast(w, 1);
  }

  lemma UpToOne(w: bv32)
    requires AtMost(w, 1)
    ensures NextPowerOfTwo(w) == 1
  {
  }

  lemma TwiceBelow(p: bv32)
    requires Less(p, 0x8000_0000) && IsPowerOfTwo(p)
    ensures AtMost(Twice(p), 0x8000_0000)
  {
  }

  lemma LeastPower(w: bv32, p: bv32)
    requires IsPowerOfTwo(p) && AtMost(w, p) && AtMost(p, 0x8000_0000)
    ensures IsPowerOfTwo(NextPowerOfTwo(w)) && AtMost(w, NextPowerOfTwo(w)) && AtMost(NextPowerOfTwo(w), p)
  {
    NextPowerIsLeast(w, p);
    hide NextPowerOfTwo, IsPowerOfTwo;
  }

  lemma BetweenPowers(w: bv32, p: bv32)
    requires IsPowerOfTwo(p) && Less(p, 0x8000_0000) && Less(p, w) && AtMost(w, Twice(p))
    ensures NextPowerOfTwo(w) == Twice(p)
  {
    hide NextPowerOfTwo, Less, AtMost, Twice, IsPowerOfTwo;
    TwicePower(p);
    TwiceBelow(p);
    LeastPower(w, Twice(p));
    NoPowerBetween(p, w, NextPowerOfTwo(w));
  }

  // ---------------------------------------------------------------- the order of a number of pages

  /** n_to_order, which next_power_of_two only gives powers of two and 0. */
  method NToOrder(n: bv32) returns (order: nat)
    requires n == 0 || exists k: nat :: k < 32 && n == Power(k)
    ensures order < 32 && (if n == 0 then order == 0 else n == Power(order))
  {
    hide Power, IsPowerOfTwo;
    EndPowers();
    ghost var k: nat := 0;
    if n != 0 {
      k :| k < 32 && n == Power(k);
    }
    var size: bv32 := 1;
    order := 0;
    while size < n
      invariant order <= k < 32 && size == Power(order) && (n == 0 ==> k == 0) && (n != 0 ==> n == Power(k))
      decreases k - order
    {
      NotYet(size, n);
      PowersDouble(order + 1);
      size := Twice(size);
      order := order + 1;
    }
    if order < k {
      PowersOrder(order, k);
    }
  }

  lemma NotYet(size: bv32, n: bv32)
    requires size < n
    ensures size != n && n != 0
  {
  }

  /** The order alloc_pages_kva asks for: the number of pages is cut to 32 bits. */
  function KvaOrder(npages: nat): nat {
    var n := npages % 0x1_0000_0000;
    if n > 0x8000_0000 then 0 else LeastOrder(n)
  }

  /** The part of alloc_pages_kva that chooses the order. */
  method PagesOrder(npages: nat) returns (order: nat)
    ensures order == KvaOrder(npages) < 32
  {
    hide Power, IsPowerOfTwo, NextPowerOfTwo, Word;
    ghost var n: nat := npages % 0x1_0000_0000;
    NextPowerOfWord(n);
    order := NToOrder(NextPowerOfTwo(Word(npages % 0x1_0000_0000)));
    if n <= 0x8000_0000 {
      SamePower(LeastOrder(n), order);
    }
  }

  lemma LessDiffers(x: bv32, y: bv32)
    requires Less(x, y)
    ensures x != y
  {
  }

  lemma SamePower(i: nat, j: nat)
    requires i < 32 && j < 32
    ensures Power(i) != 0 && (Power(i) == Power(j) ==> i == j)
  {
    hide Power, IsPowerOfTwo, Less;
    PowersArePowers(i);
    LessDiffers(0, Power(i));
    if i < j {
      PowersOrder(i, j);
      LessDiffers(Power(i), Power(j));
    } else if j < i {
      PowersOrder(j, i);
      LessDiffers(Power(j), Power(i));
    }
  }

  /** The block holds the pages exactly if there are at most 2^31, and then no smaller block does. */
  lemma BlockHolds(npages: nat)
    ensures npages <= Pow2(KvaOrder(npages)) <==> npages <= 0x8000_0000
    ensures KvaOrder(npages) > 0 ==> Pow2(KvaOrder(npages) - 1) < npages
  {
    hide Pow2;
    TopNumber();
    PowZero();
    var n := npages % 0x1_0000_0000;
    if n <= 0x8000_0000 {
      LeastOrderBound(n);
      Pow2Monotone(LeastOrder(n), 31);
    }
  }

  lemma PowZero()
    ensures Pow2(0) == 1
  {
  }
}
