/** Shift-subtract division and powers of two on 32-bit words (lib/utils.c). */
module Division {
  import opened Arithmetic

  const WORD: nat := 0x1_0000_0000

  /** Bit i of x. */
  function BitAt(x: nat, i: nat): nat {
    ModBelow(x, Pow2(i));
    (x / Pow2(i)) % 2
  }

  lemma Pow2Of32()
    ensures Pow2(32) == WORD && Pow2(0) == 1
  {
    assert Pow2(4) == 16;
    assert Pow2(8) == 256;
    assert Pow2(12) == 4096;
    assert Pow2(16) == 65536;
    assert Pow2(20) == 1048576;
    assert Pow2(24) == 16777216;
    assert Pow2(28) == 268435456;
  }

  /** The prefix of x above bit i is twice the prefix above bit i + 1, plus the bit. */
  lemma PrefixStep(x: nat, i: nat)
    ensures Prefix(x, i) == 2 * Prefix(x, i + 1) + BitAt(x, i) && BitAt(x, i) < 2
  {
    var p := Pow2(i);
    var q, r := x / p, x % p;
    ModBelow(x, p);
    HalfPrefix(x, p, q, r, q / 2, q % 2);
  }

  lemma HalfPrefix(x: nat, p: nat, q: nat, r: nat, h: nat, b: nat)
    requires p > 0 && x == q * p + r && r < p && q == 2 * h + b && b < 2
    ensures x / (2 * p) == h
  {
    MulDistribute(2 * h, b, p);
    assert 2 * h * p == h * (2 * p);
    DivModUnique(x, 2 * p, h, b * p + r);
  }

  function Prefix(x: nat, i: nat): nat {
    ModBelow(x, Pow2(i));
    x / Pow2(i)
  }

  /** The bits above i have been divided: `high` are the digits of the quotient q found so far. */
  ghost predicate Divided(r0: nat, word: nat, d: nat, i: nat, high: nat, q: nat, r: nat) {
    && i <= 32 && r < d && q == high * Pow2(i) && high < Pow2(32 - i)
    && r0 * Pow2(32 - i) + Prefix(word, i) == high * d + r
  }

  lemma DividedNone(r0: nat, word: nat, d: nat)
    requires r0 < d && word < WORD
    ensures Divided(r0, word, d, 32, 0, 0, r0)
  {
    Pow2Of32();
    DivModUnique(word, Pow2(32), 0, word);
  }

  lemma DividedAll(r0: nat, word: nat, d: nat, high: nat, q: nat, r: nat)
    requires Divided(r0, word, d, 0, high, q, r)
    ensures r0 * WORD + word == q * d + r && r < d && q < WORD
  {
    Pow2Of32();
  }

  /** One more bit. */
  lemma DividedStep(r0: nat, word: nat, d: nat, i: nat, high: nat, q: nat, r: nat)
    requires i < 32 && Divided(r0, word, d, i + 1, high, q, r)
    ensures
      var x := 2 * r + BitAt(word, i);
      && x < 2 * d
      && (x >= d ==> Divided(r0, word, d, i, 2 * high + 1, q + Pow2(i), x - d))
      && (x < d ==> Divided(r0, word, d, i, 2 * high, q, x))
  {
    hide Pow2;
    PrefixStep(word, i);
    StepDigits(high, q, i);
    StepRemainder(r0, Pow2(32 - (i + 1)), high, d);
    Doubles(32 - (i + 1));
    Doubles(i);
  }

  lemma Doubles(i: nat)
    ensures Pow2(i + 1) == 2 * Pow2(i)
  {
  }

  lemma StepDigits(high: nat, q: nat, i: nat)
    requires q == high * Pow2(i + 1)
    ensures q == 2 * high * Pow2(i) && q + Pow2(i) == (2 * high + 1) * Pow2(i)
  {
    Doubles(i);
    MulDistribute(2 * high, 1, Pow2(i));
    assert 2 * high * Pow2(i) == high * (2 * Pow2(i));
  }

  lemma StepRemainder(r0: nat, p: nat, high: nat, d: nat)
    ensures r0 * (2 * p) == 2 * (r0 * p) && 2 * high * d == 2 * (high * d) && (2 * high + 1) * d == 2 * (high * d) + d
  {
    MulDistribute(2 * high, 1, d);
    assert 2 * high * d == 2 * (high * d);
  }

  /**
   * The loop of the divisions: (r0, word) as a number of two words by d. The remainder may need 33 bits before
   * the subtraction; its top bit is the carry. Bit i of the quotient is clear when it is set, so the or is an
   * addition.
   */
  method DivideWord(r0: nat, word: nat, d: nat) returns (q: nat, r: nat)
    requires r0 < d < WORD && word < WORD
    ensures r0 * WORD + word == q * d + r && r < d && q < WORD
  {
    hide Divided, BitAt, Pow2;
    q, r := 0, r0;
    DividedNone(r0, word, d);
    ghost var high: nat := 0;
    var i: nat := 32;
    while i > 0
      invariant i <= 32 && Divided(r0, word, d, i, high, q, r)
    {
      i := i - 1;
      DividedStep(r0, word, d, i, high, q, r);
      var x := 2 * r + BitAt(word, i);
      CarryFacts(x, d);
      var carry, low := x / WORD, x % WORD;
      high := 2 * high;
      if carry != 0 || low >= d {
        low := (low - d) % WORD;
        q := q + Pow2(i);
        high := high + 1;
      }
      r := low;
    }
    DividedAll(r0, word, d, high, q, r);
  }

  /** Subtracting d from a number below 2d in one word. */
  lemma CarryFacts(x: nat, d: nat)
    requires 0 < d < WORD && x < 2 * d
    ensures 0 <= x / WORD && 0 <= x % WORD < WORD
    ensures x / WORD != 0 || x % WORD >= d <==> x >= d
    ensures x >= d ==> (x % WORD - d) % WORD == x - d
    ensures x < d ==> x % WORD == x
  {
    if x < WORD {
      DivModUnique(x, WORD, 0, x);
      if x >= d {
        DivModUnique(x - d, WORD, 0, x - d);
      }
    } else {
      DivModUnique(x, WORD, 1, x - WORD);
      DivModUnique(x - WORD - d, WORD, -1, x - d);
    }
  }

  /** div_u32 and mod_u32 without a carry: the remainder before the last shift has 31 bits. */
  method DivideU32(num: nat, d: nat) returns (q: nat, r: nat)
    requires num < WORD && 0 < d < WORD
    ensures num == q * d + r && r < d
  {
    hide Divided, BitAt, Pow2;
    q, r := 0, 0;
    DividedNone(0, num, d);
    ghost var high: nat := 0;
    var i: nat := 32;
    while i > 0
      invariant i <= 32 && Divided(0, num, d, i, high, q, r)
    {
      i := i - 1;
      DividedStep(0, num, d, i, high, q, r);
      NoCarry(num, d, i, high, q, r);
      r := (2 * r + BitAt(num, i)) % WORD;
      high := 2 * high;
      if r >= d {
        r := r - d;
        q := q + Pow2(i);
        high := high + 1;
      }
    }
    DividedAll(0, num, d, high, q, r);
  }

  lemma NoCarry(num: nat, d: nat, i: nat, high: nat, q: nat, r: nat)
    requires num < WORD && i < 32 && Divided(0, num, d, i + 1, high, q, r)
    ensures (2 * r + BitAt(num, i)) % WORD == 2 * r + BitAt(num, i)
  {
    MulOrder(0, high, d);
    var p := Prefix(num, i + 1);
    assert r <= p;
    PrefixBound(num, i, p);
    DivModUnique(2 * r + BitAt(num, i), WORD, 0, 2 * r + BitAt(num, i));
  }

  lemma PrefixBound(num: nat, i: nat, p: nat)
    requires num < WORD && p == Prefix(num, i + 1)
    ensures 2 * p + 1 < WORD
  {
    Pow2Monotone(1, i + 1);
    assert Pow2(1) == 2;
    TwiceQuotient(num, Pow2(i + 1));
  }

  lemma TwiceQuotient(x: nat, m: nat)
    requires m >= 2
    ensures 2 * (x / m) <= x
  {
    ModBelow(x, m);
    MulOrder(2, m, x / m);
    assert x == x / m * m + x % m;
  }

  /** do_divmod_u64: the quotient of a number of two words by one word. */
  method DivModU64(num: nat, d: nat) returns (q: nat, r: nat)
    requires num < WORD * WORD && d < WORD
    ensures d > 0 ==> num == q * d + r && r < d
    ensures d == 0 ==> q == 0 && r == 0
  {
    if d == 0 {
      return 0, 0;
    }
    ModBelow(num, WORD);
    var hi, lo := num / WORD, num % WORD;
    var qHi, qLo;
    qHi, r := DivideWord(0, hi, d);
    ghost var r1 := r;
    qLo, r := DivideWord(r, lo, d);
    q := qHi * WORD + qLo;
    TwoWords(num, hi, lo, qHi, qLo, d, r1, r);
  }

  lemma TwoWords(num: nat, hi: nat, lo: nat, qHi: nat, qLo: nat, d: nat, r1: nat, r: nat)
    requires num == hi * WORD + lo && hi == qHi * d + r1 && r1 * WORD + lo == qLo * d + r
    ensures num == (qHi * WORD + qLo) * d + r
  {
    MulDistribute(qHi * d, r1, WORD);
    MulDistribute(qHi * WORD, qLo, d);
    assert qHi * d * WORD == qHi * WORD * d;
  }

  // ---------------------------------------------------------------- powers of two

  /** next_power_of_two: the bits below the highest one are filled. */
  function NextPowerOfTwo(n: bv32): bv32 {
    if n == 0 then 1
    else
      var a := n - 1;
      var b := a | (a >> 1);
      var c := b | (b >> 2);
      var d := c | (c >> 4);
      var e := d | (d >> 8);
      var f := e | (e >> 16);
      f + 1
  }

  /** is_power_of_two */
  predicate IsPowerOfTwo(n: bv32) {
    n != 0 && (n & (n - 1)) == 0
  }

  /** The result is the least power of two that is not smaller, up to 2^31; above that it wraps to 0. */
  lemma NextPowerIsLeast(n: bv32, p: bv32)
    ensures n <= 0x8000_0000 ==> IsPowerOfTwo(NextPowerOfTwo(n)) && n <= NextPowerOfTwo(n)
    ensures n <= 0x8000_0000 && IsPowerOfTwo(p) && n <= p ==> NextPowerOfTwo(n) <= p
    ensures n > 0x8000_0000 ==> NextPowerOfTwo(n) == 0
  {
  }
}
