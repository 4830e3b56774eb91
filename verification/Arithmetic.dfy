/** Division, remainder and powers of two, in the form the other modules use them. */
module Arithmetic {
  function Max(a: nat, b: nat): nat { if a < b then b else a }

  lemma MulAtLeast(k: int, d: int)
    requires d > 0
    ensures k >= 1 ==> k * d >= d
    ensures k <= -1 ==> k * d <= -d
  {
  }

  lemma MulDistribute(a: int, b: int, d: int)
    ensures (a + b) * d == a * d + b * d
    ensures (a - b) * d == a * d - b * d
  {
  }

  lemma MulOrder(a: int, b: int, d: int)
    requires d >= 0 && a <= b
    ensures a * d <= b * d
  {
  }

  /** Quotient and remainder are the only pair that recomposes the dividend. */
  lemma DivModUnique(x: int, d: int, q: int, r: int)
    requires d > 0 && x == q * d + r && 0 <= r < d
    ensures x / d == q && x % d == r
  {
    var q', r' := x / d, x % d;
    assert x == q' * d + r';
    MulDistribute(q, q', d);
    MulAtLeast(q - q', d);
  }

  lemma MultipleMod(k: int, d: int)
    requires d > 0
    ensures (k * d) % d == 0 && (k * d) / d == k
  {
    DivModUnique(k * d, d, k, 0);
  }

  lemma ModAdd(a: int, b: int, d: int)
    requires d > 0 && a % d == 0 && b % d == 0
    ensures (a + b) % d == 0 && (a - b) % d == 0
  {
    var j, k := a / d, b / d;
    assert a == j * d && b == k * d;
    MulDistribute(j, k, d);
    MultipleMod(j + k, d);
    MultipleMod(j - k, d);
  }

  /** Adding a remainder to a multiple. */
  lemma ModOffset(a: int, r: int, d: int)
    requires d > 0 && a % d == 0 && 0 <= r < d
    ensures (a + r) % d == r && (a + r) / d == a / d
  {
    DivModUnique(a + r, d, a / d, r);
  }

  /** Adding a multiple does not change the remainder. */
  lemma ModShift(a: int, m: int, d: int)
    requires d > 0 && m % d == 0
    ensures (a + m) % d == a % d && (a + m) / d == a / d + m / d
  {
    MulDistribute(a / d, m / d, d);
    DivModUnique(a + m, d, a / d + m / d, a % d);
  }

  /** Distinct multiples of d are at least d apart. */
  lemma MultiplesApart(a: int, b: int, d: int)
    requires d > 0 && a % d == 0 && b % d == 0 && a < b
    ensures a + d <= b
  {
    ModAdd(b, a, d);
    MulAtLeast((b - a) / d, d);
  }

  /** Divisibility is transitive. */
  lemma ModTransitive(x: int, big: int, small: int)
    requires big > 0 && small > 0 && x % big == 0 && big % small == 0
    ensures x % small == 0
  {
    var k, m := x / big, big / small;
    assert x == k * big && big == m * small;
    assert k * (m * small) == (k * m) * small;
    MultipleMod(k * m, small);
  }

  lemma ModKeepsMultiple(x: int, big: int, small: int)
    requires big > 0 && small > 0 && x % small == 0 && big % small == 0
    ensures (x % big) % small == 0
  {
    var q := x / big;
    assert x % big == x - q * big;
    MultipleMod(q, big);
    ModTransitive(q * big, big, small);
    ModAdd(x, q * big, small);
  }

  lemma ModBelow(x: int, d: int)
    requires d > 0 && x >= 0
    ensures x % d <= x && x / d >= 0
  {
    MulAtLeast(x / d, d);
  }

  function AlignDown(x: int, d: int): (r: int)
    requires d > 0
    ensures r <= x < r + d
    ensures 0 <= x ==> 0 <= r
  {
    if 0 <= x then ModBelow(x, d); x - x % d else x - x % d
  }

  function AlignUp(x: int, d: int): int
    requires d > 0
  {
    AlignDown(x + d - 1, d)
  }

  /** AlignDown is the greatest multiple not above x, AlignUp the least not below. */
  lemma AlignFacts(x: int, d: int)
    requires d > 0
    ensures AlignDown(x, d) % d == 0 && AlignDown(x, d) <= x < AlignDown(x, d) + d
    ensures AlignUp(x, d) % d == 0 && AlignUp(x, d) - d < x <= AlignUp(x, d)
  {
    MultipleMod(x / d, d);
    MultipleMod((x + d - 1) / d, d);
    assert x - x % d == (x / d) * d;
    assert (x + d - 1) - (x + d - 1) % d == ((x + d - 1) / d) * d;
  }

  function Pow2(n: nat): (r: nat)
    ensures r > 0
  {
    if n == 0 then 1 else 2 * Pow2(n - 1)
  }

  lemma {:induction false} Pow2Monotone(m: nat, n: nat)
    requires m <= n
    ensures Pow2(m) <= Pow2(n)
    ensures m < n ==> Pow2(m) < Pow2(n)
    decreases n
  {
    if m < n {
      Pow2Monotone(m, n - 1);
    }
  }

  lemma {:induction false} Pow2Divides(lo: nat, hi: nat)
    requires lo <= hi
    ensures Pow2(hi) % Pow2(lo) == 0
    decreases hi
  {
    if lo == hi {
      MultipleMod(1, Pow2(lo));
    } else {
      Pow2Divides(lo, hi - 1);
      ModAdd(Pow2(hi - 1), Pow2(hi - 1), Pow2(lo));
    }
  }

  lemma MulAssoc(a: int, b: int, c: int)
    ensures a * (b * c) == (a * b) * c
  {
  }

  /** In a window of n slots of s bytes, starting at a multiple of its length, (va / s) % n is the slot of va. */
  lemma SlotOf(base: int, n: int, s: int, va: int)
    requires n > 0 && s > 0 && n * s > 0 && base % (n * s) == 0 && base <= va < base + n * s
    ensures va - (base + ((va / s) % n) * s) == va % s
  {
    var k, q, m := base / (n * s), va / s, va % s;
    assert base == k * (n * s);
    MulAssoc(k, n, s);
    var kn := k * n;
    var r := q - kn;
    assert base == kn * s && va == q * s + m;
    MulDistribute(q, kn, s);
    assert va - base == r * s + m;
    SlotInWindow(r, n, s, m);
    DivModUnique(q, n, k, r);
  }

  lemma SlotInWindow(r: int, n: int, s: int, m: int)
    requires s > 0 && 0 <= m < s && 0 <= r * s + m < n * s
    ensures 0 <= r < n
  {
    MulAtLeast(r, s);
    if r >= n {
      MulOrder(n, r, s);
      assert false;
    }
  }

  lemma SlotEnd(i: int, n: int, s: int)
    requires 0 <= i < n && s > 0
    ensures 0 <= i * s && i * s + s <= n * s
  {
    MulOrder(i + 1, n, s);
    MulDistribute(i, 1, s);
    MulOrder(0, i, s);
  }
}
