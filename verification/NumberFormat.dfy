/** The number conversions of vsnprintf (lib/vsprintf.c). */
module NumberFormat {
  import opened Arithmetic
  import opened Division

  // ---------------------------------------------------------------- numerals

  function DigitChar(x: nat, uppercase: bool): char
    requires x < 16
  {
    if uppercase then "0123456789ABCDEF"[x] else "0123456789abcdef"[x]
  }

  /** The value of a numeral's digit. */
  function DigitValue(c: char): (x: nat)
    ensures x < 16
  {
    if '0' <= c <= '9' then c as nat - '0' as nat
    else if 'A' <= c <= 'F' then c as nat - 'A' as nat + 10
    else if 'a' <= c <= 'f' then c as nat - 'a' as nat + 10
    else 0
  }

  lemma DigitRoundTrip(x: nat, uppercase: bool)
    requires x < 16
    ensures DigitValue(DigitChar(x, uppercase)) == x && (DigitChar(x, uppercase) == '0' <==> x == 0)
    ensures forall base :: x < base ==> IsDigit(DigitChar(x, uppercase), base, uppercase)
  {
  }

  predicate IsDigit(c: char, base: nat, uppercase: bool) {
    ('0' <= c <= '9' || (if uppercase then 'A' <= c <= 'F' else 'a' <= c <= 'f')) && DigitValue(c) < base
  }

  /** Every character is a digit of the base, in the case asked for. */
  ghost predicate IsNumeral(s: string, base: nat, uppercase: bool) {
    forall i :: 0 <= i < |s| ==> IsDigit(s[i], base, uppercase)
  }

  /** The digits of a value without leading zeros, none for 0. */
  function DigitCount(value: nat, base: nat): (n: nat)
    requires base >= 2
    ensures n == 0 <==> value == 0
  {
    if value == 0 then 0 else 1 + DigitCount(value / base, base)
  }

  /** The number a numeral stands for. */
  function Value(s: string, base: nat): nat {
    if s == [] then 0 else Value(s[..|s| - 1], base) * base + DigitValue(s[|s| - 1])
  }

  function Pow(b: nat, n: nat): nat {
    if n == 0 then 1 else b * Pow(b, n - 1)
  }

  lemma ValueLast(s: string, base: nat)
    requires s != []
    ensures Value(s, base) == Value(s[..|s| - 1], base) * base + DigitValue(s[|s| - 1])
  {
  }

  lemma ValueNone(base: nat)
    ensures Value([], base) == 0 && Pow(base, 0) == 1
  {
  }

  lemma HornerStep(d: nat, p: nat, v: nat, b: nat, x: nat)
    ensures (d * p + v) * b + x == d * (b * p) + (v * b + x)
  {
    MulDistribute(d * p, v, b);
    assert d * p * b == d * (b * p);
  }

  lemma {:induction false} ValueCons(c: char, s: string, base: nat)
    ensures Value([c] + s, base) == DigitValue(c) * Pow(base, |s|) + Value(s, base)
    decreases |s|
  {
    hide Value, DigitValue;
    ValueLast([c] + s, base);
    ValueNone(base);
    if s == [] {
      assert ([c] + s)[..0] == [] && ([c] + s)[0] == c;
    } else {
      var n := |s| - 1;
      assert ([c] + s)[..n + 1] == [c] + s[..n] && ([c] + s)[n + 1] == s[n];
      ValueCons(c, s[..n], base);
      ValueLast(s, base);
      HornerStep(DigitValue(c), Pow(base, n), Value(s[..n], base), base, DigitValue(s[n]));
    }
  }

  lemma DigitUnique(c: char, d: char, base: nat, uppercase: bool)
    requires IsDigit(c, base, uppercase) && IsDigit(d, base, uppercase) && DigitValue(c) == DigitValue(d)
    ensures c == d
  {
  }

  /** Numerals of one length that stand for the same number are equal. */
  lemma {:induction false} NumeralUnique(s: string, t: string, base: nat, uppercase: bool)
    requires base >= 2 && |s| == |t| && IsNumeral(s, base, uppercase) && IsNumeral(t, base, uppercase)
    requires Value(s, base) == Value(t, base)
    ensures s == t
    decreases |s|
  {
    hide DigitValue, DigitChar;
    if s != [] {
      var n := |s| - 1;
      assert IsDigit(s[n], base, uppercase) && IsDigit(t[n], base, uppercase);
      DivModUnique(Value(s, base), base, Value(s[..n], base), DigitValue(s[n]));
      DivModUnique(Value(t, base), base, Value(t[..n], base), DigitValue(t[n]));
      NumeralUnique(s[..n], t[..n], base, uppercase);
      DigitUnique(s[n], t[n], base, uppercase);
      assert s == s[..n] + [s[n]] && t == t[..n] + [t[n]];
    }
  }

  /** Leading zeros do not change the value. */
  lemma {:induction false} LeadingZeros(n: nat, s: string, base: nat)
    ensures Value(Repeat('0', n) + s, base) == Value(s, base)
  {
    hide Value;
    if n == 0 {
      assert Repeat('0', 0) + s == s;
    } else {
      LeadingZeros(n - 1, s, base);
      ValueCons('0', Repeat('0', n - 1) + s, base);
      assert Repeat('0', n) + s == ['0'] + (Repeat('0', n - 1) + s);
    }
  }

  function Repeat(c: char, n: nat): (s: string)
    ensures |s| == n
  {
    seq(n, _ => c)
  }

  function Reverse(s: string): (r: string)
    ensures |r| == |s|
  {
    if s == [] then [] else [s[|s| - 1]] + Reverse(s[..|s| - 1])
  }

  /** The digit loop: least significant digit first, at most 64 digits for a 64-bit value. */
  method Digits(value0: nat, base: nat, uppercase: bool) returns (rev: string)
    requires value0 < WORD * WORD && 2 <= base <= 16
    ensures Value(Reverse(rev), base) == value0 && |rev| <= 64
    ensures value0 == 0 <==> rev == []
    ensures rev != [] ==> rev[|rev| - 1] != '0'
    ensures IsNumeral(Reverse(rev), base, uppercase) && |rev| == DigitCount(value0, base)
  {
    hide Value, Pow, DigitCount;
    rev := [];
    var value: nat := value0;
    NoDigits(value0, base);
    while value != 0
      invariant DigitState(value0, value, rev, base)
      invariant IsNumeral(Reverse(rev), base, uppercase) && |rev| + DigitCount(value, base) == DigitCount(value0, base)
      invariant value0 == 0 ==> value == 0 && rev == []
      invariant value0 != 0 && value == 0 ==> rev != [] && rev[|rev| - 1] != '0'
      decreases value
    {
      StateBound(value0, value, rev, base);
      var q, r := DivModU64(value, base);
      SmallerQuotient(value, base, q, r);
      DigitRoundTrip(r, uppercase);
      CountOne(value, base, q, r);
      ReverseOne(rev, DigitChar(r, uppercase));
      OneDigit(value0, value, rev, base, q, r, DigitChar(r, uppercase));
      rev := rev + [DigitChar(r, uppercase)];
      value := q;
    }
    AllDigits(value0, rev, base);
  }

  lemma CountOne(value: nat, base: nat, q: nat, r: nat)
    requires base >= 2 && value > 0 && value == q * base + r && r < base
    ensures DigitCount(value, base) == 1 + DigitCount(q, base)
  {
    DivModUnique(value, base, q, r);
  }

  lemma ReverseOne(rev: string, c: char)
    ensures Reverse(rev + [c]) == [c] + Reverse(rev)
  {
    assert (rev + [c])[..|rev|] == rev;
  }

  /** What is left of the value, and the digits so far. */
  ghost predicate DigitState(value0: nat, value: nat, rev: string, base: nat) {
    && value0 == value * Pow(base, |rev|) + Value(Reverse(rev), base)
    && |rev| <= 64 && value < Pow2(64 - |rev|)
  }

  lemma Pow2Of64()
    ensures Pow2(64) == WORD * WORD
  {
    Pow2Of32();
    Pow2Sum(32, 32);
  }

  lemma Doubled(x: nat, y: nat)
    ensures (2 * x) * y == 2 * (x * y)
  {
  }

  lemma {:induction false} Pow2Sum(a: nat, b: nat)
    ensures Pow2(a + b) == Pow2(a) * Pow2(b)
  {
    if a > 0 {
      Pow2Sum(a - 1, b);
      assert Pow2(a + b) == 2 * Pow2(a - 1 + b);
      Doubled(Pow2(a - 1), Pow2(b));
    }
  }

  lemma NoDigits(value0: nat, base: nat)
    requires value0 < WORD * WORD
    ensures DigitState(value0, value0, [], base)
  {
    Pow2Of64();
    assert Pow(base, 0) == 1;
  }

  lemma StateBound(value0: nat, value: nat, rev: string, base: nat)
    requires DigitState(value0, value, rev, base) && value != 0
    ensures value < WORD * WORD && |rev| < 64
  {
    Pow2Of64();
    Pow2Monotone(64 - |rev|, 64);
    assert Pow2(0) == 1;
  }

  lemma SmallerQuotient(value: nat, base: nat, q: nat, r: nat)
    requires 2 <= base && value == q * base + r && r < base && value > 0
    ensures 2 * q <= value && q < value && (q == 0 ==> r != 0)
  {
    MulOrder(2, base, q);
  }

  lemma OneDigit(value0: nat, value: nat, rev: string, base: nat, q: nat, r: nat, c: char)
    requires DigitState(value0, value, rev, base) && |rev| < 64
    requires value == q * base + r && DigitValue(c) == r && 2 * q <= value
    ensures DigitState(value0, q, rev + [c], base)
  {
    hide Value, DigitValue;
    var n, rest := |rev|, Reverse(rev);
    assert (rev + [c])[..n] == rev;
    assert Reverse(rev + [c]) == [c] + rest;
    ValueCons(c, rest, base);
    ShiftDigit(q, base, r, Pow(base, n));
    assert Pow2(64 - n) == 2 * Pow2(64 - n - 1);
  }

  lemma ShiftDigit(q: nat, base: nat, r: nat, p: nat)
    ensures (q * base + r) * p == q * (base * p) + r * p
  {
    MulDistribute(q * base, r, p);
    assert q * base * p == q * (base * p);
  }

  lemma AllDigits(value0: nat, rev: string, base: nat)
    requires DigitState(value0, 0, rev, base)
    ensures Value(Reverse(rev), base) == value0 && |rev| <= 64
  {
  }

  // ---------------------------------------------------------------- the output buffer

  /** struct print_output: `text` is all that has been printed, the buffer holds as much of it as fits. */
  class PrintOutput {
    const size: nat
    const buf: array<char>
    var count: nat
    ghost var text: string

    constructor (buf: array<char>, size: nat)
      requires size <= buf.Length
      ensures Valid() && this.buf == buf && this.size == size && text == ""
    {
      this.buf, this.size := buf, size;
      count, text := 0, "";
    }

    ghost predicate Valid()
      reads this, buf
    {
      && size <= buf.Length && count == |text|
      && (forall i :: 0 <= i < count && i < size - 1 ==> buf[i] == text[i])
    }

    /** The place of the terminator, and what lies behind it, is left alone. */
    twostate predicate TailKept()
      reads this, buf
    {
      forall i :: 0 <= i < buf.Length && i >= size - 1 ==> buf[i] == old(buf[i])
    }

    /** output_char: counted even if it does not fit. */
    method Put(c: char)
      requires Valid()
      modifies this`count, this`text, buf
      ensures Valid() && TailKept() && text == old(text) + [c]
    {
      if size != 0 && count < size - 1 {
        buf[count] := c;
      }
      count := count + 1;
      text := text + [c];
    }

    /** output_repeat */
    method PutRepeat(c: char, n: int)
      requires Valid()
      modifies this`count, this`text, buf
      ensures Valid() && TailKept() && text == old(text) + Repeat(c, if n > 0 then n else 0)
    {
      var left := n;
      ghost var done: nat := 0;
      assert text + Repeat(c, 0) == text;
      while left > 0
        invariant Valid() && TailKept()
        invariant 0 <= done && left == n - done && (n > 0 ==> done <= n) && (n <= 0 ==> done == 0)
        invariant text == old(text) + Repeat(c, done)
      {
        Put(c);
        assert Repeat(c, done) + [c] == Repeat(c, done + 1);
        left := left - 1;
        done := done + 1;
      }
    }

    /** A fixed run of characters. */
    method PutAll(s: string)
      requires Valid()
      modifies this`count, this`text, buf
      ensures Valid() && TailKept() && text == old(text) + s
    {
      var i := 0;
      assert s[..0] == [] && text + [] == text;
      while i < |s|
        invariant 0 <= i <= |s| && Valid() && TailKept() && text == old(text) + s[..i]
      {
        Put(s[i]);
        assert s[..i + 1] == s[..i] + [s[i]];
        i := i + 1;
      }
      assert s[..i] == s;
    }

    /** The digits, last one first. */
    method PutReversed(rev: string)
      requires Valid()
      modifies this`count, this`text, buf
      ensures Valid() && TailKept() && text == old(text) + Reverse(rev)
    {
      var n := |rev|;
      ghost var done := "";
      assert rev[..n] == rev;
      while n > 0
        invariant 0 <= n <= |rev| && Valid() && TailKept()
        invariant text == old(text) + done && done + Reverse(rev[..n]) == Reverse(rev)
      {
        n := n - 1;
        Put(rev[n]);
        assert rev[..n + 1][..n] == rev[..n];
        done := done + [rev[n]];
      }
      assert rev[..0] == [];
    }
  }

  // ---------------------------------------------------------------- the conversion

  datatype Flags = Flags(left: bool, plus: bool, space: bool, special: bool, zeropad: bool, prefixZero: bool)

  /** A converted number: blanks, sign, prefix, numeral, blanks. */
  datatype Parts = Parts(lead: nat, sign: string, prefix: string, numeral: string, trail: nat) {
    function Text(): string {
      Repeat(' ', lead) + sign + prefix + numeral + Repeat(' ', trail)
    }
  }

  /** Sign as the flags ask for. */
  function SignOf(negative: bool, flags: Flags): string {
    if negative then "-" else if flags.plus then "+" else if flags.space then " " else ""
  }

  function PrefixOf(value: nat, base: nat, uppercase: bool, flags: Flags): string {
    if flags.special && base == 16 && (value != 0 || flags.prefixZero) then (if uppercase then "0X" else "0x") else ""
  }

  /** The length of the numeral without padding: its digits, the zero %#o asks for, and the precision. */
  function Bare(value: nat, base: nat, flags: Flags, precision: int): nat
    requires base >= 2
  {
    var digits := if value == 0 then (if precision != 0 then 1 else 0) else DigitCount(value, base);
    var least := if flags.special && base == 8 && (value != 0 || precision == 0) then digits + 1 else digits;
    if precision > least then precision else least
  }

  /** The length of the conversion without padding. */
  function Natural(value: nat, negative: bool, base: nat, uppercase: bool, flags: Flags, precision: int): nat
    requires base >= 2
  {
    |SignOf(negative, flags)| + |PrefixOf(value, base, uppercase, flags)| + Bare(value, base, flags, precision)
  }

  /**
   * What a conversion promises: a numeral of the base in the case asked for that reads back as the value, exactly as
   * long as digits, precision and the zero of %#o need, and text of the width filled on one side.
   */
  ghost predicate Renders(p: Parts, value: nat, negative: bool, base: nat, uppercase: bool, flags: Flags, width: int,
                          precision: int)
    requires base >= 2
  {
    var natural := Natural(value, negative, base, uppercase, flags, precision);
    var room := if width > natural then width - natural else 0;
    && p.sign == SignOf(negative, flags) && p.prefix == PrefixOf(value, base, uppercase, flags)
    && IsNumeral(p.numeral, base, uppercase) && Value(p.numeral, base) == value
    && |p.numeral| == Bare(value, base, flags, precision) +
                      (if ZeroPads(value, base, flags, precision) then room else 0)
    && (flags.special && base == 8 ==> p.numeral != "" && p.numeral[0] == '0')
    && |p.Text()| == natural + room
    && (if flags.left then p.lead == 0 else p.trail == 0)
  }

  /**
   * The width is filled with zeros rather than blanks. The leading zero of %#o is made by a precision, which
   * turns the zero flag off: then blanks fill the width.
   */
  predicate ZeroPads(value: nat, base: nat, flags: Flags, precision: int) {
    !flags.left && flags.zeropad && precision < 0 && !(flags.special && base == 8 && value != 0)
  }

  /** The promise leaves no choice: it determines every character. */
  lemma RendersOne(p: Parts, q: Parts, value: nat, negative: bool, base: nat, uppercase: bool, flags: Flags, width: int,
                   precision: int)
    requires base >= 2 && Renders(p, value, negative, base, uppercase, flags, width, precision)
    requires Renders(q, value, negative, base, uppercase, flags, width, precision)
    ensures p == q
  {
    hide Value, IsNumeral, Natural, Bare, ZeroPads, SignOf, PrefixOf;
    NumeralUnique(p.numeral, q.numeral, base, uppercase);
  }

  /** n characters are enough for the digits, for the precision and for the zero %#o begins with. */
  predicate Enough(value: nat, base: nat, flags: Flags, precision: int, n: nat) {
    && precision <= n && value < Pow(base, n) && (value == 0 && precision != 0 ==> 1 <= n)
    && (flags.special && base == 8 ==> 1 <= n && value < Pow(base, n - 1))
  }

  /** The numeral is no longer than it must be. */
  lemma BareLeast(value: nat, base: nat, flags: Flags, precision: int, n: nat)
    requires base >= 2
    ensures Enough(value, base, flags, precision, n) <==> Bare(value, base, flags, precision) <= n
  {
    DigitRange(value, base, n);
    if n > 0 {
      DigitRange(value, base, n - 1);
    }
    hide Pow, DigitCount;
  }

  /** A value fits n digits exactly if it has no more. */
  lemma {:induction false} DigitRange(value: nat, base: nat, n: nat)
    requires base >= 2
    ensures value < Pow(base, n) <==> DigitCount(value, base) <= n
    decreases n
  {
    if n > 0 {
      ModBelow(value, base);
      DigitRange(value / base, base, n - 1);
      QuotientBelow(value, base, Pow(base, n - 1));
    }
  }

  lemma QuotientBelow(x: nat, b: nat, p: nat)
    requires b > 0
    ensures x < b * p <==> x / b < p
  {
    var q := x / b;
    assert x == q * b + x % b;
    if q < p {
      MulOrder(q + 1, p, b);
      MulDistribute(q, 1, b);
    } else {
      MulOrder(p, q, b);
    }
  }

  /** Zeros or blanks: the width is reached on the left, or on the right if the flags say so, and never exceeded. */
  lemma WidthFilled(p: Parts, value: nat, negative: bool, base: nat, uppercase: bool, flags: Flags, width: int,
                    precision: int)
    requires base >= 2 && Renders(p, value, negative, base, uppercase, flags, width, precision)
    ensures |p.Text()| >= width
    ensures |p.Text()| > width ==> p.lead == p.trail == 0 && |p.numeral| == Bare(value, base, flags, precision)
    ensures flags.left ==> p.lead == 0 && |p.numeral| == Bare(value, base, flags, precision)
    ensures !flags.left ==> p.trail == 0
    ensures !flags.zeropad || precision >= 0 ==> |p.numeral| == Bare(value, base, flags, precision)
  {
    hide Value, IsNumeral, Bare, SignOf, PrefixOf, Parts.Text, Repeat;
    TextLength(p);
  }

  // ---------------------------------------------------------------- reading the text back

  function SkipBlanks(s: string): string {
    if s != "" && s[0] == ' ' then SkipBlanks(s[1..]) else s
  }

  /** The characters before the first blank. */
  function Token(s: string): string {
    if s == "" || s[0] == ' ' then "" else [s[0]] + Token(s[1..])
  }

  function ReadUnsigned(s: string, base: nat): nat {
    if |s| >= 2 && s[0] == '0' && (s[1] == 'x' || s[1] == 'X') then Value(s[2..], base) else Value(s, base)
  }

  /** A reader of numbers: blanks, an optional sign, an optional 0x, digits up to a blank or the end. */
  function ReadNumber(text: string, base: nat): int {
    var s := Token(SkipBlanks(text));
    if s != "" && s[0] == '-' then 0 - ReadUnsigned(s[1..], base)
    else if s != "" && s[0] == '+' then ReadUnsigned(s[1..], base)
    else ReadUnsigned(s, base)
  }

  lemma {:induction false} SkipRepeat(n: nat, s: string)
    ensures SkipBlanks(Repeat(' ', n) + s) == SkipBlanks(s)
  {
    if n == 0 {
      assert Repeat(' ', 0) + s == s;
    } else {
      SkipRepeat(n - 1, s);
      assert (Repeat(' ', n) + s)[1..] == Repeat(' ', n - 1) + s;
    }
  }

  /** A word ends where the blanks begin. */
  lemma {:induction false} TokenIs(w: string, n: nat)
    requires ' ' !in w
    ensures Token(SkipBlanks(w + Repeat(' ', n))) == w
    ensures Token(w + Repeat(' ', n)) == w
    decreases |w|
  {
    if w == "" {
      assert w + Repeat(' ', n) == Repeat(' ', n) + "";
      SkipRepeat(n, "");
    } else {
      assert w[0] in w;
      var rest := w[1..];
      assert (w + Repeat(' ', n))[1..] == rest + Repeat(' ', n);
      TokenIs(rest, n);
      assert w == [w[0]] + rest;
    }
  }

  lemma NoOddDigits(s: string, base: nat, uppercase: bool, c: char)
    requires IsNumeral(s, base, uppercase) && c in {' ', '+', '-', 'x', 'X'}
    ensures c !in s
  {
  }

  lemma ReadPrefixed(prefix: string, numeral: string, base: nat, uppercase: bool)
    requires IsNumeral(numeral, base, uppercase) && (prefix == "" || prefix == "0x" || prefix == "0X")
    ensures ReadUnsigned(prefix + numeral, base) == Value(numeral, base)
    ensures ' ' !in prefix + numeral && '-' !in prefix + numeral && '+' !in prefix + numeral
  {
    hide Value;
    NoOddDigits(numeral, base, uppercase, ' ');
    NoOddDigits(numeral, base, uppercase, '+');
    NoOddDigits(numeral, base, uppercase, '-');
    NoOddDigits(numeral, base, uppercase, 'x');
    NoOddDigits(numeral, base, uppercase, 'X');
    if prefix == "" {
      assert prefix + numeral == numeral;
      assert |numeral| >= 2 ==> numeral[1] in numeral;
    } else {
      assert (prefix + numeral)[2..] == numeral;
    }
  }

  /** The text reads back as the number with its sign. */
  lemma TextReadsBack(p: Parts, value: nat, negative: bool, base: nat, uppercase: bool, flags: Flags, width: int,
                      precision: int)
    requires base >= 2 && Renders(p, value, negative, base, uppercase, flags, width, precision)
    ensures ReadNumber(p.Text(), base) == if negative then 0 - value else value
  {
    hide Value, IsNumeral, Natural, Bare, ZeroPads, ReadNumber, ReadUnsigned;
    var word := p.prefix + p.numeral;
    ReadPrefixed(p.prefix, p.numeral, base, uppercase);
    assert p.Text() == Repeat(' ', p.lead) + p.sign + word + Repeat(' ', p.trail);
    ReadParts(p.lead, p.sign, word, p.trail, base);
  }

  lemma ReadParts(lead: nat, sign: string, word: string, trail: nat, base: nat)
    requires sign == "" || sign == "-" || sign == "+" || sign == " "
    requires ' ' !in word && '-' !in word && '+' !in word
    ensures
      var v := ReadUnsigned(word, base);
      ReadNumber(Repeat(' ', lead) + sign + word + Repeat(' ', trail), base) == if sign == "-" then 0 - v else v
  {
    hide ReadUnsigned, SkipBlanks, Token, Repeat;
    ReadWord(word);
    SkipRepeat(lead, sign + word + Repeat(' ', trail));
    assert Repeat(' ', lead) + sign + word + Repeat(' ', trail)
      == Repeat(' ', lead) + (sign + word + Repeat(' ', trail));
    if sign == " " {
      OneBlank();
      assert sign + word + Repeat(' ', trail) == Repeat(' ', 1) + (word + Repeat(' ', trail));
      SkipRepeat(1, word + Repeat(' ', trail));
      TokenIs(word, trail);
    } else {
      TokenIs(sign + word, trail);
      assert sign != "" ==> (sign + word)[1..] == word;
      assert sign == "" ==> sign + word == word;
    }
  }

  lemma OneBlank()
    ensures Repeat(' ', 1) == " "
  {
  }

  lemma ReadWord(w: string)
    requires '-' !in w && '+' !in w
    ensures w == "" || (w[0] != '-' && w[0] != '+')
  {
    assert w != "" ==> w[0] in w;
  }

  /** What stands behind the blanks that fill the width: the sign, and behind it the prefix. */
  lemma SignShown(p: Parts, value: nat, negative: bool, base: nat, uppercase: bool, flags: Flags, width: int,
                  precision: int)
    requires base >= 2 && Renders(p, value, negative, base, uppercase, flags, width, precision)
    ensures
      var s := p.Text()[p.lead..];
      var n := if negative || flags.plus || flags.space then 1 else 0;
      && n <= |s|
      && (negative <==> s != "" && s[0] == '-')
      && (!negative && flags.plus <==> s != "" && s[0] == '+')
      && (!negative && !flags.plus && flags.space ==> s[0] == ' ')
      && (flags.special && base == 16 && (value != 0 || flags.prefixZero) <==>
          |s| >= n + 2 && (s[n + 1] == 'x' || s[n + 1] == 'X'))
      && (|s| >= n + 2 && (s[n + 1] == 'x' || s[n + 1] == 'X') ==> s[n] == '0' && (s[n + 1] == 'X' <==> uppercase))
  {
    hide Value, IsNumeral, Natural, Bare, ZeroPads, ReadUnsigned, Repeat;
    var word := p.prefix + p.numeral;
    ReadPrefixed(p.prefix, p.numeral, base, uppercase);
    ReadWord(word);
    PrefixAt(p.prefix, p.numeral, base, uppercase, p.trail);
    assert p.Text()[p.lead..] == p.sign + (word + Repeat(' ', p.trail));
    FirstBlank(p.trail);
  }

  lemma FirstBlank(n: nat)
    ensures n > 0 ==> Repeat(' ', n)[0] == ' '
  {
  }

  lemma PrefixAt(prefix: string, numeral: string, base: nat, uppercase: bool, trail: nat)
    requires IsNumeral(numeral, base, uppercase) && (prefix == "" || prefix == "0x" || prefix == "0X")
    ensures
      var s := prefix + numeral + Repeat(' ', trail);
      (prefix != "" <==> |s| >= 2 && (s[1] == 'x' || s[1] == 'X')) && (prefix != "" ==> s[..2] == prefix)
  {
    NoOddDigits(numeral, base, uppercase, 'x');
    NoOddDigits(numeral, base, uppercase, 'X');
    hide IsNumeral;
    var s := prefix + numeral + Repeat(' ', trail);
    if prefix == "" && |s| >= 2 {
      assert s[1] == ' ' || s[1] in numeral;
    }
  }

  /** The zero flag without precision fills the width with zeros if and only if no zero of %#o is forced. */
  lemma ZeroFlagKept(p: Parts, value: nat, negative: bool, base: nat, uppercase: bool, flags: Flags, width: int,
                     precision: int)
    requires base >= 2 && Renders(p, value, negative, base, uppercase, flags, width, precision)
    requires flags.zeropad && !flags.left && precision < 0
    requires width > Natural(value, negative, base, uppercase, flags, precision)
    ensures p.lead == 0 <==> !(flags.special && base == 8 && value != 0)
  {
    hide Value, IsNumeral, Bare, SignOf, PrefixOf;
  }

  /** %08o of 8. */
  lemma OctalEight(p: Parts)
    requires Renders(p, 8, false, 8, false, Flags(false, false, false, false, true, false), 8, -1)
    ensures p.Text() == "00000010"
  {
    var flags, q := Flags(false, false, false, false, true, false), Parts(0, "", "", "00000010", 0);
    EightIs();
    hide Value, DigitCount;
    TextLength(q);
    assert Renders(q, 8, false, 8, false, flags, 8, -1);
    RendersOne(p, q, 8, false, 8, false, flags, 8, -1);
  }

  /** %#08o of 8: blanks, although the zero flag is set. */
  lemma OctalEightAlternative(p: Parts)
    requires Renders(p, 8, false, 8, false, Flags(false, false, false, true, true, false), 8, -1)
    ensures p.Text() == "     010"
  {
    var flags, q := Flags(false, false, false, true, true, false), Parts(5, "", "", "010", 0);
    EightIs();
    hide Value, DigitCount;
    TextLength(q);
    assert Renders(q, 8, false, 8, false, flags, 8, -1);
    RendersOne(p, q, 8, false, 8, false, flags, 8, -1);
  }

  lemma EightIs()
    ensures DigitCount(8, 8) == 2 && Value("010", 8) == 8 && Value("00000010", 8) == 8
  {
    assert DigitCount(1, 8) == 1;
    assert "10"[..1] == "1" && "1"[..0] == "";
    assert Value("1", 8) == 1;
    assert Value("10", 8) == 8;
    hide Value, DigitCount;
    LeadingZeros(1, "10", 8);
    LeadingZeros(6, "10", 8);
    assert Repeat('0', 1) + "10" == "010" && Repeat('0', 6) + "10" == "00000010";
  }

  /** format_number */
  method FormatNumber(out: PrintOutput, value: nat, negative: bool, base: nat, uppercase: bool, flags: Flags,
                      width: int, precision0: int) returns (ghost p: Parts)
    requires out.Valid() && value < WORD * WORD && 2 <= base <= 16
    modifies out`count, out`text, out.buf
    ensures out.Valid() && out.TailKept() && out.text == old(out.text) + p.Text()
    ensures Renders(p, value, negative, base, uppercase, flags, width, precision0)
    ensures ReadNumber(p.Text(), base) == if negative then 0 - value else value
  {
    hide Value, Reverse, SignOf, PrefixOf, Renders, IsNumeral, DigitCount, ReadNumber;
    var sign, prefix := SignOf(negative, flags), PrefixOf(value, base, uppercase, flags);
    var precision := precision0;
    var rev := "";
    if value == 0 {
      if precision != 0 {
        rev := "0";
      }
    } else {
      rev := Digits(value, base, uppercase);
    }
    ZeroDigit(base, uppercase);
    var count := |rev|;
    if flags.special && base == 8 && (count == 0 || rev[count - 1] != '0') {
      if precision <= count {
        precision := count + 1;
      }
    }
    var zeros: nat := if precision > count then precision - count else 0;
    var padding: int := width - count - zeros - |sign| - |prefix|;
    if padding < 0 {
      padding := 0;
    }
    var pad: nat := padding;
    var lead := if !flags.left && (!flags.zeropad || precision >= 0) then pad else 0;
    var fill := if !flags.left && flags.zeropad && precision < 0 then pad else 0;
    var trail := if flags.left then pad else 0;
    ghost var was := out.text;
    out.PutRepeat(' ', lead);
    out.PutAll(sign);
    out.PutAll(prefix);
    out.PutRepeat('0', fill);
    out.PutRepeat('0', zeros);
    out.PutReversed(rev);
    out.PutRepeat(' ', trail);
    p := Parts(lead, sign, prefix, Repeat('0', fill + zeros) + Reverse(rev), trail);
    JoinText(was, lead, sign, prefix, fill, zeros, rev, trail);
    Rendered(p, rev, fill, zeros, value, negative, base, uppercase, flags, width, precision0, precision, pad);
    TextReadsBack(p, value, negative, base, uppercase, flags, width, precision0);
  }

  lemma Rendered(p: Parts, rev: string, fill: nat, zeros: nat, value: nat, negative: bool, base: nat, uppercase: bool,
                 flags: Flags, width: int, precision0: int, precision: int, pad: nat)
    requires base >= 2 && Value(Reverse(rev), base) == value && IsNumeral(Reverse(rev), base, uppercase)
    requires if value == 0 then rev == (if precision0 != 0 then "0" else "")
             else rev != "" && rev[|rev| - 1] != '0' && |rev| == DigitCount(value, base)
    requires precision == if flags.special && base == 8 && (rev == "" || rev[|rev| - 1] != '0') && precision0 <= |rev|
                          then |rev| + 1 else precision0
    requires zeros == if precision > |rev| then precision - |rev| else 0
    requires
      var rest := width - |rev| - zeros - |SignOf(negative, flags)| - |PrefixOf(value, base, uppercase, flags)|;
      pad == if rest < 0 then 0 else rest
    requires fill == if !flags.left && flags.zeropad && precision < 0 then pad else 0
    requires p == Parts(if !flags.left && (!flags.zeropad || precision >= 0) then pad else 0, SignOf(negative, flags),
                        PrefixOf(value, base, uppercase, flags), Repeat('0', fill + zeros) + Reverse(rev),
                        if flags.left then pad else 0)
    ensures Renders(p, value, negative, base, uppercase, flags, width, precision0)
  {
    hide Value, Reverse, SignOf, PrefixOf, DigitCount, IsNumeral, Bare, Parts.Text, Repeat, Renders;
    BareIs(rev, zeros, value, base, flags, precision0, precision);
    LeadingZeros(fill + zeros, Reverse(rev), base);
    ZerosNumeral(fill + zeros, Reverse(rev), base, uppercase);
    FirstDigit(rev);
    FirstZero(fill + zeros, Reverse(rev));
    Assembled(p, |rev| + zeros, fill, value, negative, base, uppercase, flags, width, precision0, pad);
  }

  /** The lengths of the parts. */
  lemma Assembled(p: Parts, bare: nat, fill: nat, value: nat, negative: bool, base: nat, uppercase: bool, flags: Flags,
                  width: int, precision: int, pad: nat)
    requires base >= 2 && bare == Bare(value, base, flags, precision)
    requires p.sign == SignOf(negative, flags) && p.prefix == PrefixOf(value, base, uppercase, flags)
    requires IsNumeral(p.numeral, base, uppercase) && Value(p.numeral, base) == value
    requires |p.numeral| == fill + bare
    requires flags.special && base == 8 ==> p.numeral != "" && p.numeral[0] == '0'
    requires
      var rest := width - bare - |SignOf(negative, flags)| - |PrefixOf(value, base, uppercase, flags)|;
      pad == if rest < 0 then 0 else rest
    requires fill == if ZeroPads(value, base, flags, precision) then pad else 0
    requires p.lead == if flags.left || ZeroPads(value, base, flags, precision) then 0 else pad
    requires p.trail == if flags.left then pad else 0
    ensures Renders(p, value, negative, base, uppercase, flags, width, precision)
  {
    hide Value, SignOf, PrefixOf, IsNumeral, Bare, Parts.Text;
    TextLength(p);
  }

  lemma BareIs(rev: string, zeros: nat, value: nat, base: nat, flags: Flags, precision0: int, precision: int)
    requires base >= 2
    requires if value == 0 then rev == (if precision0 != 0 then "0" else "")
             else rev != "" && rev[|rev| - 1] != '0' && |rev| == DigitCount(value, base)
    requires precision == if flags.special && base == 8 && (rev == "" || rev[|rev| - 1] != '0') && precision0 <= |rev|
                          then |rev| + 1 else precision0
    requires zeros == if precision > |rev| then precision - |rev| else 0
    ensures |rev| + zeros == Bare(value, base, flags, precision0)
    ensures precision < 0 <==> precision0 < 0 && !(flags.special && base == 8 && value != 0)
    ensures flags.special && base == 8 ==> zeros > 0 || (rev != "" && rev[|rev| - 1] == '0')
  {
    hide DigitCount;
  }

  lemma TextLength(p: Parts)
    ensures |p.Text()| == p.lead + |p.sign| + |p.prefix| + |p.numeral| + p.trail
  {
  }

  lemma FirstZero(n: nat, s: string)
    ensures n > 0 ==> (Repeat('0', n) + s)[0] == '0'
    ensures n == 0 ==> Repeat('0', n) + s == s
  {
  }

  lemma ZerosNumeral(n: nat, s: string, base: nat, uppercase: bool)
    requires base > 0 && IsNumeral(s, base, uppercase)
    ensures IsNumeral(Repeat('0', n) + s, base, uppercase)
  {
  }

  lemma ZeroDigit(base: nat, uppercase: bool)
    requires base > 0
    ensures Value(Reverse("0"), base) == 0 && Value(Reverse(""), base) == 0 && Reverse("") == ""
    ensures IsNumeral(Reverse("0"), base, uppercase) && IsNumeral(Reverse(""), base, uppercase)
  {
    assert "0"[..0] == [];
    assert Reverse("0") == "0";
  }

  lemma FirstDigit(rev: string)
    ensures rev != "" ==> Reverse(rev) != "" && Reverse(rev)[0] == rev[|rev| - 1]
  {
  }

  lemma JoinText(was: string, lead: nat, sign: string, prefix: string, fill: nat, zeros: nat, rev: string, trail: nat)
    ensures was + Repeat(' ', lead) + sign + prefix + Repeat('0', fill) + Repeat('0', zeros) + Reverse(rev)
            + Repeat(' ', trail)
      == was + Parts(lead, sign, prefix, Repeat('0', fill + zeros) + Reverse(rev), trail).Text()
  {
    assert Repeat('0', fill) + Repeat('0', zeros) == Repeat('0', fill + zeros);
    var n := Repeat('0', fill + zeros) + Reverse(rev);
    assert was + Repeat(' ', lead) + sign + prefix + Repeat('0', fill) + Repeat('0', zeros) + Reverse(rev)
      == was + Repeat(' ', lead) + sign + prefix + n;
  }
}
