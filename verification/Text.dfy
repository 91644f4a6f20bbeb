/** Characters, positional numbers and the machine arithmetic the address library relies on. */
module Text {

  // ----- machine integers -----

  type U8 = x: int | 0 <= x < 0x100
  type U16 = x: int | 0 <= x < 0x1_0000
  type U32 = x: int | 0 <= x < 0x1_0000_0000

  /** The value a 32-bit two's complement register holds after a result of x. */
  function Wrap32(x: int): (r: int)
    ensures -0x8000_0000 <= r < 0x8000_0000
    ensures -0x8000_0000 <= x < 0x8000_0000 ==> r == x
  {
    (x + 0x8000_0000) % 0x1_0000_0000 - 0x8000_0000
  }

  lemma WrapPeriod(x: int, k: int)
    ensures Wrap32(x + k * 0x1_0000_0000) == Wrap32(x)
  {
  }

  /** Wrapping at every step of a positional accumulation is the same as wrapping once. */
  lemma WrapAccumulate(x: int, base: nat, d: nat)
    ensures Wrap32(Wrap32(x) * base + d) == Wrap32(x * base + d)
  {
    var k := (x + 0x8000_0000) / 0x1_0000_0000;
    assert Wrap32(x) == x - k * 0x1_0000_0000;
    calc {
      Wrap32(x) * base + d;
      (x - k * 0x1_0000_0000) * base + d;
      x * base + d + (-k * base) * 0x1_0000_0000;
    }
    WrapPeriod(x * base + d, -k * base);
  }

  // ----- bitwise or -----

  function BitOr(a: nat, b: nat): nat
    decreases a
  {
    if a == 0 then b
    else (if a % 2 == 1 || b % 2 == 1 then 1 else 0) + 2 * BitOr(a / 2, b / 2)
  }

  function Pow2(k: nat): (p: nat)
    ensures p > 0
  {
    if k == 0 then 1 else 2 * Pow2(k - 1)
  }

  lemma {:induction false} BitOrBound(a: nat, b: nat, k: nat)
    requires a < Pow2(k) && b < Pow2(k)
    ensures BitOr(a, b) < Pow2(k)
  {
    if a != 0 {
      BitOrBound(a / 2, b / 2, k - 1);
    }
  }

  lemma {:induction false} BitOrZero(a: nat)
    ensures BitOr(a, 0) == a
  {
    if a != 0 {
      BitOrZero(a / 2);
    }
  }

  /** Or-ing a low field into a word whose low k bits are clear is addition. */
  lemma {:induction false} BitOrDisjoint(h: nat, b: nat, k: nat)
    requires b < Pow2(k)
    ensures BitOr(h * Pow2(k), b) == h * Pow2(k) + b
  {
    if k == 0 {
      BitOrZero(h);
    } else if h > 0 {
      var a := h * Pow2(k);
      assert a == 2 * (h * Pow2(k - 1));
      assert a > 0;
      BitOrDisjoint(h, b / 2, k - 1);
    }
  }

  lemma BitOrOctet(h: nat, b: nat)
    requires b < 0x100
    ensures BitOr(h * 0x100, b) == h * 0x100 + b
  {
    assert Pow2(8) == 0x100 by { Pow2Of8(); }
    BitOrDisjoint(h, b, 8);
  }

  lemma Pow2Of8()
    ensures Pow2(8) == 0x100 && Pow2(16) == 0x1_0000
  {
    assert Pow2(4) == 16;
    assert Pow2(8) == 0x100;
    assert Pow2(12) == 0x1000;
  }

  // ----- digits -----

  predicate IsDecimal(c: char) { '0' <= c <= '9' }

  predicate IsHex(c: char) { IsDecimal(c) || 'a' <= c <= 'f' || 'A' <= c <= 'F' }

  predicate IsLowerHex(c: char) { IsDecimal(c) || 'a' <= c <= 'f' }

  function DigitValue(c: char): (d: nat)
    requires IsHex(c)
    ensures d < 16
    ensures IsDecimal(c) ==> d < 10
  {
    if IsDecimal(c) then c as int - '0' as int
    else if 'a' <= c <= 'f' then 10 + (c as int - 'a' as int)
    else 10 + (c as int - 'A' as int)
  }

  predicate AllDecimal(s: string) { forall k | 0 <= k < |s| :: IsDecimal(s[k]) }

  predicate AllHex(s: string) { forall k | 0 <= k < |s| :: IsHex(s[k]) }

  /** The number a digit string denotes in the given base, most significant digit first. */
  function Value(s: string, base: nat): nat
    requires AllHex(s)
  {
    if s == [] then 0 else Value(s[..|s| - 1], base) * base + DigitValue(s[|s| - 1])
  }

  lemma ValueSnoc(s: string, c: char, base: nat)
    requires AllHex(s) && IsHex(c)
    ensures AllHex(s + [c]) && Value(s + [c], base) == Value(s, base) * base + DigitValue(c)
  {
    assert (s + [c])[..|s|] == s;
  }

  function Power(base: nat, k: nat): nat
  {
    if k == 0 then 1 else base * Power(base, k - 1)
  }

  lemma {:induction false} HexValueBound(s: string)
    requires AllHex(s)
    ensures Value(s, 16) < Power(16, |s|)
  {
    if s != [] {
      HexValueBound(s[..|s| - 1]);
    }
  }

  lemma {:induction false} DecimalValueBound(s: string)
    requires AllHex(s) && AllDecimal(s)
    ensures Value(s, 10) < Power(10, |s|)
  {
    if s != [] {
      DecimalValueBound(s[..|s| - 1]);
    }
  }

  lemma {:induction false} PowerMonotone(base: nat, j: nat, k: nat)
    requires base >= 1 && j <= k
    ensures 1 <= Power(base, j) <= Power(base, k)
  {
    if j < k {
      PowerMonotone(base, j, k - 1);
    } else if j > 0 {
      PowerMonotone(base, j - 1, j - 1);
    }
  }

  // ----- printing numbers: the conversions %d, %u, %hu and %x -----

  function HexDigit(d: nat): (c: char)
    requires d < 16
    ensures IsLowerHex(c) && DigitValue(c) == d
    ensures d < 10 ==> IsDecimal(c)
    ensures d > 0 ==> c != '0'
  {
    if d < 10 then (48 + d) as char else (87 + d) as char
  }

  function Numeral(n: nat, base: nat): string
    requires 2 <= base <= 16
  {
    if n < base then [HexDigit(n)] else Numeral(n / base, base) + [HexDigit(n % base)]
  }

  function Dec(n: nat): string { Numeral(n, 10) }

  function Hex(n: nat): string { Numeral(n, 16) }

  lemma {:induction false} NumeralShape(n: nat, base: nat)
    requires 2 <= base <= 16
    ensures var s := Numeral(n, base);
      && |s| >= 1
      && (forall k | 0 <= k < |s| :: IsLowerHex(s[k]))
      && (base <= 10 ==> AllDecimal(s))
      && (s[0] == '0' ==> n == 0)
      && (n < base ==> |s| == 1)
  {
    if n >= base {
      QuotientPositive(n, base);
      NumeralShape(n / base, base);
    }
  }

  lemma QuotientPositive(n: nat, base: nat)
    requires 2 <= base <= n
    ensures 1 <= n / base < n
  {
  }

  lemma {:induction false} NumeralValue(n: nat, base: nat)
    requires 2 <= base <= 16
    ensures AllHex(Numeral(n, base)) && Value(Numeral(n, base), base) == n
  {
    if n < base {
      OneDigitValue(n, base);
    } else {
      NumeralValue(n / base, base);
      NextDigitValue(Numeral(n / base, base), n, base);
    }
  }

  lemma OneDigitValue(n: nat, base: nat)
    requires n < base <= 16
    ensures Value([HexDigit(n)], base) == n
  {
    ValueSnoc("", HexDigit(n), base);
    assert "" + [HexDigit(n)] == [HexDigit(n)];
  }

  lemma NextDigitValue(s: string, n: nat, base: nat)
    requires 0 < base <= 16 && AllHex(s) && Value(s, base) == n / base
    ensures AllHex(s + [HexDigit(n % base)]) && Value(s + [HexDigit(n % base)], base) == n
  {
    ValueSnoc(s, HexDigit(n % base), base);
    DivMod(n, base);
  }

  lemma DivMod(n: nat, base: nat)
    requires base > 0
    ensures n / base * base + n % base == n
  {
  }

  /** A printed number is nonempty, has only the base's lower-case digits, has no leading
      zero unless it is the single digit 0, and denotes the number it was printed from. */
  lemma NumeralDenotes(n: nat, base: nat)
    requires 2 <= base <= 16
    ensures var s := Numeral(n, base);
      && |s| >= 1
      && AllHex(s)
      && (forall k | 0 <= k < |s| :: IsLowerHex(s[k]))
      && (base <= 10 ==> AllDecimal(s))
      && (s[0] == '0' ==> n == 0 && s == "0")
      && Value(s, base) == n
  {
    NumeralShape(n, base);
    NumeralValue(n, base);
  }

  lemma QuotientBound(n: nat, base: nat, q: nat)
    requires base > 0 && n < base * q
    ensures n / base < q
  {
    if n / base >= q {
      ProductMonotone(base, q, n / base);
    }
  }

  lemma ProductMonotone(a: nat, b: nat, c: nat)
    requires b <= c
    ensures a * b <= a * c
  {
  }

  lemma {:induction false} NumeralLength(n: nat, base: nat, k: nat)
    requires 2 <= base <= 16 && k >= 1 && n < Power(base, k)
    ensures 1 <= |Numeral(n, base)| <= k
  {
    if n >= base {
      QuotientPositive(n, base);
      QuotientBound(n, base, Power(base, k - 1));
      NumeralLength(n / base, base, k - 1);
    }
  }

  lemma PrintedLengths(n: nat)
    ensures n < 0x100 ==> |Dec(n)| <= 3
    ensures n < 0x1_0000 ==> |Dec(n)| <= 5 && |Hex(n)| <= 4
    ensures n < 0x1_0000_0000 ==> |Dec(n)| <= 10
    ensures |Dec(n)| >= 1 && |Hex(n)| >= 1
  {
    PowersOfTen();
    PowersOfSixteen();
    NumeralDenotes(n, 10);
    NumeralDenotes(n, 16);
    if n < 0x100 { NumeralLength(n, 10, 3); }
    if n < 0x1_0000 { NumeralLength(n, 10, 5); NumeralLength(n, 16, 4); }
    if n < 0x1_0000_0000 { NumeralLength(n, 10, 10); }
  }

  lemma PowersOfTen()
    ensures Power(10, 3) == 1000 && Power(10, 5) == 100_000
    ensures Power(10, 9) == 1_000_000_000 && Power(10, 10) == 10_000_000_000
  {
    assert Power(10, 3) == 1000;
    assert Power(10, 6) == 1_000_000;
    assert Power(10, 9) == 1_000_000_000;
  }

  lemma PowersOfSixteen()
    ensures Power(16, 4) == 0x1_0000 && Power(16, 7) == 0x1000_0000
  {
    assert Power(16, 4) == 0x1_0000;
  }

  // ----- colons -----

  ghost predicate DoubleColonAt(t: string, k: nat)
  {
    k + 1 < |t| && t[k] == ':' && t[k + 1] == ':'
  }
}
