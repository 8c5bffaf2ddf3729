/** Decimal and hexadecimal numerals, and how to read them back. */
module Numerals {

  import opened Unsigned

  const INT_MAX := 0x7fff_ffff

  predicate IsInt(x: int) { -INT_MAX - 1 <= x <= INT_MAX }

  /** Conversion of an unsigned value to a 32-bit int. */
  function ToInt(u: nat): (x: int)
    ensures IsInt(x)
  {
    var w: int := U32(u);
    if w <= INT_MAX then w else w - MODULUS
  }

  const DIGITS := "0123456789abcdef"

  function Digit(d: nat): char
    requires d < 16
  {
    DIGITS[d]
  }

  function DigitValue(c: char): nat {
    if '0' <= c <= '9' then (c - '0') as int else if 'a' <= c <= 'f' then (c - 'a') as int + 10 else 0
  }

  predicate IsDigit(c: char, base: nat) {
    ('0' <= c <= '9' || 'a' <= c <= 'f') && DigitValue(c) < base
  }

  /** The value of a numeral, most significant digit first. */
  function Read(s: string, base: nat): nat {
    if s == "" then 0 else Read(s[..|s| - 1], base) * base + DigitValue(s[|s| - 1])
  }

  lemma DigitReads(d: nat, base: nat)
    requires d < base <= 16
    ensures IsDigit(Digit(d), base) && DigitValue(Digit(d)) == d && Digit(d) != '\0' && Digit(d) != '-'
    ensures d < 10 ==> Digit(d) == '0' + d as char
  {
    assert DIGITS[0] == '0' && DIGITS[1] == '1' && DIGITS[2] == '2' && DIGITS[3] == '3';
    assert DIGITS[4] == '4' && DIGITS[5] == '5' && DIGITS[6] == '6' && DIGITS[7] == '7';
    assert DIGITS[8] == '8' && DIGITS[9] == '9' && DIGITS[10] == 'a' && DIGITS[11] == 'b';
    assert DIGITS[12] == 'c' && DIGITS[13] == 'd' && DIGITS[14] == 'e' && DIGITS[15] == 'f';
  }

  predicate AllDigits(s: string, base: nat) {
    forall i :: 0 <= i < |s| ==> IsDigit(s[i], base)
  }

  // ---------- decimal ----------

  function DecNat(n: nat): (s: string)
    ensures |s| >= 1
  {
    if n < 10 then [Digit(n)] else DecNat(n / 10) + [Digit(n % 10)]
  }

  /** The decimal text of an integer. */
  function Dec(v: int): string {
    if v < 0 then "-" + DecNat(-v) else DecNat(v)
  }

  /** Reads an optional sign and digits. */
  function ReadDec(s: string): int {
    if s != "" && s[0] == '-' then 0 - Read(s[1..], 10) else Read(s, 10)
  }

  /** Digits with no leading zero other than the numeral 0 itself. */
  predicate CanonicalNat(s: string) {
    s != "" && AllDigits(s, 10) && (|s| > 1 ==> s[0] != '0')
  }

  predicate CanonicalDec(s: string) {
    if s != "" && s[0] == '-' then CanonicalNat(s[1..]) && s[1..] != "0" else CanonicalNat(s)
  }

  lemma {:induction false} DecNatReads(n: nat)
    ensures Read(DecNat(n), 10) == n && CanonicalNat(DecNat(n)) && (DecNat(n)[0] == '0' <==> n == 0)
  {
    var s := DecNat(n);
    DigitReads(n % 10, 10);
    if n < 10 {
      assert s[..0] == "";
      assert Read(s, 10) == Read("", 10) * 10 + DigitValue(Digit(n));
    } else {
      DecNatReads(n / 10);
      assert s[..|s| - 1] == DecNat(n / 10);
      assert s[0] == DecNat(n / 10)[0];
    }
  }

  lemma {:induction false} DecNatUnique(s: string)
    requires CanonicalNat(s)
    ensures DecNat(Read(s, 10)) == s
    decreases |s|
  {
    var d := s[|s| - 1];
    var init := s[..|s| - 1];
    assert IsDigit(d, 10);
    DigitReads(DigitValue(d), 10);
    assert Digit(DigitValue(d)) == d;
    assert s == init + [d];
    var n := Read(s, 10);
    assert n == Read(init, 10) * 10 + DigitValue(d);
    if init == "" {
      assert n == DigitValue(d);
    } else {
      assert init[0] == s[0];
      DecNatUnique(init);
      DecNatReads(Read(init, 10));
      assert n / 10 == Read(init, 10) && n % 10 == DigitValue(d);
    }
  }

  lemma {:induction false} DecNatLength(n: nat, k: nat, bound: nat)
    requires n < bound && k >= 1 && bound == Pow(10, k)
    ensures |DecNat(n)| <= k
    decreases k
  {
    if n >= 10 {
      assert Pow(10, 1) == 10;
      DecNatLength(n / 10, k - 1, Pow(10, k - 1));
    }
  }

  function Pow(b: nat, k: nat): nat {
    if k == 0 then 1 else b * Pow(b, k - 1)
  }

  /** The text of an integer is canonical and reads back to it. */
  lemma DecReads(v: int)
    ensures ReadDec(Dec(v)) == v && CanonicalDec(Dec(v))
  {
    DecNatReads(if v < 0 then -v else v);
    if v >= 0 { assert IsDigit(DecNat(v)[0], 10); }
  }

  /** No other canonical text reads as v. */
  lemma DecUnique(v: int, s: string)
    requires CanonicalDec(s) && ReadDec(s) == v
    ensures s == Dec(v)
  {
    if s[0] == '-' {
      DecNatUnique(s[1..]);
      DecNegative(Read(s[1..], 10));
      assert s == "-" + s[1..];
    } else {
      DecNatUnique(s);
    }
  }

  lemma DecNegative(n: nat)
    ensures n > 0 ==> Dec(0 - n) == "-" + DecNat(n)
    ensures n == 0 ==> DecNat(n) == "0"
  {
  }

  lemma DecLength(v: int)
    requires IsInt(v)
    ensures 1 <= |Dec(v)| <= 11
    ensures forall i :: 0 <= i < |Dec(v)| ==> Dec(v)[i] != '\0'
  {
    var n := if v < 0 then -v else v;
    assert Pow(10, 10) == 10_000_000_000;
    DecNatLength(n, 10, Pow(10, 10));
    DecNatReads(n);
    assert forall i :: 0 <= i < |DecNat(n)| ==> IsDigit(DecNat(n)[i], 10);
  }

  lemma DecInjective(v: int, w: int)
    requires Dec(v) == Dec(w)
    ensures v == w
  {
    DecReads(v);
    DecReads(w);
  }

  /** Printing an unsigned value through an int gives its own numeral exactly when it is below 2^31. */
  lemma UnsignedExact(u: nat)
    ensures Dec(ToInt(u)) == Dec(u) <==> u <= INT_MAX
  {
    var x := ToInt(u);
    assert x == u <==> u <= INT_MAX;
    if Dec(x) == Dec(u) { DecInjective(x, u); }
  }

  // ---------- hexadecimal ----------

  /** The k low hexadecimal digits of v. */
  function Hex(v: nat, k: nat): (s: string)
    ensures |s| == k
  {
    if k == 0 then "" else Hex(v / 16, k - 1) + [Digit(v % 16)]
  }

  lemma ModStep(v: nat, m: nat)
    requires m > 0
    ensures v % (16 * m) == v / 16 % m * 16 + v % 16
  {
    var q, u := v / 16 / m, v / 16 % m;
    assert v / 16 == q * m + u;
    assert v == (16 * m) * q + (u * 16 + v % 16);
    ModUnique(v, 16 * m, q, u * 16 + v % 16);
  }

  lemma ModUnique(v: int, m: int, q: int, r: int)
    requires m > 0 && v == m * q + r && 0 <= r < m
    ensures v % m == r
  {
    var d, e := v / m, v % m;
    assert v == m * d + e;
    assert m * (d - q) == m * d - m * q == r - e;
    Multiple(m, d - q);
  }

  lemma Multiple(m: int, x: int)
    requires m > 0
    ensures x >= 1 ==> m * x >= m
    ensures x <= -1 ==> m * x <= -m
  {
  }

  /** k digits read back to v modulo 16^k. */
  lemma {:induction false} HexRoundTrip(v: nat, k: nat)
    ensures Pow(16, k) > 0 && Read(Hex(v, k), 16) == v % Pow(16, k) && AllDigits(Hex(v, k), 16)
    ensures forall i :: 0 <= i < k ==> Hex(v, k)[i] != '\0'
    decreases k
  {
    if k > 0 {
      var s := Hex(v, k);
      HexRoundTrip(v / 16, k - 1);
      DigitReads(v % 16, 16);
      assert s[..k - 1] == Hex(v / 16, k - 1);
      ModStep(v, Pow(16, k - 1));
    }
  }

  lemma Pow16()
    ensures Pow(16, 8) == 0x1_0000_0000 && Pow(16, 16) == 0x1_0000_0000_0000_0000
  {
  }

  lemma HexWide(v: nat, k: nat)
    requires v < Pow(16, k)
    ensures Read(Hex(v, k), 16) == v
  {
  }

  /** Eight digits carry a 32-bit value and sixteen a 64-bit value without loss. */
  lemma HexExact(v: nat, k: nat)
    requires (k == 8 && v < 0x1_0000_0000) || (k == 16 && v < 0x1_0000_0000_0000_0000)
    ensures Read(Hex(v, k), 16) == v
  {
    Pow16();
    HexWide(v, k);
  }
}
