/** What each directive puts out, read back from its text; by Inside the same holds at any place of any format. */
module Directives {
  import opened CString
  import opened Unsigned
  import opened Numerals
  import opened Format

  /** A piece of a format puts out the same text wherever it stands. */
  lemma Inside(f: string, a: seq<Arg>, before: string, one: string, args: seq<Arg>, t: string, g: string, b: seq<Arg>, after: string)
    requires Yields(f, a, before) && Yields(one, args, t) && Yields(g, b, after)
    ensures Yields(f + one + g, a + args + b, before + t + after)
  {
    ExpandConcat(f, a, before, one, args, t);
    ExpandConcat(f + one, a + args, before + t, g, b, after);
  }

  predicate Lowercase(t: string) { forall i :: 0 <= i < |t| ==> t[i] in "0123456789abcdef" }

  lemma HexLowercase(v: nat, k: nat)
    ensures Lowercase(Hex(v, k))
  {
    HexRoundTrip(v, k);
    forall i | 0 <= i < k ensures Hex(v, k)[i] in "0123456789abcdef" {
      assert IsDigit(Hex(v, k)[i], 16);
      DigitIn(Hex(v, k)[i]);
    }
  }

  lemma DigitIn(c: char)
    requires IsDigit(c, 16)
    ensures c in "0123456789abcdef"
  {
    var d := DigitValue(c);
    DigitReads(d, 16);
    assert c == Digit(d);
  }

  lemma HexDirective(u: nat) returns (t: string)
    requires u < 0x1_0000_0000
    ensures Yields("%x", [UIntArg(u)], t)
    ensures |t| == 8 && AllDigits(t, 16) && Lowercase(t) && Read(t, 16) == u
  {
    t := Hex(u, 8);
    YieldsDirective("%x", HexConv, UIntArg(u));
    HexExact(u, 8);
    HexRoundTrip(u, 8);
    HexLowercase(u, 8);
  }

  lemma LongHexDirective(u: nat) returns (t: string)
    requires u < 0x1_0000_0000_0000_0000
    ensures Yields("%llx", [ULongLongArg(u)], t)
    ensures |t| == 16 && AllDigits(t, 16) && Lowercase(t) && Read(t, 16) == u
  {
    t := Hex(u, 16);
    assert "%llx"[1..] == "llx";
    YieldsDirective("%llx", LongLongHex, ULongLongArg(u));
    HexExact(u, 16);
    HexRoundTrip(u, 16);
    HexLowercase(u, 16);
  }

  lemma IntDirective(v: int) returns (t: string)
    requires -0x8000_0000 < v < 0x8000_0000
    ensures Yields("%d", [IntArg(v)], t)
    ensures CanonicalDec(t) && ReadDec(t) == v
  {
    t := Dec(v);
    YieldsDirective("%d", IntConv, IntArg(v));
    DecReads(v);
  }

  /** The value that comes out where an unsigned one went in: its low 32 bits taken as an int. */
  predicate ReadAs(v: int, u: nat) {
    -0x8000_0000 < v < 0x8000_0000 && (u - v) % 0x1_0000_0000 == 0
  }

  /** Of the values with these low bits the one least int cannot be printed. */
  predicate Printable(u: nat) { u % 0x1_0000_0000 != 0x8000_0000 }

  lemma UnsignedReadsAs(u: nat)
    requires Printable(u)
    ensures ReadAs(ToInt(u), u) && -INT_MAX <= ToInt(u)
    ensures u < 0x8000_0000 ==> ToInt(u) == u
  {
    var rounds, low := u / MODULUS, U32(u);
    assert u == MODULUS * rounds + low;
    if low <= INT_MAX {
      assert u - ToInt(u) == MODULUS * rounds;
    } else {
      assert u - ToInt(u) == MODULUS * (rounds + 1);
    }
  }

  lemma LongKinds()
    ensures KindOf("lu") == LongUnsigned && KindOf("llu") == LongLongUnsigned
  {
    assert "llu"[2] != "llx"[2];
    assert !Starts("llu", "llx");
    assert "lu"[1] == 'u';
  }

  /** Below 2^31 the three unsigned directives put out their value, above it the value less 2^32. */
  lemma UnsignedDirectives(u: nat) returns (t: string)
    requires Printable(u)
    ensures u < 0x1_0000_0000 ==> Yields("%u", [UIntArg(u)], t) && Yields("%lu", [ULongArg(u)], t)
    ensures u < 0x1_0000_0000_0000_0000 ==> Yields("%llu", [ULongLongArg(u)], t)
    ensures CanonicalDec(t) && ReadAs(ReadDec(t), u)
    ensures u < 0x8000_0000 ==> ReadDec(t) == u
  {
    UnsignedReadsAs(u);
    t := Dec(ToInt(u));
    DecReads(ToInt(u));
    LongKinds();
    assert "%lu"[1..] == "lu" && "%llu"[1..] == "llu";
    if u < 0x1_0000_0000 {
      YieldsDirective("%u", UIntConv, UIntArg(u));
      YieldsDirective("%lu", LongUnsigned, ULongArg(u));
    }
    if u < 0x1_0000_0000_0000_0000 { YieldsDirective("%llu", LongLongUnsigned, ULongLongArg(u)); }
  }

  /** An int is cut down to a character. */
  lemma CharDirective(i: int) returns (t: string)
    requires -0x8000_0000 <= i < 0x8000_0000
    ensures Yields("%c", [IntArg(i)], t)
    ensures |t| == 1 && t[0] as int == i % 256
  {
    t := [(i % 0x100) as char];
    YieldsDirective("%c", CharConv, IntArg(i));
  }

  lemma StringDirective(s: string)
    requires IsCString(s)
    ensures Yields("%s", [StrArg(s)], s)
  {
    YieldsDirective("%s", StrConv, StrArg(s));
  }

  lemma PercentDirective()
    ensures Yields("%%", [], "%")
  {
    ExpandStep("%%", [], "%", "", []);
  }

  /** What starts no directive comes out as it stands. */
  lemma UnknownDirective(rest: string)
    requires rest != "" && rest[0] !in "%csdux" && '%' !in rest
    requires rest != "l" && rest != "ll" && !Starts(rest, "lu") && !Starts(rest, "llu") && !Starts(rest, "llx")
    ensures Yields("%" + rest, [], "%" + rest)
  {
    var fmt := "%" + rest;
    assert fmt[1..] == rest;
    ExpandPlain(rest[1..], []);
    assert FormatTail(fmt, []) == rest[1..];
    ExpandStep(fmt, [], ['%', rest[0]], rest[1..], []);
    assert ['%', rest[0]] + rest[1..] == fmt;
  }
}
