/** Number to text in a character buffer: the decimal routine with its in-place reverse, and the hex routine. */
module Conversions {
  import opened CString
  import opened Numerals

  function Reversed(s: string): (r: string)
    ensures |r| == |s|
  {
    seq(|s|, i requires 0 <= i < |s| => s[|s| - 1 - i])
  }

  lemma ReversedAppend(s: string, c: char)
    ensures Reversed(s + [c]) == [c] + Reversed(s)
    ensures Reversed([c] + s) == Reversed(s) + [c]
  {
  }

  lemma ReversedTwice(s: string)
    ensures Reversed(Reversed(s)) == s
  {
  }

  method Reverse(msg: array<char>, len: nat)
    requires len <= msg.Length
    modifies msg
    ensures msg[..] == Reversed(old(msg[..len])) + old(msg[len..])
  {
    var start, end: int := 0, len - 1;
    while start < end
      invariant 0 <= start <= end + 1 <= len && start + end == len - 1
      invariant forall k :: 0 <= k < start || end < k < len ==> msg[k] == old(msg[..])[len - 1 - k]
      invariant forall k :: start <= k <= end || len <= k < msg.Length ==> msg[k] == old(msg[..])[k]
    {
      var c := msg[start];
      msg[start] := msg[end];
      msg[end] := c;
      start := start + 1;
      end := end - 1;
    }
    assert msg[..len] == Reversed(old(msg[..len]));
    assert msg[len..] == old(msg[len..]);
    assert msg[..] == msg[..len] + msg[len..];
  }

  method Clear(msg: array<char>)
    requires NUL in msg[..]
    modifies msg
    ensures forall x :: 0 <= x < msg.Length ==> msg[x] == NUL || msg[x] == old(msg[x])
  {
    var len := Strlen(msg);
    ghost var was := msg[..];
    Memset(msg, NUL, len);
    forall x | 0 <= x < msg.Length ensures msg[x] == NUL || msg[x] == was[x] {
      assert msg[..][x] == if x < len then NUL else was[len..][x - len];
    }
  }

  /** The decimal text of val, NUL-terminated, at the start of msg. */
  method ToStr(msg: array<char>, val: int)
    requires -INT_MAX <= val <= INT_MAX && 12 <= msg.Length && NUL in msg[..]
    modifies msg
    ensures |Dec(val)| <= 11 && msg[..|Dec(val)|] == Dec(val) && msg[|Dec(val)|] == NUL
    ensures forall x :: |Dec(val)| < x < msg.Length ==> msg[x] == NUL || msg[x] == old(msg[x])
  {
    DecLength(val);
    Clear(msg);
    if val == 0 {
      msg[0] := '0';
      msg[1] := NUL;
      assert DecNat(0) == "0";
      return;
    }
    var i := SignedDigits(msg, val);
    ReversedTwice(Dec(val));
    Reverse(msg, i);
    assert msg[..i] == Dec(val);
  }

  /** The text of a nonzero number backwards: digits, then the sign. */
  method SignedDigits(msg: array<char>, val: int) returns (i: nat)
    requires -INT_MAX <= val <= INT_MAX && val != 0 && 12 <= msg.Length && |Dec(val)| <= 11
    modifies msg
    ensures i == |Dec(val)| && msg[..i] == Reversed(Dec(val)) && msg[i] == NUL
    ensures forall x :: i < x < msg.Length ==> msg[x] == old(msg[x])
  {
    var isNeg := val < 0;
    var v := if isNeg then -1 * val else val;
    DecLength(0 - v as int);
    i := Digits(msg, v);
    if isNeg {
      ghost var digits := msg[..i];
      msg[i] := '-';
      i := i + 1;
      ReversedAppend(DecNat(v), '-');
      assert msg[..i] == digits + ['-'];
    }
    ghost var text := msg[..i];
    msg[i] := NUL;
    assert msg[..i] == text;
  }

  /** What is still to come in front of the digits produced so far. */
  function Front(n: nat): string {
    if n == 0 then "" else DecNat(n)
  }

  lemma DigitStep(n: nat, done: string)
    requires n > 0
    ensures Front(n) + Reversed(done) == Front(n / 10) + Reversed(done + [Digit(n % 10)])
  {
  }

  /** The digits of a positive number, least significant first. */
  method Digits(msg: array<char>, v: nat) returns (i: nat)
    requires 0 < v <= INT_MAX && 12 <= msg.Length && |DecNat(v)| <= 10
    modifies msg
    ensures i == |DecNat(v)| && msg[..i] == Reversed(DecNat(v))
    ensures forall x :: i <= x < msg.Length ==> msg[x] == old(msg[x])
  {
    var tmp: nat := v;
    i := 0;
    while tmp != 0
      invariant i + |Front(tmp)| == |DecNat(v)|
      invariant DecNat(v) == Front(tmp) + Reversed(msg[..i])
      invariant forall x :: i <= x < msg.Length ==> msg[x] == old(msg[x])
      decreases tmp
    {
      DigitReads(tmp % 10, 10);
      ghost var done := msg[..i];
      DigitStep(tmp, done);
      msg[i] := (tmp % 10) as char + '0';
      assert msg[..i + 1] == done + [Digit(tmp % 10)];
      tmp := tmp / 10;
      i := i + 1;
    }
    assert DecNat(v) == Reversed(msg[..i]);
    ReversedTwice(msg[..i]);
  }

  /** The low numDigits hexadecimal digits of val, NUL-terminated. */
  method IntToHex(buf: array<char>, val: nat, numDigits: nat)
    requires numDigits < buf.Length
    modifies buf
    ensures buf[..] == Hex(val, numDigits) + [NUL] + old(buf[numDigits + 1..])
  {
    var v := val;
    for i := numDigits downto 0
      invariant Hex(val, numDigits) == Hex(v, i) + buf[i..numDigits]
      invariant forall x :: 0 <= x < buf.Length && !(i <= x < numDigits) ==> buf[x] == old(buf[x])
    {
      ghost var done := buf[i + 1..numDigits];
      buf[i] := Digit(v % 16);
      assert buf[i..numDigits] == [Digit(v % 16)] + done;
      assert Hex(v, i + 1) == Hex(v / 16, i) + [Digit(v % 16)];
      v := v / 16;
    }
    buf[numDigits] := NUL;
    assert buf[..numDigits] == Hex(val, numDigits);
  }
}
