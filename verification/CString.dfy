/** The string and memory routines, over character arrays. */
module CString {

  const NUL := '\0'

  /** Length of the NUL-terminated string at the start of s. */
  ghost predicate IsLength(s: seq<char>, n: nat) {
    n < |s| && s[n] == NUL && forall i :: 0 <= i < n ==> s[i] != NUL
  }

  method Strlen(a: array<char>) returns (len: nat)
    requires NUL in a[..]
    ensures IsLength(a[..], len)
  {
    len := 0;
    while a[len] != NUL
      invariant len < a.Length && forall i :: 0 <= i < len ==> a[i] != NUL
      invariant exists i :: len <= i < a.Length && a[i] == NUL
      decreases a.Length - len
    {
      len := len + 1;
    }
  }

  method Memset(a: array<char>, c: char, n: nat)
    requires n <= a.Length
    modifies a
    ensures a[..] == seq(n, _ => c) + old(a[n..])
  {
    for i := 0 to n
      invariant forall j :: 0 <= j < i ==> a[j] == c
      invariant forall j :: i <= j < a.Length ==> a[j] == old(a[j])
    {
      a[i] := c;
    }
  }

  /** memmove inside one buffer: n characters from src to dst, which may overlap.  Copying upwards when the
      destination lies below the source and downwards otherwise never reads a character already overwritten. */
  method Memmove(a: array<char>, dst: nat, src: nat, n: nat)
    requires dst + n <= a.Length && src + n <= a.Length
    modifies a
    ensures a[dst..dst + n] == old(a[src..src + n])
    ensures forall x :: 0 <= x < a.Length && !(dst <= x < dst + n) ==> a[x] == old(a[x])
  {
    ghost var was := a[..];
    if dst < src {
      for i := 0 to n
        invariant forall x :: dst <= x < dst + i ==> a[x] == was[x - dst + src]
        invariant forall x :: 0 <= x < a.Length && !(dst <= x < dst + i) ==> a[x] == was[x]
      {
        a[dst + i] := a[src + i];
      }
    } else {
      for i := n downto 0
        invariant forall x :: dst + i <= x < dst + n ==> a[x] == was[x - dst + src]
        invariant forall x :: 0 <= x < a.Length && !(dst + i <= x < dst + n) ==> a[x] == was[x]
      {
        a[dst + i] := a[src + i];
      }
    }
  }

  /** The character at position i of a string, whose end reads as NUL. */
  function At(s: string, i: nat): char
    requires i <= |s|
  {
    if i < |s| then s[i] else NUL
  }

  /** A string value holds no NUL. */
  predicate IsCString(s: string) { NUL !in s }

  /** Value of a character as a signed 8-bit char. */
  function Signed(c: char): int {
    var v := c as int % 0x100;
    if v < 0x80 then v else v - 0x100
  }

  /** How far the comparison looks: it stops, with 0, where either string ends. */
  function Span(s: string, t: string, num: nat): nat {
    var m := if |s| < |t| then |s| else |t|;
    if num < m then num else m
  }

  method Strncmp(s: string, t: string, num: nat) returns (r: int)
    requires IsCString(s) && IsCString(t)
    ensures r == 0 <==> s[..Span(s, t, num)] == t[..Span(s, t, num)]
    ensures r != 0 ==> exists k :: 0 <= k < Span(s, t, num) && s[..k] == t[..k] && s[k] != t[k]
                                   && r == if Signed(s[k]) < Signed(t[k]) then -1 else 1
  {
    for i := 0 to num
      invariant i <= Span(s, t, num) && s[..i] == t[..i]
    {
      if At(s, i) == NUL || At(t, i) == NUL {
        break;
      } else if At(s, i) == At(t, i) {
        continue;
      } else {
        assert s[..Span(s, t, num)][i] != t[..Span(s, t, num)][i];
        return if Signed(s[i]) < Signed(t[i]) then -1 else 1;
      }
    }
    return 0;
  }

  /** Comparing equal over num characters in the sense of section 7.24.4.4 of ISO/IEC 9899:2011. */
  predicate SamePrefix(s: string, t: string, num: nat) {
    if num <= |s| && num <= |t| then s[..num] == t[..num] else s == t
  }

  /** The routine calls strings equal that are not, exactly when one ends inside the compared range as a proper
      prefix of the other. */
  lemma StrncmpDeviates(s: string, t: string, num: nat)
    ensures s[..Span(s, t, num)] == t[..Span(s, t, num)] && !SamePrefix(s, t, num)
            <==> (|s| < num && s < t) || (|t| < num && t < s)
  {
  }
}
