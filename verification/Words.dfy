/** Where malloc's 32-bit arithmetic agrees with the integers. */
module Words {
  import opened HeapState
  import opened Unsigned

  /** The header address malloc computes for n bytes in segment s, step by step in 32 bits. */
  function Header32(s: Seg, n: nat): nat {
    var end := U32(s.addr + s.size + 8);
    var ptr := U32(end - n);
    U32(ptr - ptr % 8 - 8)
  }

  predicate Fits32(s: Seg, n: nat) { U32(s.addr + 8) <= Header32(s, n) }

  function Ceil8(a: int): int { a + (8 - a % 8) % 8 }

  /** Requests so large that the 32-bit address wraps below zero and lands above the segment's header. */
  predicate Misplaces(s: Seg, n: nat) {
    s.End() - 8 < n <= MODULUS + s.End() - Ceil8(s.addr + 16)
  }

  /** The 32-bit steps give the header address of the integers, taken around once when that is negative. */
  lemma Header32Is(s: Seg, n: nat)
    requires s.End() < MODULUS && n < MODULUS
    ensures HeaderFor(s, n) >= 0 <==> n + 8 <= s.End()
    ensures Header32(s, n) == if n + 8 <= s.End() then HeaderFor(s, n) else HeaderFor(s, n) + MODULUS
  {
    var p := s.End() - n;
    var w := U32(p);
    assert w % 8 == p % 8;
    var h: int := w;
    h := h - h % 8 - 8;
    assert h == HeaderFor(s, n) || h == HeaderFor(s, n) + MODULUS;
  }

  /** Rounding p down reaches a exactly when p reaches a rounded up. */
  lemma FloorCeil(p: int, a: int)
    ensures a <= p - p % 8 <==> Ceil8(a) <= p
  {
  }

  /** malloc's test and header address in segment s are right exactly when the request is not a misplaced one. */
  lemma RequestBound(s: Seg, n: nat)
    requires s.End() < MODULUS && n < MODULUS
    ensures !Misplaces(s, n) ==> Fits32(s, n) == Fits(s, n) && (Fits(s, n) ==> Header32(s, n) == HeaderFor(s, n))
    ensures Misplaces(s, n) ==> Fits32(s, n) && !Placement(s, n, Header32(s, n))
  {
    if n + 8 <= s.End() { RequestBelow(s, n); } else { RequestAbove(s, n); }
  }

  lemma RequestBelow(s: Seg, n: nat)
    requires n + 8 <= s.End() < MODULUS
    ensures !Misplaces(s, n) && Header32(s, n) == HeaderFor(s, n) && Fits32(s, n) == Fits(s, n)
  {
    Header32Is(s, n);
  }

  /** A request that reaches below address 8: the header comes out as if the segment ended one round higher. */
  lemma RequestAbove(s: Seg, n: nat)
    requires s.End() < MODULUS && s.End() < n + 8 && n < MODULUS
    ensures !Fits(s, n) && Fits32(s, n) == Misplaces(s, n) && !Placement(s, n, Header32(s, n))
  {
    Header32Is(s, n);
    FloorCeil(s.End() - n + MODULUS, s.addr + 16);
    RoundHigher(s.End() - n);
  }

  lemma RoundHigher(p: int)
    ensures (p + MODULUS) % 8 == p % 8
  {
  }

  /** The test on a segment that does not misplace the request. */
  lemma TestSound(s: Seg, n: nat)
    requires s.End() < MODULUS && n < MODULUS && !Misplaces(s, n)
    ensures U32(s.addr + 8) == s.addr + 8 && U32(s.addr + s.size + 8) == s.End()
    ensures s.addr + 8 <= Header32(s, n) <==> Fits(s, n)
    ensures Fits(s, n) ==> Header32(s, n) == HeaderFor(s, n)
  {
    RequestBound(s, n);
  }

  function FirstFit32(free: seq<Seg>, n: nat, i: nat): (k: nat)
    requires i <= |free|
    ensures i <= k <= |free|
    ensures forall j :: i <= j < k ==> !Fits32(free[j], n)
    ensures k < |free| ==> Fits32(free[k], n)
    decreases |free| - i
  {
    if i == |free| || Fits32(free[i], n) then i else FirstFit32(free, n, i + 1)
  }

  ghost predicate NoneMisplaced(free: seq<Seg>, n: nat) {
    forall i :: 0 <= i < |free| ==> !Misplaces(free[i], n)
  }

  /** Over the whole list, malloc in 32 bits hands out room inside the segment it picks, or fails, exactly
      when no segment misplaces the request; it then picks what the integers pick.  A request that does not
      reach below address 8 from the end of the head segment is never misplaced, and with a head of at
      least 14 bytes every larger request is. */
  lemma MallocSoundIff(s: State, n: nat)
    requires Inv(s) && s.limit < MODULUS && n < MODULUS
    ensures var k := FirstFit32(s.free, n, 0);
            k == |s.free| || Placement(s.free[k], n, Header32(s.free[k], n)) <==> NoneMisplaced(s.free, n)
    ensures NoneMisplaced(s.free, n) ==> FirstFit32(s.free, n, 0) == FirstFit(s.free, n, 0)
    ensures n + 8 <= s.free[0].End() ==> NoneMisplaced(s.free, n)
    ensures 14 <= s.free[0].size && NoneMisplaced(s.free, n) ==> n + 8 <= s.free[0].End()
  {
    var k := FirstFit32(s.free, n, 0);
    InvBounds(s);
    assert Opened(s);
    forall j | 0 <= j < |s.free|
      ensures !Misplaces(s.free[j], n) ==> Fits32(s.free[j], n) == Fits(s.free[j], n)
      ensures Misplaces(s.free[j], n) ==> Fits32(s.free[j], n)
    {
      RequestBound(s.free[j], n);
    }
    if k < |s.free| {
      RequestBound(s.free[k], n);
      FitsIffPlaceable(s.free[k], n);
    }
  }
}
