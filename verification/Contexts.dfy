/** The heap when all requests are for sleep contexts: they lie in slots that do not change, so that the place of a
    freed context is only ever taken as a whole. */
module Contexts {
  import opened HeapState

  /** Bytes of a sleep context: its target tick. */
  const CONTEXT := 4

  /** The header of the highest context. */
  function Top(limit: nat): int { limit - CONTEXT - (limit - CONTEXT) % 8 - 8 }

  /** Slots are 16 bytes apart, counted down from the highest header. */
  predicate SlotAt(limit: nat, a: int) { a <= Top(limit) && (Top(limit) - a) % 16 == 0 }

  /** The block fills its slot; the highest one reaches to the limit. */
  predicate InSlot(limit: nat, b: Seg) {
    SlotAt(limit, b.addr) && b.End() == if b.addr == Top(limit) then limit else b.addr + 16
  }

  ghost predicate AllInSlots(s: State) { forall b :: b in s.live ==> InSlot(s.limit, b) }

  lemma SlotsApart(limit: nat, b: Seg, c: Seg)
    requires InSlot(limit, b) && InSlot(limit, c)
    ensures b == c || Disjoint(b, c)
  {
  }

  /** A free segment that does not reach the limit ends at a live block. */
  lemma EndsAtLive(s: State, k: nat) returns (c: Seg)
    requires Inv(s) && k < |s.free| && s.free[k].End() < s.limit
    ensures c in s.live && c.addr == s.free[k].End()
  {
    assert Opened(s);
    InvBounds(s);
    var x := s.free[k].End();
    forall j | 0 <= j < |s.free| ensures !s.free[j].Has(x) {
      if k < j { assert Apart(s.free, k) && s.free[k + 1].addr <= s.free[j].addr; }
      if j < k { assert s.free[j].End() <= s.free[k].addr; }
    }
    assert !InFree(s.free, x);
    assert InLive(s.live, x);
    c :| c in s.live && c.Has(x);
    assert Disjoint(s.free[k], c);
  }

  /** A free segment other than the head begins at the end of a live block. */
  lemma BeginsAtLive(s: State, k: nat) returns (c: Seg)
    requires Inv(s) && 1 <= k < |s.free|
    ensures c in s.live && c.End() == s.free[k].addr < s.limit
  {
    assert Opened(s);
    InvBounds(s);
    var x := s.free[k].addr - 1;
    assert s.free[0].End() <= s.free[k].addr;
    forall j | 0 <= j < |s.free| ensures !s.free[j].Has(x) {
      if k < j { assert s.free[k].End() <= s.free[j].addr; }
      if j < k {
        assert Apart(s.free, j) && Apart(s.free, k - 1);
        assert s.free[j].End() <= s.free[k - 1].End();
      }
    }
    assert !InFree(s.free, x);
    assert InLive(s.live, x);
    c :| c in s.live && c.Has(x);
    assert Disjoint(s.free[k], c);
  }

  /** The high end of a segment that reaches to the limit or to a slot is a slot. */
  lemma BlockInSlot(limit: nat, seg: Seg)
    requires Fits(seg, CONTEXT) && (seg.End() == limit || SlotAt(limit, seg.End()))
    ensures var h := HeaderFor(seg, CONTEXT);
            InSlot(limit, Seg(h, seg.End() - h - 8))
  {
    if seg.End() != limit {
      SlotAligned(limit, seg.End());
      AlignedHeader(seg);
    }
  }

  lemma SlotAligned(limit: nat, a: int)
    requires SlotAt(limit, a)
    ensures a % 8 == 0
  {
    var top, slots := (limit - CONTEXT) / 8, (Top(limit) - a) / 16;
    assert limit - CONTEXT == 8 * top + (limit - CONTEXT) % 8;
    assert Top(limit) - a == 16 * slots;
    Remainder(a, 8, top - 1 - 2 * slots, 0);
  }

  lemma AlignedHeader(seg: Seg)
    requires seg.End() % 8 == 0
    ensures HeaderFor(seg, CONTEXT) == seg.End() - 16
  {
  }

  lemma MallocInSlot(s: State)
    requires Inv(s) && AllInSlots(s) && CanMalloc(s, CONTEXT)
    ensures AllInSlots(Malloc(s, CONTEXT))
  {
    var k := FirstFit(s.free, CONTEXT, 0);
    InvBounds(s);
    if s.free[k].End() < s.limit {
      var c := EndsAtLive(s, k);
      assert InSlot(s.limit, c);
    }
    BlockInSlot(s.limit, s.free[k]);
  }

  lemma NodeInSlot(s: State, k: nat)
    requires Inv(s) && AllInSlots(s) && 1 <= k < |s.free|
    ensures SlotAt(s.limit, s.free[k].addr)
  {
    var c := BeginsAtLive(s, k);
    assert InSlot(s.limit, c);
  }

  /** No header of the heap lies on the word of a context, now live or not: live blocks are that context itself or
      apart from it, and free nodes begin at headers of slots or below all of them. */
  lemma ContextKept(s: State, c: Seg)
    requires Inv(s) && AllInSlots(s) && InSlot(s.limit, c) && s.base + 8 <= c.addr
    ensures forall b :: b in s.live ==> b == c || Disjoint(b, c)
    ensures forall k :: 0 <= k < |s.free| ==> s.free[k].addr + 8 <= c.addr + 8 || c.addr + 8 + CONTEXT <= s.free[k].addr
  {
    forall b | b in s.live ensures b == c || Disjoint(b, c) {
      SlotsApart(s.limit, b, c);
    }
    forall k | 0 <= k < |s.free|
      ensures s.free[k].addr + 8 <= c.addr + 8 || c.addr + 8 + CONTEXT <= s.free[k].addr
    {
      if k > 0 { NodeInSlot(s, k); }
    }
  }
}
