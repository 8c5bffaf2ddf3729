/** The copy of the free list: where its cells lie, and what making it does to the list it copies. */
module HeapCopy {
  import opened HeapState
  import opened HeapRuns
  import opened Unsigned
  import opened Memory
  import opened Carving

  /** The cells cl of a copied list lie in the payloads of the distinct live blocks bs. */
  ghost predicate CopiedParts(m: seq<Byte>, live: set<Seg>, p: nat, cl: seq<Seg>, bs: seq<Seg>) {
    && p == Link(cl, 0) && Listed(m, cl) && |bs| == |cl| && Distinct(bs)
    && forall j :: 0 <= j < |bs| ==> bs[j] in live && cl[j].addr == bs[j].addr + 8 && 8 <= bs[j].size
  }

  ghost predicate Copied(m: seq<Byte>, live: set<Seg>, p: nat, cl: seq<Seg>, bs: seq<Seg>) {
    forall c: seq<Seg> {:trigger Looked(c)} :: c == cl ==> CopiedParts(m, live, p, c, bs)
  }

  /** Always true: a proof mentions Looked(cl) where it needs the parts of Copied. */
  predicate Looked(cl: seq<Seg>) { true }

  lemma CopiedHead(m: seq<Byte>, live: set<Seg>, p: nat, cl: seq<Seg>, bs: seq<Seg>)
    requires Copied(m, live, p, cl, bs)
    ensures p == Link(cl, 0) && |bs| == |cl| && (p == NULL <==> cl == [])
    ensures cl != [] ==> bs[0] in live && p == bs[0].addr + 8
  {
    assert Looked(cl);
  }

  lemma NothingCopied(m: seq<Byte>, live: set<Seg>)
    ensures Copied(m, live, NULL, [], [])
  {
    assert CopiedParts(m, live, NULL, [], []);
  }

  /** A copy survives stores outside the payloads of its blocks, and growth of the live set. */
  lemma CopiedKept(m: seq<Byte>, m': seq<Byte>, live: set<Seg>, live': set<Seg>, p: nat, cl: seq<Seg>, bs: seq<Seg>)
    requires Copied(m, live, p, cl, bs) && |m'| == |m| && forall b :: b in bs ==> b in live'
    requires forall b, x :: b in bs && b.addr + 8 <= x < b.End() && x < |m| ==> m'[x] == m[x]
    ensures Copied(m', live', p, cl, bs)
  {
    assert Looked(cl);
    forall i | 0 <= i < |cl| ensures Node(m', cl, i) {
      assert Node(m, cl, i);
      assert bs[i] in bs;
      forall x | cl[i].addr <= x < cl[i].addr + 8 ensures m'[x] == m[x] { }
    }
  }

  lemma CopiedTail(m: seq<Byte>, live: set<Seg>, p: nat, cl: seq<Seg>, bs: seq<Seg>)
    requires Copied(m, live, p, cl, bs) && cl != []
    ensures |bs| == |cl| && p == cl[0].addr == bs[0].addr + 8 && bs[0] in live && bs[0] !in bs[1..]
    ensures p + 8 <= |m| && Word(m, p) == cl[0].size && Copied(m, live, Word(m, p + 4), cl[1..], bs[1..])
    ensures (set b | b in bs) == {bs[0]} + set b | b in bs[1..]
  {
    assert Looked(cl);
    ListedTail(m, cl);
    DistinctTail(bs);
    assert CopiedParts(m, live, Word(m, p + 4), cl[1..], bs[1..]);
  }

  lemma DistinctTail(bs: seq<Seg>)
    requires Distinct(bs) && bs != []
    ensures Distinct(bs[1..]) && bs[0] !in bs[1..] && (set b | b in bs) == {bs[0]} + set b | b in bs[1..]
  {
    assert bs == [bs[0]] + bs[1..];
  }

  /** One more cell in front. */
  lemma CopiedCons(m: seq<Byte>, m': seq<Byte>, live: set<Seg>, p: nat, size: nat, b: Seg, tail: nat, cl: seq<Seg>, bs: seq<Seg>)
    requires Copied(m, live, tail, cl, bs) && b in live && b !in bs && p == b.addr + 8 && 8 <= b.size
    requires LiveDisjoint(live) && SameExcept(m, m', p + 4, p + 8) && Header(m', p, size, tail)
    ensures Copied(m', live, p, [Seg(p, size)] + cl, [b] + bs)
  {
    assert Looked(cl);
    forall c, x | c in bs && c.addr + 8 <= x < c.End() && x < |m| ensures m'[x] == m[x] {
      assert Disjoint(b, c);
    }
    CopiedKept(m, m', live, live, tail, cl, bs);
    ListedCons(m', Seg(p, size), cl);
    DistinctCons(b, bs);
    assert CopiedParts(m', live, p, [Seg(p, size)] + cl, [b] + bs);
  }

  lemma ListedCons(m: seq<Byte>, cell: Seg, cl: seq<Seg>)
    requires Listed(m, cl) && Header(m, cell.addr, cell.size, Link(cl, 0))
    ensures Listed(m, [cell] + cl)
  {
    var l := [cell] + cl;
    forall i | 0 <= i < |l| ensures Node(m, l, i) {
      assert Link(l, i + 1) == Link(cl, i);
      if i > 0 { assert Node(m, cl, i - 1); }
    }
  }

  lemma DistinctCons(b: Seg, bs: seq<Seg>)
    requires Distinct(bs) && b !in bs
    ensures Distinct([b] + bs)
  {
  }

  /** What the insertion of a freed block relies on; live are the blocks that stay live. */
  ghost predicate Insertable(l: seq<Seg>, b: Seg, live: set<Seg>) {
    && l != [] && Ordered(l) && Bounded(l) && b.End() < MODULUS
    && l[Slot(l, b.addr, 0)].End() <= b.addr
    && (Slot(l, b.addr, 0) + 1 < |l| ==> b.End() <= l[Slot(l, b.addr, 0) + 1].addr)
    && (forall i :: 0 <= i < |l| ==> Disjoint(l[i], b))
    && forall c :: c in live ==> Disjoint(b, c) && Disjoint(l[Slot(l, b.addr, 0)], c)
  }

  lemma ReadyToFree(s: State, b: Seg)
    requires Inv(s) && b in s.live && 0 < s.base && s.limit < MODULUS
    ensures Insertable(s.free, b, s.live - {b})
  {
    InvBounds(s);
    SlotNeighbours(s, b);
    assert Opened(s);
  }

  lemma ReleaseKept(m: seq<Byte>, m1: seq<Byte>, m2: seq<Byte>, l: seq<Seg>, b: Seg)
    requires l != [] && SameExcept(m, m1, b.addr, b.addr + 8)
    requires SameExceptHeaders(m1, m2, l[Slot(l, b.addr, 0)].addr, b.addr)
    ensures KeptOutside(m, m2, Release(l, b))
  {
    var k := Slot(l, b.addr, 0);
    forall x | !InFree(Release(l, b), x) ensures SameByte(m, m2, x) {
      ReleaseHas(l, b, x);
      assert !l[k].Has(x) && !b.Has(x) && SameByte(m1, m2, x);
    }
  }

  /** Same nodes at the same addresses, none larger. */
  ghost predicate Shrunk(s: State, t: State) {
    && t.base == s.base && t.limit == s.limit && |t.free| == |s.free|
    && (forall j :: 0 <= j < |s.free| ==> t.free[j].addr == s.free[j].addr && t.free[j].size <= s.free[j].size)
    && forall x :: InFree(t.free, x) ==> InFree(s.free, x)
  }

  lemma ShrunkThrough(s: State, t: State, u: State)
    requires Shrunk(s, t) && Shrunk(t, u)
    ensures Shrunk(s, u)
  {
  }

  /** The live set grew by the blocks bs. */
  ghost predicate Gained(live: set<Seg>, live': set<Seg>, bs: seq<Seg>) {
    live' == live + (set b | b in bs) && forall b :: b in bs ==> b !in live
  }

  lemma GainedCons(live: set<Seg>, live1: set<Seg>, live2: set<Seg>, b: Seg, bs: seq<Seg>)
    requires b !in live && live1 == live + {b} && Gained(live1, live2, bs)
    ensures Gained(live, live2, [b] + bs) && b !in bs && b in live2
  {
    assert (set c | c in [b] + bs) == {b} + set c | c in bs;
  }

  /** One malloc of a cell b, seen from the list. */
  ghost predicate CellStep(s: State, t: State, b: Seg) {
    && b !in s.live && t.live == s.live + {b} && CELL <= b.size && b.End() <= s.limit
    && Shrunk(s, t) && Hosts(s.free, CELL) && t.free == MallocList(s.free, CELL)
    && forall x :: b.addr <= x < b.End() ==> InFree(s.free, x)
  }

  lemma CellFacts(s: State, b: Seg)
    requires Inv(s) && CanMalloc(s, CELL) && b == Block(s, CELL)
    ensures CellStep(s, Malloc(s, CELL), b) && b in Malloc(s, CELL).live && Inv(Malloc(s, CELL))
  {
    MallocBlock(s, CELL);
    MallocInv(s, CELL);
    MallocShape(s, CELL);
    MallocListIs(s, CELL);
    InvBounds(Malloc(s, CELL));
    forall x | b.addr <= x < b.End() ensures InFree(s.free, x) {
      assert s.free[FirstFit(s.free, CELL, 0)].Has(x);
    }
  }

  /** Making the copy succeeds exactly when the list has capacity for one cell per node. */
  predicate CanCopy(free: seq<Seg>, i: nat) {
    |free| <= Cap(free, |free|) + i
  }

  /** Cell c records the size that node i + c had after c + 1 requests. */
  predicate Recorded(l: seq<Seg>, i: nat, cl: seq<Seg>, c: nat) {
    i + c < |l| && c < |cl| && cl[c].size == After(l, c + 1)[i + c].size
  }

  /** What copying from node i on does to the list: it serves one cell per node left or as many as it can, and cell
      c records the size that node i + c had after c + 1 of these requests. */
  ghost predicate OutcomeParts(s: State, t: State, i: nat, ok: bool, cl: seq<Seg>) {
    && Shrunk(s, t) && i <= |s.free| && t.free == After(s.free, |s.free| - i)
    && ok == CanCopy(s.free, i)
    && (ok ==> |cl| == |s.free| - i && forall c :: 0 <= c < |cl| ==> Recorded(s.free, i, cl, c))
    && (i == |s.free| ==> t == s)
  }

  ghost predicate CopyOutcome(s: State, t: State, i: nat, ok: bool, cl: seq<Seg>) {
    forall u: State {:trigger Opened(u)} :: u == t ==> OutcomeParts(s, u, i, ok, cl)
  }

  /** The cells of a finished copy agree with the list it leaves exactly when no size went stale. */
  lemma FaithfulIff(l: seq<Seg>, cl: seq<Seg>)
    requires |cl| == |l| && forall c :: 0 <= c < |cl| ==> Recorded(l, 0, cl, c)
    ensures SameSizes(cl, After(l, |l|)) <==> ServedInTime(l)
  {
    NoneStaleIff(l);
    if NoneStale(l) {
      forall c | 0 <= c < |cl| ensures SameSize(cl, After(l, |l|), c) {
        assert Recorded(l, 0, cl, c) && Fresh(l, c);
      }
    }
    if SameSizes(cl, After(l, |l|)) {
      forall c | 0 <= c < |l| ensures Fresh(l, c) {
        assert Recorded(l, 0, cl, c) && SameSize(cl, After(l, |l|), c);
      }
    }
  }

  lemma CopyNothing(s: State, i: nat)
    requires i == |s.free|
    ensures CopyOutcome(s, s, i, true, [])
  {
    assert OutcomeParts(s, s, i, true, []);
  }

  lemma CopyStopped(s: State, i: nat)
    requires i < |s.free| && !Hosts(s.free, CELL)
    ensures CopyOutcome(s, s, i, false, [])
  {
    AfterStuck(s.free, |s.free| - i);
    CapStep(s.free, |s.free|);
    assert OutcomeParts(s, s, i, false, []);
  }

  lemma RecordedCons(l: seq<Seg>, r: seq<Seg>, i: nat, next: nat, cell: Seg, cl: seq<Seg>)
    requires i < |l| && next == i + 1 && r == MallocList(l, CELL) && cell.size == r[i].size
    requires forall c :: 0 <= c < |cl| ==> Recorded(r, next, cl, c)
    ensures forall c :: 0 <= c < |[cell] + cl| ==> Recorded(l, i, [cell] + cl, c)
  {
    var all := [cell] + cl;
    forall c | 0 <= c < |all| ensures Recorded(l, i, all, c) {
      if c == 0 {
        assert After(l, 1) == After(r, 0);
      } else {
        assert Recorded(r, next, cl, c - 1);
      }
    }
  }

  lemma CopyMore(s: State, t: State, u: State, i: nat, ok: bool, cell: Seg, b: Seg, cl: seq<Seg>)
    requires i < |s.free| && CellStep(s, t, b) && CopyOutcome(t, u, i + 1, ok, cl)
    requires cell.size == t.free[i].size
    ensures CopyOutcome(s, u, i, ok, if ok then [cell] + cl else [])
  {
    assert Opened(u);
    ShrunkThrough(s, t, u);
    CapStep(s.free, |s.free|);
    if ok { RecordedCons(s.free, t.free, i, i + 1, cell, cl); }
    assert OutcomeParts(s, u, i, ok, if ok then [cell] + cl else []);
  }
}
