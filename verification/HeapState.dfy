/** The abstract state of the heap: the free list as a sequence of segments, the blocks handed out as a set,
    and what malloc and free do to them.  Addresses and sizes are unbounded here; the class in Heap.dfy
    works on bytes and 32-bit words and is proved against these functions. */
module HeapState {

  /** An 8-byte header at addr followed by size bytes; free segments and live blocks have the same layout. */
  datatype Seg = Seg(addr: nat, size: nat) {
    function End(): nat { addr + 8 + size }
    predicate Has(x: int) { addr <= x < End() }
  }

  /** The heap occupies the addresses base..limit. */
  datatype State = State(base: nat, limit: nat, free: seq<Seg>, live: set<Seg>)

  predicate Disjoint(a: Seg, b: Seg) { a.End() <= b.addr || b.End() <= a.addr }

  ghost predicate InFree(free: seq<Seg>, x: int) {
    exists i :: 0 <= i < |free| && free[i].Has(x)
  }

  ghost predicate InLive(live: set<Seg>, x: int) {
    exists b :: b in live && b.Has(x)
  }

  predicate Ordered(l: seq<Seg>) {
    forall i, j :: 0 <= i < j < |l| ==> l[i].End() <= l[j].addr
  }

  /** Segment i does not touch its successor. */
  predicate Apart(l: seq<Seg>, i: int)
    requires 0 <= i < |l|
  {
    i + 1 < |l| ==> l[i].End() < l[i + 1].addr
  }

  /** The list is sorted by address and no two neighbours touch. */
  ghost predicate Spaced(l: seq<Seg>) {
    Ordered(l) && forall i :: 0 <= i < |l| ==> Apart(l, i)
  }

  ghost predicate LiveDisjoint(live: set<Seg>) {
    forall b, c :: b in live && c in live && b != c ==> Disjoint(b, c)
  }

  ghost predicate FreeLiveDisjoint(free: seq<Seg>, live: set<Seg>) {
    forall i, b :: 0 <= i < |free| && b in live ==> Disjoint(free[i], b)
  }

  /** Free segments and live blocks cover exactly the addresses of the heap. */
  ghost predicate Covers(s: State) {
    forall x: int :: s.base <= x < s.limit <==> InFree(s.free, x) || InLive(s.live, x)
  }

  /** Every segment after the head is 8-aligned; the head lies where the kernel image ends. */
  ghost predicate AlignedTail(l: seq<Seg>) {
    forall i :: 1 <= i < |l| ==> l[i].addr % 8 == 0
  }

  ghost predicate AlignedLive(live: set<Seg>) {
    forall b :: b in live ==> b.addr % 8 == 0
  }

  ghost predicate Parts(s: State) {
    && Spaced(s.free)
    && LiveDisjoint(s.live)
    && FreeLiveDisjoint(s.free, s.live)
    && Covers(s)
    && AlignedTail(s.free) && AlignedLive(s.live)
  }

  /** Always true: a proof that needs the parts of Inv(s) mentions Opened(s), which triggers them. */
  predicate Opened(s: State) { true }

  /** What holds between any two calls. */
  ghost predicate Inv(s: State) {
    && s.base + 8 <= s.limit
    && s.free != [] && s.free[0].addr == s.base
    && forall t: State {:trigger Opened(t)} :: t == s ==> Parts(t)
  }

  lemma InvBounds(s: State)
    requires Inv(s)
    ensures forall i :: 0 <= i < |s.free| ==> s.base <= s.free[i].addr && s.free[i].End() <= s.limit
    ensures forall b :: b in s.live ==> s.base + 8 <= b.addr && b.End() <= s.limit
  {
    assert Opened(s);
    forall i | 0 <= i < |s.free| ensures s.base <= s.free[i].addr && s.free[i].End() <= s.limit {
      assert s.free[i].Has(s.free[i].addr) && s.free[i].Has(s.free[i].End() - 1);
      assert InFree(s.free, s.free[i].addr) && InFree(s.free, s.free[i].End() - 1);
    }
    forall b | b in s.live ensures s.base + 8 <= b.addr && b.End() <= s.limit {
      assert b.Has(b.addr) && b.Has(b.End() - 1);
      assert InLive(s.live, b.addr) && InLive(s.live, b.End() - 1);
      assert Disjoint(s.free[0], b);
    }
  }

  function Init(base: nat, limit: nat): State
    requires base + 8 <= limit
  {
    State(base, limit, [Seg(base, limit - base - 8)], {})
  }

  lemma InitInv(base: nat, limit: nat)
    requires base + 8 <= limit
    ensures Inv(Init(base, limit))
  {
    var s := Init(base, limit);
    forall x: int ensures s.base <= x < s.limit <==> InFree(s.free, x) || InLive(s.live, x) {
      assert s.free[0].Has(x) <==> s.base <= x < s.limit;
    }
    assert Parts(s);
  }

  // ---------- malloc ----------

  /** Where malloc would put the header of an n-byte request in segment s. */
  function HeaderFor(s: Seg, n: nat): int {
    var p := s.End() - n;
    p - p % 8 - 8
  }

  predicate Fits(s: Seg, n: nat) { s.addr + 8 <= HeaderFor(s, n) }

  /** A quotient and a remainder are determined by what they make up. */
  lemma Remainder(x: int, d: nat, q: int, r: nat)
    requires d == 8 || d == 16
    requires x == d * q + r && r < d
    ensures x / d == q && x % d == r
  {
  }

  lemma RoomFits(s: Seg, n: nat)
    requires n + 15 <= s.size
    ensures Fits(s, n)
  {
  }

  function FirstFit(free: seq<Seg>, n: nat, i: nat): (k: nat)
    requires i <= |free|
    ensures i <= k <= |free|
    ensures forall j :: i <= j < k ==> !Fits(free[j], n)
    ensures k < |free| ==> Fits(free[k], n)
    decreases |free| - i
  {
    if i == |free| || Fits(free[i], n) then i else FirstFit(free, n, i + 1)
  }

  lemma FirstFitIs(free: seq<Seg>, n: nat, k: nat)
    requires k < |free| && Fits(free[k], n)
    requires forall j :: 0 <= j < k ==> !Fits(free[j], n)
    ensures FirstFit(free, n, 0) == k
  {
  }

  predicate CanMalloc(s: State, n: nat) { FirstFit(s.free, n, 0) < |s.free| }

  /** The block malloc hands out: its header and the payload size recorded there. */
  function Block(s: State, n: nat): Seg
    requires CanMalloc(s, n)
  {
    var seg := s.free[FirstFit(s.free, n, 0)];
    var h := HeaderFor(seg, n);
    Seg(h, seg.End() - h - 8)
  }

  function Malloc(s: State, n: nat): State
    requires CanMalloc(s, n)
  {
    var k := FirstFit(s.free, n, 0);
    var seg := s.free[k];
    var b := Block(s, n);
    s.(free := s.free[k := Seg(seg.addr, seg.size - (seg.End() - b.addr))], live := s.live + {b})
  }

  /** An 8-aligned header with room for n bytes inside segment s, leaving the segment its own header. */
  predicate Placement(s: Seg, n: nat, h: int) {
    h % 8 == 0 && s.addr + 8 <= h && h + 8 + n <= s.End()
  }

  /** The test in malloc loses no room: it succeeds exactly when some placement exists, which is exactly when
      the size leaves 8 bytes for a header plus the padding of a misaligned segment; and the header it takes
      is the highest placement. */
  lemma FitsIffPlaceable(s: Seg, n: nat)
    ensures Fits(s, n) <==> exists h :: Placement(s, n, h)
    ensures Fits(s, n) <==> s.size >= n + 8 + (8 - s.addr % 8) % 8
    ensures Fits(s, n) ==> Placement(s, n, HeaderFor(s, n))
    ensures forall h :: Placement(s, n, h) ==> h <= HeaderFor(s, n)
  {
    if Fits(s, n) {
      assert Placement(s, n, HeaderFor(s, n));
    }
  }

  /** One malloc against the free list it started from. */
  lemma MallocBlock(s: State, n: nat)
    requires Inv(s) && CanMalloc(s, n)
    ensures var b := Block(s, n);
            && (b.addr + 8) % 8 == 0
            && n <= b.size <= n + 7
            && exists k :: 0 <= k < |s.free| && s.free[k].addr + 8 <= b.addr && b.End() == s.free[k].End()
                           && s.free[k].size >= n + 8
                           && forall j :: 0 <= j < k ==> !exists h :: Placement(s.free[j], n, h)
    ensures forall x :: Block(s, n).Has(x) ==> !InLive(s.live, x) && s.base <= x < s.limit
  {
    assert Opened(s);
    var k := FirstFit(s.free, n, 0);
    var b := Block(s, n);
    assert b.End() == s.free[k].End();
    forall j | 0 <= j <= k ensures Fits(s.free[j], n) <==> exists h :: Placement(s.free[j], n, h) {
      FitsIffPlaceable(s.free[j], n);
    }
    FitsIffPlaceable(s.free[k], n);
    forall x | b.Has(x) ensures !InLive(s.live, x) && s.base <= x < s.limit {
      assert s.free[k].Has(x);
      assert InFree(s.free, x);
    }
  }

  lemma MallocFails(s: State, n: nat)
    ensures !CanMalloc(s, n) <==> forall k, h :: 0 <= k < |s.free| ==> !Placement(s.free[k], n, h)
  {
    forall k | 0 <= k < |s.free| ensures Fits(s.free[k], n) <==> exists h :: Placement(s.free[k], n, h) {
      FitsIffPlaceable(s.free[k], n);
    }
    if CanMalloc(s, n) {
      var k := FirstFit(s.free, n, 0);
      FitsIffPlaceable(s.free[k], n);
      assert Placement(s.free[k], n, HeaderFor(s.free[k], n));
    }
  }

  lemma MallocInv(s: State, n: nat)
    requires Inv(s) && CanMalloc(s, n)
    ensures Inv(Malloc(s, n)) && Block(s, n) !in s.live
  {
    assert Opened(s);
    var k := FirstFit(s.free, n, 0);
    var b := Block(s, n);
    var t := Malloc(s, n);
    assert t.free[k].End() == b.addr && b.End() == s.free[k].End();
    forall c | c in s.live ensures Disjoint(b, c) && b != c {
      assert Disjoint(s.free[k], c);
    }
    forall i, c | 0 <= i < |t.free| && c in t.live ensures Disjoint(t.free[i], c) {
      MallocDisjoint(s, n, i, c);
    }
    MallocSpaced(s, n);
    forall x: int ensures t.base <= x < t.limit <==> InFree(t.free, x) || InLive(t.live, x) {
      MallocCovers(s, n, x);
    }
    assert Parts(t);
  }

  lemma MallocSpaced(s: State, n: nat)
    requires Inv(s) && CanMalloc(s, n)
    ensures Spaced(Malloc(s, n).free) && AlignedTail(Malloc(s, n).free)
  {
    assert Opened(s);
    var t := Malloc(s, n);
    forall i | 0 <= i < |t.free| ensures Apart(t.free, i) {
      assert Apart(s.free, i);
    }
  }

  lemma MallocDisjoint(s: State, n: nat, i: nat, c: Seg)
    requires Inv(s) && CanMalloc(s, n) && i < |s.free| && c in Malloc(s, n).live
    ensures Disjoint(Malloc(s, n).free[i], c)
  {
    assert Opened(s);
    if c in s.live {
      assert Disjoint(s.free[i], c);
    } else {
      var k := FirstFit(s.free, n, 0);
      assert i != k ==> Disjoint(s.free[i], s.free[k]);
    }
  }

  lemma MallocCovers(s: State, n: nat, x: int)
    requires CanMalloc(s, n)
    ensures InFree(s.free, x) || InLive(s.live, x) <==> InFree(Malloc(s, n).free, x) || InLive(Malloc(s, n).live, x)
  {
    var k := FirstFit(s.free, n, 0);
    var b := Block(s, n);
    var t := Malloc(s, n);
    assert s.free[k].Has(x) <==> t.free[k].Has(x) || b.Has(x);
    if InFree(s.free, x) {
      var i :| 0 <= i < |s.free| && s.free[i].Has(x);
      assert t.free[i].Has(x) || b.Has(x);
      assert b in t.live;
    }
    if InFree(t.free, x) {
      var i :| 0 <= i < |t.free| && t.free[i].Has(x);
      assert s.free[i].Has(x);
    }
    if InLive(s.live, x) {
      var c :| c in s.live && c.Has(x);
      assert c in t.live;
    }
  }

  /** malloc shrinks one segment; every node keeps its place and its address. */
  lemma MallocShape(s: State, n: nat)
    requires CanMalloc(s, n)
    ensures var t := Malloc(s, n);
            && t.base == s.base && t.limit == s.limit && |t.free| == |s.free|
            && (forall j :: 0 <= j < |s.free| ==> t.free[j].addr == s.free[j].addr && t.free[j].size <= s.free[j].size)
            && (var k := FirstFit(s.free, n, 0);
                n + 8 <= s.free[k].size - t.free[k].size <= n + 15
                && forall j :: 0 <= j < |s.free| && j != k ==> t.free[j] == s.free[j])
    ensures forall x :: InFree(Malloc(s, n).free, x) ==> InFree(s.free, x)
  {
  }

  // ---------- free ----------

  /** The node after which the walk of the insertion stops. */
  function Slot(free: seq<Seg>, a: nat, i: nat): (k: nat)
    requires i < |free|
    ensures i <= k < |free|
    ensures k + 1 < |free| ==> a < free[k + 1].addr
    ensures k == i || free[k].addr <= a
    decreases |free| - i
  {
    if i + 1 == |free| || free[i + 1].addr > a then i else Slot(free, a, i + 1)
  }

  /** Merge node i with its successor when they touch. */
  function MergeAt(l: seq<Seg>, i: nat): (m: seq<Seg>)
    requires i < |l|
    ensures i + 1 < |l| && l[i].End() == l[i + 1].addr ==>
              |m| == |l| - 1 && m[i] == Seg(l[i].addr, l[i].size + 8 + l[i + 1].size)
              && (forall j :: 0 <= j < i ==> m[j] == l[j]) && (forall j :: i < j < |m| ==> m[j] == l[j + 1])
  {
    if i + 1 < |l| && l[i].End() == l[i + 1].addr
    then l[..i] + [Seg(l[i].addr, l[i].size + 8 + l[i + 1].size)] + l[i + 2..]
    else l
  }

  function Insert(free: seq<Seg>, k: nat, b: Seg): (l: seq<Seg>)
    requires k < |free|
    ensures |l| == |free| + 1
    ensures forall j :: 0 <= j < |l| ==> l[j] == if j <= k then free[j] else if j == k + 1 then b else free[j - 1]
  {
    free[..k + 1] + [b] + free[k + 1..]
  }

  function Release(free: seq<Seg>, b: Seg): seq<Seg>
    requires free != []
  {
    var k := Slot(free, b.addr, 0);
    MergeAt(MergeAt(Insert(free, k, b), k + 1), k)
  }

  function Free(s: State, b: Seg): State
    requires s.free != []
  {
    s.(free := Release(s.free, b), live := s.live - {b})
  }

  /** The insertion walk ends between the free neighbours of the block. */
  lemma SlotNeighbours(s: State, b: Seg)
    requires Inv(s) && b in s.live
    ensures var k := Slot(s.free, b.addr, 0);
            && s.base < b.addr
            && s.free[k].End() <= b.addr
            && (k + 1 < |s.free| ==> b.End() <= s.free[k + 1].addr)
  {
    assert Opened(s);
    var k := Slot(s.free, b.addr, 0);
    assert b.Has(b.addr);
    assert InLive(s.live, b.addr);
    assert Disjoint(s.free[0], b);
    assert Disjoint(s.free[k], b);
    if k + 1 < |s.free| { assert Disjoint(s.free[k + 1], b); }
  }

  /** Where segment j of the longer list was before. */
  lemma InsertedAt(l: seq<Seg>, k: nat, b: Seg, j: nat)
    requires k < |l| && j <= |l| && j != k + 1
    ensures Insert(l, k, b)[j] == l[if j <= k then j else j - 1]
  {
  }

  lemma InsertOrdered(l: seq<Seg>, k: nat, b: Seg)
    requires Ordered(l) && k < |l| && l[k].End() <= b.addr
    requires k + 1 < |l| ==> b.End() <= l[k + 1].addr
    ensures Ordered(Insert(l, k, b))
  {
    var m := Insert(l, k, b);
    forall i, j | 0 <= i < j < |m| ensures m[i].End() <= m[j].addr {
      if i == k + 1 {
        InsertedAt(l, k, b, j);
      } else if j == k + 1 {
        InsertedAt(l, k, b, i);
      } else {
        InsertedAt(l, k, b, i);
        InsertedAt(l, k, b, j);
      }
    }
  }

  lemma InsertApart(l: seq<Seg>, k: nat, b: Seg)
    requires Spaced(l) && k < |l| && AlignedTail(l) && b.addr % 8 == 0
    ensures var m := Insert(l, k, b);
            && AlignedTail(m) && m[0] == l[0]
            && (forall j :: 0 <= j < k ==> Apart(m, j))
            && (forall j :: k + 1 < j < |m| ==> Apart(m, j))
  {
    var m := Insert(l, k, b);
    forall j | k + 1 < j < |m| ensures Apart(m, j) {
      assert Apart(l, j - 1);
    }
    forall j | 0 <= j < k ensures Apart(m, j) {
      assert Apart(l, j);
    }
  }

  /** Segment j of the merged list begins and ends where these two did. */
  lemma MergedAt(l: seq<Seg>, i: nat, j: nat)
    requires i < |l| && MergeAt(l, i) != l && j < |MergeAt(l, i)|
    ensures j + 1 < |l| && MergeAt(l, i)[j].addr == l[if j <= i then j else j + 1].addr
    ensures MergeAt(l, i)[j].End() == l[if j < i then j else j + 1].End()
  {
  }

  lemma MergeAtOrdered(l: seq<Seg>, i: nat)
    requires Ordered(l) && i < |l|
    ensures var m := MergeAt(l, i);
            Ordered(m) && i < |m| && m[0].addr == l[0].addr
  {
    var m := MergeAt(l, i);
    if m != l {
      forall p, q | 0 <= p < q < |m| ensures m[p].End() <= m[q].addr {
        MergedAt(l, i, p);
        MergedAt(l, i, q);
      }
    }
  }

  lemma MergeAtAligned(l: seq<Seg>, i: nat)
    requires AlignedTail(l) && i < |l|
    ensures AlignedTail(MergeAt(l, i))
  {
    var m := MergeAt(l, i);
    if m != l {
      forall j | 1 <= j < |m| ensures m[j].addr % 8 == 0 {
        MergedAt(l, i, j);
      }
    }
  }

  lemma MergeAtApart(l: seq<Seg>, i: nat, lo: nat)
    requires Ordered(l) && lo <= i < |l|
    requires forall j :: 0 <= j < lo ==> Apart(l, j)
    requires forall j :: i < j < |l| ==> Apart(l, j)
    ensures var m := MergeAt(l, i);
            && (forall j :: 0 <= j < lo ==> Apart(m, j))
            && (forall j :: i <= j < |m| ==> Apart(m, j))
  {
    var m := MergeAt(l, i);
    forall j | i <= j < |m| ensures Apart(m, j) { ApartMerged(l, i, j); }
    forall j | 0 <= j < lo ensures Apart(m, j) { ApartMerged(l, i, j); }
  }

  lemma ApartMerged(l: seq<Seg>, i: nat, j: nat)
    requires Ordered(l) && i < |l| && j < |MergeAt(l, i)|
    requires if j < i then Apart(l, j) else forall k :: i < k < |l| ==> Apart(l, k)
    ensures Apart(MergeAt(l, i), j)
  {
    var m := MergeAt(l, i);
    if m != l {
      MergedAt(l, i, j);
      if j + 1 < |m| { MergedAt(l, i, j + 1); }
      assert i <= j ==> Apart(l, j + 1);
    } else if i < j {
      assert Apart(l, j);
    }
  }

  lemma InsertHas(l: seq<Seg>, k: nat, b: Seg, x: int)
    requires k < |l|
    ensures InFree(Insert(l, k, b), x) <==> InFree(l, x) || b.Has(x)
  {
    var m := Insert(l, k, b);
    if InFree(l, x) {
      var i :| 0 <= i < |l| && l[i].Has(x);
      assert m[if i <= k then i else i + 1] == l[i];
    }
    if b.Has(x) { assert m[k + 1].Has(x); }
    if InFree(m, x) {
      var i :| 0 <= i < |m| && m[i].Has(x);
      if i != k + 1 { assert m[i] == l[if i <= k then i else i - 1]; }
    }
  }

  lemma MergeAtHas(l: seq<Seg>, i: nat, x: int)
    requires i < |l|
    ensures InFree(MergeAt(l, i), x) <==> InFree(l, x)
  {
    var m := MergeAt(l, i);
    if m != l {
      assert m[i].Has(x) <==> l[i].Has(x) || l[i + 1].Has(x);
      if InFree(l, x) {
        var j :| 0 <= j < |l| && l[j].Has(x);
        assert m[if j <= i then j else j - 1].Has(x);
      }
      if InFree(m, x) {
        var j :| 0 <= j < |m| && m[j].Has(x);
        if j != i { assert l[if j < i then j else j + 1] == m[j]; }
      }
    }
  }

  lemma ReleaseHas(l: seq<Seg>, b: Seg, x: int)
    requires l != []
    ensures InFree(Release(l, b), x) <==> InFree(l, x) || b.Has(x)
  {
    var k := Slot(l, b.addr, 0);
    InsertHas(l, k, b, x);
    MergeAtHas(Insert(l, k, b), k + 1, x);
    MergeAtHas(MergeAt(Insert(l, k, b), k + 1), k, x);
  }

  lemma ReleaseSpaced(s: State, b: Seg)
    requires Inv(s) && b in s.live
    ensures Spaced(Release(s.free, b)) && Release(s.free, b) != [] && Release(s.free, b)[0].addr == s.base
    ensures AlignedTail(Release(s.free, b))
  {
    assert Opened(s);
    var k := Slot(s.free, b.addr, 0);
    SlotNeighbours(s, b);
    InsertOrdered(s.free, k, b);
    InsertApart(s.free, k, b);
    var m := Insert(s.free, k, b);
    var m1 := MergeAt(m, k + 1);
    MergeAtOrdered(m, k + 1);
    MergeAtAligned(m, k + 1);
    MergeAtApart(m, k + 1, k);
    MergeAtOrdered(m1, k);
    MergeAtAligned(m1, k);
    MergeAtApart(m1, k, k);
  }

  lemma FreeInv(s: State, b: Seg)
    requires Inv(s) && b in s.live
    ensures Inv(Free(s, b))
  {
    assert Opened(s);
    var t := Free(s, b);
    ReleaseSpaced(s, b);
    forall i, c | 0 <= i < |t.free| && c in t.live ensures Disjoint(t.free[i], c) {
      FreeDisjoint(s, b, i, c);
    }
    forall x: int ensures t.base <= x < t.limit <==> InFree(t.free, x) || InLive(t.live, x) {
      ReleaseHas(s.free, b, x);
      if InLive(s.live, x) {
        var c :| c in s.live && c.Has(x);
        assert c == b || c in t.live;
      }
    }
    assert Parts(t);
  }

  lemma FreeNotLive(s: State, c: Seg, x: int)
    requires Inv(s) && c in s.live && c.Has(x)
    ensures !InFree(s.free, x)
  {
    assert Opened(s);
    forall j | 0 <= j < |s.free| ensures !s.free[j].Has(x) {
      assert Disjoint(s.free[j], c);
    }
  }

  lemma FreeDisjoint(s: State, b: Seg, i: nat, c: Seg)
    requires Inv(s) && b in s.live && i < |Release(s.free, b)| && c in s.live && c != b
    ensures Disjoint(Release(s.free, b)[i], c)
  {
    assert Opened(s);
    var f := Release(s.free, b)[i];
    forall x: int | c.Has(x) ensures !f.Has(x) {
      FreeNotLive(s, c, x);
      assert Disjoint(b, c);
      ReleaseHas(s.free, b, x);
    }
    assert c.Has(c.addr);
    assert f.Has(f.addr);
  }
}
