/** How the free list and the headers of live blocks are laid out in bytes, and which stores keep them. */
module Memory {
  import opened HeapState
  import opened Unsigned

  type Byte = x: int | 0 <= x < 256

  const NULL := 0

  function LittleEndian(b0: Byte, b1: Byte, b2: Byte, b3: Byte): (w: nat)
    ensures w < MODULUS
  {
    (b0 as int) + (b1 as int) * 0x100 + (b2 as int) * 0x1_0000 + (b3 as int) * 0x100_0000
  }

  /** The word at address a. */
  function Word(m: seq<Byte>, a: nat): nat
    requires a + 4 <= |m|
  {
    LittleEndian(m[a], m[a + 1], m[a + 2], m[a + 3])
  }

  predicate Header(m: seq<Byte>, a: nat, size: nat, next: nat) {
    a + 8 <= |m| && Word(m, a) == size && Word(m, a + 4) == next
  }

  /** The address stored in a link to segment i. */
  function Link(l: seq<Seg>, i: nat): nat {
    if i < |l| then l[i].addr else NULL
  }

  predicate Node(m: seq<Byte>, l: seq<Seg>, i: int)
    requires 0 <= i < |l|
  {
    Header(m, l[i].addr, l[i].size, Link(l, i + 1))
  }

  /** The linked list l is stored in memory. */
  predicate Listed(m: seq<Byte>, l: seq<Seg>) {
    forall i :: 0 <= i < |l| ==> Node(m, l, i)
  }

  predicate LiveListed(m: seq<Byte>, live: set<Seg>) {
    forall b :: b in live ==> Header(m, b.addr, b.size, NULL)
  }

  /** Bytes outside lo..hi are the same in both memories. */
  ghost predicate SameExcept(m: seq<Byte>, m': seq<Byte>, lo: int, hi: int) {
    |m| == |m'| && forall x :: 0 <= x < |m| && !(lo <= x < hi) ==> m'[x] == m[x]
  }

  predicate SameByte(m: seq<Byte>, m': seq<Byte>, x: int) {
    0 <= x < |m| && x < |m'| ==> m'[x] == m[x]
  }

  /** Bytes outside the headers at a and b are the same in both memories. */
  ghost predicate SameExceptHeaders(m: seq<Byte>, m': seq<Byte>, a: int, b: int) {
    |m| == |m'| && forall x {:trigger SameByte(m, m', x)} :: !(a <= x < a + 8) && !(b <= x < b + 8) ==> SameByte(m, m', x)
  }

  lemma HeadersThrough(m: seq<Byte>, m1: seq<Byte>, m2: seq<Byte>, a: int, b: int, lo: int)
    requires SameExceptHeaders(m, m1, a, b) && SameExcept(m1, m2, lo, lo + 8) && (lo == a || lo == b)
    ensures SameExceptHeaders(m, m2, a, b)
  {
    forall x | !(a <= x < a + 8) && !(b <= x < b + 8) ensures SameByte(m, m2, x) {
      assert SameByte(m, m1, x);
    }
  }

  /** Bytes that lie in no segment of the list are the same in both memories. */
  ghost predicate KeptOutside(m: seq<Byte>, m': seq<Byte>, free: seq<Seg>) {
    |m| == |m'| && forall x {:trigger SameByte(m, m', x)} :: !InFree(free, x) ==> SameByte(m, m', x)
  }

  lemma KeptThrough(m: seq<Byte>, m1: seq<Byte>, m2: seq<Byte>, free: seq<Seg>, free1: seq<Seg>)
    requires KeptOutside(m, m1, free) && KeptOutside(m1, m2, free1)
    requires forall x :: InFree(free1, x) ==> InFree(free, x)
    ensures KeptOutside(m, m2, free)
  {
    forall x | !InFree(free, x) ensures SameByte(m, m2, x) {
      assert SameByte(m, m1, x) && SameByte(m1, m2, x);
    }
  }

  lemma KeptWider(m: seq<Byte>, m': seq<Byte>, free: seq<Seg>, wider: seq<Seg>)
    requires KeptOutside(m, m', free) && forall x :: InFree(free, x) ==> InFree(wider, x)
    ensures KeptOutside(m, m', wider)
  {
  }

  lemma KeptByStore(m: seq<Byte>, m': seq<Byte>, lo: int, hi: int, free: seq<Seg>)
    requires SameExcept(m, m', lo, hi) && forall x :: lo <= x < hi ==> InFree(free, x)
    ensures KeptOutside(m, m', free)
  {
  }

  /** What only writes free bytes changes nothing in a live block. */
  lemma KeptInBlock(m: seq<Byte>, m': seq<Byte>, s: State, b: Seg)
    requires Inv(s) && b in s.live && b.End() <= |m| && KeptOutside(m, m', s.free)
    ensures m'[b.addr..b.End()] == m[b.addr..b.End()]
    ensures forall a :: b.addr <= a && a + 4 <= b.End() ==> Word(m', a) == Word(m, a)
  {
    forall x | b.addr <= x < b.End() ensures m'[x] == m[x] {
      FreeNotLive(s, b, x);
      assert SameByte(m, m', x);
    }
  }

  lemma HeaderKept(m: seq<Byte>, m': seq<Byte>, lo: int, hi: int, a: nat, size: nat, next: nat)
    requires SameExcept(m, m', lo, hi) && Header(m, a, size, next) && (a + 8 <= lo || hi <= a)
    ensures Header(m', a, size, next)
  {
  }

  lemma LiveKept(m: seq<Byte>, m': seq<Byte>, lo: int, hi: int, live: set<Seg>)
    requires SameExcept(m, m', lo, hi) && LiveListed(m, live)
    requires forall b :: b in live ==> b.addr + 8 <= lo || hi <= b.addr
    ensures LiveListed(m', live)
  {
    forall b | b in live ensures Header(m', b.addr, b.size, NULL) {
      HeaderKept(m, m', lo, hi, b.addr, b.size, NULL);
    }
  }

  lemma ListKept(m: seq<Byte>, m': seq<Byte>, lo: int, hi: int, l: seq<Seg>)
    requires SameExcept(m, m', lo, hi) && Listed(m, l)
    requires forall i :: 0 <= i < |l| ==> l[i].addr + 8 <= lo || hi <= l[i].addr
    ensures Listed(m', l)
  {
    forall i | 0 <= i < |l| ensures Node(m', l, i) {
      assert Node(m, l, i);
      HeaderKept(m, m', lo, hi, l[i].addr, l[i].size, Link(l, i + 1));
    }
  }

  /** Rewriting the size word of node k. */
  lemma Resized(m: seq<Byte>, m': seq<Byte>, l: seq<Seg>, k: nat, size: nat)
    requires Listed(m, l) && Ordered(l) && k < |l|
    requires SameExcept(m, m', l[k].addr, l[k].addr + 4)
    requires l[k].addr + 4 <= |m| && Word(m', l[k].addr) == size
    ensures Listed(m', l[k := Seg(l[k].addr, size)])
  {
    var l' := l[k := Seg(l[k].addr, size)];
    forall i | 0 <= i < |l| ensures Node(m', l', i) {
      ResizedAt(m, m', l, k, size, i);
    }
  }

  lemma ResizedAt(m: seq<Byte>, m': seq<Byte>, l: seq<Seg>, k: nat, size: nat, i: nat)
    requires Listed(m, l) && Ordered(l) && k < |l| && i < |l|
    requires SameExcept(m, m', l[k].addr, l[k].addr + 4)
    requires l[k].addr + 4 <= |m| && Word(m', l[k].addr) == size
    ensures Node(m', l[k := Seg(l[k].addr, size)], i)
  {
    assert Node(m, l, i);
    assert Link(l[k := Seg(l[k].addr, size)], i + 1) == Link(l, i + 1);
    if i == k {
      HeaderResized(m, m', l[k].addr, l[k].size, size, Link(l, k + 1));
    } else {
      assert l[i].addr + 8 <= l[k].addr || l[k].addr + 8 <= l[i].addr;
      HeaderKept(m, m', l[k].addr, l[k].addr + 4, l[i].addr, l[i].size, Link(l, i + 1));
    }
  }

  lemma HeaderResized(m: seq<Byte>, m': seq<Byte>, a: nat, was: nat, size: nat, next: nat)
    requires Header(m, a, was, next) && SameExcept(m, m', a, a + 4) && Word(m', a) == size
    ensures Header(m', a, size, next)
  {
  }

  lemma Relinked(m: seq<Byte>, m': seq<Byte>, a: nat, size: nat, next: nat)
    requires a + 8 <= |m| && Word(m, a) == size
    requires SameExcept(m, m', a + 4, a + 8) && Word(m', a + 4) == next
    ensures Header(m', a, size, next)
  {
  }

  /** Node k now points at the block b, whose header points at the old successor. */
  lemma Inserted(m: seq<Byte>, m1: seq<Byte>, m2: seq<Byte>, l: seq<Seg>, k: nat, b: Seg)
    requires Listed(m, l) && Ordered(l) && k < |l|
    requires l[k].End() <= b.addr && (k + 1 < |l| ==> b.End() <= l[k + 1].addr)
    requires Header(m, b.addr, b.size, NULL)
    requires l[k].addr + 8 <= |m| == |m1|
    requires SameExcept(m, m1, l[k].addr + 4, l[k].addr + 8) && Word(m1, l[k].addr + 4) == b.addr
    requires SameExcept(m1, m2, b.addr + 4, b.addr + 8) && Word(m2, b.addr + 4) == Link(l, k + 1)
    ensures Listed(m2, Insert(l, k, b))
  {
    var l' := Insert(l, k, b);
    assert Node(m2, l', k) && Node(m2, l', k + 1) by {
      assert Node(m, l, k);
      Relinked(m, m1, l[k].addr, l[k].size, b.addr);
      HeaderKept(m1, m2, b.addr + 4, b.addr + 8, l[k].addr, l[k].size, b.addr);
      HeaderKept(m, m1, l[k].addr + 4, l[k].addr + 8, b.addr, b.size, NULL);
      Relinked(m1, m2, b.addr, b.size, Link(l, k + 1));
    }
    forall i | 0 <= i < |l'| && i != k && i != k + 1 ensures Node(m2, l', i) {
      InsertedElsewhere(m, m1, m2, l, k, b, i, if i < k then i else i - 1);
    }
  }

  lemma InsertedElsewhere(m: seq<Byte>, m1: seq<Byte>, m2: seq<Byte>, l: seq<Seg>, k: nat, b: Seg, i: nat, j: nat)
    requires Listed(m, l) && Ordered(l) && k < |l| && j < |l| && j != k && i == if j < k then j else j + 1
    requires l[k].End() <= b.addr && (k + 1 < |l| ==> b.End() <= l[k + 1].addr)
    requires SameExcept(m, m1, l[k].addr + 4, l[k].addr + 8)
    requires SameExcept(m1, m2, b.addr + 4, b.addr + 8)
    ensures Node(m2, Insert(l, k, b), i)
  {
    var l' := Insert(l, k, b);
    assert l'[i] == l[j] && Link(l', i + 1) == Link(l, j + 1);
    assert Node(m, l, j);
    HeaderKept(m, m1, l[k].addr + 4, l[k].addr + 8, l[j].addr, l[j].size, Link(l, j + 1));
    HeaderKept(m1, m2, b.addr + 4, b.addr + 8, l[j].addr, l[j].size, Link(l, j + 1));
  }

  lemma InsertBounds(l: seq<Seg>, k: nat, b: Seg)
    requires k < |l| && Ordered(l) && l[k].End() <= b.addr && (k + 1 < |l| ==> b.End() <= l[k + 1].addr)
    requires Bounded(l) && b.End() < MODULUS
    ensures Ordered(Insert(l, k, b)) && Bounded(Insert(l, k, b))
  {
    InsertOrdered(l, k, b);
    forall j | 0 <= j < |Insert(l, k, b)| && j != k + 1
      ensures 0 < Insert(l, k, b)[j].addr && Insert(l, k, b)[j].End() < MODULUS
    {
      InsertedAt(l, k, b, j);
    }
  }

  lemma MergeBounds(l: seq<Seg>, i: nat)
    requires i < |l| && Ordered(l) && Bounded(l)
    ensures var m := MergeAt(l, i);
            Ordered(m) && Bounded(m) && i < |m| && m[i].addr == l[i].addr && (0 < i ==> m[i - 1] == l[i - 1])
  {
    var m := MergeAt(l, i);
    MergeAtOrdered(l, i);
    if m != l {
      forall j | 0 <= j < |m| ensures 0 < m[j].addr && m[j].End() < MODULUS {
        MergedAt(l, i, j);
      }
    }
  }

  /** No segment starts at NULL or reaches past 32 bits. */
  predicate Bounded(l: seq<Seg>) {
    forall i :: 0 <= i < |l| ==> 0 < l[i].addr && l[i].End() < MODULUS
  }

  /** Node i took over the size and the link of its touching successor. */
  lemma Merged(m: seq<Byte>, m': seq<Byte>, l: seq<Seg>, i: nat)
    requires Listed(m, l) && Ordered(l) && i + 1 < |l| && l[i].End() == l[i + 1].addr
    requires SameExcept(m, m', l[i].addr, l[i].addr + 8)
    requires Header(m', l[i].addr, l[i].size + 8 + l[i + 1].size, Link(l, i + 2))
    ensures Listed(m', MergeAt(l, i))
  {
    var l' := MergeAt(l, i);
    forall j | 0 <= j < |l'| && j != i ensures Node(m', l', j) {
      MergedElsewhere(m, m', l, i, j);
    }
  }

  lemma MergedLink(l: seq<Seg>, i: nat, j: nat)
    requires i + 1 < |l| && l[i].End() == l[i + 1].addr && j + 1 < |l| && j != i
    ensures var h := if j < i then j else j + 1;
            MergeAt(l, i)[j] == l[h] && Link(MergeAt(l, i), j + 1) == Link(l, h + 1)
  {
  }

  lemma MergedElsewhere(m: seq<Byte>, m': seq<Byte>, l: seq<Seg>, i: nat, j: nat)
    requires Listed(m, l) && Ordered(l) && i + 1 < |l| && l[i].End() == l[i + 1].addr
    requires SameExcept(m, m', l[i].addr, l[i].addr + 8)
    requires j + 1 < |l| && j != i
    ensures Node(m', MergeAt(l, i), j)
  {
    var h := if j < i then j else j + 1;
    MergedLink(l, i, j);
    assert Node(m, l, h);
    HeaderKept(m, m', l[i].addr, l[i].addr + 8, l[h].addr, l[h].size, Link(l, h + 1));
  }

  /** A store into the payload of a live block disturbs no header. */
  lemma PayloadKept(m: seq<Byte>, m': seq<Byte>, lo: int, hi: int, s: State, b: Seg)
    requires Inv(s) && b in s.live && b.addr + 8 <= lo && hi <= b.End() && SameExcept(m, m', lo, hi)
    requires Listed(m, s.free) && LiveListed(m, s.live)
    ensures Listed(m', s.free) && LiveListed(m', s.live)
  {
    assert Opened(s);
    forall i | 0 <= i < |s.free| ensures s.free[i].addr + 8 <= lo || hi <= s.free[i].addr {
      assert Disjoint(s.free[i], b);
    }
    ListKept(m, m', lo, hi, s.free);
    forall c | c in s.live ensures c.addr + 8 <= lo || hi <= c.addr {
      assert c == b || Disjoint(c, b);
    }
    LiveKept(m, m', lo, hi, s.live);
  }

  predicate NonNull(l: seq<Seg>) { forall i :: 0 <= i < |l| ==> l[i].addr != NULL }

  /** The recursive comparison of two lists in memory. */
  function FreeSegmentEquals(m: seq<Byte>, a: nat, b: nat, ghost la: seq<Seg>, ghost lb: seq<Seg>): bool
    requires Listed(m, la) && Listed(m, lb) && a == Link(la, 0) && b == Link(lb, 0) && NonNull(la) && NonNull(lb)
    decreases |la|
  {
    if a == NULL && b == NULL then true
    else if a == NULL || b == NULL then false
    else
      ListedTail(m, la);
      ListedTail(m, lb);
      Word(m, a) == Word(m, b) && FreeSegmentEquals(m, Word(m, a + 4), Word(m, b + 4), la[1..], lb[1..])
  }

  /** Segment i has the same size in both lists. */
  predicate SameSize(la: seq<Seg>, lb: seq<Seg>, i: nat) { i < |la| && i < |lb| && la[i].size == lb[i].size }

  predicate SameSizes(la: seq<Seg>, lb: seq<Seg>) {
    |la| == |lb| && forall i :: 0 <= i < |la| ==> SameSize(la, lb, i)
  }

  /** The comparison is true exactly for lists of the same length and, node by node, the same sizes. */
  lemma {:induction false} EqualsIff(m: seq<Byte>, a: nat, b: nat, la: seq<Seg>, lb: seq<Seg>)
    requires Listed(m, la) && Listed(m, lb) && a == Link(la, 0) && b == Link(lb, 0) && NonNull(la) && NonNull(lb)
    ensures FreeSegmentEquals(m, a, b, la, lb) <==> SameSizes(la, lb)
    decreases |la|
  {
    if la == [] || lb == [] {
      assert a == NULL <==> la == [];
      assert b == NULL <==> lb == [];
    } else {
      ListedTail(m, la);
      ListedTail(m, lb);
      EqualsStep(m, a, b, la, lb);
      EqualsIff(m, Word(m, a + 4), Word(m, b + 4), la[1..], lb[1..]);
      SameSizesCons(la, lb);
    }
  }

  lemma EqualsStep(m: seq<Byte>, a: nat, b: nat, la: seq<Seg>, lb: seq<Seg>)
    requires Listed(m, la) && Listed(m, lb) && a == Link(la, 0) && b == Link(lb, 0) && NonNull(la) && NonNull(lb)
    requires la != [] && lb != []
    ensures Header(m, a, la[0].size, Link(la[1..], 0)) && Listed(m, la[1..]) && NonNull(la[1..])
    ensures Header(m, b, lb[0].size, Link(lb[1..], 0)) && Listed(m, lb[1..]) && NonNull(lb[1..])
    ensures FreeSegmentEquals(m, a, b, la, lb)
            <==> la[0].size == lb[0].size && FreeSegmentEquals(m, Word(m, a + 4), Word(m, b + 4), la[1..], lb[1..])
  {
    ListedTail(m, la);
    ListedTail(m, lb);
  }

  lemma SameSizesCons(la: seq<Seg>, lb: seq<Seg>)
    requires la != [] && lb != []
    ensures SameSizes(la, lb) <==> la[0].size == lb[0].size && SameSizes(la[1..], lb[1..])
  {
    if SameSizes(la, lb) {
      assert SameSize(la, lb, 0);
      forall i | 0 <= i < |la[1..]| ensures SameSize(la[1..], lb[1..], i) { assert SameSize(la, lb, i + 1); }
    }
    if la[0].size == lb[0].size && SameSizes(la[1..], lb[1..]) {
      forall i | 0 <= i < |la| ensures SameSize(la, lb, i) { assert i > 0 ==> SameSize(la[1..], lb[1..], i - 1); }
    }
  }

  lemma ListedTail(m: seq<Byte>, l: seq<Seg>)
    requires Listed(m, l) && l != []
    ensures Listed(m, l[1..]) && Header(m, l[0].addr, l[0].size, Link(l[1..], 0)) && (NonNull(l) ==> NonNull(l[1..]))
  {
    assert Node(m, l, 0);
    forall i | 0 <= i < |l[1..]| ensures Node(m, l[1..], i) {
      assert Node(m, l, i + 1);
    }
  }
}
