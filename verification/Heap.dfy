/** The allocator over bytes of memory: an intrusive, address-sorted list of free segments whose headers live in
    the same array as the payloads they manage. */
module Heap {
  import opened HeapState
  import opened HeapRuns
  import opened Unsigned
  import opened Words
  import opened Memory
  import opened Carving
  import opened HeapCopy

  class Allocator {
    const ram: array<Byte>
    var freeSegment: nat
    ghost var st: State

    ghost predicate Valid()
      reads this, ram
    {
      && Inv(st) && 0 < st.base && st.limit < MODULUS && st.limit <= ram.Length
      && freeSegment == st.base
      && Listed(ram[..], st.free) && LiveListed(ram[..], st.live)
    }

    method Load(a: nat) returns (v: nat)
      requires a + 4 <= ram.Length
      ensures v == Word(ram[..], a) && v < MODULUS
    {
      v := LittleEndian(ram[a], ram[a + 1], ram[a + 2], ram[a + 3]);
    }

    method Store(a: nat, v: nat)
      requires a + 4 <= ram.Length && v < MODULUS
      modifies ram
      ensures Word(ram[..], a) == v && SameExcept(old(ram[..]), ram[..], a, a + 4)
    {
      var v1 := v / 0x100;
      var v2 := v1 / 0x100;
      var v3 := v2 / 0x100;
      ram[a], ram[a + 1], ram[a + 2], ram[a + 3] := v % 0x100, v1 % 0x100, v2 % 0x100, v3;
    }

    method StoreHeader(a: nat, size: nat, next: nat)
      requires a + 8 <= ram.Length && size < MODULUS && next < MODULUS
      modifies ram
      ensures Header(ram[..], a, size, next) && SameExcept(old(ram[..]), ram[..], a, a + 8)
    {
      Store(a, size);
      Store(a + 4, next);
    }

    /** The heap from kernelEnd to the end of the memory region that starts at kernelStart and has length len. */
    constructor (ram: array<Byte>, kernelStart: nat, kernelEnd: nat, len: nat)
      requires 0 < kernelStart <= kernelEnd && kernelEnd + 8 <= kernelStart + len
      requires kernelStart + len < MODULUS && kernelStart + len <= ram.Length
      modifies ram
      ensures Valid() && this.ram == ram && st == Init(kernelEnd, kernelStart + len)
    {
      this.ram := ram;
      freeSegment := kernelEnd;
      st := Init(kernelEnd, kernelStart + len);
      new;
      var reserved := U32(kernelEnd - kernelStart);
      var bigBlockSize := U32(len - reserved - 8);
      StoreHeader(freeSegment, bigBlockSize, NULL);
      InitInv(kernelEnd, kernelStart + len);
    }

    /** Pointer to the payload of a block with room for n bytes, or panic.  Only free bytes are written. */
    method Malloc(n: nat) returns (ok: bool, p: nat)
      requires Valid() && n < MODULUS && NoneMisplaced(st.free, n)
      modifies this`st, ram
      ensures Valid()
      ensures ok == CanMalloc(old(st), n)
      ensures ok ==> st == HeapState.Malloc(old(st), n) && p == Block(old(st), n).addr + 8
      ensures !ok ==> st == old(st) && p == NULL
      ensures !ok ==> ram[..] == old(ram[..])
      ensures KeptOutside(old(ram[..]), ram[..], old(st).free)
    {
      var s, end, ptr;
      ghost var k;
      ok, s, end, ptr, k := FindSegment(n);
      if !ok { return false, NULL; }
      InvBounds(st);
      Carve(s, end, ptr, n, k);
      p := U32(ptr + 8);
    }

    /** The walk of malloc to the first segment that can host n bytes. */
    method FindSegment(n: nat) returns (ok: bool, s: nat, end: nat, ptr: nat, ghost k: nat)
      requires Valid() && n < MODULUS && NoneMisplaced(st.free, n)
      ensures ok == CanMalloc(st, n)
      ensures ok ==> k == FirstFit(st.free, n, 0) && s == st.free[k].addr
                     && end == st.free[k].End() && ptr == HeaderFor(st.free[k], n)
    {
      InvBounds(st);
      s, end, ptr, k := freeSegment, NULL, NULL, 0;
      while s != NULL
        invariant 0 <= k <= |st.free| && s == Link(st.free, k)
        invariant forall j :: 0 <= j < k ==> !Fits(st.free[j], n)
        decreases |st.free| - k
      {
        assert Node(ram[..], st.free, k);
        var size := Load(s);
        end, ptr := Place(s, size, n);
        TestSound(st.free[k], n);
        if ptr >= U32(s + 8) {
          FirstFitIs(st.free, n, k);
          return true, s, end, ptr, k;
        }
        s := Load(s + 4);
        k := k + 1;
      }
      return false, NULL, NULL, NULL, k;
    }

    /** The end of the segment at s, and the header address for n bytes at its high end. */
    method Place(s: nat, size: nat, n: nat) returns (end: nat, ptr: nat)
      ensures end == U32(s + size + 8) && ptr == Header32(Seg(s, size), n)
    {
      end := U32(s + size + 8);
      var p: int := U32(end - n);
      p := p - p % 8;
      ptr := U32(p - 8);
    }

    /** The branch of malloc that hosts the block. */
    method Carve(s: nat, end: nat, ptr: nat, n: nat, ghost k: nat)
      requires Valid() && CanMalloc(st, n) && k == FirstFit(st.free, n, 0)
      requires s == st.free[k].addr && end == st.free[k].End() && ptr == HeaderFor(st.free[k], n)
      modifies this`st, ram
      ensures Valid() && st == HeapState.Malloc(old(st), n) && ptr == Block(old(st), n).addr
      ensures KeptOutside(old(ram[..]), ram[..], old(st).free)
    {
      ghost var t := HeapState.Malloc(st, n);
      ghost var b := Block(st, n);
      InvBounds(st);
      MallocInv(st, n);
      assert b.addr == ptr && b.End() == end && t.free[k].End() == ptr;
      assert Ordered(st.free) && forall c :: c in st.live ==> Disjoint(st.free[k], c) by { assert Opened(st); }
      assert forall x :: s <= x < end ==> st.free[k].Has(x);
      Split(s, end, ptr, st.free, k, b, st.live);
      st := t;
    }

    /** The stores of malloc: the header of the block, then the new size of the segment it came from. */
    method Split(s: nat, end: nat, ptr: nat, ghost l: seq<Seg>, ghost k: nat, ghost b: Seg, ghost live: set<Seg>)
      requires Listed(ram[..], l) && LiveListed(ram[..], live) && Ordered(l)
      requires k < |l| && s == l[k].addr && s + 8 <= ptr && ptr + 8 <= end == l[k].End() < MODULUS && end <= ram.Length
      requires b == Seg(ptr, end - ptr - 8)
      requires forall c :: c in live ==> Disjoint(l[k], c)
      modifies ram
      ensures Listed(ram[..], l[k := Seg(s, ptr - s - 8)]) && LiveListed(ram[..], live + {b})
      ensures SameExcept(old(ram[..]), ram[..], s, end)
    {
      ghost var m := ram[..];
      assert Node(m, l, k);
      StoreHeader(ptr, U32(end - ptr - 8), NULL);
      ghost var m1 := ram[..];
      ListKept(m, m1, ptr, ptr + 8, l);
      LiveKept(m, m1, ptr, ptr + 8, live);
      assert Node(m1, l, k);
      var size := Load(s);
      var newFreeSize := U32(size - U32(end - ptr));
      Store(s, newFreeSize);
      Resized(m1, ram[..], l, k, ptr - s - 8);
      LiveKept(m1, ram[..], s, s + 4, live + {b});
    }

    /** Return a block to the list.  The panic of the insertion is never reached, and only bytes that are free
        afterwards are written. */
    method Free(p: nat) returns (ok: bool)
      requires Valid() && IsLive(st.live, p)
      modifies this`st, ram
      ensures ok && Valid() && st == HeapState.Free(old(st), LiveAt(old(st).live, p))
      ensures KeptOutside(old(ram[..]), ram[..], st.free)
    {
      ghost var b := LiveAt(st.live, p);
      ghost var t := HeapState.Free(st, b);
      ghost var m := ram[..];
      FreeInv(st, b);
      ReadyToFree(st, b);
      var segment := ToFreeSegment(p, b, st.free, t.live);
      ghost var m1 := ram[..];
      ok := InsertSegment(segment, st.free, b, t.live);
      ReleaseKept(m, m1, ram[..], st.free, b);
      st := t;
    }

    /** Step back to the header of the block and make it a free node with no successor. */
    method ToFreeSegment(p: nat, ghost b: Seg, ghost l: seq<Seg>, ghost live: set<Seg>) returns (segment: nat)
      requires p == b.addr + 8 && Header(ram[..], b.addr, b.size, NULL)
      requires Insertable(l, b, live) && Listed(ram[..], l) && LiveListed(ram[..], live)
      modifies ram
      ensures segment == b.addr && Header(ram[..], segment, b.size, NULL)
      ensures Listed(ram[..], l) && LiveListed(ram[..], live)
      ensures SameExcept(old(ram[..]), ram[..], segment, segment + 8)
    {
      ghost var m := ram[..];
      segment := U32(p - 8);
      var size := Load(segment);
      StoreHeader(segment, size, NULL);
      ListKept(m, ram[..], segment, segment + 8, l);
      LiveKept(m, ram[..], segment, segment + 8, live);
    }

    /** Link the segment in behind the last node below it and merge on both sides. */
    method InsertSegment(segment: nat, ghost l: seq<Seg>, ghost b: Seg, ghost live: set<Seg>) returns (ok: bool)
      requires Insertable(l, b, live) && l[0].addr == freeSegment && Listed(ram[..], l) && LiveListed(ram[..], live)
      requires Header(ram[..], b.addr, b.size, NULL) && segment == b.addr
      modifies ram
      ensures ok && Listed(ram[..], Release(l, b)) && LiveListed(ram[..], live)
      ensures SameExceptHeaders(old(ram[..]), ram[..], l[Slot(l, b.addr, 0)].addr, b.addr)
    {
      var ptr, next := Walk(segment, l);
      if ptr == NULL { return false; }
      LinkBehind(ptr, next, segment, l, Slot(l, b.addr, 0), b, live);
      return true;
    }

    /** The first node whose successor lies above the segment or is missing. */
    method Walk(segment: nat, ghost l: seq<Seg>) returns (ptr: nat, next: nat)
      requires l != [] && l[0].addr == freeSegment && Listed(ram[..], l) && Bounded(l)
      ensures ptr == l[Slot(l, segment, 0)].addr && next == Link(l, Slot(l, segment, 0) + 1)
    {
      ptr, next := freeSegment, NULL;
      ghost var i := 0;
      while ptr != NULL
        invariant 0 <= i < |l| && ptr == l[i].addr
        invariant Slot(l, segment, i) == Slot(l, segment, 0)
        decreases |l| - i
      {
        assert Node(ram[..], l, i);
        next := Load(ptr + 4);
        if next > segment || next == NULL { return; }
        ptr := next;
        i := i + 1;
      }
    }

    /** The branch of the walk that inserts: link, then merge right, then merge left. */
    method LinkBehind(ptr: nat, next: nat, segment: nat, ghost l: seq<Seg>, ghost k: nat, ghost b: Seg, ghost live: set<Seg>)
      requires k < |l| && Ordered(l) && Listed(ram[..], l) && LiveListed(ram[..], live)
      requires ptr == l[k].addr && next == Link(l, k + 1) && segment == b.addr
      requires Header(ram[..], b.addr, b.size, NULL)
      requires Bounded(l) && b.End() < MODULUS
      requires l[k].End() <= b.addr && (k + 1 < |l| ==> b.End() <= l[k + 1].addr)
      requires forall c :: c in live ==> Disjoint(b, c) && Disjoint(l[k], c)
      modifies ram
      ensures Listed(ram[..], MergeAt(MergeAt(Insert(l, k, b), k + 1), k)) && LiveListed(ram[..], live)
      ensures SameExceptHeaders(old(ram[..]), ram[..], ptr, segment)
    {
      StoreLinks(ptr, next, segment, l, k, b, live);
      InsertBounds(l, k, b);
      ghost var m := ram[..];
      MergeBoth(ptr, segment, Insert(l, k, b), k, live);
      assert SameExceptHeaders(old(ram[..]), ram[..], ptr, segment) by {
        forall x | !(ptr <= x < ptr + 8) && !(segment <= x < segment + 8) ensures SameByte(old(ram[..]), ram[..], x) {
          assert SameByte(old(ram[..]), m, x) && SameByte(m, ram[..], x);
        }
      }
    }

    /** Merge the new node k + 1 with its successor, then node k with the result. */
    method MergeBoth(ptr: nat, segment: nat, ghost l: seq<Seg>, ghost k: nat, ghost live: set<Seg>)
      requires k + 1 < |l| && Ordered(l) && Bounded(l) && Listed(ram[..], l) && LiveListed(ram[..], live)
      requires ptr == l[k].addr && segment == l[k + 1].addr
      requires forall c :: c in live ==> Disjoint(l[k + 1], c) && Disjoint(l[k], c)
      modifies ram
      ensures Listed(ram[..], MergeAt(MergeAt(l, k + 1), k)) && LiveListed(ram[..], live)
      ensures SameExceptHeaders(old(ram[..]), ram[..], ptr, segment)
    {
      ghost var m := ram[..];
      MergeBounds(l, k + 1);
      assert Node(m, l, k + 1);
      var newNext := Load(segment + 4);
      MergeSegments(segment, newNext, l, k + 1);
      ghost var m1 := ram[..];
      LiveKept(m, m1, segment, segment + 8, live);
      HeadersThrough(m, m, m1, ptr, segment, segment);
      MergeSegments(ptr, segment, MergeAt(l, k + 1), k);
      LiveKept(m1, ram[..], ptr, ptr + 8, live);
      HeadersThrough(m, m1, ram[..], ptr, segment, ptr);
    }

    method StoreLinks(ptr: nat, next: nat, segment: nat, ghost l: seq<Seg>, ghost k: nat, ghost b: Seg, ghost live: set<Seg>)
      requires k < |l| && Ordered(l) && Listed(ram[..], l) && LiveListed(ram[..], live)
      requires ptr == l[k].addr && next == Link(l, k + 1) < MODULUS && segment == b.addr < MODULUS
      requires Header(ram[..], b.addr, b.size, NULL)
      requires l[k].End() <= b.addr && (k + 1 < |l| ==> b.End() <= l[k + 1].addr)
      requires forall c :: c in live ==> Disjoint(b, c) && Disjoint(l[k], c)
      modifies ram
      ensures Listed(ram[..], Insert(l, k, b)) && LiveListed(ram[..], live)
      ensures SameExceptHeaders(old(ram[..]), ram[..], ptr, segment)
    {
      ghost var m := ram[..];
      assert Node(m, l, k);
      Store(ptr + 4, segment);
      ghost var m1 := ram[..];
      LiveKept(m, m1, ptr + 4, ptr + 8, live);
      Store(segment + 4, next);
      LiveKept(m1, ram[..], segment + 4, segment + 8, live);
      Inserted(m, m1, ram[..], l, k, b);
      HeadersThrough(m, m, m1, ptr, segment, ptr);
      HeadersThrough(m, m1, ram[..], ptr, segment, segment);
    }

    method MergeSegments(a: nat, b: nat, ghost l: seq<Seg>, ghost i: nat)
      requires i < |l| && Ordered(l) && Listed(ram[..], l) && a == l[i].addr && b == Link(l, i + 1)
      requires Bounded(l)
      modifies ram
      ensures Listed(ram[..], MergeAt(l, i)) && SameExcept(old(ram[..]), ram[..], a, a + 8)
    {
      ghost var m := ram[..];
      assert Node(m, l, i);
      var size := Load(a);
      if U32(a + 8 + size) == b {
        assert Node(m, l, i + 1);
        var bSize := Load(b);
        Store(a, U32(size + 8 + bSize));
        HeaderKept(m, ram[..], a, a + 4, b, bSize, Link(l, i + 2));
        var bNext := Load(b + 4);
        ghost var m1 := ram[..];
        Store(a + 4, bNext);
        Relinked(m1, ram[..], a, size + 8 + bSize, bNext);
        Merged(m, ram[..], l, i);
      }
    }

    /** A client may write any byte of a payload it holds. */
    method Poke(a: nat, v: Byte, ghost b: Seg)
      requires Valid() && b in st.live && b.addr + 8 <= a < b.End()
      modifies ram
      ensures Valid() && SameExcept(old(ram[..]), ram[..], a, a + 1) && a < ram.Length && ram[a] == v
    {
      InvBounds(st);
      ghost var m := ram[..];
      ram[a] := v;
      PayloadKept(m, ram[..], a, a + 1, st, b);
    }

    method StorePayload(a: nat, v: nat, ghost b: Seg)
      requires Valid() && b in st.live && b.addr + 8 <= a && a + 4 <= b.End() && v < MODULUS
      modifies ram
      ensures Valid() && a + 4 <= ram.Length && Word(ram[..], a) == v && SameExcept(old(ram[..]), ram[..], a, a + 4)
    {
      InvBounds(st);
      ghost var m := ram[..];
      Store(a, v);
      PayloadKept(m, ram[..], a, a + 4, st, b);
    }

    /** Allocate one cell and record in it the size node i has after that. */
    method NewCell(a: nat, ghost i: nat) returns (ok: bool, p: nat, ghost b: Seg)
      requires Valid() && 8 <= st.base && i < |st.free| && a == st.free[i].addr
      modifies this`st, ram
      ensures Valid() && KeptOutside(old(ram[..]), ram[..], old(st).free)
      ensures !ok ==> st == old(st) && !Hosts(st.free, CELL)
      ensures ok ==> CellStep(old(st), st, b) && p == b.addr + 8 && Word(ram[..], p) == st.free[i].size
    {
      MallocSoundIff(st, CELL);
      b := Seg(0, 0);
      ghost var s := st;
      ok, p := Malloc(CELL);
      if !ok { return; }
      b := Block(s, CELL);
      CellFacts(s, b);
      ghost var m := ram[..];
      RecordSize(a, p, i, b);
      KeptByStore(m, ram[..], p, p + 4, s.free);
      KeptThrough(old(ram[..]), m, ram[..], s.free, s.free);
    }

    method RecordSize(a: nat, p: nat, ghost i: nat, ghost b: Seg)
      requires Valid() && i < |st.free| && a == st.free[i].addr && b in st.live && p == b.addr + 8 && 8 <= b.size
      modifies ram
      ensures Valid() && p + 4 <= ram.Length && Word(ram[..], p) == st.free[i].size
      ensures SameExcept(old(ram[..]), ram[..], p, p + 4)
    {
      InvBounds(st);
      assert Node(ram[..], st.free, i);
      var size := Load(a);
      StorePayload(p, size, b);
    }

    /** Copy the free list from node i on.  malloc shrinks the very list being walked but neither adds nor drops
        nor relinks a node, so the copy has one cell per node; each cell records the size its node had just
        after the malloc for that cell. */
    method DeepCopy(a: nat, ghost i: nat) returns (ok: bool, p: nat, ghost cl: seq<Seg>, ghost bs: seq<Seg>)
      requires Valid() && 8 <= st.base && i <= |st.free| && a == Link(st.free, i)
      modifies this`st, ram
      ensures Valid() && KeptOutside(old(ram[..]), ram[..], old(st).free)
      ensures CopyOutcome(old(st), st, i, ok, cl)
      ensures ok ==> Copied(ram[..], st.live, p, cl, bs) && Gained(old(st).live, st.live, bs)
      decreases |st.free| - i, 1
    {
      cl, bs := [], [];
      ghost var s := st;
      if a == NULL {
        InvBounds(s);
        CopyNothing(s, i);
        NothingCopied(ram[..], st.live);
        return true, NULL, [], [];
      }
      ghost var b;
      ok, p, b := NewCell(a, i);
      if !ok {
        CopyStopped(s, i);
        return;
      }
      var next := NextOf(a, i);
      ghost var m := ram[..];
      ok, cl, bs := CopyRest(p, next, i, s, b);
      KeptThrough(old(ram[..]), m, ram[..], s.free, s.free);
    }

    method NextOf(a: nat, ghost i: nat) returns (next: nat)
      requires Valid() && i < |st.free| && a == st.free[i].addr
      ensures next == Link(st.free, i + 1)
    {
      InvBounds(st);
      assert Node(ram[..], st.free, i);
      next := Load(a + 4);
    }

    /** Copy the nodes after i and link the cell at p in front; s is the state before the cell was allocated. */
    method CopyRest(p: nat, next: nat, ghost i: nat, ghost s: State, ghost b: Seg)
      returns (ok: bool, ghost cl: seq<Seg>, ghost bs: seq<Seg>)
      requires Valid() && 8 <= st.base && i < |st.free| && next == Link(st.free, i + 1)
      requires CellStep(s, st, b) && p == b.addr + 8 && Word(ram[..], p) == st.free[i].size
      modifies this`st, ram
      ensures Valid() && KeptOutside(old(ram[..]), ram[..], s.free)
      ensures CopyOutcome(s, st, i, ok, cl)
      ensures ok ==> Copied(ram[..], st.live, p, cl, bs) && Gained(s.live, st.live, bs)
      decreases |st.free| - i, 0
    {
      ghost var m := ram[..];
      ghost var t := st;
      ghost var size := t.free[i].size;
      var tail;
      ok, tail, cl, bs := DeepCopy(next, i + 1);
      KeptWider(m, ram[..], t.free, s.free);
      CopyMore(s, t, st, i, ok, Seg(p, size), b, cl);
      if !ok {
        cl := [];
        return;
      }
      KeptInBlock(m, ram[..], t, b);
      GainedCons(s.live, t.live, st.live, b, bs);
      ghost var m2 := ram[..];
      cl, bs := LinkCell(p, size, tail, s, b, cl, bs);
      KeptThrough(m, m2, ram[..], s.free, s.free);
    }

    /** Link a finished cell to the copy of the rest. */
    method LinkCell(p: nat, ghost size: nat, tail: nat, ghost s: State, ghost b: Seg, ghost cl: seq<Seg>, ghost bs: seq<Seg>)
      returns (ghost cl': seq<Seg>, ghost bs': seq<Seg>)
      requires Valid() && b in st.live && b !in bs && p == b.addr + 8 && 8 <= b.size && p + 8 <= ram.Length
      requires Word(ram[..], p) == size && Copied(ram[..], st.live, tail, cl, bs)
      requires forall x :: b.addr <= x < b.End() ==> InFree(s.free, x)
      modifies ram
      ensures cl' == [Seg(p, size)] + cl && bs' == [b] + bs
      ensures Valid() && Copied(ram[..], st.live, p, cl', bs')
      ensures KeptOutside(old(ram[..]), ram[..], s.free)
    {
      InvBounds(st);
      CopiedHead(ram[..], st.live, tail, cl, bs);
      ghost var m := ram[..];
      StorePayload(p + 4, tail, b);
      Relinked(m, ram[..], p, size, tail);
      KeptByStore(m, ram[..], p + 4, p + 8, s.free);
      assert LiveDisjoint(st.live) by { assert Opened(st); }
      CopiedCons(m, ram[..], st.live, p, size, b, tail, cl, bs);
      cl', bs' := [Seg(p, size)] + cl, [b] + bs;
    }

    /** Free the copied cells, the last one first. */
    method FreeSegmentDelete(a: nat, ghost cl: seq<Seg>, ghost bs: seq<Seg>)
      requires Valid() && Copied(ram[..], st.live, a, cl, bs)
      modifies this`st, ram
      ensures Valid() && st.base == old(st).base && st.limit == old(st).limit
      ensures st.live == old(st).live - set b | b in bs
      decreases |cl|
    {
      CopiedHead(ram[..], st.live, a, cl, bs);
      if a == NULL { return; }
      CopiedTail(ram[..], st.live, a, cl, bs);
      var next := Load(a + 4);
      FreeSegmentDelete(next, cl[1..], bs[1..]);
      LiveAtIs(st, bs[0]);
      var ok := Free(a);
    }
  }
}
