/** Level 2 of the region allocator: buddy allocators on single megabytes and on the edges of attached memory. */
module RegionParents {
  import opened Arith
  import opened RegionSpec
  import opened RegionPartition
  import opened RegionAlign
  import L = RegionLevel1
  import B = BuddyAllocator
  import T = BuddyTiles
  import W = BuddyLists

  /** A region whose memory a buddy allocator hands out. */
  datatype Parent = Parent(region: Region, buddy: B.BuddyCtxt)

  /** What callers get: nothing, a region of whole megabytes, or a block of a buddy allocator. */
  datatype Memory = Null | Large(region: Region) | Small(region: Region, buddy: B.BuddyCtxt)

  ghost function Spans(ps: seq<Parent>): (rs: seq<Region>)
    ensures |rs| == |ps|
  {
    seq(|ps|, i requires 0 <= i < |ps| => ps[i].region)
  }

  function Drop(ps: seq<Parent>, i: nat): (qs: seq<Parent>)
    requires i < |ps|
    ensures |qs| == |ps| - 1
  {
    ps[..i] + ps[i + 1..]
  }

  ghost function DropOwn(owns: seq<seq<T.Block>>, i: nat): (r: seq<seq<T.Block>>)
    requires i < |owns|
    ensures |r| == |owns| - 1
  {
    owns[..i] + owns[i + 1..]
  }

  lemma SpansDrop(ps: seq<Parent>, i: nat)
    requires i < |ps|
    ensures Spans(Drop(ps, i)) == Without(Spans(ps), i)
  {
  }

  lemma SpansAdd(p: Parent, ps: seq<Parent>)
    ensures Spans([p] + ps) == [p.region] + Spans(ps)
  {
  }

  /** The buddy allocator of a parent has just its region as pages. */
  ghost predicate Serves(p: Parent, bits: nat)
    reads p.buddy, p.buddy.all, p.buddy.free
  {
    && p.buddy.Valid() && Proper(p.region) && p.buddy.base == p.region.start && p.buddy.pageBits == bits
    && p.buddy.indexMax * Pow2(bits) == Length(p.region) <= MB
    && (Length(p.region) == MB ==> Megs(p.region))
  }

  ghost predicate Separate(p: Parent, q: Parent)
    reads p.buddy, q.buddy
  {
    p.buddy != q.buddy && p.buddy.all != q.buddy.all && p.buddy.free != q.buddy.free
  }

  ghost predicate AllFree(own: seq<T.Block>) {
    forall i | 0 <= i < |own| :: own[i].free
  }

  ghost predicate Buddies(ps: seq<Parent>, bits: nat)
    reads set p | p in ps :: p.buddy, set p | p in ps :: p.buddy.all, set p | p in ps :: p.buddy.free
  {
    && (forall i | 0 <= i < |ps| :: Serves(ps[i], bits))
    && forall i, j | 0 <= i < j < |ps| :: Separate(ps[i], ps[j])
  }

  /** The addresses of 2^o pages from page h of a region. */
  ghost function BlockRegion(start: int, bits: nat, h: nat, o: nat): Region {
    Region(start + h * Pow2(bits), start + h * Pow2(bits) + Pow2(o + bits) - 1)
  }

  /** An aligned run of 2^o free pages. */
  ghost predicate HasRun(own: seq<T.Block>, o: nat) {
    exists h: nat :: T.Aligned(h, o) && T.FreeRun(own, h, o)
  }

  /** From the tiling own0 the block of 2^o pages at h has been taken, and r is its addresses. */
  ghost predicate Given(own0: seq<T.Block>, own: seq<T.Block>, start: int, bits: nat, r: Region, h: nat, o: nat) {
    T.Aligned(h, o) && T.FreeRun(own0, h, o) && T.Taken(own0, own, h, o) && r == BlockRegion(start, bits, h, o)
  }

  ghost predicate OrderFor(size: nat, bits: nat, o: nat) {
    size <= Pow2(o + bits) && (o > 0 ==> size > Pow2(o - 1 + bits))
  }

  /** The tilings of the parents' buddy allocators. */
  ghost function Owns(ps: seq<Parent>): (owns: seq<seq<T.Block>>)
    reads set p | p in ps :: p.buddy
    ensures |owns| == |ps|
  {
    seq(|ps|, i requires 0 <= i < |ps| reads set p | p in ps :: p.buddy => ps[i].buddy.own)
  }

  /** mem is a block that has just been taken from parent k, the other parents are as they were. */
  ghost predicate Granted(ps: seq<Parent>, bits: nat, owns: seq<seq<T.Block>>, mem: Memory, k: nat, h: nat, o: nat)
    reads set p | p in ps :: p.buddy
  {
    && mem.Small? && k < |ps| == |owns| && mem.buddy == ps[k].buddy && Owns(ps) == owns[k := ps[k].buddy.own]
    && Given(owns[k], ps[k].buddy.own, ps[k].region.start, bits, mem.region, h, o)
  }

  lemma IsGranted(ps: seq<Parent>, bits: nat, owns: seq<seq<T.Block>>, mem: Memory, k: nat, h: nat, o: nat)
    requires mem.Small? && k < |ps| == |owns| && mem.buddy == ps[k].buddy && Owns(ps) == owns[k := ps[k].buddy.own]
    requires Given(owns[k], ps[k].buddy.own, ps[k].region.start, bits, mem.region, h, o)
    ensures Granted(ps, bits, owns, mem, k, h, o)
  {
  }

  lemma OwnsDrop(ps: seq<Parent>, i: nat)
    requires i < |ps|
    ensures Owns(Drop(ps, i)) == DropOwn(Owns(ps), i)
  {
    var qs := Drop(ps, i);
    forall k | 0 <= k < |qs| ensures qs[k] == ps[if k < i then k else k + 1] {
    }
  }

  lemma OwnsAdd(p: Parent, ps: seq<Parent>)
    ensures Owns([p] + ps) == [p.buddy.own] + Owns(ps)
  {
  }

  /** One buddy allocator works, the others keep their state. */
  method AllocIn(ps: seq<Parent>, i: nat, bits: nat, order: nat) returns (r: Region, ok: bool, ghost h: nat)
    requires Buddies(ps, bits) && i < |ps|
    modifies ps[i].buddy`own, ps[i].buddy`lists, ps[i].buddy.all, ps[i].buddy.free
    ensures Buddies(ps, bits)
    ensures Owns(ps) == old(Owns(ps))[i := ps[i].buddy.own]
    ensures ok <==> HasRun(old(Owns(ps))[i], order)
    ensures !ok ==> Owns(ps) == old(Owns(ps))
    ensures ok ==> Given(old(Owns(ps))[i], ps[i].buddy.own, ps[i].region.start, bits, r, h, order)
  {
    hide B.BuddyCtxt.Consistent, T.Taken, T.FreeRun, T.Aligned;
    ghost var owns := Owns(ps);
    var adr;
    ok, adr := ps[i].buddy.Alloc(order);
    h := ps[i].buddy.PageOf(adr);
    r := Region(adr, adr + Pow2(order + bits) - 1);
    OthersServe(ps, i, bits, owns) by {
      forall k | 0 <= k < |ps| && k != i ensures Serves(ps[k], bits) && ps[k].buddy.own == owns[k] {
        assert old(Serves(ps[k], bits)) && owns[k] == old(ps[k].buddy.own);
        assert if k < i then old(Separate(ps[k], ps[i])) else old(Separate(ps[i], ps[k]));
      }
    }
    if ok {
      NoWrap(ps[i].region, h, Pow2(bits), ps[i].buddy.indexMax);
    }
  }

  /** Pages of a region inside the address space do not wrap. */
  lemma NoWrap(r: Region, h: nat, page: nat, pages: nat)
    requires Proper(r) && pages * page == Length(r) && h < pages
    ensures (r.start + h * page) % B.ADDRESS_MOD == r.start + h * page <= r.end + 1 - page
  {
    MulMono(h + 1, pages, page);
    Distribute(h, 1, page);
    MulNonNeg(h, page);
  }

  /** The address is that of an aligned run of 2^o free pages. */
  ghost predicate RunAt(own: seq<T.Block>, start: int, bits: nat, adr: int, h: nat, o: nat) {
    adr == start + h * Pow2(bits) && T.Aligned(h, o) && T.FreeRun(own, h, o)
  }

  /** The address test of `buddy_alloc_at`, said of pages. */
  lemma AddressTest(r: Region, bits: nat, pages: nat, own: seq<T.Block>, adr: int, d: int, h: nat, o: nat)
    requires Proper(r) && pages * Pow2(bits) == Length(r) && |own| == pages && 0 <= adr < B.ADDRESS_MOD
    requires d == (adr - r.start) % B.ADDRESS_MOD && h == d / Pow2(bits)
    ensures d % Pow2(o + bits) == 0 && T.FreeRun(own, h, o) ==> RunAt(own, r.start, bits, adr, h, o)
    ensures forall g: nat :: RunAt(own, r.start, bits, adr, g, o) ==> g == h && d % Pow2(o + bits) == 0
  {
    hide T.FreeRun;
    if d % Pow2(o + bits) == 0 && T.FreeRun(own, h, o) {
      B.AlignedAddress(r.start, adr, d, o, bits);
      RunInside(own, h, o);
      NoWrap(r, h, Pow2(bits), pages);
    }
    forall g: nat | RunAt(own, r.start, bits, adr, g, o) ensures g == h && d % Pow2(o + bits) == 0 {
      RunInside(own, g, o);
      NoWrap(r, g, Pow2(bits), pages);
      MulNonNeg(g, Pow2(bits));
      B.WrapAround(r.start, g * Pow2(bits));
      assert d == g * Pow2(bits);
      DivModUnique(d, Pow2(bits), g, 0);
      var k := T.AlignedFactor(g, o);
      Pow2Add(o, bits);
      Assoc(k, Pow2(o), Pow2(bits));
      DivModUnique(d, Pow2(o + bits), k, 0);
    }
  }

  lemma RunInside(own: seq<T.Block>, h: nat, o: nat)
    requires T.FreeRun(own, h, o)
    ensures h < |own|
  {
    assert T.In(h, h, o);
  }

  method AllocAtIn(ps: seq<Parent>, i: nat, bits: nat, at: W.Word32, order: nat) returns (r: Region, ok: bool, ghost h: nat)
    requires Buddies(ps, bits) && i < |ps| && order + bits < 32
    modifies ps[i].buddy`own, ps[i].buddy`lists, ps[i].buddy.all, ps[i].buddy.free
    ensures Buddies(ps, bits)
    ensures Owns(ps) == old(Owns(ps))[i := ps[i].buddy.own]
    ensures ok <==> HasRunAt(old(Owns(ps))[i], ps[i].region.start, bits, at, order)
    ensures !ok ==> Owns(ps) == old(Owns(ps))
    ensures ok ==> Given(old(Owns(ps))[i], ps[i].buddy.own, ps[i].region.start, bits, r, h, order) && r.start == at
  {
    hide B.BuddyCtxt.Consistent, T.Taken, T.FreeRun, T.Aligned;
    h := ps[i].buddy.PageOf(at);
    ghost var b, owns := ps[i].buddy, Owns(ps);
    ghost var own, start := b.own, ps[i].region.start;
    OwnLength(b);
    AddressTest(ps[i].region, bits, b.indexMax, own, at, (at - b.base) % B.ADDRESS_MOD, h, order);
    hide B.BuddyCtxt.Valid;
    var adr;
    ok, adr := ps[i].buddy.AllocAt(at, order);
    r := Region(adr, adr + Pow2(order + bits) - 1);
    OthersServe(ps, i, bits, owns) by {
      forall k | 0 <= k < |ps| && k != i ensures Serves(ps[k], bits) && ps[k].buddy.own == owns[k] {
        assert old(Serves(ps[k], bits)) && owns[k] == old(ps[k].buddy.own);
        assert if k < i then old(Separate(ps[k], ps[i])) else old(Separate(ps[i], ps[k]));
      }
    }
    assert ok <==> HasRunAt(own, start, bits, at, order);
    assert owns[i] == own;
  }

  lemma OthersServe(ps: seq<Parent>, i: nat, bits: nat, owns: seq<seq<T.Block>>)
    requires i < |ps| == |owns| && Serves(ps[i], bits)
    requires forall k | 0 <= k < |ps| && k != i :: Serves(ps[k], bits) && ps[k].buddy.own == owns[k]
    requires forall j, k | 0 <= j < k < |ps| :: Separate(ps[j], ps[k])
    ensures Buddies(ps, bits) && Owns(ps) == owns[i := ps[i].buddy.own]
  {
    hide Serves, Separate;
  }

  lemma OwnLength(b: B.BuddyCtxt)
    requires b.Valid()
    ensures |b.own| == b.indexMax
  {
  }

  /** A region is a live block of its parent's buddy allocator: 2^o pages at h. */
  ghost predicate LiveBlock(p: Parent, bits: nat, r: Region, h: nat, o: nat)
    reads p.buddy
  {
    h < |p.buddy.own| && p.buddy.own[h] == T.Block(h, o, false) && r == BlockRegion(p.region.start, bits, h, o)
  }

  lemma BlockStart(p: Parent, bits: nat, r: Region, h: nat, o: nat)
    requires Serves(p, bits) && LiveBlock(p, bits, r, h, o)
    ensures 0 <= r.start < B.ADDRESS_MOD && p.buddy.PageOf(r.start) == h < p.buddy.indexMax
  {
    OwnLength(p.buddy);
    NoWrap(p.region, h, Pow2(bits), p.buddy.indexMax);
    MulNonNeg(h, Pow2(bits));
    p.buddy.PageOfAddress(h);
  }

  /** `mreg_level2_free`: the block goes back to its buddy allocator, that of parent i. */
  method FreeIn(ghost ps: seq<Parent>, ghost i: nat, ghost bits: nat, b: B.BuddyCtxt, r: Region, ghost h: nat, ghost o: nat)
    requires Buddies(ps, bits) && i < |ps| && b == ps[i].buddy && LiveBlock(ps[i], bits, r, h, o)
    modifies b`own, b`lists, b.all, b.free
    ensures Buddies(ps, bits)
    ensures Owns(ps) == old(Owns(ps))[i := ps[i].buddy.own]
    ensures T.Freed(old(Owns(ps))[i], Owns(ps)[i], h, o)
  {
    hide T.Freed, B.BuddyCtxt.Consistent, BlockRegion;
    BlockStart(ps[i], bits, r, h, o);
    ghost var owns := Owns(ps);
    var _ := b.Free(r.start, -1);
    OthersServe(ps, i, bits, owns) by {
      forall k | 0 <= k < |ps| && k != i ensures Serves(ps[k], bits) && ps[k].buddy.own == owns[k] {
        assert old(Serves(ps[k], bits)) && owns[k] == old(ps[k].buddy.own);
        assert if k < i then old(Separate(ps[k], ps[i])) else old(Separate(ps[i], ps[k]));
      }
    }
  }

  /** `memregion_attach_buddy`, the part that makes the buddy allocator. */
  method NewParent(r: Region, bits: nat) returns (p: Parent)
    requires 5 <= bits <= 20 && Proper(r) && r.start % Pow2(bits) == 0 && Length(r) % Pow2(bits) == 0
    requires Length(r) <= MB && (Length(r) == MB ==> Megs(r))
    ensures fresh(p.buddy) && fresh(p.buddy.all) && fresh(p.buddy.free)
    ensures p.region == r && Serves(p, bits) && AllFree(p.buddy.own)
  {
    hide B.BuddyCtxt.Consistent, B.InitiallyFree;
    var buddy := new B.BuddyCtxt();
    PagesOf(Length(r), bits);
    var ok := buddy.Init(r.start, Length(r), bits, 0, 0);
    p := Parent(r, buddy);
    OwnLength(buddy);
    forall i | 0 <= i < |buddy.own| ensures buddy.own[i].free {
      EveryPageFree(buddy.AddressOf(i), bits);
    }
  }

  lemma PagesOf(length: nat, bits: nat)
    requires 5 <= bits <= 20 && 0 < length <= MB && length % Pow2(bits) == 0
    ensures length / Pow2(bits) >= 1 && length / Pow2(bits) * Pow2(bits) == length && length / Pow2(bits) <= W.INDEX_LIMIT
  {
    var p, q := Pow2(bits), length / Pow2(bits);
    QuotientRange(length, p);
    assert Pow2(5) == 32;
    Pow2Mono(5, bits);
    MulMono(32, p, q);
  }

  lemma EveryPageFree(adr: W.Word32, bits: nat)
    requires bits < 32
    ensures B.InitiallyFree(adr, 0, 0, bits)
  {
    var size := Pow2(bits);
    DivModUnique(0, size, 0, 0);
    Pow2Mono(bits, 31);
    Below();
    DivModUnique(size - 1, size, 0, size - 1);
  }

  lemma Below()
    ensures Pow2(31) == 0x8000_0000
  {
    B.Pow2Limit();
    assert Pow2(5) == 32;
    Pow2Add(26, 5);
  }

  /** The parents have gained one with only free pages. */
  ghost predicate Added(ps: seq<Parent>, owns: seq<seq<T.Block>>, ps': seq<Parent>, owns': seq<seq<T.Block>>, r: Region)
    requires |ps'| == |owns'|
  {
    |ps'| > 0 && ps' == [ps'[0]] + ps && owns' == [owns'[0]] + owns && ps'[0].region == r && AllFree(owns'[0])
  }

  lemma AddedSome(ps: seq<Parent>, owns: seq<seq<T.Block>>, ps': seq<Parent>, owns': seq<seq<T.Block>>, r: Region)
    requires |ps'| == |owns'| && Added(ps, owns, ps', owns', r)
    ensures ps' != []
  {
  }

  /** A list of free megabytes that is not empty has a free megabyte. */
  lemma AnyMegabyte(rs: seq<Region>)
    requires Spaced(rs)
    ensures (exists first :: L.FreeRun(rs, first, 1 * MB)) <==> rs != []
  {
    if rs != [] {
      MegsLength(rs[0]);
      L.RegionIsRun(rs, 0, MB);
      assert L.FreeRun(rs, rs[0].start, 1 * MB);
    } else {
      forall first ensures !L.FreeRun(rs, first, 1 * MB) {
        assert !Covers(rs, first);
      }
    }
  }

  lemma MegsLength(r: Region)
    requires Megs(r)
    ensures Length(r) >= MB
  {
    var a, b := r.start / MB, (r.end + 1) / MB;
    assert r.start == a * MB && r.end + 1 == b * MB;
  }

  lemma MegabytePaged(r: Region, bits: nat)
    requires 5 <= bits <= 20 && Megs(r) && Length(r) == MB
    ensures Paged(r, bits)
  {
    MegabytePages(bits);
    var p, q := Pow2(bits), T.Size(20 - bits);
    var a := r.start / MB;
    Assoc(a, q, p);
    DivModUnique(r.start, p, a * q, 0);
    DivModUnique(MB, p, q, 0);
  }

  /** The address lies in a megabyte whose pages are all free. */
  ghost predicate IdleAt(ps: seq<Parent>, owns: seq<seq<T.Block>>, a: int)
    requires |ps| == |owns|
  {
    exists i :: 0 <= i < |ps| && Idle(ps[i].region, owns[i]) && In(ps[i].region, a)
  }

  lemma IdleDrop(ps: seq<Parent>, owns: seq<seq<T.Block>>, i: nat)
    requires i < |ps| == |owns| && Idle(ps[i].region, owns[i])
    ensures var owns' := DropOwn(owns, i);
      forall a :: IdleAt(ps, owns, a) <==> IdleAt(Drop(ps, i), owns', a) || In(ps[i].region, a)
  {
    hide Idle;
    var qs, owns' := Drop(ps, i), DropOwn(owns, i);
    forall a ensures IdleAt(ps, owns, a) <==> IdleAt(qs, owns', a) || In(ps[i].region, a) {
      if k :| 0 <= k < |ps| && Idle(ps[k].region, owns[k]) && In(ps[k].region, a) && k != i {
        var n := if k < i then k else k - 1;
        assert qs[n] == ps[k] && owns'[n] == owns[k];
      }
      if k :| 0 <= k < |qs| && Idle(qs[k].region, owns'[k]) && In(qs[k].region, a) {
        var n := if k < i then k else k + 1;
        assert ps[n] == qs[k] && owns[n] == owns'[k];
      }
    }
  }

  /** The address is free at level 1 or belongs to a megabyte with nothing live. */
  ghost predicate UnusedIn(free: seq<Region>, ps: seq<Parent>, owns: seq<seq<T.Block>>, a: int)
    requires |ps| == |owns|
  {
    Covers(free, a) || IdleAt(ps, owns, a)
  }

  /** `size` unused addresses in a row. */
  ghost predicate UnusedRun(free: seq<Region>, ps: seq<Parent>, owns: seq<seq<T.Block>>, first: int, size: int)
    requires |ps| == |owns|
  {
    forall a | first <= a < first + size :: UnusedIn(free, ps, owns, a)
  }

  lemma FreeIsUnused(free: seq<Region>, ps: seq<Parent>, owns: seq<seq<T.Block>>, size: int)
    requires |ps| == |owns|
    ensures forall first | L.FreeRun(free, first, size) :: UnusedRun(free, ps, owns, first, size)
  {
    hide IdleAt, Covers;
  }

  lemma SameRuns(free0: seq<Region>, ps0: seq<Parent>, owns0: seq<seq<T.Block>>, free: seq<Region>, size: int)
    requires |ps0| == |owns0| && forall a :: Covers(free, a) <==> UnusedIn(free0, ps0, owns0, a)
    ensures forall first :: L.FreeRun(free, first, size) <==> UnusedRun(free0, ps0, owns0, first, size)
  {
    hide UnusedIn, Covers;
  }

  ghost predicate SameUnused(free0: seq<Region>, ps0: seq<Parent>, owns0: seq<seq<T.Block>>,
                             free: seq<Region>, ps: seq<Parent>, owns: seq<seq<T.Block>>)
    requires |ps0| == |owns0| && |ps| == |owns|
  {
    forall a :: UnusedIn(free, ps, owns, a) <==> UnusedIn(free0, ps0, owns0, a)
  }

  lemma SameUnusedDrop(free0: seq<Region>, ps0: seq<Parent>, owns0: seq<seq<T.Block>>,
                       free: seq<Region>, ps: seq<Parent>, owns: seq<seq<T.Block>>, i: nat, free': seq<Region>)
    requires |ps0| == |owns0| && i < |ps| == |owns| && SameUnused(free0, ps0, owns0, free, ps, owns)
    requires Idle(ps[i].region, owns[i]) && Gained(free, free', ps[i].region)
    ensures SameUnused(free0, ps0, owns0, free', Drop(ps, i), DropOwn(owns, i))
  {
    hide IdleAt, Idle, Covers;
    IdleDrop(ps, owns, i);
    forall a ensures UnusedIn(free', Drop(ps, i), DropOwn(owns, i), a) <==> UnusedIn(free0, ps0, owns0, a) {
      assert UnusedIn(free, ps, owns, a) <==> UnusedIn(free0, ps0, owns0, a);
    }
  }

  lemma NoneUnused(free0: seq<Region>, ps0: seq<Parent>, owns0: seq<seq<T.Block>>,
                   free: seq<Region>, ps: seq<Parent>, owns: seq<seq<T.Block>>)
    requires |ps0| == |owns0| && |ps| == |owns| && SameUnused(free0, ps0, owns0, free, ps, owns)
    requires forall j | 0 <= j < |ps| :: !Idle(ps[j].region, owns[j])
    ensures forall a :: Covers(free, a) <==> UnusedIn(free0, ps0, owns0, a)
  {
    NoneIdle(ps, owns);
    forall a ensures Covers(free, a) <==> UnusedIn(free0, ps0, owns0, a) {
      assert UnusedIn(free, ps, owns, a) <==> UnusedIn(free0, ps0, owns0, a);
    }
  }

  lemma NoneIdle(ps: seq<Parent>, owns: seq<seq<T.Block>>)
    requires |ps| == |owns| && forall j | 0 <= j < |ps| :: !Idle(ps[j].region, owns[j])
    ensures forall a :: !IdleAt(ps, owns, a)
  {
  }

  lemma DropBuddies(ps: seq<Parent>, i: nat, bits: nat)
    requires Buddies(ps, bits) && i < |ps|
    ensures Buddies(Drop(ps, i), bits)
  {
    hide Serves;
    var qs := Drop(ps, i);
    forall k | 0 <= k < |qs| ensures qs[k] == ps[if k < i then k else k + 1] {
    }
    forall j, k | 0 <= j < k < |qs| ensures Separate(qs[j], qs[k]) {
      assert Separate(ps[if j < i then j else j + 1], ps[if k < i then k else k + 1]);
    }
  }

  /** `mreg_level2_allocate`: the first buddy allocator that has a block of the order. */
  method Level2Allocate(ps: seq<Parent>, bits: nat, size: nat) returns (mem: Memory, ghost k: nat, ghost h: nat, ghost o: nat)
    requires bits <= 20 && Buddies(ps, bits) && size <= MB
    modifies (set p | p in ps :: p.buddy)`own, (set p | p in ps :: p.buddy)`lists
    modifies (set p | p in ps :: p.buddy.all), (set p | p in ps :: p.buddy.free)
    ensures Buddies(ps, bits)
    ensures ps != [] ==> OrderFor(size, bits, o)
    ensures mem.Null? <==> forall i | 0 <= i < |ps| :: !HasRun(old(Owns(ps))[i], o)
    ensures mem.Null? ==> Owns(ps) == old(Owns(ps))
    ensures !mem.Null? ==> Granted(ps, bits, old(Owns(ps)), mem, k, h, o)
    ensures !mem.Null? ==> forall j | 0 <= j < k :: !HasRun(old(Owns(ps))[j], o)
  {
    mem, k, h, o := Null, 0, 0, 0;
    if |ps| == 0 {
      return;
    }
    assert ps[0].buddy.pageBits == bits by { assert Serves(ps[0], bits); }
    hide HasRun, B.BuddyCtxt.Valid, Buddies, OrderFor, Owns, Granted;
    var order := ps[0].buddy.OrderFromSize(size);
    o := order;
    mem, k, h := AllocFirst(ps, bits, order);
  }

  /** `mreg_level2_allocate_at`: the first buddy allocator that has the pages at the address free. */
  method Level2AllocateAt(ps: seq<Parent>, bits: nat, at: W.Word32, size: nat)
    returns (mem: Memory, ghost k: nat, ghost h: nat, ghost o: nat)
    requires bits <= 20 && Buddies(ps, bits) && size <= MB
    modifies (set p | p in ps :: p.buddy)`own, (set p | p in ps :: p.buddy)`lists
    modifies (set p | p in ps :: p.buddy.all), (set p | p in ps :: p.buddy.free)
    ensures Buddies(ps, bits)
    ensures ps != [] ==> OrderFor(size, bits, o)
    ensures mem.Null? <==> NoRunAt(ps, old(Owns(ps)), bits, at, o)
    ensures mem.Null? ==> Owns(ps) == old(Owns(ps))
    ensures !mem.Null? ==> Granted(ps, bits, old(Owns(ps)), mem, k, h, o) && mem.region.start == at
    ensures !mem.Null? ==> forall j | 0 <= j < k :: !HasRunAt(old(Owns(ps))[j], ps[j].region.start, bits, at, o)
  {
    mem, k, h, o := Null, 0, 0, 0;
    if |ps| == 0 {
      return;
    }
    assert ps[0].buddy.pageBits == bits by { assert Serves(ps[0], bits); }
    hide HasRunAt, B.BuddyCtxt.Valid, Buddies, Owns, Granted;
    var order := ps[0].buddy.OrderFromSize(size);
    o := order;
    OrderSmall(size, bits, o);
    mem, k, h := AllocAtFirst(ps, bits, at, order);
  }

  lemma OrderSmall(size: nat, bits: nat, o: nat)
    requires bits <= 20 && size <= MB && OrderFor(size, bits, o)
    ensures o + bits <= 20
  {
    MegabytePages(bits);
    Pow2Add(20 - bits, bits);
    if o + bits > 20 {
      Pow2Mono(20, o - 1 + bits);
    }
  }

  lemma OrderUnique(size: nat, bits: nat, o: nat, n: nat)
    requires OrderFor(size, bits, o) && OrderFor(size, bits, n)
    ensures o == n
  {
    if o < n {
      Pow2Mono(o + bits, n - 1 + bits);
    } else if n < o {
      Pow2Mono(n + bits, o - 1 + bits);
    }
  }

  /** Neither a megabyte nor a block for a rounded size can be had. */
  ghost predicate NoRoom(free: seq<Region>, ps: seq<Parent>, owns: seq<seq<T.Block>>, bits: nat, size: nat)
    requires |ps| == |owns|
  {
    if size < MB then free == [] && forall i, o: nat | 0 <= i < |ps| && OrderFor(size, bits, o) :: !HasRun(owns[i], o)
    else !exists first :: UnusedRun(free, ps, owns, first, size)
  }

  lemma OrderDecides(size: nat, bits: nat, o: nat)
    requires OrderFor(size, bits, o)
    ensures forall n: nat :: OrderFor(size, bits, n) <==> n == o
  {
    forall n: nat | OrderFor(size, bits, n) ensures n == o {
      OrderUnique(size, bits, o, n);
    }
  }

  lemma BlockHolds(size: nat, aligned: nat, bits: nat, o: nat)
    requires bits <= 20 && OrderFor(aligned, bits, o) && (size <= aligned || (aligned == 0 && size > MB))
    ensures size <= Pow2(o + bits) <==> size <= aligned
  {
    MegabytePages(bits);
    MulMono(1, T.Size(20 - bits), Pow2(bits));
  }

  lemma OrderHolds(size: nat, bits: nat, o: nat)
    requires bits <= 20 && size <= MB && OrderFor(size, bits, o)
    ensures o + bits <= 20 && size <= Pow2(o + bits)
  {
    OrderSmall(size, bits, o);
  }

  lemma OrderExists(size: nat, bits: nat) returns (o: nat)
    ensures OrderFor(size, bits, o)
  {
    o := 0;
    while size > Pow2(o + bits)
      invariant o > 0 ==> size > Pow2(o - 1 + bits)
      decreases size - Pow2(o + bits)
    {
      Pow2Mono(o + bits, o + 1 + bits);
      o := o + 1;
    }
  }

  /** A free megabyte has a run of every order up to a megabyte. */
  lemma IdleRun(own: seq<T.Block>, bits: nat, o: nat)
    requires |own| * Pow2(bits) == MB && AllFree(own) && o + bits <= 20
    ensures HasRun(own, o)
  {
    MegabytePages(bits);
    Pow2Mono(o, 20 - bits);
    FewerPages(T.Size(20 - bits), |own|, Pow2(bits));
    ZeroAligned(o);
    assert T.FreeRun(own, 0, o);
  }

  /** The loop over the buddy allocators. */
  method AllocFirst(ps: seq<Parent>, bits: nat, order: nat) returns (mem: Memory, ghost k: nat, ghost h: nat)
    requires Buddies(ps, bits)
    modifies (set p | p in ps :: p.buddy)`own, (set p | p in ps :: p.buddy)`lists
    modifies (set p | p in ps :: p.buddy.all), (set p | p in ps :: p.buddy.free)
    ensures Buddies(ps, bits)
    ensures mem.Null? <==> forall i | 0 <= i < |ps| :: !HasRun(old(Owns(ps))[i], order)
    ensures mem.Null? ==> Owns(ps) == old(Owns(ps))
    ensures !mem.Null? ==> Granted(ps, bits, old(Owns(ps)), mem, k, h, order)
    ensures !mem.Null? ==> forall j | 0 <= j < k :: !HasRun(old(Owns(ps))[j], order)
  {
    hide HasRun, B.BuddyCtxt.Valid, Buddies, Owns, Granted;
    mem, k, h := Null, 0, 0;
    ghost var owns := Owns(ps);
    var i := 0;
    while i < |ps|
      invariant 0 <= i <= |ps| && Buddies(ps, bits) && Owns(ps) == owns
      invariant forall j | 0 <= j < i :: !HasRun(owns[j], order)
    {
      var r, ok, g := AllocIn(ps, i, bits, order);
      if ok {
        mem, k, h := Small(r, ps[i].buddy), i, g;
        IsGranted(ps, bits, owns, mem, k, h, order);
        return;
      }
      i := i + 1;
    }
  }

  /** The loop over the buddy allocators. */
  method AllocAtFirst(ps: seq<Parent>, bits: nat, at: W.Word32, order: nat) returns (mem: Memory, ghost k: nat, ghost h: nat)
    requires Buddies(ps, bits) && order + bits < 32
    modifies (set p | p in ps :: p.buddy)`own, (set p | p in ps :: p.buddy)`lists
    modifies (set p | p in ps :: p.buddy.all), (set p | p in ps :: p.buddy.free)
    ensures Buddies(ps, bits)
    ensures mem.Null? <==> forall i | 0 <= i < |ps| :: !HasRunAt(old(Owns(ps))[i], ps[i].region.start, bits, at, order)
    ensures mem.Null? ==> Owns(ps) == old(Owns(ps))
    ensures !mem.Null? ==> Granted(ps, bits, old(Owns(ps)), mem, k, h, order) && mem.region.start == at
    ensures !mem.Null? ==> forall j | 0 <= j < k :: !HasRunAt(old(Owns(ps))[j], ps[j].region.start, bits, at, order)
  {
    hide HasRunAt, B.BuddyCtxt.Valid, Buddies, Owns, Granted;
    mem, k, h := Null, 0, 0;
    ghost var owns := Owns(ps);
    var i := 0;
    while i < |ps|
      invariant 0 <= i <= |ps| && Buddies(ps, bits) && Owns(ps) == owns
      invariant forall j | 0 <= j < i :: !HasRunAt(owns[j], ps[j].region.start, bits, at, order)
    {
      var r, ok, g := AllocAtIn(ps, i, bits, at, order);
      if ok {
        mem, k, h := Small(r, ps[i].buddy), i, g;
        IsGranted(ps, bits, owns, mem, k, h, order);
        return;
      }
      i := i + 1;
    }
  }

  ghost predicate NoRunAt(ps: seq<Parent>, owns: seq<seq<T.Block>>, bits: nat, at: int, o: nat)
    requires |ps| == |owns|
  {
    forall i | 0 <= i < |ps| :: !HasRunAt(owns[i], ps[i].region.start, bits, at, o)
  }

  /** A free megabyte has a run at a page of it exactly when the run is aligned there. */
  lemma IdleRunAt(own: seq<T.Block>, meg: int, bits: nat, at: int, o: nat)
    requires |own| * Pow2(bits) == MB && AllFree(own) && o + bits <= 20
    requires meg <= at < meg + MB && (at - meg) % Pow2(bits) == 0
    ensures HasRunAt(own, meg, bits, at, o) <==> (at - meg) % Pow2(o + bits) == 0
  {
    var p, b, d := Pow2(bits), Pow2(o + bits), at - meg;
    Pow2Add(o, bits);
    if d % b == 0 {
      var k := d / b;
      var g := k * T.Size(o);
      QuotientRange(d, b);
      MulNonNeg(k, T.Size(o));
      Assoc(k, T.Size(o), p);
      PageDivides(o + bits);
      MultipleGap(d, MB, b);
      Distribute(g, T.Size(o), p);
      FewerPages(g + T.Size(o), |own|, p);
      T.MultipleAligned(k, o);
      assert RunAt(own, meg, bits, at, g, o);
    }
    if g: nat :| RunAt(own, meg, bits, at, g, o) {
      var k := T.AlignedFactor(g, o);
      Assoc(k, T.Size(o), p);
      DivModUnique(d, b, k, 0);
    }
  }

  ghost predicate HasRunAt(own: seq<T.Block>, start: int, bits: nat, at: int, o: nat) {
    exists g: nat :: RunAt(own, start, bits, at, g, o)
  }

  // ----- whole megabytes

  /** A whole megabyte of free pages. */
  ghost predicate Idle(r: Region, own: seq<T.Block>) {
    Length(r) == MB && AllFree(own)
  }

  lemma MegabytePages(bits: nat)
    requires bits <= 20
    ensures T.Size(20 - bits) * Pow2(bits) == MB
  {
    Pow2Add(20 - bits, bits);
    assert Pow2(5) == 32;
    Pow2Add(5, 5);
    Pow2Add(10, 10);
  }

  /** A free block of a megabyte is the whole of an idle parent. */
  lemma MegabyteBlock(p: Parent, bits: nat, h: nat)
    requires bits <= 20 && Serves(p, bits) && B.FreeHead(p.buddy.own, h, 20 - bits)
    ensures Idle(p.region, p.buddy.own)
  {
    var own, o := p.buddy.own, 20 - bits;
    OwnLength(p.buddy);
    MegabytePages(bits);
    assert T.Fits(own, h, p.buddy.order);
    MulMono(T.Size(o), |own|, Pow2(bits));
    FewerPages(|own|, T.Size(o), Pow2(bits));
    forall i | 0 <= i < |own| ensures own[i].free {
      assert T.In(i, h, o);
    }
  }

  lemma FewerPages(m: nat, n: nat, p: nat)
    requires p > 0 && m * p <= n * p
    ensures m <= n
  {
    if m > n {
      MulMono(n + 1, m, p);
      Distribute(n, 1, p);
    }
  }

  lemma IdleBlock(p: Parent, bits: nat)
    requires bits <= 20 && Serves(p, bits) && Idle(p.region, p.buddy.own)
    ensures 20 - bits < p.buddy.order && B.FreeHead(p.buddy.own, 0, 20 - bits)
  {
    var own, o := p.buddy.own, 20 - bits;
    OwnLength(p.buddy);
    MegabytePages(bits);
    FewerPages(|own|, T.Size(o), Pow2(bits));
    FewerPages(T.Size(o), |own|, Pow2(bits));
    if o >= p.buddy.order {
      Pow2Mono(p.buddy.order, o);
    }
    ZeroAligned(o);
    T.RunInBlock(own, 0, o, p.buddy.order);
    assert T.Fits(own, 0, p.buddy.order);
    if own[0].order > o {
      Pow2Mono(o, own[0].order);
    }
  }

  lemma ZeroAligned(o: nat)
    ensures T.Aligned(0, o)
  {
    T.MultipleAligned(0, o);
  }

  /** Made of pages, and at most a megabyte. */
  predicate Paged(r: Region, bits: nat) {
    && Proper(r) && r.start % Pow2(bits) == 0 && Length(r) % Pow2(bits) == 0
    && Length(r) <= MB && (Length(r) == MB ==> Megs(r))
  }

  /** The pieces of a range that touches a megabyte boundary. */
  lemma CutRegions(adr: int, size: int, bits: nat)
    requires 5 <= bits <= 20 && 0 <= adr && 2 * Pow2(bits) <= size < ADDRESS_MOD && adr + size <= ADDRESS_MOD
    requires Touches(CutsOf(adr, size, bits))
    ensures var c := CutsOf(adr, size, bits);
      && (c.start < c.meg ==> Paged(Region(c.start, c.meg - 1), bits))
      && (c.meg < c.megEnd ==> Megs(Region(c.meg, c.megEnd - 1)))
      && (c.megEnd < c.end ==> Paged(Region(c.megEnd, c.end - 1), bits))
  {
    hide CutsOf;
    var c, p := CutsOf(adr, size, bits), Pow2(bits);
    CutsRange(adr, size, bits);
    MultipleOfMultiple(c.meg, bits);
    MultipleOfMultiple(c.megEnd, bits);
    MultipleDifference(c.meg, c.start, p);
    MultipleDifference(c.end, c.megEnd, p);
  }

  /** The words of `mreg_region_attach` are the ends of the pieces. */
  lemma AttachPlan(adr: int, size: int, bits: nat)
    requires 5 <= bits <= 20 && 0 <= adr && 2 * Pow2(bits) <= size < ADDRESS_MOD && adr + size <= ADDRESS_MOD
    requires Touches(CutsOf(adr, size, bits))
    ensures var c, w := CutsOf(adr, size, bits), WordsOf(adr, size, bits);
      var end0, end1 := Address(w.adr0 + w.size0 - 1), Address(w.adr1 + w.size1 - 1);
      && w.adr0 == c.start <= w.adr1 == c.meg <= c.megEnd <= c.end && w.size1 == c.megEnd - c.meg && end0 == c.end - 1
      && (w.size1 != 0 ==> end1 == c.megEnd - 1 && Megs(Region(w.adr1, end1)))
      && (w.adr0 < w.adr1 ==> Paged(Region(w.adr0, w.adr1 - 1), bits))
      && (end0 != end1 && end0 >= Address(1 + end1) <==> c.megEnd < c.end)
      && (c.megEnd < c.end ==> Address(end1 + 1) == c.megEnd && Paged(Region(c.megEnd, end0), bits))
  {
    hide CutsOf, WordsOf, Address, Megs, Paged, Multiple;
    var c, w := CutsOf(adr, size, bits), WordsOf(adr, size, bits);
    PagesRight(adr, size, bits);
    MegabytesRight(adr, size, bits);
    CutsRange(adr, size, bits);
    CutRegions(adr, size, bits);
    assert w.adr0 + w.size0 - 1 == c.end - 1;
    assert w.adr1 + w.size1 - 1 == c.megEnd - 1;
    TailTest(c);
  }
}
