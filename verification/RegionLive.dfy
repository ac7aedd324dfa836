/** The memory that callers of the region allocator hold. */
module RegionLive {
  import opened Arith
  import opened RegionSpec
  import opened RegionPartition
  import opened RegionParents
  import B = BuddyAllocator
  import T = BuddyTiles

  ghost predicate LiveHead(own: seq<T.Block>, h: nat) {
    h < |own| && own[h].head == h && !own[h].free
  }

  ghost function BlockMemory(p: Parent, own: seq<T.Block>, bits: nat, h: nat): Memory
    requires h < |own|
  {
    Small(BlockRegion(p.region.start, bits, h, own[h].order), p.buddy)
  }

  /** The live blocks of the buddy allocators. */
  ghost function SmallLive(ps: seq<Parent>, owns: seq<seq<T.Block>>, bits: nat): set<Memory>
    requires |ps| == |owns|
  {
    set i: nat, h: nat | i < |ps| && h < |owns[i]| && LiveHead(owns[i], h) :: BlockMemory(ps[i], owns[i], bits, h)
  }

  lemma IsLive(ps: seq<Parent>, owns: seq<seq<T.Block>>, bits: nat, i: nat, h: nat)
    requires i < |ps| == |owns| && LiveHead(owns[i], h)
    ensures BlockMemory(ps[i], owns[i], bits, h) in SmallLive(ps, owns, bits)
  {
  }

  /** All memory in callers' hands. */
  ghost function LiveMemory(ps: seq<Parent>, owns: seq<seq<T.Block>>, bits: nat, large: set<Region>): set<Memory>
    requires |ps| == |owns|
  {
    SmallLive(ps, owns, bits) + set r | r in large :: Large(r)
  }

  ghost predicate Distinct(ps: seq<Parent>) {
    forall i, j | 0 <= i < j < |ps| :: ps[i].buddy != ps[j].buddy
  }

  lemma LargeGiven(ps: seq<Parent>, owns: seq<seq<T.Block>>, bits: nat, large: set<Region>, r: Region)
    requires |ps| == |owns|
    ensures LiveMemory(ps, owns, bits, large + {r}) == LiveMemory(ps, owns, bits, large) + {Large(r)}
  {
  }

  lemma LargeTaken(ps: seq<Parent>, owns: seq<seq<T.Block>>, bits: nat, large: set<Region>, r: Region)
    requires |ps| == |owns|
    ensures LiveMemory(ps, owns, bits, large - {r}) == LiveMemory(ps, owns, bits, large) - {Large(r)}
  {
  }

  lemma LargeIsLive(ps: seq<Parent>, owns: seq<seq<T.Block>>, bits: nat, large: set<Region>, r: Region)
    requires |ps| == |owns|
    ensures r in large <==> Large(r) in LiveMemory(ps, owns, bits, large)
  {
  }

  /** A parent whose pages are all free holds nothing live. */
  lemma LiveDrop(ps: seq<Parent>, owns: seq<seq<T.Block>>, bits: nat, i: nat)
    requires i < |ps| == |owns| && AllFree(owns[i])
    ensures SmallLive(Drop(ps, i), DropOwn(owns, i), bits) == SmallLive(ps, owns, bits)
  {
    var qs, ows := Drop(ps, i), DropOwn(owns, i);
    var l, m := SmallLive(qs, ows, bits), SmallLive(ps, owns, bits);
    forall x | x in l ensures x in m {
      var j: nat, h: nat :| j < |qs| && h < |ows[j]| && LiveHead(ows[j], h) && x == BlockMemory(qs[j], ows[j], bits, h);
      var k := if j < i then j else j + 1;
      assert qs[j] == ps[k] && ows[j] == owns[k];
    }
    forall x | x in m ensures x in l {
      var j: nat, h: nat :| j < |ps| && h < |owns[j]| && LiveHead(owns[j], h) && x == BlockMemory(ps[j], owns[j], bits, h);
      var k := if j < i then j else j - 1;
      assert qs[k] == ps[j] && ows[k] == owns[j];
    }
  }

  lemma LiveAdd(p: Parent, own: seq<T.Block>, ps: seq<Parent>, owns: seq<seq<T.Block>>, bits: nat)
    requires |ps| == |owns| && AllFree(own)
    ensures SmallLive([p] + ps, [own] + owns, bits) == SmallLive(ps, owns, bits)
  {
    LiveDrop([p] + ps, [own] + owns, bits, 0);
    assert Drop([p] + ps, 0) == ps && DropOwn([own] + owns, 0) == owns;
  }

  /** Taking a free run makes one more piece of memory live. */
  lemma LiveTaken(ps: seq<Parent>, owns: seq<seq<T.Block>>, bits: nat, k: nat, own': seq<T.Block>, h: nat, o: nat)
    requires Distinct(ps) && k < |ps| == |owns| && T.FreeRun(owns[k], h, o) && T.Taken(owns[k], own', h, o)
    ensures var mem := Small(BlockRegion(ps[k].region.start, bits, h, o), ps[k].buddy);
      mem !in SmallLive(ps, owns, bits) && SmallLive(ps, owns[k := own'], bits) == SmallLive(ps, owns, bits) + {mem}
  {
    var mem, ows := Small(BlockRegion(ps[k].region.start, bits, h, o), ps[k].buddy), owns[k := own'];
    var l, m := SmallLive(ps, owns, bits), SmallLive(ps, ows, bits);
    assert T.In(h, h, o);
    if mem in l {
      var j: nat, g: nat :| j < |ps| && g < |owns[j]| && LiveHead(owns[j], g) && mem == BlockMemory(ps[j], owns[j], bits, g);
      SamePage(ps[k].region.start, bits, g, h);
    }
    forall x | x in m ensures x in l + {mem} {
      var j: nat, g: nat :| j < |ps| && g < |ows[j]| && LiveHead(ows[j], g) && x == BlockMemory(ps[j], ows[j], bits, g);
      if j == k && T.In(g, h, o) {
        assert g == h && x == mem;
      } else {
        assert ows[j][g] == owns[j][g];
        IsLive(ps, owns, bits, j, g);
      }
    }
    forall x | x in l + {mem} ensures x in m {
      if x == mem {
        IsLive(ps, ows, bits, k, h);
      } else {
        var j: nat, g: nat :| j < |ps| && g < |owns[j]| && LiveHead(owns[j], g) && x == BlockMemory(ps[j], owns[j], bits, g);
        assert ows[j][g] == owns[j][g];
        IsLive(ps, ows, bits, j, g);
      }
    }
  }

  /** Freeing a live block makes one piece of memory less live. */
  lemma LiveFreed(ps: seq<Parent>, owns: seq<seq<T.Block>>, bits: nat, k: nat, own': seq<T.Block>, h: nat, o: nat, orders: nat)
    requires Distinct(ps) && k < |ps| == |owns| && T.Tiled(owns[k], orders)
    requires h < |owns[k]| && owns[k][h] == T.Block(h, o, false) && T.Freed(owns[k], own', h, o)
    ensures var mem := Small(BlockRegion(ps[k].region.start, bits, h, o), ps[k].buddy);
      SmallLive(ps, owns[k := own'], bits) == SmallLive(ps, owns, bits) - {mem}
  {
    var mem, ows := Small(BlockRegion(ps[k].region.start, bits, h, o), ps[k].buddy), owns[k := own'];
    var l, m := SmallLive(ps, owns, bits), SmallLive(ps, ows, bits);
    FreedHeads(owns[k], own', h, o, orders);
    hide T.Freed, T.Tiled, LiveHead;
    forall x | x in m ensures x in l - {mem} {
      var j: nat, g: nat :| j < |ps| && g < |ows[j]| && LiveHead(ows[j], g) && x == BlockMemory(ps[j], ows[j], bits, g);
      IsLive(ps, owns, bits, j, g);
      if x == mem {
        SamePage(ps[k].region.start, bits, g, h);
      }
    }
    forall x | x in l - {mem} ensures x in m {
      var j: nat, g: nat :| j < |ps| && g < |owns[j]| && LiveHead(owns[j], g) && x == BlockMemory(ps[j], owns[j], bits, g);
      IsLive(ps, ows, bits, j, g);
    }
  }

  lemma FreedHeads(own: seq<T.Block>, own': seq<T.Block>, h: nat, o: nat, orders: nat)
    requires T.Tiled(own, orders) && h < |own| && own[h] == T.Block(h, o, false) && T.Freed(own, own', h, o)
    ensures forall g: nat :: LiveHead(own', g) <==> LiveHead(own, g) && g != h
    ensures forall g: nat | LiveHead(own', g) :: own'[g] == own[g]
  {
    assert T.Fits(own, h, orders);
    forall g: nat | g < |own|
      ensures LiveHead(own', g) <==> LiveHead(own, g) && g != h
      ensures LiveHead(own', g) ==> own'[g] == own[g]
    {
      if T.In(g, h, o) {
        assert own[g] == own[h] && own'[g].free;
      }
    }
  }

  /** A granted block is new, and the only change to live memory. */
  lemma GrantedLive(ps: seq<Parent>, bits: nat, owns: seq<seq<T.Block>>, mem: Memory, k: nat, h: nat, o: nat, large: set<Region>)
    requires Buddies(ps, bits) && Granted(ps, bits, owns, mem, k, h, o)
    ensures |owns| == |ps| && mem.Small? && Length(mem.region) == Pow2(o + bits)
    ensures mem !in LiveMemory(ps, owns, bits, large)
    ensures LiveMemory(ps, Owns(ps), bits, large) == LiveMemory(ps, owns, bits, large) + {mem}
  {
    hide T.Taken, T.FreeRun, Serves;
    forall i, j | 0 <= i < j < |ps| ensures ps[i].buddy != ps[j].buddy {
      assert Separate(ps[i], ps[j]);
    }
    LiveTaken(ps, owns, bits, k, ps[k].buddy.own, h, o);
  }

  /** Live small memory is a live block of a parent. */
  lemma SmallIsBlock(ps: seq<Parent>, bits: nat, large: set<Region>, r: Region, b: B.BuddyCtxt) returns (i: nat, h: nat, o: nat)
    requires Buddies(ps, bits) && Small(r, b) in LiveMemory(ps, Owns(ps), bits, large)
    ensures i < |ps| && b == ps[i].buddy && LiveBlock(ps[i], bits, r, h, o)
    ensures T.Tiled(Owns(ps)[i], b.order) && Distinct(ps)
  {
    var owns := Owns(ps);
    assert Small(r, b) in SmallLive(ps, owns, bits);
    i, h :| i < |ps| && h < |owns[i]| && LiveHead(owns[i], h) && Small(r, b) == BlockMemory(ps[i], owns[i], bits, h);
    o := owns[i][h].order;
    assert Serves(ps[i], bits);
    forall j, k | 0 <= j < k < |ps| ensures ps[j].buddy != ps[k].buddy {
      assert Separate(ps[j], ps[k]);
    }
  }

  lemma SmallFreed(ps: seq<Parent>, owns: seq<seq<T.Block>>, bits: nat, large: set<Region>,
                   k: nat, own': seq<T.Block>, h: nat, o: nat, orders: nat)
    requires Distinct(ps) && k < |ps| == |owns| && T.Tiled(owns[k], orders)
    requires h < |owns[k]| && owns[k][h] == T.Block(h, o, false) && T.Freed(owns[k], own', h, o)
    ensures LiveMemory(ps, owns[k := own'], bits, large)
         == LiveMemory(ps, owns, bits, large) - {Small(BlockRegion(ps[k].region.start, bits, h, o), ps[k].buddy)}
  {
    LiveFreed(ps, owns, bits, k, own', h, o, orders);
    hide SmallLive;
  }

  // ----- shrinking

  /** The loop of `mreg_level2_shrink` has passed i parents without a free megabyte; nothing is lost or held anew. */
  ghost predicate Shrunk(free0: seq<Region>, ps0: seq<Parent>, owns0: seq<seq<T.Block>>,
                         free: seq<Region>, ps: seq<Parent>, owns: seq<seq<T.Block>>, bits: nat, i: nat)
  {
    && i <= |ps| == |owns| && |ps0| == |owns0| && (forall j | 0 <= j < i :: !Idle(ps[j].region, owns[j]))
    && SameUnused(free0, ps0, owns0, free, ps, owns) && SmallLive(ps, owns, bits) == SmallLive(ps0, owns0, bits)
  }

  lemma ShrunkStart(free: seq<Region>, ps: seq<Parent>, owns: seq<seq<T.Block>>, bits: nat)
    requires |ps| == |owns|
    ensures Shrunk(free, ps, owns, free, ps, owns, bits, 0)
  {
  }

  lemma ShrunkKeep(free0: seq<Region>, ps0: seq<Parent>, owns0: seq<seq<T.Block>>,
                   free: seq<Region>, ps: seq<Parent>, owns: seq<seq<T.Block>>, bits: nat, i: nat)
    requires Shrunk(free0, ps0, owns0, free, ps, owns, bits, i) && i < |ps| && !Idle(ps[i].region, owns[i])
    ensures Shrunk(free0, ps0, owns0, free, ps, owns, bits, i + 1)
  {
    hide SameUnused, Idle, SmallLive;
  }

  lemma ShrunkDrop(free0: seq<Region>, ps0: seq<Parent>, owns0: seq<seq<T.Block>>,
                   free: seq<Region>, ps: seq<Parent>, owns: seq<seq<T.Block>>, bits: nat, i: nat, free': seq<Region>)
    requires Shrunk(free0, ps0, owns0, free, ps, owns, bits, i) && i < |ps| && Idle(ps[i].region, owns[i])
    requires Gained(free, free', ps[i].region)
    ensures Shrunk(free0, ps0, owns0, free', Drop(ps, i), DropOwn(owns, i), bits, i)
  {
    IdleLive(ps, owns, bits, i);
    SameUnusedDrop(free0, ps0, owns0, free, ps, owns, i, free');
    hide SameUnused, Idle, SmallLive;
  }

  /** In the end the free list has all unused addresses. */
  lemma ShrunkEnd(free0: seq<Region>, ps0: seq<Parent>, owns0: seq<seq<T.Block>>,
                  free: seq<Region>, ps: seq<Parent>, owns: seq<seq<T.Block>>, bits: nat)
    requires Shrunk(free0, ps0, owns0, free, ps, owns, bits, |ps|)
    ensures SmallLive(ps, owns, bits) == SmallLive(ps0, owns0, bits) && |ps| == |owns| && |ps0| == |owns0|
    ensures forall a :: Covers(free, a) <==> UnusedIn(free0, ps0, owns0, a)
  {
    NoneUnused(free0, ps0, owns0, free, ps, owns);
  }

  lemma IdleLive(ps: seq<Parent>, owns: seq<seq<T.Block>>, bits: nat, i: nat)
    requires i < |ps| == |owns| && Idle(ps[i].region, owns[i])
    ensures SmallLive(Drop(ps, i), DropOwn(owns, i), bits) == SmallLive(ps, owns, bits)
  {
    LiveDrop(ps, owns, bits, i);
  }

  lemma SamePage(start: int, bits: nat, g: nat, h: nat)
    requires start + g * Pow2(bits) == start + h * Pow2(bits)
    ensures g == h
  {
    FewerPages(g, h, Pow2(bits));
    FewerPages(h, g, Pow2(bits));
  }

  // ----- addresses

  predicate Holds(mem: Memory, a: int) {
    !mem.Null? && In(mem.region, a)
  }

  ghost predicate Held(live: set<Memory>, a: int) {
    exists mem :: mem in live && Holds(mem, a)
  }

  /** The page of an address. */
  function PageAt(p: Parent, bits: nat, a: int): int {
    (a - p.region.start) / Pow2(bits)
  }

  ghost predicate PageFree(p: Parent, own: seq<T.Block>, bits: nat, a: int) {
    In(p.region, a) && 0 <= PageAt(p, bits, a) < |own| && own[PageAt(p, bits, a)].free
  }

  /** Free at level 1, or in a free page of a buddy allocator. */
  ghost predicate FreeAddress(free: seq<Region>, ps: seq<Parent>, owns: seq<seq<T.Block>>, bits: nat, a: int)
    requires |ps| == |owns|
  {
    Covers(free, a) || AnyPageFree(ps, owns, bits, a)
  }

  /** The tiling of a parent has as many pages as its region. */
  ghost predicate Tiles(p: Parent, own: seq<T.Block>, bits: nat) {
    |own| * Pow2(bits) == Length(p.region) && exists orders: nat :: T.Tiled(own, orders)
  }

  lemma PageBounds(d: int, size: int, x: int, y: int)
    requires size > 0
    ensures x * size <= d < y * size <==> x <= d / size < y
  {
    var q := d / size;
    assert d == q * size + d % size;
    if x <= q { MulMono(x, q, size); } else { MulMono(q + 1, x, size); Distribute(q, 1, size); }
    if q < y { MulMono(q + 1, y, size); Distribute(q, 1, size); } else { MulMono(y, q, size); }
  }

  /** Addresses of a block are those of its pages. */
  lemma BlockAddress(p: Parent, own: seq<T.Block>, bits: nat, h: nat, o: nat, a: int)
    requires |own| * Pow2(bits) == Length(p.region) && h + T.Size(o) <= |own|
    ensures In(BlockRegion(p.region.start, bits, h, o), a) <==> T.In(PageAt(p, bits, a), h, o)
    ensures In(BlockRegion(p.region.start, bits, h, o), a) ==> In(p.region, a)
  {
    var d, size := a - p.region.start, Pow2(bits);
    Pow2Add(o, bits);
    Distribute(h, T.Size(o), size);
    PageBounds(d, size, h, h + T.Size(o));
    PageBounds(d, size, 0, |own|);
  }

  /** mem is the live block around the page of the address. */
  ghost predicate BlockAt(p: Parent, own: seq<T.Block>, bits: nat, mem: Memory, a: int) {
    && In(p.region, a) && 0 <= PageAt(p, bits, a) < |own|
    && var b := own[PageAt(p, bits, a)];
       !b.free && mem == Small(BlockRegion(p.region.start, bits, b.head, b.order), p.buddy)
  }

  lemma HolderIsBlock(ps: seq<Parent>, owns: seq<seq<T.Block>>, bits: nat, mem: Memory, a: int)
    requires |ps| == |owns| && forall i | 0 <= i < |ps| :: Tiles(ps[i], owns[i], bits)
    ensures mem in SmallLive(ps, owns, bits) && Holds(mem, a)
            <==> exists i: nat :: i < |ps| && BlockAt(ps[i], owns[i], bits, mem, a)
  {
    if mem in SmallLive(ps, owns, bits) && Holds(mem, a) {
      var i: nat, h: nat :| i < |ps| && h < |owns[i]| && LiveHead(owns[i], h) && mem == BlockMemory(ps[i], owns[i], bits, h);
      assert Tiles(ps[i], owns[i], bits);
      var orders: nat :| T.Tiled(owns[i], orders);
      assert T.Fits(owns[i], h, orders);
      BlockAddress(ps[i], owns[i], bits, h, owns[i][h].order, a);
      assert owns[i][PageAt(ps[i], bits, a)] == owns[i][h];
      assert BlockAt(ps[i], owns[i], bits, mem, a);
    }
    if i: nat :| i < |ps| && BlockAt(ps[i], owns[i], bits, mem, a) {
      assert Tiles(ps[i], owns[i], bits);
      var orders: nat :| T.Tiled(owns[i], orders);
      var q := PageAt(ps[i], bits, a);
      assert T.Fits(owns[i], q, orders);
      var b := owns[i][q];
      BlockAddress(ps[i], owns[i], bits, b.head, b.order, a);
      assert T.In(b.head, b.head, b.order) && owns[i][b.head] == b;
      IsLive(ps, owns, bits, i, b.head);
    }
  }

  lemma OneParent(ps: seq<Parent>, i: nat, j: nat, a: int)
    requires ListDisjoint(Spans(ps)) && i < |ps| && j < |ps| && In(ps[i].region, a) && In(ps[j].region, a)
    ensures i == j
  {
    var spans := Spans(ps);
    assert In(spans[i], a) && In(spans[j], a);
  }

  /** Pieces of live memory never overlap. */
  lemma LiveDisjoint(attached: iset<int>, free: seq<Region>, ps: seq<Parent>, owns: seq<seq<T.Block>>, bits: nat,
                     large: set<Region>, m: Memory, n: Memory, a: int)
    requires |ps| == |owns| && (forall i | 0 <= i < |ps| :: Tiles(ps[i], owns[i], bits)) && Partition(attached, free, Spans(ps), large)
    requires m in LiveMemory(ps, owns, bits, large) && n in LiveMemory(ps, owns, bits, large) && Holds(m, a) && Holds(n, a)
    ensures m == n
  {
    HolderKind(ps, owns, bits, large, m, a);
    HolderKind(ps, owns, bits, large, n, a);
    if m.Small? && n.Small? {
      HolderIsBlock(ps, owns, bits, m, a);
      HolderIsBlock(ps, owns, bits, n, a);
      var i: nat :| i < |ps| && BlockAt(ps[i], owns[i], bits, m, a);
      var j: nat :| j < |ps| && BlockAt(ps[j], owns[j], bits, n, a);
      OneParent(ps, i, j, a);
    }
  }

  lemma HolderKind(ps: seq<Parent>, owns: seq<seq<T.Block>>, bits: nat, large: set<Region>, m: Memory, a: int)
    requires |ps| == |owns| && (forall i | 0 <= i < |ps| :: Tiles(ps[i], owns[i], bits))
    requires m in LiveMemory(ps, owns, bits, large) && Holds(m, a)
    ensures if m.Small? then Covers(Spans(ps), a) else m.region in large && InSome(large, a)
  {
    HolderIsBlock(ps, owns, bits, m, a);
    if m.Small? {
      var i: nat :| i < |ps| && BlockAt(ps[i], owns[i], bits, m, a);
      assert In(Spans(ps)[i], a);
    }
  }

  /** Without live memory all pages are free. */
  lemma NoneLive(ps: seq<Parent>, owns: seq<seq<T.Block>>, bits: nat, i: nat)
    requires i < |ps| == |owns| && Tiles(ps[i], owns[i], bits) && SmallLive(ps, owns, bits) == {}
    ensures AllFree(owns[i])
  {
    var own := owns[i];
    var orders: nat :| T.Tiled(own, orders);
    forall p | 0 <= p < |own| ensures own[p].free {
      assert T.Fits(own, p, orders);
      if !own[p].free {
        IsLive(ps, owns, bits, i, own[p].head);
      }
    }
  }

  /** Every attached address is either free or held, never both, and no other address is either. */
  lemma FreeOrHeld(attached: iset<int>, free: seq<Region>, ps: seq<Parent>, owns: seq<seq<T.Block>>, bits: nat, large: set<Region>, a: int)
    requires |ps| == |owns| && (forall i | 0 <= i < |ps| :: Tiles(ps[i], owns[i], bits)) && Partition(attached, free, Spans(ps), large)
    ensures var live := LiveMemory(ps, owns, bits, large);
      && (a in attached <==> FreeAddress(free, ps, owns, bits, a) || Held(live, a))
      && !(FreeAddress(free, ps, owns, bits, a) && Held(live, a))
  {
    var live := LiveMemory(ps, owns, bits, large);
    PageFreeOrHeld(ps, owns, bits, a);
    if mem :| mem in live && Holds(mem, a) {
      HolderKind(ps, owns, bits, large, mem, a);
      if mem.Small? {
        assert Held(SmallLive(ps, owns, bits), a);
      }
    }
    if mem :| mem in SmallLive(ps, owns, bits) && Holds(mem, a) {
      assert mem in live;
    }
    if r :| r in large && In(r, a) {
      assert Holds(Large(r), a);
      LargeIsLive(ps, owns, bits, large, r);
    }
  }

  ghost predicate AnyPageFree(ps: seq<Parent>, owns: seq<seq<T.Block>>, bits: nat, a: int)
    requires |ps| == |owns|
  {
    exists i: nat :: i < |ps| && PageFree(ps[i], owns[i], bits, a)
  }

  /** Inside the memory of the buddy allocators. */
  lemma PageFreeOrHeld(ps: seq<Parent>, owns: seq<seq<T.Block>>, bits: nat, a: int)
    requires |ps| == |owns| && (forall i | 0 <= i < |ps| :: Tiles(ps[i], owns[i], bits)) && ListDisjoint(Spans(ps))
    ensures Covers(Spans(ps), a) <==> AnyPageFree(ps, owns, bits, a) || Held(SmallLive(ps, owns, bits), a)
    ensures !(AnyPageFree(ps, owns, bits, a) && Held(SmallLive(ps, owns, bits), a))
  {
    var spans, live := Spans(ps), SmallLive(ps, owns, bits);
    hide SmallLive, BlockRegion;
    if i: nat :| i < |ps| && PageFree(ps[i], owns[i], bits, a) {
      assert In(spans[i], a) && Covers(spans, a);
    }
    if mem :| mem in live && Holds(mem, a) {
      HolderIsBlock(ps, owns, bits, mem, a);
      var i: nat :| i < |ps| && BlockAt(ps[i], owns[i], bits, mem, a);
      assert In(spans[i], a) && Covers(spans, a);
      if j: nat :| j < |ps| && PageFree(ps[j], owns[j], bits, a) {
        OneParent(ps, i, j, a);
      }
    }
    if i: nat :| i < |spans| && In(spans[i], a) {
      assert Tiles(ps[i], owns[i], bits);
      PageBounds(a - ps[i].region.start, Pow2(bits), 0, |owns[i]|);
      var b := owns[i][PageAt(ps[i], bits, a)];
      if b.free {
        assert PageFree(ps[i], owns[i], bits, a);
      } else {
        var mem := Small(BlockRegion(ps[i].region.start, bits, b.head, b.order), ps[i].buddy);
        assert BlockAt(ps[i], owns[i], bits, mem, a);
        HolderIsBlock(ps, owns, bits, mem, a);
      }
    }
  }
}
