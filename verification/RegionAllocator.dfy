/** The two-level region allocator: whole megabytes, and buddy allocators on single megabytes and on the edges. */
module RegionAllocator {
  import opened Arith
  import opened RegionSpec
  import opened RegionPartition
  import opened RegionParents
  import opened RegionLive
  import opened RegionAlign
  import L = RegionLevel1
  import B = BuddyAllocator
  import T = BuddyTiles
  import W = BuddyLists

  class Mreg {
    const level1: L.Level1
    const pageBits: nat
    var parents: seq<Parent>
    ghost var large: set<Region>
    ghost var attached: iset<int>

    ghost predicate Valid()
      reads this, level1, (set p | p in parents :: p.buddy), (set p | p in parents :: p.buddy.all), (set p | p in parents :: p.buddy.free)
    {
      && 5 <= pageBits <= 20
      && Buddies(parents, pageBits)
      && Spaced(level1.freeMegs) && (forall r | r in large :: Megs(r))
      && Partition(attached, level1.freeMegs, Spans(parents), large)
    }

    /** `mreg_create`; page sizes below 32 bytes are refused later by every buddy allocator. */
    constructor (bits: nat)
      requires 5 <= bits <= 20
      ensures Valid() && fresh(level1) && parents == [] && large == {} && attached == iset{} && pageBits == bits
      ensures Live() == {}
    {
      pageBits := bits;
      level1 := new L.Level1();
      parents := [];
      large, attached := {}, iset{};
    }

    /** `memregion_attach_buddy` */
    method AttachBuddy(r: Region)
      requires 5 <= pageBits <= 20 && Buddies(parents, pageBits) && Paged(r, pageBits)
      modifies this`parents
      ensures Buddies(parents, pageBits) && |parents| == |old(parents)| + 1 && parents[1..] == old(parents)
      ensures parents[0].region == r && AllFree(parents[0].buddy.own)
      ensures fresh(parents[0].buddy) && fresh(parents[0].buddy.all) && fresh(parents[0].buddy.free)
    {
      hide Serves, AllFree;
      var p := NewParent(r, pageBits);
      ghost var ps := parents;
      parents := [p] + parents;
      forall i | 0 <= i < |parents| ensures Serves(parents[i], pageBits) {
        if i > 0 {
          assert parents[i] == ps[i - 1];
        }
      }
      forall i, j | 0 <= i < j < |parents| ensures Separate(parents[i], parents[j]) {
        if i > 0 {
          assert Separate(ps[i - 1], ps[j - 1]);
        }
      }
    }

    /** `memregion_deattach_buddy` and `mreg_level1_free`, on a megabyte with nothing live. */
    method Dissolve(i: nat)
      requires Valid() && i < |parents| && Length(parents[i].region) == MB
      modifies this`parents, level1
      ensures Valid() && parents == Drop(old(parents), i)
      ensures Gained(old(level1.freeMegs), level1.freeMegs, old(parents[i].region))
      ensures Owns(parents) == DropOwn(old(Owns(parents)), i)
    {
      var r := parents[i].region;
      DropBuddies(parents, i, pageBits);
      SpansDrop(parents, i);
      ghost var spans, free := Spans(parents), level1.freeMegs;
      assert spans[i] == r && Megs(r);
      SpanIsOutside(attached, free, spans, large, i);
      OwnsDrop(parents, i);
      hide Partition, Buddies, Serves, Covers, Spaced, In, Megs, L.OneEnd, Drop, Disjoint, Owns, DropOwn;
      parents := Drop(parents, i);
      assert Buddies(parents, pageBits);
      level1.Free(r);
      assert Buddies(parents, pageBits);
      FromBuddies(attached, free, spans, large, level1.freeMegs, i);
    }

    /** `mreg_level2_shrink`: give megabytes with nothing live back to level 1. */
    method Level2Shrink()
      requires Valid()
      modifies this`parents, level1
      ensures Valid()
      ensures forall a :: Covers(level1.freeMegs, a) <==> UnusedIn(old(level1.freeMegs), old(parents), old(Owns(parents)), a)
      ensures Live() == old(Live())
      ensures forall p | p in parents :: p in old(parents)
    {
      ghost var ps0, owns0, free0 := parents, Owns(parents), level1.freeMegs;
      hide Valid, Idle, Owns, Gained, SmallLive, Shrunk, Drop, DropOwn, Covers;
      ShrunkStart(free0, ps0, owns0, pageBits);
      var i := 0;
      while i < |parents|
        invariant forall p | p in parents :: p in ps0
        invariant 0 <= i <= |parents| && Valid() && Shrunk(free0, ps0, owns0, level1.freeMegs, parents, Owns(parents), pageBits, i)
        decreases |parents| - i
      {
        var idle := IsIdle(i);
        ghost var ps, owns, free := parents, Owns(parents), level1.freeMegs;
        if idle {
          Dissolve(i);
          ShrunkDrop(free0, ps0, owns0, free, ps, owns, pageBits, i, level1.freeMegs);
        } else {
          ShrunkKeep(free0, ps0, owns0, free, ps, owns, pageBits, i);
          i := i + 1;
        }
      }
      ShrunkEnd(free0, ps0, owns0, level1.freeMegs, parents, Owns(parents), pageBits);
    }

    /** `buddy_contains_order` for blocks of a megabyte. */
    method IsIdle(i: nat) returns (idle: bool)
      requires Valid() && i < |parents|
      ensures Valid() && Owns(parents) == old(Owns(parents)) && (idle <==> Idle(parents[i].region, Owns(parents)[i]))
      ensures idle ==> Length(parents[i].region) == MB
    {
      var p := parents[i];
      assert Serves(p, pageBits);
      hide Partition, Buddies;
      idle := p.buddy.ContainsOrder(20 - pageBits, false);
      if idle {
        ghost var q: nat, h: nat :| q == 20 - pageBits && B.FreeHead(p.buddy.own, h, q);
        MegabyteBlock(p, pageBits, h);
      } else if Idle(p.region, p.buddy.own) {
        IdleBlock(p, pageBits);
      }
    }

    /** `memregion_attach_buddy` on memory that is not at level 1 (any more). */
    method GiveToBuddy(r: Region)
      requires 5 <= pageBits <= 20 && Buddies(parents, pageBits) && Paged(r, pageBits)
      requires Spaced(level1.freeMegs) && forall s | s in large :: Megs(s)
      requires Partition(attached, level1.freeMegs, [r] + Spans(parents), large)
      modifies this`parents
      ensures Valid() && Live() == old(Live())
      ensures Added(old(parents), old(Owns(parents)), parents, Owns(parents), r)
      ensures forall p | p in parents :: p in old(parents) || (fresh(p.buddy) && fresh(p.buddy.all) && fresh(p.buddy.free))
    {
      hide Partition, Serves, Separate, Covers, Spaced, In, Megs, Paged, AllFree, B.BuddyCtxt.Valid, SmallLive, Buddies;
      ghost var before, owns := parents, Owns(parents);
      AttachBuddy(r);
      assert parents == [parents[0]] + before;
      assert Owns(before) == owns;
      SpansAdd(parents[0], before);
      LiveAdd(parents[0], parents[0].buddy.own, before, owns, pageBits);
      OwnsAdd(parents[0], before);
    }

    /** `mreg_level2_expand`: give a free megabyte to a new buddy allocator. */
    method Level2Expand()
      requires Valid()
      modifies this`parents, level1
      ensures Valid() && Live() == old(Live())
      ensures old(level1.freeMegs) == [] ==> parents == old(parents) && level1.freeMegs == [] && Owns(parents) == old(Owns(parents))
      ensures old(level1.freeMegs) != [] ==> exists r :: Length(r) == MB && L.BestStart(old(level1.freeMegs), MB, r.start) && Added(old(parents), old(Owns(parents)), parents, Owns(parents), r)
      ensures forall p | p in parents :: p in old(parents) || (fresh(p.buddy) && fresh(p.buddy.all) && fresh(p.buddy.free))
    {
      hide Partition, Buddies, L.FreeRun, L.BestStart, SmallLive, Added, Owns, Paged;
      ghost var free := level1.freeMegs;
      AnyMegabyte(free);
      var ok, r := level1.Allocate(1);
      if ok {
        MegabytePaged(r, pageBits);
        ToBuddies(attached, free, Spans(parents), large, level1.freeMegs, r);
        GiveToBuddy(r);
      }
    }

    /** `mreg_level2_allocate` on the parents. */
    method AllocLevel2(size: nat) returns (mem: Memory, ghost o: nat)
      requires Valid() && size <= MB
      modifies (set p | p in parents :: p.buddy)`own, (set p | p in parents :: p.buddy)`lists
      modifies (set p | p in parents :: p.buddy.all), (set p | p in parents :: p.buddy.free)
      ensures Valid()
      ensures parents != [] ==> OrderFor(size, pageBits, o)
      ensures mem.Null? <==> forall i | 0 <= i < |parents| :: !HasRun(old(Owns(parents))[i], o)
      ensures mem.Null? ==> Owns(parents) == old(Owns(parents)) && Live() == old(Live())
      ensures !mem.Null? ==> mem.Small? && Length(mem.region) == Pow2(o + pageBits)
      ensures !mem.Null? ==> mem !in old(Live()) && Live() == old(Live()) + {mem}
    {
      hide Valid, HasRun, Granted, Owns, OrderFor, Buddies, LiveMemory;
      Parts();
      ghost var owns, k, h := Owns(parents), 0, 0;
      mem, k, h, o := Level2Allocate(parents, pageBits, size);
      Whole();
      if !mem.Null? {
        GrantedLive(parents, pageBits, owns, mem, k, h, o, large);
      }
    }

    /** All memory in callers' hands. */
    ghost function Live(): set<Memory>
      reads this, set p | p in parents :: p.buddy
    {
      LiveMemory(parents, Owns(parents), pageBits, large)
    }

    /** `mreg_alloc` below a megabyte. */
    method AllocSmall(size: nat) returns (mem: Memory, ghost o: nat)
      requires Valid() && size <= MB
      modifies this`parents, level1
      modifies (set p | p in parents :: p.buddy)`own, (set p | p in parents :: p.buddy)`lists
      modifies (set p | p in parents :: p.buddy.all), (set p | p in parents :: p.buddy.free)
      ensures Valid()
      ensures OrderFor(size, pageBits, o)
      ensures mem.Null? <==> old(level1.freeMegs) == [] && forall i | 0 <= i < |old(parents)| :: !HasRun(old(Owns(parents))[i], o)
      ensures mem.Null? ==> Live() == old(Live())
      ensures !mem.Null? ==> mem.Small? && Length(mem.region) == Pow2(o + pageBits)
      ensures !mem.Null? ==> mem !in old(Live()) && Live() == old(Live()) + {mem}
      ensures (exists i :: 0 <= i < |old(parents)| && HasRun(old(Owns(parents))[i], o))
              ==> parents == old(parents) && level1.freeMegs == old(level1.freeMegs)
    {
      hide Valid, HasRun, Owns, OrderFor, LiveMemory, Added;
      mem, o := AllocLevel2(size);
      ghost var o0 := OrderExists(size, pageBits);
      if parents != [] {
        OrderUnique(size, pageBits, o, o0);
      }
      if mem.Null? {
        ghost var ps, owns := parents, Owns(parents);
        Level2Expand();
        AddedHasRun(ps, owns, size, o0);
        mem, o := AllocLevel2(size);
        if parents != [] {
          OrderUnique(size, pageBits, o, o0);
        }
      }
      o := o0;
    }

    lemma AddedHasRun(ps: seq<Parent>, owns: seq<seq<T.Block>>, size: nat, o: nat)
      requires Valid() && size <= MB && OrderFor(size, pageBits, o)
      ensures forall r | Length(r) == MB && Added(ps, owns, parents, Owns(parents), r) :: parents != [] && HasRun(Owns(parents)[0], o)
    {
      forall r | Length(r) == MB && Added(ps, owns, parents, Owns(parents), r) ensures HasRun(Owns(parents)[0], o) {
        assert Serves(parents[0], pageBits);
        OwnLength(parents[0].buddy);
        OrderSmall(size, pageBits, o);
        IdleRun(Owns(parents)[0], pageBits, o);
      }
    }

    /** `mreg_level1_allocate` for a caller. */
    method AllocLevel1(count: nat) returns (mem: Memory)
      requires Valid() && 0 < count && count * MB < ADDRESS_MOD
      modifies this`large, level1
      ensures Valid()
      ensures mem.Null? <==> !exists first :: L.FreeRun(old(level1.freeMegs), first, count * MB)
      ensures mem.Null? ==> level1.freeMegs == old(level1.freeMegs) && large == old(large) && Live() == old(Live())
      ensures !mem.Null? ==> mem.Large? && Length(mem.region) == count * MB && L.BestStart(old(level1.freeMegs), count * MB, mem.region.start)
      ensures !mem.Null? ==> mem !in old(Live()) && Live() == old(Live()) + {mem}
    {
      hide L.FreeRun, L.BestStart, Buddies, Owns, Covers;
      ghost var free := level1.freeMegs;
      var ok, r := level1.Allocate(count);
      mem := Null;
      if ok {
        mem := Large(r);
        GiveOut(attached, free, Spans(parents), large, level1.freeMegs, r);
        NewLarge(attached, free, Spans(parents), large, level1.freeMegs, r);
        LargeGiven(parents, Owns(parents), pageBits, large, r);
        LargeIsLive(parents, Owns(parents), pageBits, large, r);
        large := large + {r};
      }
    }

    /** `mreg_alloc` from a megabyte upwards. */
    method AllocLarge(count: nat) returns (mem: Memory)
      requires Valid() && 0 < count && count * MB < ADDRESS_MOD
      modifies this`parents, this`large, level1
      ensures Valid()
      ensures mem.Null? <==> !exists first :: UnusedRun(old(level1.freeMegs), old(parents), old(Owns(parents)), first, count * MB)
      ensures mem.Null? ==> Live() == old(Live())
      ensures !mem.Null? ==> mem.Large? && Length(mem.region) == count * MB
      ensures !mem.Null? ==> mem !in old(Live()) && Live() == old(Live()) + {mem}
      ensures forall p | p in parents :: p in old(parents)
      ensures (exists first :: L.FreeRun(old(level1.freeMegs), first, count * MB)) ==> parents == old(parents)
    {
      hide Valid, L.FreeRun, UnusedRun, LiveMemory, Owns;
      ghost var free, ps, owns := level1.freeMegs, parents, Owns(parents);
      mem := AllocLevel1(count);
      FreeIsUnused(free, ps, owns, count * MB);
      if mem.Null? {
        Level2Shrink();
        SameRuns(free, ps, owns, level1.freeMegs, count * MB);
        mem := AllocLevel1(count);
      }
    }

    /** Neither a megabyte nor a block for the rounded size can be had. */
    ghost predicate NoRoomFor(size: W.Word32)
      reads this, level1, set p | p in parents :: p.buddy
    {
      NoRoom(level1.freeMegs, parents, Owns(parents), pageBits, Rounded(size, pageBits))
    }

    /** A region of the rounded size, or a block of the smallest order that holds it. */
    ghost predicate Exactly(mem: Memory, size: W.Word32)
      requires !mem.Null?
    {
      var n := Rounded(size, pageBits);
      if n >= MB then mem.Large? && Length(mem.region) == n
      else mem.Small? && 0 <= n && exists o: nat :: OrderFor(n, pageBits, o) && Length(mem.region) == Pow2(o + pageBits)
    }

    /** A small request that some buddy allocator can serve. */
    ghost predicate RoomInBuddies(size: W.Word32)
      reads this, level1, set p | p in parents :: p.buddy
    {
      var n := Rounded(size, pageBits);
      0 <= n < MB && exists i, o: nat :: 0 <= i < |parents| && OrderFor(n, pageBits, o) && HasRun(Owns(parents)[i], o)
    }

    /** A large request that the free megabytes can serve. */
    ghost predicate RoomInMegabytes(size: W.Word32)
      reads this, level1, set p | p in parents :: p.buddy
    {
      var n := Rounded(size, pageBits);
      n >= MB && exists first :: L.FreeRun(level1.freeMegs, first, n)
    }

    /**
     * `mreg_alloc`.  Sizes that round to no megabytes at all are excluded; those within a page of the end of the
     * address space round to no bytes, and get the smallest block.
     */
    method Alloc(size: W.Word32) returns (mem: Memory)
      requires Valid() && (size <= ADDRESS_MOD - MB || size > ADDRESS_MOD - Pow2(pageBits))
      modifies this`parents, this`large, level1
      modifies (set p | p in parents :: p.buddy)`own, (set p | p in parents :: p.buddy)`lists
      modifies (set p | p in parents :: p.buddy.all), (set p | p in parents :: p.buddy.free)
      ensures Valid()
      ensures mem.Null? ==> Live() == old(Live())
      ensures !mem.Null? ==> mem !in old(Live()) && Live() == old(Live()) + {mem}
      ensures !mem.Null? ==> (Length(mem.region) >= size <==> size <= ADDRESS_MOD - MB)
      ensures !mem.Null? ==> Exactly(mem, size)
      ensures mem.Null? <==> size == 0 || old(NoRoomFor(size))
      ensures size > 0 && old(RoomInBuddies(size)) ==> parents == old(parents) && level1.freeMegs == old(level1.freeMegs)
      ensures size > 0 && old(RoomInMegabytes(size)) ==> parents == old(parents)
    {
      hide Valid, HasRun, Owns, LiveMemory, UnusedRun, Rounded, RoundUp, AlignUp, OrderFor;
      mem := Null;
      if size > 0 {
        Parts();
        RoundedCases(size, pageBits);
        var aligned := AlignUp(size, Pow2(pageBits));
        if aligned >= MB {
          aligned := AlignUp(aligned, MB);
          mem := AllocLarge(aligned / MB);
        } else {
          ghost var o;
          mem, o := AllocSmall(aligned);
          OrderDecides(aligned, pageBits, o);
          BlockHolds(size, aligned, pageBits, o);
        }
      }
    }

    /** `mreg_level2_allocate_at` on the parents. */
    method AllocAtLevel2(at: W.Word32, size: nat) returns (mem: Memory, ghost o: nat)
      requires Valid() && size <= MB
      modifies (set p | p in parents :: p.buddy)`own, (set p | p in parents :: p.buddy)`lists
      modifies (set p | p in parents :: p.buddy.all), (set p | p in parents :: p.buddy.free)
      ensures Valid()
      ensures parents != [] ==> OrderFor(size, pageBits, o)
      ensures mem.Null? <==> NoRunAt(parents, old(Owns(parents)), pageBits, at, o)
      ensures mem.Null? ==> Owns(parents) == old(Owns(parents)) && Live() == old(Live())
      ensures !mem.Null? ==> mem.Small? && Length(mem.region) >= size && mem.region.start == at
      ensures !mem.Null? ==> mem !in old(Live()) && Live() == old(Live()) + {mem}
    {
      hide Valid, HasRunAt, Granted, Owns, OrderFor, Buddies, LiveMemory;
      Parts();
      ghost var owns, k, h := Owns(parents), 0, 0;
      mem, k, h, o := Level2AllocateAt(parents, pageBits, at, size);
      Whole();
      if !mem.Null? {
        GrantedLive(parents, pageBits, owns, mem, k, h, o, large);
        OrderHolds(size, pageBits, o);
      }
    }

    /** The middle of `mreg_alloc_at`: move the megabyte at an address from level 1 to level 2. */
    method MoveMegabyte(adr: W.Word32) returns (ok: bool)
      requires Valid() && adr + MB <= ADDRESS_MOD
      modifies this`parents, level1
      ensures Valid() && Live() == old(Live())
      ensures ok <==> adr % MB == 0 && L.FreeRun(old(level1.freeMegs), adr, MB)
      ensures !ok ==> parents == old(parents) && Owns(parents) == old(Owns(parents))
      ensures ok ==> Added(old(parents), old(Owns(parents)), parents, Owns(parents), Region(adr, adr + MB - 1))
      ensures forall p | p in parents :: p in old(parents) || (fresh(p.buddy) && fresh(p.buddy.all) && fresh(p.buddy.free))
    {
      hide Buddies, Covers, L.FreeRun, Owns, Added, Paged;
      ghost var free := level1.freeMegs;
      var r;
      ok, r := level1.AllocateAt(adr, 1);
      if ok {
        MegabytePaged(r, pageBits);
        ToBuddies(attached, free, Spans(parents), large, level1.freeMegs, r);
        GiveToBuddy(r);
      }
    }

    /** `mreg_alloc_at` when the pages lie in one megabyte: from level 2, or from the megabyte if that is free. */
    method AllocInMegabyte(at: W.Word32, size: nat, meg: W.Word32) returns (mem: Memory, ghost o: nat)
      requires Valid() && size <= MB && meg + MB <= ADDRESS_MOD && meg % MB == 0
      requires meg <= at < meg + MB && (at - meg) % Pow2(pageBits) == 0
      modifies this`parents, level1
      modifies (set p | p in parents :: p.buddy)`own, (set p | p in parents :: p.buddy)`lists
      modifies (set p | p in parents :: p.buddy.all), (set p | p in parents :: p.buddy.free)
      ensures Valid()
      ensures OrderFor(size, pageBits, o)
      ensures mem.Null? ==> Live() == old(Live())
      ensures !mem.Null? ==> mem !in old(Live()) && Live() == old(Live()) + {mem}
      ensures !mem.Null? ==> mem.Small? && mem.region.start == at && Length(mem.region) >= size
      ensures mem.Null? <==> old(Blocked(at, meg, o))
    {
      hide Valid, HasRunAt, Owns, LiveMemory, OrderFor, Added, L.FreeRun, NoRunAt;
      ghost var ps, owns := parents, Owns(parents);
      ghost var o0 := OrderExists(size, pageBits);
      OrderDecides(size, pageBits, o0);
      Parts();
      OrderHolds(size, pageBits, o0);
      mem, o := AllocAtLevel2(at, size);
      if parents == [] {
        NoParentRun(at, o, o0);
      }
      if mem.Null? {
        var ok := MoveMegabyte(meg);
        if ok {
          AddedRunAt(ps, owns, meg, at, o0);
          AddedSome(ps, owns, parents, Owns(parents), Region(meg, meg + MB - 1));
          mem, o := AllocAtLevel2(at, size);
        }
      }
      o := o0;
    }

    /** No aligned run of free pages of the order is at the address, nor would be in a free megabyte around it. */
    ghost predicate Blocked(at: int, meg: int, o: nat)
      reads this, level1, set p | p in parents :: p.buddy
    {
      && NoRunAt(parents, Owns(parents), pageBits, at, o)
      && !(L.FreeRun(level1.freeMegs, meg, MB) && (at - meg) % Pow2(o + pageBits) == 0)
    }

    lemma NoParentRun(at: int, o: nat, n: nat)
      requires parents == []
      ensures NoRunAt(parents, Owns(parents), pageBits, at, o) && NoRunAt(parents, Owns(parents), pageBits, at, n)
    {
    }

    /** `mreg_alloc_at`: one aligned block that has the pages of the range. */
    method AllocAt(adr: W.Word32, size: W.Word32) returns (mem: Memory)
      requires Valid() && size + adr - AlignDown(adr, Pow2(pageBits)) <= ADDRESS_MOD - MB
      modifies this`parents, level1
      modifies (set p | p in parents :: p.buddy)`own, (set p | p in parents :: p.buddy)`lists
      modifies (set p | p in parents :: p.buddy.all), (set p | p in parents :: p.buddy.free)
      ensures Valid()
      ensures mem.Null? ==> Live() == old(Live())
      ensures !mem.Null? ==> mem !in old(Live()) && Live() == old(Live()) + {mem}
      ensures !mem.Null? ==> mem.region.start <= adr && adr + size - 1 <= mem.region.end
      ensures mem.Null? <==> old(NoRoomAt(adr, size))
    {
      hide Valid, Owns, LiveMemory, OrderFor, AlignDown, AlignUp, Blocked, WindowOf;
      Parts();
      WindowIs(adr, size, pageBits);
      var page := Pow2(pageBits);
      var adr0 := AlignDown(adr, page);
      var size0 := AlignUp((size + adr - adr0) % ADDRESS_MOD, page);
      var adr1 := AlignDown(adr, MB);
      mem := Null;
      if adr0 / MB != (adr0 + size0 - 1) % ADDRESS_MOD / MB {
        return;
      }
      ghost var o;
      mem, o := AllocInMegabyte(adr0, size0, adr1);
      OrderDecides(size0, pageBits, o);
    }

    /** The range is not within one megabyte, or its pages cannot be had as one block. */
    ghost predicate NoRoomAt(adr: W.Word32, size: W.Word32)
      reads this, level1, set p | p in parents :: p.buddy
    {
      var w := WindowOf(adr, size, pageBits);
      !w.inside || forall o: nat | OrderFor(w.size, pageBits, o) :: Blocked(w.start, w.meg, o)
    }

    lemma AddedRunAt(ps: seq<Parent>, owns: seq<seq<T.Block>>, meg: int, at: int, o: nat)
      requires Valid() && o + pageBits <= 20 && |ps| == |owns| && NoRunAt(ps, owns, pageBits, at, o)
      requires Added(ps, owns, parents, Owns(parents), Region(meg, meg + MB - 1))
      requires meg <= at < meg + MB && (at - meg) % Pow2(pageBits) == 0
      ensures NoRunAt(parents, Owns(parents), pageBits, at, o) <==> (at - meg) % Pow2(o + pageBits) != 0
    {
      var own := Owns(parents)[0];
      assert Serves(parents[0], pageBits);
      OwnLength(parents[0].buddy);
      IdleRunAt(own, meg, pageBits, at, o);
    }

    /** `mreg_free` */
    method Free(mem: Memory)
      requires Valid() && (mem.Null? || mem in Live())
      modifies this`large, level1
      modifies (set p | p in parents :: p.buddy)`own, (set p | p in parents :: p.buddy)`lists
      modifies (set p | p in parents :: p.buddy.all), (set p | p in parents :: p.buddy.free)
      ensures Valid() && Live() == old(Live()) - {mem}
      ensures if mem.Large? then Gained(old(level1.freeMegs), level1.freeMegs, mem.region) else level1.freeMegs == old(level1.freeMegs)
    {
      match mem
      case Null =>
      case Large(r) => FreeLarge(r);
      case Small(r, b) => FreeSmall(r, b);
    }

    method FreeLarge(r: Region)
      requires Valid() && Large(r) in Live()
      modifies this`large, level1
      ensures Valid() && Live() == old(Live()) - {Large(r)} && Gained(old(level1.freeMegs), level1.freeMegs, r)
    {
      hide Buddies, Owns, Partition, LiveMemory;
      ghost var free := level1.freeMegs;
      LargeIsLive(parents, Owns(parents), pageBits, large, r);
      LargeIsOutside(attached, free, Spans(parents), large, r);
      level1.Free(r);
      TakeBack(attached, free, Spans(parents), large, level1.freeMegs, r);
      LargeTaken(parents, Owns(parents), pageBits, large, r);
      large := large - {r};
    }

    method FreeSmall(r: Region, b: B.BuddyCtxt)
      requires Valid() && Small(r, b) in Live()
      modifies (set p | p in parents :: p.buddy)`own, (set p | p in parents :: p.buddy)`lists
      modifies (set p | p in parents :: p.buddy.all), (set p | p in parents :: p.buddy.free)
      ensures Valid() && Live() == old(Live()) - {Small(r, b)}
    {
      hide Valid, Buddies, LiveMemory;
      Parts();
      ghost var owns := Owns(parents);
      ghost var i, h, o := SmallIsBlock(parents, pageBits, large, r, b);
      ghost var orders := b.order;
      FreeIn(parents, i, pageBits, b, r, h, o);
      Whole();
      SmallFreed(parents, owns, pageBits, large, i, Owns(parents)[i], h, o, orders);
    }

    /** `mreg_free` on new megabytes. */
    method AttachMegabytes(r: Region)
      requires Valid() && Megs(r) && Attachable(attached, r)
      modifies this`attached, level1
      ensures Valid() && Live() == old(Live()) && attached == old(attached) + Addresses(r)
      ensures Gained(old(level1.freeMegs), level1.freeMegs, r)
    {
      hide Buddies, Owns, Partition, Attachable, LiveMemory;
      ghost var free := level1.freeMegs;
      NewIsOutside(attached, free, Spans(parents), large, r);
      level1.Free(r);
      AttachFree(attached, free, Spans(parents), large, level1.freeMegs, r);
      attached := attached + Addresses(r);
    }

    /** `memregion_attach_buddy` on new pages beside the megabytes. */
    method AttachEdge(r: Region)
      requires Valid() && Paged(r, pageBits) && Attachable(attached, r)
      modifies this`attached, this`parents
      ensures Valid() && Live() == old(Live()) && attached == old(attached) + Addresses(r)
    {
      hide Buddies, Owns, Covers, Paged, Added;
      AttachSpan(attached, level1.freeMegs, Spans(parents), large, r);
      attached := attached + Addresses(r);
      GiveToBuddy(r);
    }

    /** `mreg_region_attach` */
    method RegionAttach(adr: W.Word32, size: W.Word32) returns (ok: bool)
      requires Valid() && adr + size <= ADDRESS_MOD
      requires size >= 2 * Pow2(pageBits) ==> Touches(CutsOf(adr, size, pageBits)) && Attachable(attached, Pages(adr, size))
      modifies this`attached, this`parents, level1
      ensures Valid() && Live() == old(Live()) && (ok <==> size >= 2 * Pow2(pageBits))
      ensures attached == old(attached) + if ok then Addresses(Pages(adr, size)) else iset{}
      ensures if ok then Gained(old(level1.freeMegs), level1.freeMegs, Megabytes(adr, size)) else level1.freeMegs == old(level1.freeMegs)
    {
      hide Valid, Attachable, Addresses, CutsOf, AlignUp, AlignDown, Address, Touches, Paged, Megs, LiveMemory;
      Parts();
      var page := Pow2(pageBits);
      if size < 2 * page {
        return false;
      }
      var adr0 := AlignUp(adr, page);
      var size0 := AlignDown(Address(size + adr - adr0), page);
      var end0 := Address(adr0 + size0 - 1);
      var adr1 := AlignUp(adr0, MB);
      var size1 := AlignDown(Address(size0 + adr0 - adr1), MB);
      var end1 := Address(adr1 + size1 - 1);
      AttachPlan(adr, size, pageBits);
      ghost var whole, before := Pages(adr, size), attached;
      ghost var top, end := adr1 + size1, end0 + 1;
      NoPiece(before, adr1);
      if size1 != 0 {
        NextPiece(before, Region(adr1, adr1 - 1), whole, Region(adr1, end1));
        AttachMegabytes(Region(adr1, end1));
      }
      assert attached == before + Addresses(Region(adr1, top - 1));
      JoinPieces(before, adr0, adr1, top);
      NoPiece(attached, adr0);
      if adr0 < adr1 {
        NextPiece(before, Region(adr1, top - 1), whole, Region(adr0, adr1 - 1));
        AttachEdge(Region(adr0, adr1 - 1));
      }
      assert attached == before + Addresses(Region(adr0, top - 1));
      JoinPieces(before, adr0, top, end);
      if end0 != end1 && end0 >= Address(1 + end1) {
        NextPiece(before, Region(adr0, top - 1), whole, Region(top, end0));
        AttachEdge(Region(Address(end1 + 1), end0));
      }
      ok := true;
    }

    /** The whole megabytes of a range that reaches a boundary; the region may be empty. */
    function Megabytes(adr: int, size: int): Region {
      var c := CutsOf(adr, size, pageBits);
      Region(c.meg, c.megEnd - 1)
    }

    /** The whole pages of a range. */
    function Pages(adr: int, size: int): Region {
      var c := CutsOf(adr, size, pageBits);
      Region(c.start, c.end - 1)
    }

    lemma ParentsTiled()
      requires Valid()
      ensures forall i | 0 <= i < |parents| :: Tiles(parents[i], Owns(parents)[i], pageBits)
    {
      forall i | 0 <= i < |parents| ensures Tiles(parents[i], Owns(parents)[i], pageBits) {
        assert Serves(parents[i], pageBits);
        assert T.Tiled(parents[i].buddy.own, parents[i].buddy.order);
      }
    }

    /** Every attached address is free or held by a caller, never both, and no other address is either. */
    lemma Conservation(a: int)
      requires Valid()
      ensures a in attached <==> FreeAddress(level1.freeMegs, parents, Owns(parents), pageBits, a) || Held(Live(), a)
      ensures !(FreeAddress(level1.freeMegs, parents, Owns(parents), pageBits, a) && Held(Live(), a))
    {
      hide FreeAddress, Held, LiveMemory, Owns, Partition, Buddies;
      ParentsTiled();
      FreeOrHeld(attached, level1.freeMegs, parents, Owns(parents), pageBits, large, a);
    }

    /** No two callers hold the same address. */
    lemma NoOverlap(m: Memory, n: Memory, a: int)
      requires Valid() && m in Live() && n in Live() && Holds(m, a) && Holds(n, a)
      ensures m == n
    {
      hide Holds, LiveMemory, Owns, Partition, Buddies;
      ParentsTiled();
      LiveDisjoint(attached, level1.freeMegs, parents, Owns(parents), pageBits, large, m, n, a);
    }

    /** When callers hold nothing, all attached memory but the edges is available for megabytes again. */
    lemma NothingLeaks(a: int)
      requires Valid() && Live() == {} && a in attached
      ensures UnusedIn(level1.freeMegs, parents, Owns(parents), a)
              || exists i :: 0 <= i < |parents| && Length(parents[i].region) < MB && In(parents[i].region, a)
    {
      hide Buddies;
      Parts();
      ghost var spans, owns := Spans(parents), Owns(parents);
      ParentsTiled();
      if r :| r in large && In(r, a) {
        LargeIsLive(parents, owns, pageBits, large, r);
      }
      if i :| 0 <= i < |spans| && In(spans[i], a) {
        NoneLive(parents, owns, pageBits, i);
        assert Serves(parents[i], pageBits) by { assert Buddies(parents, pageBits); }
      }
    }

    /** The invariant and its parts. */
    lemma Parts()
      requires Valid()
      ensures 5 <= pageBits <= 20 && Buddies(parents, pageBits) && Spaced(level1.freeMegs) && (forall r | r in large :: Megs(r))
      ensures Partition(attached, level1.freeMegs, Spans(parents), large)
    {
    }

    lemma Whole()
      requires 5 <= pageBits <= 20 && Buddies(parents, pageBits) && Spaced(level1.freeMegs) && (forall r | r in large :: Megs(r))
      requires Partition(attached, level1.freeMegs, Spans(parents), large)
      ensures Valid()
    {
    }
  }
}
