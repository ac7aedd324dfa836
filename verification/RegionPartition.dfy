/** How attached memory is divided: free megabytes, buddy memory, and large regions given out. */
module RegionPartition {
  import opened RegionSpec
  import L = RegionLevel1

  ghost predicate InSome(rs: set<Region>, a: int) {
    exists r :: r in rs && In(r, a)
  }

  /** No address belongs to two regions of the list. */
  ghost predicate ListDisjoint(rs: seq<Region>) {
    forall i, j, a | 0 <= i < |rs| && 0 <= j < |rs| && In(rs[i], a) && In(rs[j], a) :: i == j
  }

  ghost predicate SetDisjoint(rs: set<Region>) {
    forall r, s, a | r in rs && s in rs && In(r, a) && In(s, a) :: r == s
  }

  /** Every attached address is in exactly one region of exactly one of the three kinds. */
  ghost predicate Partition(attached: iset<int>, free: seq<Region>, spans: seq<Region>, large: set<Region>) {
    && (forall a :: a in attached <==> Covers(free, a) || Covers(spans, a) || InSome(large, a))
    && (forall a :: !(Covers(free, a) && Covers(spans, a)))
    && (forall a :: !(Covers(free, a) && InSome(large, a)))
    && (forall a :: !(Covers(spans, a) && InSome(large, a)))
    && ListDisjoint(spans) && SetDisjoint(large)
    && !(0 in attached && ADDRESS_MOD - 1 in attached)
  }

  /** The free list has lost exactly the region r. */
  ghost predicate Lost(free: seq<Region>, free': seq<Region>, r: Region) {
    && (forall a :: Covers(free', a) <==> Covers(free, a) && !In(r, a))
    && forall a | In(r, a) :: Covers(free, a)
  }

  /** The free list has gained exactly the region r. */
  ghost predicate Gained(free: seq<Region>, free': seq<Region>, r: Region) {
    forall a :: Covers(free', a) <==> Covers(free, a) || In(r, a)
  }

  lemma InSomeAdded(rs: set<Region>, r: Region, a: int)
    ensures InSome(rs + {r}, a) <==> InSome(rs, a) || In(r, a)
  {
    if s :| s in rs && In(s, a) {
      assert s in rs + {r};
    }
    if In(r, a) {
      assert r in rs + {r};
    }
  }

  lemma GiveOut(attached: iset<int>, free: seq<Region>, spans: seq<Region>, large: set<Region>, free': seq<Region>, r: Region)
    requires Partition(attached, free, spans, large) && Lost(free, free', r)
    ensures Partition(attached, free', spans, large + {r})
  {
    forall a ensures InSome(large + {r}, a) <==> InSome(large, a) || In(r, a) {
      InSomeAdded(large, r, a);
    }
    forall p, q, a | p in large + {r} && q in large + {r} && In(p, a) && In(q, a) ensures p == q {
      if p != q {
        assert InSome(large, a);
      }
    }
  }

  lemma NewLarge(attached: iset<int>, free: seq<Region>, spans: seq<Region>, large: set<Region>, free': seq<Region>, r: Region)
    requires Partition(attached, free, spans, large) && Lost(free, free', r) && r.start <= r.end
    ensures r !in large
  {
    if r in large {
      assert In(r, r.start);
    }
  }

  lemma InSomeRemoved(rs: set<Region>, r: Region, a: int)
    requires SetDisjoint(rs) && r in rs
    ensures InSome(rs - {r}, a) <==> InSome(rs, a) && !In(r, a)
  {
    if s :| s in rs && In(s, a) && s != r {
      assert s in rs - {r};
    }
  }

  lemma TakeBack(attached: iset<int>, free: seq<Region>, spans: seq<Region>, large: set<Region>, free': seq<Region>, r: Region)
    requires Partition(attached, free, spans, large) && Gained(free, free', r) && r in large
    ensures Partition(attached, free', spans, large - {r})
  {
    forall a ensures InSome(large - {r}, a) <==> InSome(large, a) && !In(r, a) {
      InSomeRemoved(large, r, a);
    }
    forall a | In(r, a) ensures InSome(large, a) {
    }
  }

  lemma ToBuddies(attached: iset<int>, free: seq<Region>, spans: seq<Region>, large: set<Region>, free': seq<Region>, r: Region)
    requires Partition(attached, free, spans, large) && Lost(free, free', r)
    ensures Partition(attached, free', [r] + spans, large)
  {
    forall a ensures Covers([r] + spans, a) <==> Covers(spans, a) || In(r, a) {
      CoversAdded(r, spans, a);
    }
    AddedDisjoint(spans, r);
  }

  lemma AddedDisjoint(spans: seq<Region>, r: Region)
    requires ListDisjoint(spans) && forall a :: !(Covers(spans, a) && In(r, a))
    ensures ListDisjoint([r] + spans)
  {
    var rs := [r] + spans;
    forall i, j, a | 0 <= i < |rs| && 0 <= j < |rs| && In(rs[i], a) && In(rs[j], a) ensures i == j {
      if i > 0 { assert In(spans[i - 1], a); }
      if j > 0 { assert In(spans[j - 1], a); }
    }
  }

  lemma FromBuddies(attached: iset<int>, free: seq<Region>, spans: seq<Region>, large: set<Region>, free': seq<Region>, i: nat)
    requires Partition(attached, free, spans, large) && i < |spans| && Gained(free, free', spans[i])
    ensures Partition(attached, free', Without(spans, i), large)
  {
    var ws := Without(spans, i);
    forall a ensures Covers(ws, a) <==> Covers(spans, a) && !In(spans[i], a) {
      CoversWithout(spans, i, a);
      forall k | 0 <= k < |ws| ensures ws[k] == spans[if k < i then k else k + 1] {
      }
    }
    forall a | In(spans[i], a) ensures Covers(spans, a) {
    }
    forall j, k, a | 0 <= j < |ws| && 0 <= k < |ws| && In(ws[j], a) && In(ws[k], a) ensures j == k {
      assert In(spans[if j < i then j else j + 1], a) && In(spans[if k < i then k else k + 1], a);
    }
  }

  /** What has been given out is neither free at level 1 nor across the ends of the address space from it. */
  lemma LargeIsOutside(attached: iset<int>, free: seq<Region>, spans: seq<Region>, large: set<Region>, r: Region)
    requires Partition(attached, free, spans, large) && Spaced(free) && r in large && Proper(r)
    ensures L.OneEnd(free, r) && forall k | 0 <= k < |free| :: Disjoint(free[k], r)
  {
    forall a | In(r, a) ensures InSome(large, a) && a in attached {
    }
    OutsideFree(free, r);
  }

  /** What a buddy allocator has is neither free at level 1 nor across the ends of the address space from it. */
  lemma SpanIsOutside(attached: iset<int>, free: seq<Region>, spans: seq<Region>, large: set<Region>, i: nat)
    requires Partition(attached, free, spans, large) && Spaced(free) && i < |spans| && Proper(spans[i])
    ensures L.OneEnd(free, spans[i]) && forall k | 0 <= k < |free| :: Disjoint(free[k], spans[i])
  {
    forall a | In(spans[i], a) ensures Covers(spans, a) && a in attached {
    }
    OutsideFree(free, spans[i]);
  }

  lemma OutsideFree(free: seq<Region>, r: Region)
    requires Spaced(free) && r.start <= r.end && forall a | In(r, a) :: !Covers(free, a)
    ensures forall k | 0 <= k < |free| :: Disjoint(free[k], r)
  {
    forall k | 0 <= k < |free| ensures Disjoint(free[k], r) {
      OverlapAddress(free[k], r);
    }
  }

  /** Regions that overlap do so at one's start. */
  lemma OverlapAddress(r: Region, s: Region)
    requires r.start <= r.end && s.start <= s.end
    ensures var a := if r.start < s.start then s.start else r.start; !Disjoint(r, s) ==> In(r, a) && In(s, a)
  {
  }

  // ----- attaching

  ghost function Addresses(r: Region): iset<int> {
    iset a | In(r, a)
  }

  /** The region is new, and with it not both ends of the address space are attached. */
  ghost predicate Attachable(attached: iset<int>, r: Region) {
    && (forall a | In(r, a) :: a !in attached)
    && !((0 in attached || In(r, 0)) && (ADDRESS_MOD - 1 in attached || In(r, ADDRESS_MOD - 1)))
  }

  lemma AttachFree(attached: iset<int>, free: seq<Region>, spans: seq<Region>, large: set<Region>, free': seq<Region>, r: Region)
    requires Partition(attached, free, spans, large) && Gained(free, free', r) && Attachable(attached, r)
    ensures Partition(attached + Addresses(r), free', spans, large)
  {
    hide Covers, In;
    forall a | In(r, a) ensures !Covers(spans, a) && !InSome(large, a) {
      assert a !in attached;
    }
  }

  lemma NewIsOutside(attached: iset<int>, free: seq<Region>, spans: seq<Region>, large: set<Region>, r: Region)
    requires Partition(attached, free, spans, large) && Spaced(free) && Proper(r) && Attachable(attached, r)
    ensures L.OneEnd(free, r) && forall k | 0 <= k < |free| :: Disjoint(free[k], r)
  {
    OutsideFree(free, r);
  }

  lemma AttachSpan(attached: iset<int>, free: seq<Region>, spans: seq<Region>, large: set<Region>, r: Region)
    requires Partition(attached, free, spans, large) && Attachable(attached, r)
    ensures Partition(attached + Addresses(r), free, [r] + spans, large)
  {
    hide Covers, In;
    forall a ensures Covers([r] + spans, a) <==> Covers(spans, a) || In(r, a) {
      CoversAdded(r, spans, a);
    }
    forall a | In(r, a) ensures !Covers(spans, a) && !Covers(free, a) && !InSome(large, a) {
      assert a !in attached;
    }
    AddedDisjoint(spans, r);
  }

  /** Pieces of an attachable range can be attached one after the other: here those of `more` after those of `taken`. */
  lemma NextPiece(attached: iset<int>, taken: Region, whole: Region, more: Region)
    requires Attachable(attached, whole) && whole.start <= taken.start && taken.end <= whole.end
    requires whole.start <= more.start && more.end <= whole.end && (taken.end < more.start || more.end < taken.start)
    ensures Attachable(attached + Addresses(taken), more)
  {
  }

  lemma NoPiece(attached: iset<int>, x: int)
    ensures attached + Addresses(Region(x, x - 1)) == attached
  {
  }

  lemma JoinPieces(attached: iset<int>, x: int, y: int, z: int)
    requires x <= y <= z
    ensures attached + Addresses(Region(x, y - 1)) + Addresses(Region(y, z - 1)) == attached + Addresses(Region(x, z - 1))
    ensures attached + Addresses(Region(y, z - 1)) + Addresses(Region(x, y - 1)) == attached + Addresses(Region(x, z - 1))
  {
  }
}
