/**
 * The page range of a buddy allocator as a tiling by aligned power-of-two blocks, without any of the
 * allocator's own bookkeeping.
 */
module BuddyTiles {
  import opened Arith

  /** A block: its first page, its order, and whether it is free. */
  datatype Block = Block(head: nat, order: nat, free: bool)

  /** `1 << order` */
  function Size(o: nat): (s: nat)
    ensures s >= 1
  {
    Pow2(o)
  }

  predicate Aligned(h: nat, o: nat) {
    h % Size(o) == 0
  }

  /** `index ^ (1 << order)` */
  function Buddy(h: nat, o: nat): int {
    if h / Size(o) % 2 == 0 then h + Size(o) else h - Size(o)
  }

  // ----- aligned ranges

  lemma AlignedFactor(h: nat, o: nat) returns (k: nat)
    requires Aligned(h, o)
    ensures h == k * Size(o) && k == h / Size(o)
  {
    QuotientRange(h, Size(o));
    k := h / Size(o);
  }

  lemma MultipleAligned(k: nat, o: nat)
    ensures k * Size(o) >= 0 && Aligned(k * Size(o), o) && k * Size(o) / Size(o) == k
  {
    MulNonNeg(k, Size(o));
    DivModUnique(k * Size(o), Size(o), k, 0);
  }

  /** Aligned ranges that meet are nested. */
  lemma Nested(h1: nat, o1: nat, h2: nat, o2: nat)
    requires o1 <= o2 && Aligned(h1, o1) && Aligned(h2, o2)
    requires h1 < h2 + Size(o2) && h2 < h1 + Size(o1)
    ensures h2 <= h1 && h1 + Size(o1) <= h2 + Size(o2)
  {
    var k1 := AlignedFactor(h1, o1);
    var k2 := AlignedFactor(h2, o2);
    Pow2Add(o2 - o1, o1);
    NestedFactors(k1, k2, Pow2(o2 - o1), Size(o1));
  }

  lemma NestedFactors(k1: int, k2: int, r: int, p: int)
    requires p > 0 && r > 0
    requires k1 * p < k2 * (r * p) + r * p && k2 * (r * p) < k1 * p + p
    ensures k2 * (r * p) <= k1 * p && k1 * p + p <= k2 * (r * p) + r * p
  {
    Assoc(k2, r, p);
    Distribute(k2 * r, r, p);
    Distribute(k1, 1, p);
    if k2 * r > k1 {
      MulMono(k1 + 1, k2 * r, p);
    }
    if k1 + 1 > k2 * r + r {
      MulMono(k2 * r + r, k1, p);
    }
    MulMono(k2 * r, k1, p);
    MulMono(k1 + 1, k2 * r + r, p);
  }

  /** The range of a block and that of its buddy are the halves of an aligned range one order up. */
  lemma BuddyHalves(h: nat, o: nat)
    requires Aligned(h, o)
    ensures var b := Buddy(h, o);
            && b >= 0 && b != h && Aligned(b, o) && Buddy(b, o) == h
            && var m := if b < h then b else h;
            && Aligned(m, o + 1) && (if b < h then b + Size(o) == h else h + Size(o) == b)
    ensures Size(o + 1) == 2 * Size(o)
  {
    var k := AlignedFactor(h, o);
    var p := Size(o);
    Distribute(k, 1, p);
    MultipleAligned(k / 2, o + 1);
    Assoc(k / 2, 2, p);
    if k % 2 == 0 {
      MultipleAligned(k + 1, o);
    } else {
      Distribute(k - 1, 1, p);
      MultipleAligned(k - 1, o);
    }
  }

  lemma AlignedDown(h: nat, o: nat, o': nat)
    requires Aligned(h, o) && o' <= o
    ensures Aligned(h, o')
  {
    var k := AlignedFactor(h, o);
    Pow2Add(o - o', o');
    Assoc(k, Pow2(o - o'), Size(o'));
    MulNonNeg(k, Pow2(o - o'));
    MultipleAligned(k * Pow2(o - o'), o');
  }

  lemma AlignedPage(p: nat)
    ensures Aligned(p, 0) && Size(0) == 1
  {
  }

  // ----- tilings

  ghost predicate In(p: int, h: int, o: nat) {
    h <= p < h + Size(o)
  }

  /** The block of page p is aligned, inside the range, and the block of each of its pages. */
  ghost predicate Fits(own: seq<Block>, p: nat, orders: nat)
    requires p < |own|
  {
    var b := own[p];
    && b.order < orders && In(p, b.head, b.order) && b.head + Size(b.order) <= |own| && Aligned(b.head, b.order)
    && forall q: nat | q < |own| && In(q, b.head, b.order) :: own[q] == b
  }

  ghost predicate Tiled(own: seq<Block>, orders: nat) {
    forall p: nat | p < |own| :: Fits(own, p, orders)
  }

  /** No two buddies below the top order are both free. */
  ghost predicate Coalesced(own: seq<Block>, orders: nat) {
    forall p: nat | p < |own| && own[p].free && own[p].order + 1 < orders :: !FreeBuddy(own, own[p])
  }

  ghost predicate FreeBuddy(own: seq<Block>, b: Block) {
    var c := Buddy(b.head, b.order);
    0 <= c < |own| && own[c] == Block(c, b.order, true)
  }

  /** Redraw the block of the pages of one range. */
  ghost function Fill(own: seq<Block>, b: Block): (r: seq<Block>)
    ensures |r| == |own|
    ensures forall p: nat | p < |own| :: r[p] == if In(p, b.head, b.order) then b else own[p]
  {
    seq(|own|, p requires 0 <= p < |own| => if In(p, b.head, b.order) then b else own[p])
  }

  /** The range is made of whole blocks. */
  ghost predicate WholeBlocks(own: seq<Block>, h: nat, o: nat) {
    forall p: nat | p < |own| && In(p, h, o) :: h <= own[p].head && own[p].head + Size(own[p].order) <= h + Size(o)
  }

  lemma TiledFill(own: seq<Block>, b: Block, orders: nat)
    requires Tiled(own, orders) && WholeBlocks(own, b.head, b.order)
    requires b.order < orders && Aligned(b.head, b.order) && b.head + Size(b.order) <= |own|
    ensures Tiled(Fill(own, b), orders)
  {
    hide Size, Aligned;
    var r := Fill(own, b);
    forall p: nat | p < |own| ensures Fits(r, p, orders) {
      assert Fits(own, p, orders);
      if !In(p, b.head, b.order) {
        var c := own[p];
        forall q: nat | q < |own| && In(q, c.head, c.order) ensures r[q] == c {
          assert own[q] == c;
        }
      }
    }
  }

  /** The block of a page contains the smaller aligned ranges around the page. */
  lemma BlockContains(own: seq<Block>, p: nat, h: nat, o: nat, orders: nat)
    requires Tiled(own, orders) && p < |own| && In(p, h, o) && Aligned(h, o) && o <= own[p].order
    ensures own[p].head <= h && h + Size(o) <= own[p].head + Size(own[p].order)
  {
    assert Fits(own, p, orders);
    Nested(h, o, own[p].head, own[p].order);
  }

  /**
   * The page `index ^ (1 << order)` of a block is itself the head of a block, of no larger order.  This is
   * why the bookkeeping of pages inside a block may go stale: it is never looked at.
   */
  lemma BuddyIsHead(own: seq<Block>, h: nat, orders: nat)
    requires Tiled(own, orders) && h < |own| && own[h].head == h
    requires Buddy(h, own[h].order) < |own|
    ensures var b := Buddy(h, own[h].order); 0 <= b && own[b].head == b && own[b].order <= own[h].order
  {
    var o := own[h].order;
    assert Fits(own, h, orders);
    BuddyHalves(h, o);
    var b: nat := Buddy(h, o);
    var m: nat := if b < h then b else h;
    assert Fits(own, b, orders);
    if own[b].order > o {
      BlockContains(own, b, m, o + 1, orders);
    } else {
      Nested(own[b].head, own[b].order, b, o);
    }
  }

  // ----- what the free pages determine

  /** Every page of the range exists and is free. */
  ghost predicate FreeRun(own: seq<Block>, h: nat, o: nat) {
    h + Size(o) <= |own| && forall p: nat | In(p, h, o) :: own[p].free
  }

  lemma {:induction false} RunInBlock(own: seq<Block>, h: nat, o: nat, orders: nat)
    requires Tiled(own, orders) && Coalesced(own, orders)
    requires o < orders && Aligned(h, o) && FreeRun(own, h, o)
    ensures own[h].order >= o
    decreases o
  {
    if o > 0 {
      var m := h + Size(o - 1);
      AlignedDown(h, o, o - 1);
      HalvesAligned(h, o);
      RunInBlock(own, h, o - 1, orders);
      RunInBlock(own, m, o - 1, orders);
      assert Fits(own, h, orders) && Fits(own, m, orders);
      BlockContains(own, h, h, o - 1, orders);
      BlockContains(own, m, m, o - 1, orders);
      if own[m].order >= o {
        BlockContains(own, m, h, o, orders);
      }
    }
  }

  lemma HalvesAligned(h: nat, o: nat)
    requires o > 0 && Aligned(h, o)
    ensures Size(o) == 2 * Size(o - 1)
    ensures Aligned(h, o - 1) && Aligned(h + Size(o - 1), o - 1) && Buddy(h, o - 1) == h + Size(o - 1)
  {
    var k := AlignedFactor(h, o);
    var p := Size(o - 1);
    Assoc(k, 2, p);
    MultipleAligned(2 * k, o - 1);
    MultipleAligned(2 * k + 1, o - 1);
    Distribute(2 * k, 1, p);
  }

  /** Two tilings with the same free pages have the same free blocks. */
  lemma FreeBlocksDetermined(s: seq<Block>, t: seq<Block>, orders: nat)
    requires |s| == |t| && Tiled(s, orders) && Coalesced(s, orders) && Tiled(t, orders) && Coalesced(t, orders)
    requires forall p: nat | p < |s| :: s[p].free == t[p].free
    ensures forall p: nat | p < |s| && s[p].free :: s[p] == t[p]
  {
    forall p: nat | p < |s| && s[p].free ensures s[p] == t[p] {
      FreeBlockWithin(s, t, p, orders);
      FreeBlockWithin(t, s, p, orders);
      assert Fits(s, p, orders) && Fits(t, p, orders);
      Nested(s[p].head, s[p].order, t[p].head, t[p].order);
    }
  }

  /** The free block around a page in one tiling is not larger than that in the other. */
  lemma FreeBlockWithin(s: seq<Block>, t: seq<Block>, p: nat, orders: nat)
    requires |s| == |t| && Tiled(s, orders) && Tiled(t, orders) && Coalesced(t, orders)
    requires forall p: nat | p < |s| :: s[p].free == t[p].free
    requires p < |s| && s[p].free
    ensures s[p].order <= t[p].order
  {
    var b := s[p];
    assert Fits(s, p, orders) && Fits(t, p, orders);
    forall q: nat | In(q, b.head, b.order) ensures t[q].free {
      assert s[q] == b;
    }
    RunInBlock(t, b.head, b.order, orders);
    if t[p].order < b.order {
      assert Fits(t, b.head, orders);
      BlockContains(t, b.head, b.head, b.order, orders);
    }
  }

  /** A free block of at least the given order exists exactly when an aligned run of free pages does. */
  lemma RunExistsIff(own: seq<Block>, o: nat, orders: nat)
    requires Tiled(own, orders) && Coalesced(own, orders) && 0 < orders && |own| <= Size(orders - 1)
    ensures (exists p: nat :: p < |own| && own[p].free && own[p].order >= o)
            <==> (exists h: nat :: Aligned(h, o) && FreeRun(own, h, o))
  {
    if p: nat :| p < |own| && own[p].free && own[p].order >= o {
      assert Fits(own, p, orders);
      var b := own[p];
      AlignedDown(b.head, b.order, o);
      Pow2Mono(o, b.order);
      forall q: nat | In(q, b.head, o) ensures own[q].free {
        assert own[q] == b;
      }
      assert FreeRun(own, b.head, o);
    }
    if h: nat :| Aligned(h, o) && FreeRun(own, h, o) {
      FreeRunSmall(own, h, o, orders);
      RunInBlock(own, h, o, orders);
    }
  }

  lemma FreeRunSmall(own: seq<Block>, h: nat, o: nat, orders: nat)
    requires FreeRun(own, h, o) && 0 < orders && |own| <= Size(orders - 1)
    ensures o < orders && h < |own| && own[h].free
  {
    if o >= orders {
      Pow2Mono(orders - 1, o);
    }
    assert In(h, h, o);
  }

  // ----- changes

  /** The pages of a range become free; other pages stay free or keep their live block. */
  ghost predicate Freed(own: seq<Block>, own': seq<Block>, h: nat, o: nat) {
    && |own'| == |own|
    && forall p: nat | p < |own| ::
         if In(p, h, o) || own[p].free then own'[p].free else own'[p] == own[p]
  }

  /** The pages of a range become one live block; other pages stay free or keep their live block. */
  ghost predicate Taken(own: seq<Block>, own': seq<Block>, h: nat, o: nat) {
    && |own'| == |own|
    && forall p: nat | p < |own| ::
         if In(p, h, o) then own'[p] == Block(h, o, false)
         else if own[p].free then own'[p].free else own'[p] == own[p]
  }

  /** Freeing what was just taken restores every block. */
  lemma TakenThenFreed(own: seq<Block>, mid: seq<Block>, own': seq<Block>, h: nat, o: nat, orders: nat)
    requires Tiled(own, orders) && Coalesced(own, orders) && Tiled(own', orders) && Coalesced(own', orders)
    requires FreeRun(own, h, o) && Taken(own, mid, h, o) && Freed(mid, own', h, o)
    ensures own' == own
  {
    FreeBlocksDetermined(own, own', orders);
  }

  /** Freeing several blocks gives the same tiling in either order. */
  lemma FreeingCommutes(own: seq<Block>, a: Block, b: Block, s1: seq<Block>, s2: seq<Block>, t1: seq<Block>, t2: seq<Block>, orders: nat)
    requires Freed(own, s1, a.head, a.order) && Freed(s1, s2, b.head, b.order)
    requires Freed(own, t1, b.head, b.order) && Freed(t1, t2, a.head, a.order)
    requires Tiled(s2, orders) && Coalesced(s2, orders) && Tiled(t2, orders) && Coalesced(t2, orders)
    ensures s2 == t2
  {
    FreeBlocksDetermined(s2, t2, orders);
  }

  // ----- steps of the operations

  /** Making free blocks live never creates a pair of free buddies. */
  lemma CoalescedFewer(own: seq<Block>, own': seq<Block>, orders: nat)
    requires Coalesced(own, orders) && |own'| == |own|
    requires forall p: nat | p < |own| && own'[p].free :: own'[p] == own[p]
    ensures Coalesced(own', orders)
  {
    hide Size, Aligned, Buddy;
    forall p: nat | p < |own'| && own'[p].free && own'[p].order + 1 < orders ensures !FreeBuddy(own', own'[p]) {
      assert !FreeBuddy(own, own[p]);
    }
  }

  /** Redrawing one whole block with the same extent. */
  lemma SameBlock(own: seq<Block>, h: nat, free: bool, orders: nat)
    requires Tiled(own, orders) && h < |own| && own[h].head == h
    ensures Tiled(Fill(own, Block(h, own[h].order, free)), orders)
    ensures !free && Coalesced(own, orders) ==> Coalesced(Fill(own, Block(h, own[h].order, free)), orders)
  {
    assert Fits(own, h, orders);
    TiledFill(own, Block(h, own[h].order, free), orders);
    if !free && Coalesced(own, orders) {
      CoalescedFewer(own, Fill(own, Block(h, own[h].order, free)), orders);
    }
  }

  /** A block and its free buddy become one block of the next order. */
  lemma MergedBlock(own: seq<Block>, h: nat, orders: nat)
    requires Tiled(own, orders) && Coalesced(own, orders) && h < |own| && own[h].head == h
    requires own[h].order + 1 < orders && 0 <= Buddy(h, own[h].order) < |own|
    requires own[Buddy(h, own[h].order)].head == Buddy(h, own[h].order)
    requires own[Buddy(h, own[h].order)].order == own[h].order
    ensures var o, b := own[h].order, Buddy(h, own[h].order);
            var m: nat := if b < h then b else h;
            && Tiled(Fill(own, Block(m, o + 1, false)), orders)
            && Coalesced(Fill(own, Block(m, o + 1, false)), orders)
            && forall p: nat :: In(p, m, o + 1) <==> In(p, h, o) || In(p, b, o)
  {
    var o := own[h].order;
    assert Fits(own, h, orders);
    BuddyHalves(h, o);
    var b: nat := Buddy(h, o);
    assert Fits(own, b, orders);
    var m: nat := if b < h then b else h;
    hide Size, Aligned, Buddy;
    forall p: nat | p < |own| && In(p, m, o + 1)
      ensures m <= own[p].head && own[p].head + Size(own[p].order) <= m + Size(o + 1)
    {
      assert In(p, h, o) || In(p, b, o);
      assert own[p] == own[h] || own[p] == own[b];
    }
    TiledFill(own, Block(m, o + 1, false), orders);
    CoalescedFewer(own, Fill(own, Block(m, o + 1, false)), orders);
  }

  /** A live block may become free when it has no free buddy of its order. */
  lemma ReleasedBlock(own: seq<Block>, h: nat, orders: nat)
    requires Tiled(own, orders) && Coalesced(own, orders) && h < |own| && own[h].head == h && !own[h].free
    requires own[h].order + 1 < orders ==> !FreeBuddy(own, own[h])
    ensures Coalesced(Fill(own, Block(h, own[h].order, true)), orders)
  {
    var o := own[h].order;
    var r := Fill(own, Block(h, o, true));
    assert Fits(own, h, orders);
    BuddyHalves(h, o);
    SameBlock(own, h, true, orders);
    forall p: nat | p < |r| && r[p].free && r[p].order + 1 < orders ensures !FreeBuddy(r, r[p]) {
      var c := r[p];
      if In(p, h, o) {
        var b := Buddy(h, o);
        assert !In(b, h, o);
      } else {
        assert !FreeBuddy(own, own[p]);
        assert Fits(own, p, orders);
        BuddyHalves(c.head, c.order);
      }
    }
  }

  /** Cut one block into single pages around a smaller block, all live. */
  ghost function Shatter(own: seq<Block>, h1: nat, o1: nat, h2: nat, o2: nat): (r: seq<Block>)
    ensures |r| == |own|
    ensures forall p: nat | p < |own| ::
              r[p] == if In(p, h2, o2) then Block(h2, o2, false) else if In(p, h1, o1) then Block(p, 0, false) else own[p]
  {
    seq(|own|, p requires 0 <= p < |own| =>
      if In(p, h2, o2) then Block(h2, o2, false) else if In(p, h1, o1) then Block(p, 0, false) else own[p])
  }

  lemma TiledShatter(own: seq<Block>, h1: nat, o1: nat, h2: nat, o2: nat, orders: nat)
    requires Tiled(own, orders) && h1 < |own| && own[h1].head == h1 && own[h1].order == o1
    requires o2 <= o1 && Aligned(h2, o2) && h1 <= h2 && h2 + Size(o2) <= h1 + Size(o1)
    ensures Tiled(Shatter(own, h1, o1, h2, o2), orders)
    ensures Coalesced(own, orders) ==> Coalesced(Shatter(own, h1, o1, h2, o2), orders)
  {
    var r := Shatter(own, h1, o1, h2, o2);
    assert Fits(own, h1, orders);
    forall p: nat | p < |r| ensures Fits(r, p, orders) {
      AlignedPage(p);
      assert Fits(own, p, orders);
      hide Size, Aligned;
      if !In(p, h1, o1) {
        var c := own[p];
        forall q: nat | q < |own| && In(q, c.head, c.order) ensures r[q] == c {
          assert own[q] == c;
        }
      }
    }
    if Coalesced(own, orders) {
      CoalescedFewer(own, r, orders);
    }
  }
}
