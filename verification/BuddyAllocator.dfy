/** The buddy allocator: block words and list heads in arrays, over a tiling of the page range. */
module BuddyAllocator {
  import opened Arith
  import opened BuddyTiles
  import opened BuddyLists

  /** Length of the `free` array. */
  const LISTS := 27
  const ADDRESS_MOD := 0x1_0000_0000

  // ----- the bookkeeping describes the tiling

  ghost predicate FreeHead(own: seq<Block>, h: nat, o: nat) {
    h < |own| && own[h] == Block(h, o, true)
  }

  /** List o holds exactly the free blocks of order o. */
  ghost predicate Listed(w: seq<Node>, heads: seq<int>, lists: seq<seq<nat>>, own: seq<Block>) {
    && |heads| == |lists| == LISTS
    && (forall o: nat | o < LISTS :: Linked(w, heads[o], lists[o], o))
    && forall o: nat, h: nat | o < LISTS :: h in lists[o] <==> FreeHead(own, h, o)
  }

  /**
   * The words of live blocks carry no free flag and their order; nothing is said about the block `hand`
   * that an operation holds, nor about the order of the block `pending`, nor about any page inside a block.
   */
  ghost predicate Worded(w: seq<Node>, own: seq<Block>, hand: int, pending: int) {
    |w| == |own| && forall h: nat | h < |own| && own[h].head == h && !own[h].free && h != hand ::
      !IsFreeNode(w[h]) && (h != pending ==> OrderOf(w[h]) == own[h].order)
  }

  lemma ListedHead(w: seq<Node>, heads: seq<int>, lists: seq<seq<nat>>, own: seq<Block>, h: nat)
    requires Listed(w, heads, lists, own) && h < |own| && own[h].head == h && own[h].free && own[h].order < LISTS
    ensures h in lists[own[h].order]
    ensures h < |w| && IsFreeNode(w[h]) && OrderOf(w[h]) == own[h].order
  {
    var o := own[h].order;
    assert FreeHead(own, h, o);
    var j :| 0 <= j < |lists[o]| && lists[o][j] == h;
    LinkedReads(w, heads[o], lists[o], o, j);
  }

  /** A change of words away from the free heads leaves the lists alone. */
  lemma ListedFrame(w: seq<Node>, w': seq<Node>, heads: seq<int>, lists: seq<seq<nat>>, own: seq<Block>, own': seq<Block>)
    requires Listed(w, heads, lists, own) && |w'| == |w|
    requires forall h: nat, o: nat :: FreeHead(own, h, o) <==> FreeHead(own', h, o)
    requires forall h: nat, o: nat | FreeHead(own, h, o) && h < |w| :: w'[h] == w[h]
    ensures Listed(w', heads, lists, own')
  {
    forall o: nat | o < LISTS ensures Linked(w', heads[o], lists[o], o) {
      LinkedBound(w, heads[o], lists[o], o);
      LinkedFrame(w, w', heads[o], lists[o], o);
    }
  }

  lemma LinkedBound(w: seq<Node>, first: int, list: seq<nat>, o: nat)
    requires Linked(w, first, list, o)
    ensures forall h: nat | h in list :: h < |w|
  {
  }

  /** Putting a block that no list holds at the front of its list. */
  lemma ListedAdd(w: seq<Node>, heads: seq<int>, lists: seq<seq<nat>>, own: seq<Block>, own': seq<Block>, b: nat, o: nat)
    requires Listed(w, heads, lists, own) && b < |w| && b < INDEX_LIMIT && o < LISTS
    requires forall q: nat :: !FreeHead(own, b, q)
    requires forall h: nat, q: nat :: FreeHead(own', h, q) <==> FreeHead(own, h, q) || (h == b && q == o)
    ensures -1 <= heads[o] < |w| && heads[o] < INDEX_LIMIT
    ensures Listed(AddWords(w, heads[o], b, o), heads[o := b], lists[o := [b] + lists[o]], own')
  {
    var r, ls := AddWords(w, heads[o], b, o), lists[o := [b] + lists[o]];
    assert b !in lists[o];
    LinkedAdd(w, heads[o], lists[o], o, b);
    assert heads[o] != -1 ==> lists[o][0] in lists[o];
    forall q: nat | q < LISTS && q != o ensures Linked(r, heads[q], lists[q], q) {
      LinkedBound(w, heads[q], lists[q], q);
      forall h: nat | h in lists[q] ensures r[h] == w[h] {
        assert FreeHead(own, h, q);
      }
      LinkedFrame(w, r, heads[q], lists[q], q);
    }
  }

  /** Taking a block out of its list. */
  lemma ListedRemove(w: seq<Node>, heads: seq<int>, lists: seq<seq<nat>>, own: seq<Block>, own': seq<Block>, o: nat, k: nat)
    requires Listed(w, heads, lists, own) && o < LISTS && k < |lists[o]|
    requires forall h: nat, q: nat :: FreeHead(own', h, q) <==> FreeHead(own, h, q) && !(h == lists[o][k] && q == o)
    ensures var b := lists[o][k];
            && b < |w| && NextOf(w[b]) == NextIn(lists[o], k) < |w| && PrevOf(w[b]) == PrevIn(lists[o], k) < |w|
            && NextOf(w[b]) < INDEX_LIMIT && PrevOf(w[b]) < INDEX_LIMIT
            && Listed(RemoveWords(w, b), heads[o := if k > 0 then heads[o] else if |lists[o]| == 1 then -1 else lists[o][1]],
                      lists[o := Without(lists[o], k)], own')
  {
    var b, first := lists[o][k], if k > 0 then heads[o] else if |lists[o]| == 1 then -1 else lists[o][1];
    LinkedRemove(w, heads[o], lists[o], o, k);
    WithoutDistinct(lists[o], k);
    var r := RemoveWords(w, b);
    RemoveTouches(w, lists[o], k);
    hide RemoveWords;
    forall q: nat | q < LISTS && q != o ensures Linked(r, heads[q], lists[q], q) {
      LinkedBound(w, heads[q], lists[q], q);
      forall h: nat | h in lists[q] ensures r[h] == w[h] {
        assert FreeHead(own, h, q);
        assert !FreeHead(own, h, o);
      }
      LinkedFrame(w, r, heads[q], lists[q], q);
    }
  }

  /** Removal writes only words of members of the same list. */
  lemma RemoveTouches(w: seq<Node>, list: seq<nat>, k: nat)
    requires k < |list| && list[k] < |w| && NextOf(w[list[k]]) == NextIn(list, k) && PrevOf(w[list[k]]) == PrevIn(list, k)
    requires NextIn(list, k) < |w| && PrevIn(list, k) < |w| && NextIn(list, k) < INDEX_LIMIT && PrevIn(list, k) < INDEX_LIMIT
    ensures forall h: nat | h < |w| && h !in list :: RemoveWords(w, list[k])[h] == w[h]
  {
    assert NextIn(list, k) in list && PrevIn(list, k) in list;
  }

  /** The test that decides which pages `buddy_init` frees. */
  predicate InitiallyFree(adr: Word32, firstFree: Word32, lastFree: Word32, bits: nat)
    requires bits < 32
  {
    var size := Pow2(bits);
    var first := (firstFree + (size - 1)) % ADDRESS_MOD / size * size;
    var last := lastFree / size * size;
    (first == 0 || adr >= first) && (last == 0 || adr < last)
  }

  /** h is a free block that holds 2^o pages, and no smaller one does. */
  ghost predicate BestFit(own: seq<Block>, h: nat, o: nat) {
    && h < |own| && own[h].head == h && own[h].free && own[h].order >= o
    && forall p: nat | p < |own| && own[p].free && own[p].order >= o :: own[h].order <= own[p].order
  }

  /**
   * A page is freed at the start when it lies between the limits as a whole, where an upper limit below one page is
   * none, and so is a lower limit less than a page from the end of the address space.
   */
  lemma InitiallyFreeIff(adr: Word32, firstFree: Word32, lastFree: Word32, bits: nat)
    requires bits < 32 && adr % Pow2(bits) == 0
    ensures var size := Pow2(bits);
      InitiallyFree(adr, firstFree, lastFree, bits)
      <==> (firstFree <= adr || firstFree > ADDRESS_MOD - size) && (adr + size <= lastFree || lastFree < size)
  {
    var size := Pow2(bits);
    assert size < ADDRESS_MOD by {
      Pow2Mono(bits, 31);
      Pow2Limit();
      assert Pow2(5) == 32;
      Pow2Add(26, 5);
    }
    hide Pow2;
    LowerLimit(adr, firstFree, size);
    UpperLimit(adr, lastFree, size);
  }

  lemma LowerLimit(adr: int, f: int, size: int)
    requires 0 <= adr && 0 <= f < ADDRESS_MOD && 0 < size < ADDRESS_MOD && adr % size == 0
    ensures var first := (f + (size - 1)) % ADDRESS_MOD / size * size;
      first == 0 || adr >= first <==> f <= adr || f > ADDRESS_MOD - size
  {
    var x := f + (size - 1);
    if f > ADDRESS_MOD - size {
      DivModUnique(x, ADDRESS_MOD, 1, x - ADDRESS_MOD);
      DivModUnique(x - ADDRESS_MOD, size, 0, x - ADDRESS_MOD);
    } else {
      DivModUnique(x, ADDRESS_MOD, 0, x);
      var k, m := adr / size, x / size;
      QuotientRange(x, size);
      Between(adr, k, x, m, size);
      Between(0, 0, x, m, size);
    }
  }

  lemma UpperLimit(adr: int, l: int, size: int)
    requires 0 <= adr && 0 <= l && 0 < size && adr % size == 0
    ensures var last := l / size * size; last == 0 || adr < last <==> adr + size <= l || l < size
  {
    var k, n := adr / size, l / size;
    QuotientRange(l, size);
    Between(adr, k, l, n, size);
    Between(0, 0, l, n, size);
  }

  lemma Between(adr: int, k: int, x: int, m: int, size: int)
    requires size > 0 && adr == k * size && m * size <= x < m * size + size
    ensures adr >= m * size <==> x - size < adr
    ensures adr < m * size <==> adr + size <= x
  {
    Multiples(k, m, size);
  }

  /** Multiples of a size are a size apart. */
  lemma Multiples(k: int, n: int, size: int)
    requires size > 0
    ensures k < n ==> k * size + size <= n * size
    ensures k >= n ==> k * size >= n * size
  {
    Distribute(k, 1, size);
    if k < n {
      MulMono(k + 1, n, size);
    } else {
      MulMono(n, k, size);
    }
  }

  lemma Pow2Limit()
    ensures Pow2(26) == INDEX_LIMIT
  {
    assert Pow2(13) == 8192;
    Pow2Add(13, 13);
  }

  /** Before anything is freed every page is a block. */
  lemma FreshTiling(own: seq<Block>, orders: nat)
    requires orders >= 1 && forall p: nat | p < |own| :: own[p] == Block(p, 0, false)
    ensures Tiled(own, orders) && Coalesced(own, orders)
  {
    forall p: nat | p < |own| ensures Fits(own, p, orders) {
      AlignedPage(p);
    }
  }

  lemma SinglePage(p: nat)
    ensures forall q: nat :: In(q, p, 0) <==> q == p
  {
    assert Size(0) == 1;
  }

  /** What `buddy_remove_free` does to the lists, in terms of the words it reads. */
  lemma ListedUnlink(w: seq<Node>, heads: seq<int>, lists: seq<seq<nat>>, own: seq<Block>, own': seq<Block>, b: nat, o: nat)
    returns (lists': seq<seq<nat>>)
    requires Listed(w, heads, lists, own) && FreeHead(own, b, o) && o < LISTS
    requires forall h: nat, q: nat :: FreeHead(own', h, q) <==> FreeHead(own, h, q) && !(h == b && q == o)
    ensures |lists'| == |lists| && b < |w| && NextOf(w[b]) < |w| && PrevOf(w[b]) < |w|
    ensures NextOf(w[b]) < INDEX_LIMIT && PrevOf(w[b]) < INDEX_LIMIT
    ensures var first := if PrevOf(w[b]) != b then heads[o] else if NextOf(w[b]) == b then -1 else NextOf(w[b]);
            Listed(RemoveWords(w, b), heads[o := first], lists', own')
    ensures forall h: nat | h < |w| && (forall q: nat :: !FreeHead(own, h, q)) :: RemoveWords(w, b)[h] == w[h]
  {
    var list := lists[o];
    var k: nat :| k < |list| && list[k] == b;
    ListedRemove(w, heads, lists, own, own', o, k);
    RemoveTouches(w, list, k);
    lists' := lists[o := Without(list, k)];
    assert k > 0 ==> list[k - 1] != b;
    assert k + 1 < |list| ==> list[k + 1] != b;
    forall h: nat | h < |w| && (forall q: nat :: !FreeHead(own, h, q)) ensures RemoveWords(w, b)[h] == w[h] {
      assert !FreeHead(own, h, o);
    }
  }

  // ----- the allocator

  class BuddyCtxt {
    var base: Word32
    var indexMax: nat
    var pageBits: nat
    var order: nat
    var all: array<Node>
    var free: array<int>

    ghost var own: seq<Block>
    ghost var lists: seq<seq<nat>>

    ghost predicate Sized()
      reads this
    {
      && all.Length == indexMax == |own| && 0 < indexMax <= INDEX_LIMIT && indexMax * Pow2(pageBits) <= ADDRESS_MOD
      && free.Length == LISTS && 1 <= order <= LISTS && indexMax <= Size(order - 1)
    }

    /** All bookkeeping is right except for the words of `hand` and the order word of `pending`. */
    ghost predicate Consistent(hand: int, pending: int)
      reads this, all, free
    {
      && Sized() && Tiled(own, order) && Coalesced(own, order)
      && Listed(all[..], free[..], lists, own) && Worded(all[..], own, hand, pending)
    }

    ghost predicate Valid()
      reads this, all, free
    {
      Consistent(-1, -1)
    }

    constructor ()
    {
      base, indexMax, pageBits, order := 0, 0, 0, 0;
      all := new Node[0];
      free := new int[LISTS];
      own, lists := [], [];
    }

    /** The order count of `buddy_init`: the smallest power of two that covers the pages, and one more. */
    static method CountOrders(size: nat) returns (n: nat)
      requires size <= INDEX_LIMIT
      ensures 1 <= n <= LISTS && size <= Size(n - 1)
    {
      n := 0;
      Pow2Limit();
      while size > Size(n)
        invariant n <= 26
        decreases 26 - n
      {
        n := n + 1;
      }
      n := n + 1;
    }

    /**
     * `buddy_init`: every page starts as a live block of its own; those inside the free range are then
     * freed one by one.  The range ends are aligned in 32-bit arithmetic and 0 means no limit.
     */
    method Init(base0: Word32, size0: Word32, bits: nat, firstFree: Word32, lastFree: Word32) returns (ok: bool)
      requires bits < 32 && (5 <= bits ==> size0 / Pow2(bits) <= INDEX_LIMIT)
      modifies this
      ensures ok <==> base0 % Pow2(bits) == 0 && 5 <= bits <= 24 && size0 / Pow2(bits) >= 1
      ensures ok ==> fresh(all) && fresh(free) && Valid()
      ensures ok ==> base == base0 && pageBits == bits && indexMax == size0 / Pow2(bits)
      ensures ok ==> forall p: nat | p < indexMax ::
                if InitiallyFree(AddressOf(p), firstFree, lastFree, bits) then own[p].free else own[p] == Block(p, 0, false)
    {
      var pageSize := Pow2(bits);
      if base0 % pageSize != 0 {
        return false;
      }
      base, pageBits := base0, bits;
      QuotientRange(size0, pageSize);
      var size: nat := size0 / pageSize;
      indexMax := size;
      if bits < 5 || bits > 24 || size < 1 {
        return false;
      }
      hide Pow2, InitiallyFree;
      Reset();
      FreePages(firstFree, lastFree);
      return true;
    }

    /** The set-up of `buddy_init`: all words zero, all lists empty. */
    method Reset()
      requires 0 < indexMax <= INDEX_LIMIT && indexMax * Pow2(pageBits) <= ADDRESS_MOD
      modifies this`all, this`free, this`order, this`own, this`lists
      ensures fresh(all) && fresh(free) && Valid()
      ensures forall p: nat | p < indexMax :: own[p] == Block(p, 0, false)
    {
      order := CountOrders(indexMax);
      all := new Node[indexMax](_ => Node(0, 0));
      free := new int[LISTS](_ => -1);
      own := seq(indexMax, p requires 0 <= p => Block(p, 0, false));
      lists := seq(LISTS, _ => []);
      FreshTiling(own, order);
      hide Tiled, Coalesced, Size, Pow2;
    }

    /** The last loop of `buddy_init`. */
    method FreePages(firstFree: Word32, lastFree: Word32)
      requires Valid() && pageBits < 32 && forall p: nat | p < indexMax :: own[p] == Block(p, 0, false)
      modifies this`lists, this`own, all, free
      ensures Valid()
      ensures forall p: nat | p < indexMax ::
                if InitiallyFree(AddressOf(p), firstFree, lastFree, pageBits) then own[p].free else own[p] == Block(p, 0, false)
    {
      hide Size, Aligned, Linked, Listed, Fits, Tiled, Coalesced, InitiallyFree;
      var i := 0;
      while i < indexMax
        invariant 0 <= i <= indexMax && Valid()
        invariant forall p: nat | p < i ::
                    if InitiallyFree(AddressOf(p), firstFree, lastFree, pageBits) then own[p].free else own[p] == Block(p, 0, false)
        invariant forall p: nat | i <= p < indexMax :: own[p] == Block(p, 0, false)
      {
        var adr := AddressOf(i);
        if InitiallyFree(adr, firstFree, lastFree, pageBits) {
          PageOfAddress(i);
          SinglePage(i);
          var _ := Free(adr, -1);
        }
        i := i + 1;
      }
    }

    /** `buddy_add_free` */
    method AddFree(index: nat, o: nat)
      requires index < all.Length <= INDEX_LIMIT && o < free.Length && o < 32
      requires -1 <= free[o] < all.Length
      modifies all, free
      ensures all[..] == AddWords(old(all[..]), old(free[o]), index, o)
      ensures free[..] == old(free[..])[o := index]
    {
      var first := free[o];
      var next: Word32;
      if first == -1 {
        next := FLAG_FREE + index;
      } else {
        all[first] := Node(all[first].next, KeepHigh(all[first].prev, index));
        next := FLAG_FREE + first;
      }
      all[index] := Node(next, o * ORDER_UNIT + index);
      free[o] := index;
    }

    /** `buddy_remove_free` */
    method RemoveFree(index: nat, o: nat)
      requires index < all.Length && o < free.Length
      requires NextOf(all[index]) < all.Length && PrevOf(all[index]) < all.Length
      requires NextOf(all[index]) < INDEX_LIMIT && PrevOf(all[index]) < INDEX_LIMIT
      modifies all, free
      ensures all[..] == RemoveWords(old(all[..]), index)
      ensures free[..] == old(free[..])[o := if old(PrevOf(all[index])) != index then old(free[o])
                                             else if old(NextOf(all[index])) == index then -1 else old(NextOf(all[index]))]
    {
      var next, prev := NextOf(all[index]), PrevOf(all[index]);
      if prev == index {
        if next == index {
          free[o] := -1;
        } else {
          free[o] := next;
          all[next] := Node(all[next].next, KeepHigh(all[next].prev, next));
        }
      } else if next == index {
        all[prev] := Node(KeepHigh(all[prev].next, prev), all[prev].prev);
      } else {
        all[next] := Node(all[next].next, KeepHigh(all[next].prev, prev));
        all[prev] := Node(KeepHigh(all[prev].next, next), all[prev].prev);
      }
    }

    /** Take a free block out of its list; `own'` is the tiling that the caller will draw. */
    method Unlink(b: nat, o: nat, ghost own': seq<Block>)
      requires Sized() && Listed(all[..], free[..], lists, own) && FreeHead(own, b, o) && o < LISTS
      requires |own'| == |own|
      requires forall h: nat, q: nat :: FreeHead(own', h, q) <==> FreeHead(own, h, q) && !(h == b && q == o)
      modifies this`lists, this`own, all, free
      ensures Sized() && own == own' && Listed(all[..], free[..], lists, own)
      ensures forall h: nat | h < indexMax && (forall q: nat :: !FreeHead(old(own), h, q)) :: all[h] == old(all[h])
    {
      ghost var lists' := ListedUnlink(all[..], free[..], lists, own, own', b, o);
      hide Linked, RemoveWords, Size, Listed;
      RemoveFree(b, o);
      lists, own := lists', own';
    }

    /** Is the buddy of the block in hand a free block of the same order? */
    method FindFreeBuddy(index: nat, i: nat, ghost pending: int) returns (other: nat, found: bool)
      requires Consistent(index, pending) && index < indexMax && own[index] == Block(index, i, false)
      ensures other == Buddy(index, i) && other != index
      ensures found <==> FreeBuddy(own, own[index])
      ensures found ==> other < indexMax && own[other] == Block(other, i, true)
    {
      assert Fits(own, index, order);
      BuddyHalves(index, i);
      other := Buddy(index, i);
      hide Buddy, Size, Aligned, Linked;
      if other >= indexMax {
        return other, false;
      }
      BuddyIsHead(own, index, order);
      if own[other].free {
        assert Fits(own, other, order);
        ListedHead(all[..], free[..], lists, own, other);
      }
      found := IsFreeNode(all[other]) && OrderOf(all[other]) == i;
    }

    /** Join the block in hand with its free buddy. */
    method Absorb(index: nat, i: nat, other: nat, ghost pending: int) returns (m: nat)
      requires Consistent(index, pending) && index < indexMax && own[index] == Block(index, i, false)
      requires other == Buddy(index, i) && other < indexMax && own[other] == Block(other, i, true) && i + 1 < order
      modifies this`lists, this`own, all, free
      ensures m == (if other < index then other else index)
      ensures Consistent(m, pending) && own == Fill(old(own), Block(m, i + 1, false))
      ensures forall p: nat :: In(p, m, i + 1) <==> In(p, index, i) || In(p, other, i)
      ensures m < indexMax && own[m] == Block(m, i + 1, false)
    {
      m := if other < index then other else index;
      MergedBlock(own, index, order);
      assert Fits(own, index, order) && Fits(own, other, order);
      ghost var own' := Fill(own, Block(m, i + 1, false));
      MergedHeads(own, own', index, i, m, other);
      hide Buddy, Size, Aligned, Linked, Fits;
      Unlink(other, i, own');
    }

    /** The loop of `buddy_free`: join the block in hand with its free buddy as long as there is one. */
    method Join(start: nat, ghost pending: int) returns (index: nat, i: nat)
      requires Consistent(-1, pending) && start < indexMax && own[start].head == start && !own[start].free
      requires start != pending
      modifies this`lists, this`own, all, free
      ensures Consistent(index, pending) && index < indexMax && own[index] == Block(index, i, false)
      ensures i + 1 < order ==> !FreeBuddy(own, own[index])
      ensures Holding(old(own), own, start, old(own[start].order), index, i)
    {
      index := start;
      i := OrderOf(all[index]);
      ghost var own0, o0 := own, own[start].order;
      HoldingStart(own, start, order);
      assert Fits(own, start, order);
      hide Buddy, Size, Aligned, Linked, Fits, FreeBuddy;
      while i < order - 1
        invariant Consistent(index, pending) && index < indexMax && own[index] == Block(index, i, false)
        invariant i < order && Holding(own0, own, start, o0, index, i)
        decreases order - i
      {
        var other, found := FindFreeBuddy(index, i, pending);
        if !found {
          break;
        }
        BlockPages(own, other, order);
        ghost var was, h := own, index;
        index := Absorb(index, i, other, pending);
        HoldingMerge(own0, was, start, o0, h, i, index, other);
        i := i + 1;
      }
    }

    /** Enter the block in hand into its list. */
    method Link(index: nat, i: nat, ghost pending: int)
      requires Consistent(index, pending) && index < indexMax && own[index] == Block(index, i, false)
      requires i < order && (i + 1 < order ==> !FreeBuddy(own, own[index]))
      modifies this`lists, this`own, all, free
      ensures Consistent(-1, pending) && own == Fill(old(own), Block(index, i, true))
    {
      ghost var own' := Fill(own, Block(index, i, true));
      SameBlock(own, index, true, order);
      ReleasedBlock(own, index, order);
      BlockPages(own, index, order);
      ReleasedHeads(own, own', index, i);
      ListedAdd(all[..], free[..], lists, own, own', index, i);
      AddTouches(all[..], free[i], index, i);
      if free[i] != -1 {
        assert lists[i][0] in lists[i];
        assert FreeHead(own, free[i], i);
      }
      hide Size, Aligned, Linked, Fits, AddWords, Buddy;
      AddFree(index, i);
      lists := lists[i := [index] + lists[i]];
      own := own';
    }

    /** The page index of an address; both subtraction and shift are on 32-bit words. */
    function PageOf(adr: Word32): (p: nat)
      reads this`base, this`pageBits
    {
      var d := (adr - base) % ADDRESS_MOD;
      QuotientRange(d, Pow2(pageBits));
      d / Pow2(pageBits)
    }

    /** The address of a page. */
    function AddressOf(p: nat): Word32
      reads this`base, this`pageBits
    {
      (base + p * Pow2(pageBits)) % ADDRESS_MOD
    }

    lemma PageOfAddress(p: nat)
      requires Sized() && p < indexMax
      ensures PageOf(AddressOf(p)) == p
    {
      PageRoundTrip(base, p, Pow2(pageBits), indexMax);
    }

    /**
     * `buddy_free`.  An address that is not the head of a live block makes it return FALSE only if the page
     * word happens to look free, so callers must not pass an address inside a block.
     */
    method Free(adr: Word32, ghost pending: int) returns (ok: bool)
      requires Consistent(-1, pending)
      requires PageOf(adr) < indexMax ==> own[PageOf(adr)].head == PageOf(adr) && PageOf(adr) != pending
      modifies this`lists, this`own, all, free
      ensures Consistent(-1, pending)
      ensures ok <==> PageOf(adr) < indexMax && !old(own[PageOf(adr)].free)
      ensures ok ==> Freed(old(own), own, PageOf(adr), old(own[PageOf(adr)].order))
      ensures !ok ==> own == old(own) && lists == old(lists) && all[..] == old(all[..]) && free[..] == old(free[..])
    {
      var index := PageOf(adr);
      if index >= indexMax {
        return false;
      }
      if own[index].free {
        assert Fits(own, index, order);
        ListedHead(all[..], free[..], lists, own, index);
      }
      if IsFreeNode(all[index]) {
        return false;
      }
      var i;
      ghost var own0, o0 := own, own[index].order;
      ghost var start := index;
      index, i := Join(index, pending);
      ghost var mid := own;
      assert Fits(own, index, order);
      Link(index, i, pending);
      HoldingFreed(own0, mid, start, o0, index, i);
      return true;
    }

    /** The first loop of `buddy_allocate_subset`: clear the words, except of pages inside the wanted block. */
    method ClearWords(h1: nat, o1: nat, h2: nat, o2: nat)
      requires h1 + Size(o1) <= all.Length && h1 <= h2 && h2 + Size(o2) <= h1 + Size(o1)
      modifies all
      ensures forall p: nat | p < all.Length :: if In(p, h1, o1) && !(h2 < p < h2 + Size(o2)) then all[p] == Node(0, 0)
                                                else if In(p, h1, o1) then true else all[p] == old(all[p])
    {
      var i := 0;
      while i < Size(o1)
        invariant 0 <= i <= Size(o1) && (h1 + i <= h2 || h2 + Size(o2) <= h1 + i)
        invariant forall p: nat | p < all.Length && h1 <= p < h1 + i && !(h2 < p < h2 + Size(o2)) :: all[p] == Node(0, 0)
        invariant forall p: nat | p < all.Length && !In(p, h1, o1) :: all[p] == old(all[p])
        decreases Size(o1) - i
      {
        all[h1 + i] := Node(0, 0);
        if h1 + i == h2 {
          i := i + Size(o2) - 1;
        }
        i := i + 1;
      }
    }

    /** The second loop: give every unwanted page back, and the wanted block its order. */
    method GiveBack(h1: nat, o1: nat, h2: nat, o2: nat, ghost own0: seq<Block>)
      requires Consistent(-1, h2) && h1 + Size(o1) <= indexMax && h1 <= h2 && h2 + Size(o2) <= h1 + Size(o1)
      requires o2 < order && Carved(own0, own, h1, o1, h2, o2, 0)
      modifies this`lists, this`own, all, free
      ensures Valid() && Carved(own0, own, h1, o1, h2, o2, Size(o1))
    {
      hide Size, Aligned, Linked, Listed, Fits, Tiled, Coalesced;
      var i := 0;
      while i < Size(o1)
        invariant 0 <= i <= Size(o1) && (h1 + i <= h2 || h2 + Size(o2) <= h1 + i)
        invariant Consistent(-1, if h1 + i <= h2 then h2 else -1)
        invariant Carved(own0, own, h1, o1, h2, o2, i)
        decreases Size(o1) - i
      {
        if h1 + i == h2 {
          OrderWritten(all[..], own, h2, o2);
          ListedFrameAt(all[..], free[..], lists, own, h2, Node(all[h2].next, o2 * ORDER_UNIT));
          all[h2] := Node(all[h2].next, o2 * ORDER_UNIT);
          CarvedSkip(own0, own, h1, o1, h2, o2, i);
          i := i + Size(o2) - 1;
        } else {
          PageOfAddress(h1 + i);
          ghost var was := own;
          var _ := Free(AddressOf(h1 + i), if h1 + i <= h2 then h2 else -1);
          CarvedStep(own0, was, own, h1, o1, h2, o2, i);
        }
        i := i + 1;
      }
    }

    /** `buddy_allocate_subset`: take the block at h2 out of the free block at h1. */
    method AllocateSubset(h1: nat, o1: nat, h2: nat, o2: nat)
      requires Valid() && FreeHead(own, h1, o1) && o2 <= o1 && Aligned(h2, o2)
      requires h1 <= h2 && h2 + Size(o2) <= h1 + Size(o1)
      modifies this`lists, this`own, all, free
      ensures Valid() && Taken(old(own), own, h2, o2)
    {
      ghost var own0, own1 := own, Fill(own, Block(h1, o1, false));
      ghost var own2 := Shatter(own1, h1, o1, h2, o2);
      assert Fits(own, h1, order);
      SameBlock(own, h1, false, order);
      TiledShatter(own1, h1, o1, h2, o2, order);
      TakenHeads(own, own1, h1, o1);
      Unlink(h1, o1, own1);
      ghost var w := all[..];
      ClearWords(h1, o1, h2, o2);
      ShatteredWords(w, all[..], free[..], lists, own1, h1, o1, h2, o2);
      own := own2;
      assert Carved(own0, own, h1, o1, h2, o2, 0);
      GiveBack(h1, o1, h2, o2, own0);
      CarvedTaken(own0, own, h1, o1, h2, o2);
    }

    /** `buddy_get_order_from_size`: the smallest order of blocks that hold the size. */
    method OrderFromSize(size: nat) returns (o: nat)
      requires size <= ADDRESS_MOD / 2 && pageBits < 32
      ensures size <= Pow2(o + pageBits) && (o > 0 ==> size > Pow2(o - 1 + pageBits))
    {
      var ret := pageBits;
      while size > Pow2(ret)
        invariant pageBits <= ret && (ret > pageBits ==> size > Pow2(ret - 1))
        decreases size - Pow2(ret)
      {
        ret := ret + 1;
      }
      o := ret - pageBits;
    }

    /** `buddy_contains_order`: is there a free block of the order, or of a larger one? */
    method ContainsOrder(o: int, orLarger: bool) returns (found: bool)
      requires Valid()
      ensures found <==> exists q: nat, h: nat :: o >= 0 && (q == o || (orLarger && q > o)) && q < order && FreeHead(own, h, q)
    {
      if o < 0 || o >= order {
        return false;
      }
      var i: nat := o;
      while i < order
        invariant o <= i <= order && (i > o ==> orLarger)
        invariant forall q: nat, h: nat | o <= q < i :: !FreeHead(own, h, q)
      {
        if free[i] != -1 {
          ghost var h := FilledList(all[..], free[..], lists, own, i);
          assert FreeHead(own, h, i);
          return true;
        }
        EmptyList(all[..], free[..], lists, own, i);
        if !orLarger {
          return false;
        }
        i := i + 1;
      }
      found := false;
    }

    /**
     * `buddy_alloc`: it fails exactly when no aligned run of free pages of the order exists, and cuts the first on its
     * list of the smallest free blocks that are large enough.
     */
    method Alloc(o: nat) returns (ok: bool, adr: Word32)
      requires Valid()
      modifies this`lists, this`own, all, free
      ensures Valid()
      ensures ok <==> exists h: nat :: Aligned(h, o) && FreeRun(old(own), h, o)
      ensures ok ==> PageOf(adr) < indexMax && AddressOf(PageOf(adr)) == adr
      ensures ok ==> Aligned(PageOf(adr), o) && FreeRun(old(own), PageOf(adr), o) && Taken(old(own), own, PageOf(adr), o)
      ensures ok ==> BestFit(old(own), PageOf(adr), o)
      ensures ok ==> var q := old(own)[PageOf(adr)].order; q < |old(lists)| && old(lists)[q] != [] && old(lists)[q][0] == PageOf(adr)
      ensures !ok ==> own == old(own) && lists == old(lists) && all[..] == old(all[..]) && free[..] == old(free[..])
    {
      adr := 0;
      RunExistsIff(own, o, order);
      var i := o;
      while i < order
        invariant o <= i
        invariant forall q: nat | o <= q < i && q < order :: free[q] == -1
      {
        var ret := free[i];
        if ret != -1 {
          assert lists[i][0] in lists[i];
          assert FreeHead(own, ret, i);
          FreeBlockRun(own, ret, o, order);
          EmptyBetween(all[..], free[..], lists, own, o, i, order);
          AllocateSubset(ret, i, ret, o);
          PageOfAddress(ret);
          adr := AddressOf(ret);
          return true, adr;
        }
        i := i + 1;
      }
      NoFreeBlock(all[..], free[..], lists, own, o, order);
      return false, adr;
    }

    /**
     * `buddy_alloc_at`: for an aligned address inside the range it fails exactly when some requested page
     * is not free.
     */
    method AllocAt(adr: Word32, o: nat) returns (ok: bool, ret: Word32)
      requires Valid() && o + pageBits < 32
      modifies this`lists, this`own, all, free
      ensures Valid()
      ensures ok <==> (adr - base) % ADDRESS_MOD % Pow2(o + pageBits) == 0 && FreeRun(old(own), PageOf(adr), o)
      ensures ok ==> ret == adr && Aligned(PageOf(adr), o) && Taken(old(own), own, PageOf(adr), o)
      ensures !ok ==> own == old(own) && lists == old(lists) && all[..] == old(all[..]) && free[..] == old(free[..])
    {
      ret := 0;
      var d: nat := (adr - base) % ADDRESS_MOD;
      if d % Pow2(o + pageBits) != 0 {
        return false, ret;
      }
      AlignedAddress(base, adr, d, o, pageBits);
      var first := PageOf(adr);
      var index, i, found := FindCover(o, first);
      if found {
        FreeBlockRunAt(own, index, first, o, order);
        AllocateSubset(index, i, first, o);
        ret := AddressOf(first);
      }
      return found, ret;
    }

    /** The two loops of `buddy_alloc_at`: a free block that covers the 2^o pages from `first`. */
    method FindCover(o: nat, first: nat) returns (index: nat, i: nat, found: bool)
      requires Valid() && Aligned(first, o)
      ensures found <==> FreeRun(own, first, o)
      ensures found ==> o <= i < order && FreeHead(own, index, i)
      ensures found ==> index <= first && first + Size(o) <= index + Size(i)
    {
      hide Size, Aligned, FreeRun, Linked;
      var last := first + Size(o) - 1;
      i := o;
      found := false;
      index := 0;
      while i < order
        invariant o <= i
        invariant forall b: nat, q: nat | o <= q < i && q < order && FreeHead(own, b, q) :: !(b <= first && last < b + Size(q))
      {
        if free[i] != -1 {
          index, found := SearchList(i, first, last);
          if found {
            FreeBlockRunAt(own, index, first, o, order);
            return;
          }
        }
        EmptyList(all[..], free[..], lists, own, i);
        i := i + 1;
      }
      if FreeRun(own, first, o) {
        RunInFreeBlock(own, first, o, order);
      }
    }

    /** Walk list i for a block that covers the pages first..last; a link to itself ends the list. */
    method SearchList(i: nat, first: nat, last: nat) returns (index: nat, found: bool)
      requires Valid() && i < order && free[i] != -1
      ensures found ==> FreeHead(own, index, i) && index <= first && last < index + Size(i)
      ensures !found ==> forall b: nat | FreeHead(own, b, i) :: !(b <= first && last < b + Size(i))
    {
      ghost var list := lists[i];
      hide Size, Aligned, Tiled, Coalesced;
      index := free[i];
      ghost var j: nat := 0;
      while true
        invariant j < |list| && index == list[j]
        invariant forall q: nat | q < j :: !(list[q] <= first && last < list[q] + Size(i))
        decreases |list| - j
      {
        assert list[j] in list;
        if first >= index && last < index + Size(i) {
          return index, true;
        }
        LinkedReads(all[..], free[i], list, i, j);
        var next := NextOf(all[index]);
        if index == next {
          break;
        }
        index := next;
        j := j + 1;
      }
      forall b: nat | FreeHead(own, b, i) ensures !(b <= first && last < b + Size(i)) {
        var q :| 0 <= q < |list| && list[q] == b;
      }
      return index, false;
    }
  }

  lemma BlockPages(own: seq<Block>, h: nat, orders: nat)
    requires Tiled(own, orders) && h < |own| && own[h].head == h
    ensures forall p: nat | p < |own| && In(p, h, own[h].order) :: own[p] == own[h]
  {
    assert Fits(own, h, orders);
  }

  lemma PageRoundTrip(base: int, p: int, size: int, max: int)
    requires 0 <= base < ADDRESS_MOD && 0 <= p < max && 0 < size && max * size <= ADDRESS_MOD
    ensures ((base + p * size) % ADDRESS_MOD - base) % ADDRESS_MOD / size == p
  {
    MulNonNeg(p, size);
    MulMono(p + 1, max, size);
    Distribute(p, 1, size);
    WrapAround(base, p * size);
    DivModUnique(p * size, size, p, 0);
  }

  lemma WrapAround(base: int, d: int)
    requires 0 <= base < ADDRESS_MOD && 0 <= d < ADDRESS_MOD
    ensures ((base + d) % ADDRESS_MOD - base) % ADDRESS_MOD == d
  {
  }

  lemma ReleasedHeads(own: seq<Block>, own': seq<Block>, h: nat, o: nat)
    requires h < |own| && own[h] == Block(h, o, false) && own' == Fill(own, Block(h, o, true))
    requires forall p: nat | p < |own| && In(p, h, o) :: own[p] == own[h]
    ensures forall g: nat, q: nat :: FreeHead(own', g, q) <==> FreeHead(own, g, q) || (g == h && q == o)
    ensures forall q: nat :: !FreeHead(own, h, q)
  {
  }

  /** Insertion writes only the words of the new block and of the former first one. */
  lemma AddTouches(w: seq<Node>, first: int, index: nat, o: nat)
    requires index < |w| && index < INDEX_LIMIT && o < 32 && -1 <= first < |w| && first < INDEX_LIMIT
    ensures forall h: nat | h < |w| && h != index && h != first :: AddWords(w, first, index, o)[h] == w[h]
  {
  }

  lemma HoldingFreed(own0: seq<Block>, own: seq<Block>, h0: nat, o0: nat, h: nat, o: nat)
    requires Holding(own0, own, h0, o0, h, o)
    ensures Freed(own0, Fill(own, Block(h, o, true)), h0, o0)
  {
  }

  /** How far the second loop of `buddy_allocate_subset` has come: `n` pages have been passed. */
  ghost predicate Carved(own0: seq<Block>, own: seq<Block>, h1: nat, o1: nat, h2: nat, o2: nat, n: nat) {
    && |own| == |own0|
    && forall p: nat | p < |own| ::
         if In(p, h2, o2) then own[p] == Block(h2, o2, false)
         else if In(p, h1, o1) then if p < h1 + n then own[p].free else own[p] == Block(p, 0, false)
         else if own0[p].free then own[p].free else own[p] == own0[p]
  }

  lemma CarvedStep(own0: seq<Block>, own: seq<Block>, own': seq<Block>, h1: nat, o1: nat, h2: nat, o2: nat, n: nat)
    requires Carved(own0, own, h1, o1, h2, o2, n) && n < Size(o1) && h1 + n < |own|
    requires !In(h1 + n, h2, o2) && Freed(own, own', h1 + n, 0)
    ensures Carved(own0, own', h1, o1, h2, o2, n + 1)
  {
    assert Size(0) == 1;
  }

  lemma CarvedSkip(own0: seq<Block>, own: seq<Block>, h1: nat, o1: nat, h2: nat, o2: nat, n: nat)
    requires Carved(own0, own, h1, o1, h2, o2, n) && h1 + n == h2
    ensures Carved(own0, own, h1, o1, h2, o2, n + Size(o2))
  {
  }

  lemma CarvedTaken(own0: seq<Block>, own: seq<Block>, h1: nat, o1: nat, h2: nat, o2: nat)
    requires Carved(own0, own, h1, o1, h2, o2, Size(o1)) && h1 < |own0| && own0[h1].free
    requires forall p: nat | p < |own0| && In(p, h1, o1) :: own0[p] == own0[h1]
    ensures Taken(own0, own, h2, o2)
  {
  }

  lemma TakenHeads(own: seq<Block>, own': seq<Block>, h: nat, o: nat)
    requires h < |own| && own[h] == Block(h, o, true) && own' == Fill(own, Block(h, o, false))
    requires forall p: nat | p < |own| && In(p, h, o) :: own[p] == own[h]
    ensures forall g: nat, q: nat :: FreeHead(own', g, q) <==> FreeHead(own, g, q) && !(g == h && q == o)
  {
  }

  lemma OrderWritten(w: seq<Node>, own: seq<Block>, h: nat, o: nat)
    requires Worded(w, own, -1, h) && h < |own| && own[h] == Block(h, o, false) && o < 32
    ensures Worded(w[h := Node(w[h].next, o * ORDER_UNIT)], own, -1, -1)
  {
  }

  lemma ListedFrameAt(w: seq<Node>, heads: seq<int>, lists: seq<seq<nat>>, own: seq<Block>, h: nat, n: Node)
    requires Listed(w, heads, lists, own) && h < |w| == |own| && !own[h].free
    ensures Listed(w[h := n], heads, lists, own)
  {
    ListedFrame(w, w[h := n], heads, lists, own, own);
  }

  /** The cleared words describe the shattered tiling, whatever is left in the words inside the wanted block. */
  lemma ShatteredWords(w: seq<Node>, w': seq<Node>, heads: seq<int>, lists: seq<seq<nat>>, own: seq<Block>, h1: nat, o1: nat, h2: nat, o2: nat)
    requires Listed(w, heads, lists, own) && Worded(w, own, h1, -1) && |w'| == |w|
    requires h1 < |own| && own[h1] == Block(h1, o1, false) && (forall p: nat | p < |own| && In(p, h1, o1) :: own[p] == own[h1])
    requires h1 <= h2 && h2 + Size(o2) <= h1 + Size(o1)
    requires forall p: nat | p < |w| :: if In(p, h1, o1) && !(h2 < p < h2 + Size(o2)) then w'[p] == Node(0, 0)
                                        else if In(p, h1, o1) then true else w'[p] == w[p]
    ensures var own' := Shatter(own, h1, o1, h2, o2);
            Listed(w', heads, lists, own') && Worded(w', own', -1, h2)
  {
    var own' := Shatter(own, h1, o1, h2, o2);
    ListedFrame(w, w', heads, lists, own, own');
  }

  /** A free block starts with a free run of every smaller order. */
  lemma FreeBlockRun(own: seq<Block>, b: nat, o: nat, orders: nat)
    requires Tiled(own, orders) && b < |own| && own[b].head == b && own[b].free && o <= own[b].order
    ensures Aligned(b, o) && FreeRun(own, b, o) && Size(o) <= Size(own[b].order)
  {
    assert Fits(own, b, orders);
    AlignedDown(b, own[b].order, o);
    Pow2Mono(o, own[b].order);
    forall p: nat | In(p, b, o) ensures own[p].free {
      assert own[p] == own[b];
    }
  }

  lemma FreeBlockRunAt(own: seq<Block>, b: nat, h: nat, o: nat, orders: nat)
    requires Tiled(own, orders) && b < |own| && own[b].head == b && own[b].free
    requires b <= h && h + Size(o) <= b + Size(own[b].order)
    ensures FreeRun(own, h, o) && o <= own[b].order
  {
    assert Fits(own, b, orders);
    if own[b].order < o {
      Pow2Mono(own[b].order, o);
    }
    forall p: nat | In(p, h, o) ensures own[p].free {
      assert own[p] == own[b];
    }
  }

  lemma FilledList(w: seq<Node>, heads: seq<int>, lists: seq<seq<nat>>, own: seq<Block>, o: nat) returns (h: nat)
    requires Listed(w, heads, lists, own) && o < LISTS && heads[o] != -1
    ensures FreeHead(own, h, o)
  {
    h := lists[o][0];
    assert h in lists[o];
  }

  lemma EmptyList(w: seq<Node>, heads: seq<int>, lists: seq<seq<nat>>, own: seq<Block>, o: nat)
    requires Listed(w, heads, lists, own) && o < LISTS
    ensures heads[o] == -1 ==> forall b: nat :: !FreeHead(own, b, o)
  {
  }

  /** An aligned run of free pages lies in one free block. */
  lemma RunInFreeBlock(own: seq<Block>, h: nat, o: nat, orders: nat)
    requires Tiled(own, orders) && Coalesced(own, orders) && 0 < orders && |own| <= Size(orders - 1)
    requires Aligned(h, o) && FreeRun(own, h, o)
    ensures exists b: nat, q: nat :: o <= q < orders && FreeHead(own, b, q) && b <= h && h + Size(o) - 1 < b + Size(q)
  {
    FreeRunSmall(own, h, o, orders);
    RunInBlock(own, h, o, orders);
    assert Fits(own, h, orders);
    BlockContains(own, h, h, o, orders);
    assert FreeHead(own, own[h].head, own[h].order);
  }

  /** With the lists from order o to i empty there is no free block of these orders. */
  lemma EmptyBetween(w: seq<Node>, heads: seq<int>, lists: seq<seq<nat>>, own: seq<Block>, o: nat, i: nat, orders: nat)
    requires Listed(w, heads, lists, own) && Tiled(own, orders) && i <= orders <= LISTS
    requires forall q: nat | o <= q < i :: heads[q] == -1
    ensures forall p: nat | p < |own| && own[p].free :: own[p].order < o || own[p].order >= i
  {
    forall p: nat | p < |own| && own[p].free ensures own[p].order < o || own[p].order >= i {
      assert Fits(own, p, orders);
      assert FreeHead(own, own[p].head, own[p].order);
      assert own[p].head in lists[own[p].order];
    }
  }

  /** With the lists from order o up empty there is no free block of that order or more. */
  lemma NoFreeBlock(w: seq<Node>, heads: seq<int>, lists: seq<seq<nat>>, own: seq<Block>, o: nat, orders: nat)
    requires Listed(w, heads, lists, own) && Tiled(own, orders) && orders <= LISTS
    requires forall q: nat | o <= q < orders :: heads[q] == -1
    ensures forall p: nat | p < |own| && own[p].free :: own[p].order < o
  {
    EmptyBetween(w, heads, lists, own, o, orders, orders);
    forall p: nat | p < |own| && own[p].free ensures own[p].order < o {
      assert Fits(own, p, orders);
    }
  }

  /**
   * What best fit is for: as long as a free block of a smaller order holds the request, every larger order that
   * could be had before can be had afterwards.
   */
  lemma BestFitKeepsLarge(own: seq<Block>, own': seq<Block>, h: nat, o: nat, q: nat, orders: nat)
    requires Tiled(own, orders) && Coalesced(own, orders) && 0 < orders && |own| <= Size(orders - 1)
    requires BestFit(own, h, o) && Taken(own, own', h, o)
    requires exists p: nat :: p < |own| && own[p].free && o <= own[p].order < q
    ensures forall g: nat | Aligned(g, q) && FreeRun(own, g, q) :: FreeRun(own', g, q)
  {
    assert Fits(own, h, orders);
    Pow2Mono(o, own[h].order);
    assert forall p: nat | In(p, h, o) :: own[p] == own[h];
    forall g: nat | Aligned(g, q) && FreeRun(own, g, q) ensures FreeRun(own', g, q) {
      RunInFreeBlock(own, g, q, orders);
      var b: nat, k: nat :| q <= k < orders && FreeHead(own, b, k) && b <= g && g + Size(q) - 1 < b + Size(k);
      assert Fits(own, b, orders);
      forall p: nat | In(p, g, q) ensures own'[p].free {
        assert own[p] == own[b];
      }
    }
  }

  /** An address that is a multiple of the block size from the base is that of an aligned page. */
  lemma AlignedAddress(base: int, adr: int, d: int, o: nat, bits: nat)
    requires 0 <= base < ADDRESS_MOD && 0 <= adr < ADDRESS_MOD && d == (adr - base) % ADDRESS_MOD
    requires d % Pow2(o + bits) == 0
    ensures d / Pow2(bits) >= 0 && Aligned(d / Pow2(bits), o)
    ensures (base + d / Pow2(bits) * Pow2(bits)) % ADDRESS_MOD == adr
  {
    QuotientRange(d, Pow2(o + bits));
    Pow2Add(o, bits);
    var k := d / Pow2(o + bits);
    Assoc(k, Pow2(o), Pow2(bits));
    DivModUnique(d, Pow2(bits), k * Pow2(o), 0);
    MultipleAligned(k, o);
  }

  /** Merging takes exactly the buddy out of the free heads. */
  lemma MergedHeads(own: seq<Block>, own': seq<Block>, h: nat, o: nat, m: nat, b: nat)
    requires h < |own| && b < |own| && own[h] == Block(h, o, false) && own[b] == Block(b, o, true)
    requires own' == Fill(own, Block(m, o + 1, false))
    requires forall p: nat :: In(p, m, o + 1) <==> In(p, h, o) || In(p, b, o)
    requires forall p: nat | p < |own| && In(p, h, o) :: own[p] == own[h]
    requires forall p: nat | p < |own| && In(p, b, o) :: own[p] == own[b]
    ensures forall g: nat, q: nat :: FreeHead(own', g, q) <==> FreeHead(own, g, q) && !(g == b && q == o)
  {
    assert In(b, b, o);
  }

  /** The block in hand is made of the block being freed and of pages that were free; the rest is untouched. */
  ghost predicate Holding(own0: seq<Block>, own: seq<Block>, h0: nat, o0: nat, h: nat, o: nat) {
    && |own| == |own0|
    && forall p: nat | p < |own| ::
         if In(p, h, o) then own[p] == Block(h, o, false) && (In(p, h0, o0) || own0[p].free)
         else own[p] == own0[p] && !In(p, h0, o0)
  }

  lemma HoldingStart(own: seq<Block>, h: nat, orders: nat)
    requires Tiled(own, orders) && h < |own| && own[h].head == h && !own[h].free
    ensures Holding(own, own, h, own[h].order, h, own[h].order)
  {
    assert Fits(own, h, orders);
  }

  lemma HoldingMerge(own0: seq<Block>, own: seq<Block>, h0: nat, o0: nat, h: nat, o: nat, m: nat, b: nat)
    requires Holding(own0, own, h0, o0, h, o) && h < |own|
    requires b < |own| && own[b] == Block(b, o, true) && (forall p: nat | p < |own| && In(p, b, o) :: own[p] == own[b])
    requires forall p: nat :: In(p, m, o + 1) <==> In(p, h, o) || In(p, b, o)
    ensures Holding(own0, Fill(own, Block(m, o + 1, false)), h0, o0, m, o + 1)
  {
  }
}
