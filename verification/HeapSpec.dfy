/** Heaps as lists of adjacent blocks. */
module HeapSpec {

  /** `units` payload units of 8 bytes behind a marker of one unit. */
  datatype Block = Block(units: nat, taken: bool)

  /** The unit at which the marker of block k lies. */
  function Offset(bs: seq<Block>, k: nat): nat
    requires k <= |bs|
  {
    if k == 0 then 0 else Offset(bs, k - 1) + bs[k - 1].units + 1
  }

  function Total(bs: seq<Block>): nat {
    Offset(bs, |bs|)
  }

  /** No two adjacent blocks are free. */
  ghost predicate Coalesced(bs: seq<Block>) {
    forall k | 0 < k < |bs| :: bs[k - 1].taken || bs[k].taken
  }

  predicate Fits(b: Block, n: nat) {
    !b.taken && b.units >= n
  }

  /** The first of the smallest free blocks that hold n units. */
  ghost predicate Best(bs: seq<Block>, n: nat, k: nat) {
    && k < |bs| && Fits(bs[k], n)
    && forall j | 0 <= j < |bs| && Fits(bs[j], n) :: bs[k].units <= bs[j].units && (j < k ==> bs[k].units < bs[j].units)
  }

  /** Block k given out for n units; what is left becomes a block if it has room for a unit besides its marker. */
  function Alloced(bs: seq<Block>, k: nat, n: nat): seq<Block>
    requires k < |bs| && bs[k].units >= n
  {
    if bs[k].units - n > 1 then bs[..k] + [Block(n, true), Block(bs[k].units - n - 1, false)] + bs[k + 1..]
    else bs[k := Block(bs[k].units, true)]
  }

  /** The released block k and its free neighbours lie from First up to End. */
  function First(bs: seq<Block>, k: nat): (lo: nat)
    requires k < |bs|
    ensures lo <= k
  {
    if k > 0 && !bs[k - 1].taken then k - 1 else k
  }

  function End(bs: seq<Block>, k: nat): (hi: nat)
    requires k < |bs|
    ensures k < hi <= |bs|
  {
    if k + 1 < |bs| && !bs[k + 1].taken then k + 2 else k + 1
  }

  /** Blocks lo up to hi made one free block. */
  function Merged(bs: seq<Block>, lo: nat, hi: nat): seq<Block>
    requires lo < hi <= |bs|
  {
    TotalRest(bs[lo..hi]);
    bs[..lo] + [Block(Total(bs[lo..hi]) - 1, false)] + bs[hi..]
  }

  /** Block k released and joined with its free neighbours. */
  function Freed(bs: seq<Block>, k: nat): seq<Block>
    requires k < |bs|
  {
    Merged(bs, First(bs, k), End(bs, k))
  }

  // ----- what every operation keeps

  lemma {:induction false} OffsetAppend(a: seq<Block>, b: seq<Block>, k: nat)
    requires k <= |b|
    ensures Offset(a + b, |a| + k) == Offset(a, |a|) + Offset(b, k)
  {
    if k == 0 {
      OffsetPrefix(a, b, |a|);
    } else {
      OffsetAppend(a, b, k - 1);
    }
  }

  lemma {:induction false} OffsetPrefix(a: seq<Block>, b: seq<Block>, k: nat)
    requires k <= |a|
    ensures Offset(a + b, k) == Offset(a, k)
  {
    if k > 0 {
      OffsetPrefix(a, b, k - 1);
    }
  }

  lemma TotalRest(bs: seq<Block>)
    requires bs != []
    ensures Total(bs) == bs[0].units + 1 + Total(bs[1..])
  {
    assert bs == [bs[0]] + bs[1..];
    OffsetAppend([bs[0]], bs[1..], |bs| - 1);
    assert Offset([bs[0]], 1) == Offset([bs[0]], 0) + bs[0].units + 1;
  }

  lemma TotalAppend(a: seq<Block>, b: seq<Block>, c: seq<Block>)
    ensures Total(a + b + c) == Total(a) + Total(b) + Total(c)
  {
    OffsetAppend(a + b, c, |c|);
    OffsetAppend(a, b, |b|);
  }

  lemma TotalOne(b: Block)
    ensures Total([b]) == b.units + 1
  {
    assert Offset([b], 1) == Offset([b], 0) + b.units + 1;
  }

  lemma MergedTotal(bs: seq<Block>, lo: nat, hi: nat)
    requires lo < hi <= |bs|
    ensures Total(Merged(bs, lo, hi)) == Total(bs)
  {
    var a, b, c := bs[..lo], bs[lo..hi], bs[hi..];
    assert bs == a + b + c;
    TotalAppend(a, b, c);
    TotalRest(b);
    var m := Block(Total(b) - 1, false);
    TotalOne(m);
    TotalAppend(a, [m], c);
  }

  lemma AllocKeeps(bs: seq<Block>, k: nat, n: nat)
    requires Coalesced(bs) && k < |bs| && Fits(bs[k], n)
    ensures Coalesced(Alloced(bs, k, n)) && Total(Alloced(bs, k, n)) == Total(bs)
  {
    var cs := Alloced(bs, k, n);
    FreeUndoesAlloc(bs, k, n);
    MergedTotal(cs, First(cs, k), End(cs, k));
    forall j | 0 < j < |cs| ensures cs[j - 1].taken || cs[j].taken {
      if j > k + 1 && |cs| > |bs| {
        Neighbours(bs, j - 1);
      } else if j != k && j != k + 1 {
        Neighbours(bs, j);
      }
    }
  }

  lemma Neighbours(bs: seq<Block>, j: nat)
    requires Coalesced(bs) && 0 < j < |bs|
    ensures bs[j - 1].taken || bs[j].taken
  {
  }

  lemma FreeKeeps(bs: seq<Block>, k: nat)
    requires Coalesced(bs) && k < |bs|
    ensures Coalesced(Freed(bs, k)) && Total(Freed(bs, k)) == Total(bs)
  {
    var lo, hi, fs := First(bs, k), End(bs, k), Freed(bs, k);
    MergedTotal(bs, lo, hi);
    forall j | 0 < j < |fs| ensures fs[j - 1].taken || fs[j].taken {
      if j <= lo {
        Neighbours(bs, j);
      } else if j == lo + 1 {
        Neighbours(bs, hi);
      } else {
        Neighbours(bs, j + hi - lo - 1);
      }
    }
  }

  /** Releasing a block restores the list from before it was given out. */
  lemma FreeUndoesAlloc(bs: seq<Block>, k: nat, n: nat)
    requires Coalesced(bs) && k < |bs| && Fits(bs[k], n)
    ensures Freed(Alloced(bs, k, n), k) == bs
  {
    var cs := Alloced(bs, k, n);
    if k > 0 {
      Neighbours(bs, k);
    }
    if bs[k].units - n > 1 {
      var b1, b2 := Block(n, true), Block(bs[k].units - n - 1, false);
      assert First(cs, k) == k && End(cs, k) == k + 2 && cs[k..k + 2] == [b1, b2];
      TotalRest([b1, b2]);
      assert [b1, b2][1..] == [b2];
      TotalOne(b2);
    } else {
      if k + 1 < |bs| {
        Neighbours(bs, k + 1);
      }
      assert First(cs, k) == k && End(cs, k) == k + 1 && cs[k..k + 1] == [cs[k]];
      TotalOne(cs[k]);
    }
  }

  // ----- history independence

  /** The live blocks of a list that begins at unit `base`: where they are and how long. */
  function Live(bs: seq<Block>, base: nat): set<(nat, nat)> {
    if bs == [] then {}
    else (if bs[0].taken then {(base, bs[0].units)} else {}) + Live(bs[1..], base + bs[0].units + 1)
  }

  lemma {:induction false} LiveBeyond(bs: seq<Block>, base: nat, p: (nat, nat))
    requires p in Live(bs, base)
    ensures p.0 >= base
  {
    if bs != [] && p != (base, bs[0].units) {
      LiveBeyond(bs[1..], base + bs[0].units + 1, p);
    }
  }

  /** The live blocks alone decide the whole list: how it came about does not matter. */
  lemma {:induction false} LiveDecides(bs: seq<Block>, cs: seq<Block>, base: nat)
    requires Coalesced(bs) && Coalesced(cs) && Total(bs) == Total(cs) && Live(bs, base) == Live(cs, base)
    ensures bs == cs
  {
    if bs == [] || cs == [] {
      if bs != [] { TotalRest(bs); }
      if cs != [] { TotalRest(cs); }
    } else {
      FirstSame(bs, cs, base);
      RestLive(bs, cs, base);
      TotalRest(bs);
      TotalRest(cs);
      assert Coalesced(bs[1..]) by { TailCoalesced(bs); }
      assert Coalesced(cs[1..]) by { TailCoalesced(cs); }
      LiveDecides(bs[1..], cs[1..], base + bs[0].units + 1);
    }
  }

  lemma TailCoalesced(bs: seq<Block>)
    requires Coalesced(bs) && bs != []
    ensures Coalesced(bs[1..])
  {
    forall k | 0 < k < |bs[1..]| ensures bs[1..][k - 1].taken || bs[1..][k].taken {
      assert bs[k].taken || bs[k + 1].taken;
    }
  }

  lemma FirstSame(bs: seq<Block>, cs: seq<Block>, base: nat)
    requires bs != [] && cs != []
    requires Coalesced(bs) && Coalesced(cs) && Total(bs) == Total(cs) && Live(bs, base) == Live(cs, base)
    ensures bs[0] == cs[0]
  {
    if bs[0].taken {
      OnlyFirst(cs, base, bs[0].units);
    } else if cs[0].taken {
      OnlyFirst(bs, base, cs[0].units);
    } else if bs[0].units < cs[0].units {
      NotShorter(bs, cs, base);
    } else if cs[0].units < bs[0].units {
      NotShorter(cs, bs, base);
    }
  }

  lemma OnlyFirst(bs: seq<Block>, base: nat, u: nat)
    requires bs != [] && (base, u) in Live(bs, base)
    ensures bs[0] == Block(u, true)
  {
    if (base, u) in Live(bs[1..], base + bs[0].units + 1) {
      LiveBeyond(bs[1..], base + bs[0].units + 1, (base, u));
    }
  }

  lemma NotShorter(bs: seq<Block>, cs: seq<Block>, base: nat)
    requires bs != [] && cs != [] && !bs[0].taken && !cs[0].taken
    requires Coalesced(bs) && Total(bs) == Total(cs) && Live(bs, base) == Live(cs, base)
    ensures bs[0].units >= cs[0].units
  {
    if bs[0].units < cs[0].units {
      TotalRest(bs);
      TotalRest(cs);
      assert bs[1..] != [];
      assert bs[1].taken;
      var p := (base + bs[0].units + 1, bs[1].units);
      assert p in Live(bs[1..], base + bs[0].units + 1);
      assert p in Live(cs[1..], base + cs[0].units + 1);
      LiveBeyond(cs[1..], base + cs[0].units + 1, p);
    }
  }

  lemma RestLive(bs: seq<Block>, cs: seq<Block>, base: nat)
    requires bs != [] && cs != [] && bs[0] == cs[0] && Live(bs, base) == Live(cs, base)
    ensures Live(bs[1..], base + bs[0].units + 1) == Live(cs[1..], base + bs[0].units + 1)
  {
    var next := base + bs[0].units + 1;
    forall p | p in Live(bs[1..], next) ensures p in Live(cs[1..], next) {
      LiveBeyond(bs[1..], next, p);
      assert p in Live(cs, base);
    }
    forall p | p in Live(cs[1..], next) ensures p in Live(bs[1..], next) {
      LiveBeyond(cs[1..], next, p);
      assert p in Live(bs, base);
    }
  }

  lemma {:induction false} LiveAppend(a: seq<Block>, b: seq<Block>, base: nat)
    ensures Live(a + b, base) == Live(a, base) + Live(b, base + Total(a))
  {
    if a == [] {
      assert a + b == b;
    } else {
      assert (a + b)[1..] == a[1..] + b;
      LiveAppend(a[1..], b, base + a[0].units + 1);
      TotalRest(a);
    }
  }

  lemma {:induction false} LiveWithin(bs: seq<Block>, base: nat, p: (nat, nat))
    requires p in Live(bs, base)
    ensures p.0 + p.1 + 1 <= base + Total(bs)
  {
    TotalRest(bs);
    if p in Live(bs[1..], base + bs[0].units + 1) {
      LiveWithin(bs[1..], base + bs[0].units + 1, p);
    }
  }

  lemma LiveOne(b: Block, base: nat)
    ensures Live([b], base) == if b.taken then {(base, b.units)} else {}
  {
    assert [b][1..] == [];
  }

  lemma LiveThree(a: seq<Block>, b: seq<Block>, c: seq<Block>)
    ensures Live(a + b + c, 0) == Live(a, 0) + Live(b, Total(a)) + Live(c, Total(a) + Total(b))
  {
    LiveAppend(a + b, c, 0);
    LiveAppend(a, b, 0);
    OffsetAppend(a, b, |b|);
  }

  lemma FreeNotLive(bs: seq<Block>, base: nat)
    requires |bs| <= 1 && (bs != [] ==> !bs[0].taken)
    ensures Live(bs, base) == {}
  {
    if bs != [] {
      assert bs == [bs[0]];
      LiveOne(bs[0], base);
    }
  }

  lemma {:induction false} OffsetBetween(bs: seq<Block>, lo: nat, k: nat)
    requires lo <= k <= |bs|
    ensures Offset(bs, k) == Offset(bs, lo) + Total(bs[lo..k])
    decreases k
  {
    if lo == k {
      assert bs[lo..k] == [];
    } else {
      OffsetBetween(bs, lo, k - 1);
      assert bs[lo..k] == bs[lo..k - 1] + [bs[k - 1]];
      OffsetAppend(bs[lo..k - 1], [bs[k - 1]], 1);
      TotalOne(bs[k - 1]);
    }
  }

  /** Of a block and its free neighbours only the block itself is live. */
  lemma MiddleLive(bs: seq<Block>, k: nat)
    requires k < |bs| && bs[k].taken
    ensures var lo := First(bs, k);
      Live(bs[lo..End(bs, k)], Offset(bs, lo)) == {(Offset(bs, k), bs[k].units)}
  {
    hide Live, Offset;
    var lo, hi := First(bs, k), End(bs, k);
    OffsetBetween(bs, lo, k);
    OneLive(bs[lo..k], bs[k], bs[k + 1..hi], Offset(bs, lo));
    assert bs[lo..hi] == bs[lo..k] + [bs[k]] + bs[k + 1..hi];
  }

  lemma OffsetZero(bs: seq<Block>)
    ensures Offset(bs, 0) == 0
  {
  }

  lemma OneLive(left: seq<Block>, b: Block, right: seq<Block>, base: nat)
    requires |left| <= 1 && |right| <= 1 && (left != [] ==> !left[0].taken) && (right != [] ==> !right[0].taken)
    ensures b.taken ==> Live(left + [b] + right, base) == {(base + Total(left), b.units)}
  {
    hide Live, Offset;
    LiveAppend(left + [b], right, base);
    LiveAppend(left, [b], base);
    FreeNotLive(left, base);
    FreeNotLive(right, base + Total(left + [b]));
    LiveOne(b, base + Total(left));
  }

  /** Releasing takes exactly the released block out of the live ones. */
  lemma FreedLive(bs: seq<Block>, k: nat)
    requires k < |bs| && bs[k].taken
    ensures (Offset(bs, k), bs[k].units) in Live(bs, 0)
    ensures Live(Freed(bs, k), 0) == Live(bs, 0) - {(Offset(bs, k), bs[k].units)}
  {
    hide Live, First, End, Offset, Total;
    var lo, hi, p := First(bs, k), End(bs, k), (Offset(bs, k), bs[k].units);
    var a, b, c := bs[..lo], bs[lo..hi], bs[hi..];
    assert bs == a + b + c;
    OffsetBetween(bs, 0, lo);
    assert bs[0..lo] == a && Offset(bs, 0) == 0 by { OffsetZero(bs); }
    MiddleLive(bs, k);
    LiveThree(a, b, c);
    TotalRest(b);
    var m := Block(Total(b) - 1, false);
    TotalOne(m);
    LiveOne(m, Total(a));
    LiveThree(a, [m], c);
    Apart(a, b, c, p);
    WithoutOne(Live(a, 0), Live(c, Total(a) + Total(b)), p);
  }

  lemma WithoutOne(a: set<(nat, nat)>, c: set<(nat, nat)>, p: (nat, nat))
    requires p !in a && p !in c
    ensures a + {p} + c - {p} == a + {} + c
  {
  }

  /** Live blocks of three adjacent parts of a heap do not coincide. */
  lemma Apart(a: seq<Block>, b: seq<Block>, c: seq<Block>, p: (nat, nat))
    requires p in Live(b, Total(a))
    ensures p !in Live(a, 0) && p !in Live(c, Total(a) + Total(b))
  {
    LiveBeyond(b, Total(a), p);
    LiveWithin(b, Total(a), p);
    if p in Live(a, 0) {
      LiveWithin(a, 0, p);
    }
    if p in Live(c, Total(a) + Total(b)) {
      LiveBeyond(c, Total(a) + Total(b), p);
    }
  }

  /** Giving out adds exactly the given block, which lies where the free one lay and has at least n units. */
  lemma AllocedLive(bs: seq<Block>, k: nat, n: nat)
    requires Coalesced(bs) && k < |bs| && Fits(bs[k], n)
    ensures var cs := Alloced(bs, k, n);
      && k < |cs| && Offset(cs, k) == Offset(bs, k) && (cs[k].units == n || (cs[k].units == n + 1 && bs[k].units == n + 1))
      && (Offset(bs, k), cs[k].units) !in Live(bs, 0)
      && Live(cs, 0) == Live(bs, 0) + {(Offset(bs, k), cs[k].units)}
  {
    hide Live, Freed;
    var cs := Alloced(bs, k, n);
    FreeUndoesAlloc(bs, k, n);
    FreedLive(cs, k);
    assert cs[..k] == bs[..k];
    OffsetPrefix(bs[..k], bs[k..], k);
    OffsetPrefix(cs[..k], cs[k..], k);
    assert bs == bs[..k] + bs[k..] && cs == cs[..k] + cs[k..];
  }

  /** With nothing live, everything is one free block again. */
  lemma AllReleased(bs: seq<Block>)
    requires bs != [] && Coalesced(bs) && Live(bs, 0) == {}
    ensures bs == [Block(Total(bs) - 1, false)]
  {
    TotalRest(bs);
    var cs := [Block(Total(bs) - 1, false)];
    TotalRest(cs);
    LiveDecides(bs, cs, 0);
  }
}
