/** Level 1 of the region allocator: free regions of whole megabytes. */
module RegionLevel1 {
  import opened Arith
  import opened RegionSpec

  const MB_BITS := 20

  /** Joining never has to look across the ends of the address space. */
  ghost predicate OneEnd(rs: seq<Region>, r: Region) {
    !((Covers(rs, 0) || In(r, 0)) && (Covers(rs, ADDRESS_MOD - 1) || In(r, ADDRESS_MOD - 1)))
  }

  /** `size` free addresses in a row. */
  ghost predicate FreeRun(rs: seq<Region>, first: int, size: int) {
    forall a | first <= a < first + size :: Covers(rs, a)
  }

  /** Of the first n regions this is the first of the smallest that are large enough. */
  ghost predicate FirstBest(rs: seq<Region>, size: int, best: nat, n: nat)
    requires n <= |rs|
  {
    && best < n && Length(rs[best]) >= size
    && forall k | 0 <= k < n && Length(rs[k]) >= size ::
         Length(rs[best]) <= Length(rs[k]) && (k < best ==> Length(rs[best]) < Length(rs[k]))
  }

  /** The first of the smallest regions that are large enough starts here. */
  ghost predicate BestStart(rs: seq<Region>, size: int, start: int) {
    exists best: nat :: best < |rs| && FirstBest(rs, size, best, |rs|) && rs[best].start == start
  }

  class Level1 {
    /** `free_megs`, head first */
    var freeMegs: seq<Region>

    constructor ()
      ensures freeMegs == []
    {
      freeMegs := [];
    }

    /** `mreg_level1_split`: cut `from`, return one part and put the other on the list. */
    method Split(from: Region, size: int, keepFirst: bool) returns (kept: Region)
      requires Spaced(freeMegs) && Megs(from) && 0 < size < Length(from) && size % MB == 0
      requires forall k | 0 <= k < |freeMegs| :: Apart(Part(from, size, !keepFirst), freeMegs[k])
      modifies this
      ensures kept == Part(from, size, keepFirst) && Megs(kept)
      ensures freeMegs == [Part(from, size, !keepFirst)] + old(freeMegs) && Spaced(freeMegs)
      ensures forall a :: Covers(freeMegs, a) <==> Covers(old(freeMegs), a) || (In(from, a) && !In(kept, a))
    {
      var second := Region(from.start + size, from.end);
      var first := Region(from.start, from.start + size - 1);
      MegsCut(from, size);
      var other := if keepFirst then second else first;
      SpacedAdded(other, freeMegs);
      forall a ensures Covers([other] + freeMegs, a) <==> In(other, a) || Covers(freeMegs, a) {
        CoversAdded(other, freeMegs, a);
      }
      freeMegs := [other] + freeMegs;
      kept := if keepFirst then first else second;
    }

    /** The search of `mreg_level1_allocate`: the first of the smallest regions that are large enough. */
    method FindBest(size: int) returns (best: int)
      requires Spaced(freeMegs)
      ensures best == -1 ==> forall k | 0 <= k < |freeMegs| :: Length(freeMegs[k]) < size
      ensures best != -1 ==> 0 <= best < |freeMegs| && FirstBest(freeMegs, size, best, |freeMegs|)
    {
      best := -1;
      var i := 0;
      while i < |freeMegs|
        invariant 0 <= i <= |freeMegs|
        invariant best == -1 ==> forall k | 0 <= k < i :: Length(freeMegs[k]) < size
        invariant best != -1 ==> 0 <= best < i && FirstBest(freeMegs, size, best, i)
      {
        if Length(freeMegs[i]) >= size {
          if best == -1 || Length(freeMegs[i]) < Length(freeMegs[best]) {
            best := i;
          }
        }
        i := i + 1;
      }
    }

    /** `mreg_level1_allocate` */
    method Allocate(count: nat) returns (ok: bool, r: Region)
      requires Spaced(freeMegs) && 0 < count && count * MB < ADDRESS_MOD
      modifies this
      ensures Spaced(freeMegs)
      ensures ok <==> exists first :: FreeRun(old(freeMegs), first, count * MB)
      ensures ok ==> Megs(r) && Length(r) == count * MB
      ensures ok ==> BestStart(old(freeMegs), count * MB, r.start)
      ensures ok ==> forall a | In(r, a) :: Covers(old(freeMegs), a)
      ensures forall a :: Covers(freeMegs, a) <==> Covers(old(freeMegs), a) && !(ok && In(r, a))
      ensures !ok ==> freeMegs == old(freeMegs)
    {
      var size := count * MB;
      ghost var rs := freeMegs;
      var best := FindBest(size);
      if best == -1 {
        NoRun(rs, size);
        return false, Region(0, 0);
      }
      r := TakeOut(best);
      RegionIsRun(rs, best, size);
      if Length(r) > size {
        r := Split(r, size, true);
      }
      ok := true;
    }

    /** `list_remove` */
    method TakeOut(i: nat) returns (r: Region)
      requires Spaced(freeMegs) && i < |freeMegs|
      modifies this
      ensures r == old(freeMegs)[i] && freeMegs == Without(old(freeMegs), i) && Spaced(freeMegs)
      ensures forall k | 0 <= k < |freeMegs| :: Apart(r, freeMegs[k])
      ensures forall a :: Covers(old(freeMegs), a) <==> Covers(freeMegs, a) || In(r, a)
      ensures forall a :: !(Covers(freeMegs, a) && In(r, a))
    {
      r := freeMegs[i];
      SpacedWithout(freeMegs, i);
      forall a ensures Covers(freeMegs, a) <==> Covers(Without(freeMegs, i), a) || In(r, a) {
        CoversWithout(freeMegs, i, a);
      }
      freeMegs := Without(freeMegs, i);
    }

    /** `mreg_level1_allocate_at` */
    method AllocateAt(adr: int, count: nat) returns (ok: bool, r: Region)
      requires Spaced(freeMegs) && 0 <= adr && 0 < count && adr + count * MB <= ADDRESS_MOD
      modifies this
      ensures Spaced(freeMegs)
      ensures ok <==> adr % MB == 0 && FreeRun(old(freeMegs), adr, count * MB)
      ensures ok ==> r == Region(adr, adr + count * MB - 1) && Megs(r) && forall a | In(r, a) :: Covers(old(freeMegs), a)
      ensures forall a :: Covers(freeMegs, a) <==> Covers(old(freeMegs), a) && !(ok && In(r, a))
      ensures !ok ==> freeMegs == old(freeMegs)
    {
      var length := count * MB;
      var end := adr + length - 1;
      ok, r := false, Region(0, 0);
      if adr % MB != 0 {
        return;
      }
      var i := FindCovering(adr, end);
      if i == -1 {
        return;
      }
      ok := true;
      InsideIsRun(freeMegs, i, adr, length);
      r := TakeOut(i);
      if r.start < adr {
        DivModUnique(adr - r.start, MB, adr / MB - r.start / MB, 0);
        r := Split(r, adr - r.start, false);
      }
      if r.end > end {
        r := Split(r, end - r.start + 1, true);
      }
    }

    /** The search of `mreg_level1_allocate_at`. */
    method FindCovering(adr: int, end: int) returns (i: int)
      requires Spaced(freeMegs) && adr <= end
      ensures i == -1 ==> !FreeRun(freeMegs, adr, end - adr + 1)
      ensures i != -1 ==> 0 <= i < |freeMegs| && freeMegs[i].start <= adr && end <= freeMegs[i].end
    {
      i := 0;
      while i < |freeMegs|
        invariant 0 <= i <= |freeMegs|
        invariant forall k | 0 <= k < i :: !(freeMegs[k].start <= adr && end <= freeMegs[k].end)
      {
        if freeMegs[i].start <= adr && end <= freeMegs[i].end {
          return;
        }
        i := i + 1;
      }
      i := -1;
      if FreeRun(freeMegs, adr, end - adr + 1) {
        forall a | adr <= a <= end ensures Covers(freeMegs, a) {
        }
        RunInOneRegion(freeMegs, adr, end);
      }
    }

    /** `mreg_find_ending` */
    method FindEnding(end: int) returns (i: int)
      ensures i == -1 ==> forall k | 0 <= k < |freeMegs| :: freeMegs[k].end != end
      ensures i != -1 ==> 0 <= i < |freeMegs| && freeMegs[i].end == end
    {
      i := 0;
      while i < |freeMegs|
        invariant 0 <= i <= |freeMegs| && forall k | 0 <= k < i :: freeMegs[k].end != end
      {
        if freeMegs[i].end == end {
          return;
        }
        i := i + 1;
      }
      i := -1;
    }

    /** `mreg_find_starting` */
    method FindStarting(start: int) returns (i: int)
      ensures i == -1 ==> forall k | 0 <= k < |freeMegs| :: freeMegs[k].start != start
      ensures i != -1 ==> 0 <= i < |freeMegs| && freeMegs[i].start == start
    {
      i := 0;
      while i < |freeMegs|
        invariant 0 <= i <= |freeMegs| && forall k | 0 <= k < i :: freeMegs[k].start != start
      {
        if freeMegs[i].start == start {
          return;
        }
        i := i + 1;
      }
      i := -1;
    }

    /** `mreg_level1_free`: put a region back and join it with the free ones on both sides. */
    method Free(r: Region)
      requires Spaced(freeMegs) && Megs(r) && OneEnd(freeMegs, r)
      requires forall k | 0 <= k < |freeMegs| :: Disjoint(freeMegs[k], r)
      modifies this
      ensures Spaced(freeMegs)
      ensures forall a :: Covers(freeMegs, a) <==> Covers(old(freeMegs), a) || In(r, a)
    {
      ghost var rs := freeMegs;
      freeMegs := [r] + freeMegs;
      var m := JoinBefore(r, rs);
      ghost var ts := freeMegs;
      var j := FindStarting(Address(freeMegs[m].end + 1));
      NoneAcrossEnd(rs, r, ts, m, j);
      if j != -1 {
        var u := Region(freeMegs[m].start, freeMegs[j].end);
        TrailingJoined(ts, m, j);
        JoinedCovers(ts, m, j);
        freeMegs := Without(freeMegs[m := u], j);
      } else {
        TrailingIsSpaced(ts, m);
      }
    }

    /** The first half: join the region at the head of the list with the one that ends before it. */
    method JoinBefore(r: Region, ghost rs: seq<Region>) returns (m: nat)
      requires freeMegs == [r] + rs && Spaced(rs) && Megs(r) && OneEnd(rs, r)
      requires forall k | 0 <= k < |rs| :: Disjoint(rs[k], r)
      modifies this
      ensures Trailing(freeMegs, m) && freeMegs[m].end == r.end
      ensures forall a :: Covers(freeMegs, a) <==> Covers(rs, a) || In(r, a)
    {
      hide Covers, In, Spaced, Trailing, OneEnd;
      var i := FindEnding(Address(r.start - 1));
      if i != -1 {
        NoneBeforeStart(rs, r, i);
        var t := freeMegs[i];
        ExtendedTrails(rs, i - 1, r);
        ExtendedCovers(rs, i - 1, r);
        freeMegs := Without(freeMegs, 0);
        assert freeMegs == rs;
        m := i - 1;
        freeMegs := freeMegs[m := Region(t.start, r.end)];
      } else {
        m := 0;
        NothingBefore(rs, r);
        AddedTrails(rs, r);
        AddedCovers(rs, r);
      }
    }
  }

  lemma ExtendedCovers(rs: seq<Region>, i: nat, r: Region)
    requires i < |rs| && rs[i].start <= rs[i].end && rs[i].end + 1 == r.start <= r.end
    ensures forall a :: Covers(rs[i := Region(rs[i].start, r.end)], a) <==> Covers(rs, a) || In(r, a)
  {
    forall a ensures Covers(rs[i := Region(rs[i].start, r.end)], a) <==> Covers(rs, a) || In(r, a) {
      CoversUpdate(rs, i, Region(rs[i].start, r.end), a);
      CoversWithout(rs, i, a);
    }
  }

  lemma AddedCovers(rs: seq<Region>, r: Region)
    ensures forall a :: Covers([r] + rs, a) <==> Covers(rs, a) || In(r, a)
  {
    forall a ensures Covers([r] + rs, a) <==> Covers(rs, a) || In(r, a) {
      CoversAdded(r, rs, a);
    }
  }

  /** The region of an end of the address space has that address. */
  lemma Edges(rs: seq<Region>, i: nat)
    requires i < |rs| && Proper(rs[i])
    ensures rs[i].start == 0 ==> Covers(rs, 0)
    ensures rs[i].end == ADDRESS_MOD - 1 ==> Covers(rs, ADDRESS_MOD - 1)
  {
    if rs[i].start == 0 {
      assert In(rs[i], 0);
    }
    if rs[i].end == ADDRESS_MOD - 1 {
      assert In(rs[i], ADDRESS_MOD - 1);
    }
  }

  lemma NothingBefore(rs: seq<Region>, r: Region)
    requires Megs(r) && Spaced(rs) && forall k | 0 <= k < |[r] + rs| :: ([r] + rs)[k].end != Address(r.start - 1)
    ensures forall k | 0 <= k < |rs| :: rs[k].end + 1 != r.start
  {
    forall k | 0 <= k < |rs| ensures rs[k].end + 1 != r.start {
      assert ([r] + rs)[k + 1] == rs[k];
    }
  }

  /** The region found to end before r is another one, and really lies before it. */
  lemma NoneBeforeStart(rs: seq<Region>, r: Region, i: nat)
    requires Spaced(rs) && Megs(r) && OneEnd(rs, r) && i <= |rs|
    requires ([r] + rs)[i].end == Address(r.start - 1)
    ensures i > 0 && rs[i - 1].start <= rs[i - 1].end && rs[i - 1].end + 1 == r.start
  {
    if i > 0 {
      Edges(rs, i - 1);
    }
  }

  lemma NoneAcrossEnd(rs: seq<Region>, r: Region, ts: seq<Region>, m: nat, j: int)
    requires Megs(r) && OneEnd(rs, r) && Trailing(ts, m) && ts[m].end == r.end
    requires forall a :: Covers(ts, a) <==> Covers(rs, a) || In(r, a)
    requires j == -1 ==> forall k | 0 <= k < |ts| :: ts[k].start != Address(r.end + 1)
    requires j != -1 ==> 0 <= j < |ts| && ts[j].start == Address(r.end + 1)
    ensures j == -1 ==> forall k | 0 <= k < |ts| :: ts[k].start != r.end + 1
    ensures j != -1 ==> j != m && ts[j].start == r.end + 1
  {
    forall k | 0 <= k < |ts| ensures Proper(ts[k]) && (ts[k].start == 0 ==> Covers(ts, 0)) {
      if k != m {
        WithoutAt(ts, m, k);
      }
      Edges(ts, k);
    }
  }

  lemma JoinedCovers(ts: seq<Region>, m: nat, j: nat)
    requires Trailing(ts, m) && j < |ts| && j != m && ts[j].start == ts[m].end + 1
    ensures forall a :: Covers(Without(ts[m := Region(ts[m].start, ts[j].end)], j), a) <==> Covers(ts, a)
  {
    var u := Region(ts[m].start, ts[j].end);
    var us := ts[m := u];
    WithoutAt(ts, m, j);
    forall a ensures Covers(Without(us, j), a) <==> Covers(ts, a) {
      var ws := Without(us, j);
      if Covers(ws, a) {
        var k :| 0 <= k < |ws| && In(ws[k], a);
        var i := if k < j then k else k + 1;
        assert ws[k] == us[i];
        assert In(ts[i], a) || In(ts[m], a) || In(ts[j], a);
      }
      if Covers(ts, a) {
        var i :| 0 <= i < |ts| && In(ts[i], a);
        var n := if i == j then m else i;
        assert In(us[n], a);
        assert ws[if n < j then n else n - 1] == us[n];
      }
    }
  }

  /** The first or the second part of a region cut behind `size` addresses. */
  function Part(r: Region, size: int, first: bool): Region {
    if first then Region(r.start, r.start + size - 1) else Region(r.start + size, r.end)
  }

  lemma MegsCut(r: Region, size: int)
    requires Megs(r) && 0 < size < Length(r) && size % MB == 0
    ensures Megs(Region(r.start, r.start + size - 1)) && Megs(Region(r.start + size, r.end))
  {
    DivModUnique(r.start + size, MB, r.start / MB + size / MB, 0);
  }

  /** Without a region of the size there is no run of free addresses of the size. */
  lemma NoRun(rs: seq<Region>, size: int)
    requires Spaced(rs) && size > 0 && forall k | 0 <= k < |rs| :: Length(rs[k]) < size
    ensures !exists first :: FreeRun(rs, first, size)
  {
    if first :| FreeRun(rs, first, size) {
      forall a | first <= a <= first + size - 1 ensures Covers(rs, a) {
      }
      RunInOneRegion(rs, first, first + size - 1);
    }
  }

  lemma InsideIsRun(rs: seq<Region>, i: nat, adr: int, length: int)
    requires i < |rs| && rs[i].start <= adr && adr + length - 1 <= rs[i].end
    ensures FreeRun(rs, adr, length)
  {
    forall a | adr <= a < adr + length ensures Covers(rs, a) {
      assert In(rs[i], a);
    }
  }

  lemma RegionIsRun(rs: seq<Region>, i: nat, size: int)
    requires Spaced(rs) && i < |rs| && Length(rs[i]) >= size
    ensures FreeRun(rs, rs[i].start, size)
  {
    forall a | rs[i].start <= a < rs[i].start + size ensures Covers(rs, a) {
      assert In(rs[i], a);
    }
  }
}
