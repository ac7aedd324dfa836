/** Lists of address regions, and the addresses they cover. */
module RegionSpec {

  const ADDRESS_MOD := 0x1_0000_0000
  const MB := 0x10_0000

  /** Addresses are 32-bit words. */
  function Address(x: int): int {
    x % ADDRESS_MOD
  }

  /** First and last address. */
  datatype Region = Region(start: int, end: int)

  predicate In(r: Region, a: int) {
    r.start <= a <= r.end
  }

  function Length(r: Region): int {
    r.end - r.start + 1
  }

  predicate Proper(r: Region) {
    0 <= r.start <= r.end < ADDRESS_MOD
  }

  /** Whole megabytes. */
  predicate Megs(r: Region) {
    Proper(r) && r.start % MB == 0 && (r.end + 1) % MB == 0
  }

  predicate Disjoint(r: Region, s: Region) {
    r.end < s.start || s.end < r.start
  }

  /** Neither overlapping nor adjacent. */
  predicate Apart(r: Region, s: Region) {
    r.end + 1 < s.start || s.end + 1 < r.start
  }

  /** Some region of the list has the address. */
  ghost predicate Covers(rs: seq<Region>, a: int) {
    exists i :: 0 <= i < |rs| && In(rs[i], a)
  }

  /** Free regions as the allocator keeps them: whole megabytes, none adjacent to another. */
  ghost predicate Spaced(rs: seq<Region>) {
    && (forall i | 0 <= i < |rs| :: Megs(rs[i]))
    && forall i, j | 0 <= i < j < |rs| :: Apart(rs[i], rs[j])
  }

  function Without(rs: seq<Region>, i: nat): (r: seq<Region>)
    requires i < |rs|
    ensures |r| == |rs| - 1
  {
    rs[..i] + rs[i + 1..]
  }

  lemma CoversWithout(rs: seq<Region>, i: nat, a: int)
    requires i < |rs|
    ensures Covers(rs, a) <==> Covers(Without(rs, i), a) || In(rs[i], a)
  {
    var ws := Without(rs, i);
    if k :| 0 <= k < |rs| && In(rs[k], a) && k != i {
      assert In(ws[if k < i then k else k - 1], a);
    }
    if k :| 0 <= k < |ws| && In(ws[k], a) {
      assert In(rs[if k < i then k else k + 1], a);
    }
  }

  lemma CoversAdded(r: Region, rs: seq<Region>, a: int)
    ensures Covers([r] + rs, a) <==> In(r, a) || Covers(rs, a)
  {
    var s := [r] + rs;
    if In(r, a) {
      assert In(s[0], a);
    }
    if k :| 0 <= k < |rs| && In(rs[k], a) {
      assert In(s[k + 1], a);
    }
  }

  /** Region i is the only one of a spaced list near its addresses. */
  lemma SpacedWithout(rs: seq<Region>, i: nat)
    requires Spaced(rs) && i < |rs|
    ensures Spaced(Without(rs, i))
    ensures forall k | 0 <= k < |Without(rs, i)| :: Apart(rs[i], Without(rs, i)[k])
  {
    var ws := Without(rs, i);
    forall k | 0 <= k < |ws| ensures ws[k] == rs[if k < i then k else k + 1] {
    }
  }

  lemma SpacedAdded(r: Region, rs: seq<Region>)
    requires Spaced(rs) && Megs(r) && forall k | 0 <= k < |rs| :: Apart(r, rs[k])
    ensures Spaced([r] + rs)
  {
  }

  lemma NearIsSame(rs: seq<Region>, i: nat, j: nat, a: int, b: int)
    requires Spaced(rs) && i < |rs| && j < |rs| && In(rs[i], a) && In(rs[j], b) && b - 1 <= a <= b + 1
    ensures i == j
  {
  }

  /** A run of free addresses lies in one free region: adjacent free regions have always been joined. */
  lemma {:induction false} RunInOneRegion(rs: seq<Region>, first: int, last: int)
    requires Spaced(rs) && first <= last && forall a | first <= a <= last :: Covers(rs, a)
    ensures exists i :: 0 <= i < |rs| && rs[i].start <= first && last <= rs[i].end
    decreases last - first
  {
    assert Covers(rs, last);
    var i :| 0 <= i < |rs| && In(rs[i], last);
    if first < last {
      RunInOneRegion(rs, first, last - 1);
      var j :| 0 <= j < |rs| && rs[j].start <= first && last - 1 <= rs[j].end;
      NearIsSame(rs, i, j, last, last - 1);
    }
  }

  /** Spaced lists that cover the same addresses have the same regions. */
  lemma CoverDecides(rs: seq<Region>, ss: seq<Region>)
    requires Spaced(rs) && Spaced(ss) && forall a :: Covers(rs, a) <==> Covers(ss, a)
    ensures forall r :: r in rs <==> r in ss
  {
    forall r ensures r in rs <==> r in ss {
      if r in rs {
        SameRegion(rs, ss, r);
      }
      if r in ss {
        SameRegion(ss, rs, r);
      }
    }
  }

  lemma SameRegion(rs: seq<Region>, ss: seq<Region>, r: Region)
    requires Spaced(rs) && Spaced(ss) && (forall a :: Covers(rs, a) <==> Covers(ss, a)) && r in rs
    ensures r in ss
  {
    var i :| 0 <= i < |rs| && rs[i] == r;
    forall a | r.start <= a <= r.end ensures Covers(ss, a) {
      assert In(rs[i], a) && Covers(rs, a);
    }
    RunInOneRegion(ss, r.start, r.end);
    var j :| 0 <= j < |ss| && ss[j].start <= r.start && r.end <= ss[j].end;
    forall a | ss[j].start <= a <= ss[j].end ensures Covers(rs, a) {
      assert In(ss[j], a) && Covers(ss, a);
    }
    RunInOneRegion(rs, ss[j].start, ss[j].end);
    var k :| 0 <= k < |rs| && rs[k].start <= ss[j].start && ss[j].end <= rs[k].end;
    NearIsSame(rs, i, k, r.start, r.start);
  }

  // ----- one region in hand

  /** Region m of a list is apart from the others, except that one may follow it directly. */
  ghost predicate Trailing(rs: seq<Region>, m: nat) {
    && m < |rs| && Megs(rs[m]) && Spaced(Without(rs, m))
    && forall k | 0 <= k < |rs| && k != m :: rs[k].end + 1 < rs[m].start || rs[m].end < rs[k].start
  }

  lemma WithoutAt(rs: seq<Region>, m: nat, k: nat)
    requires m < |rs| && k < |rs| && k != m
    ensures var i := if k < m then k else k - 1; i < |Without(rs, m)| && Without(rs, m)[i] == rs[k]
  {
  }

  lemma WithoutUpdate(rs: seq<Region>, m: nat, r: Region)
    requires m < |rs|
    ensures Without(rs[m := r], m) == Without(rs, m)
  {
  }

  /** Extended to the right by an adjacent region, a free region trails. */
  lemma ExtendedTrails(rs: seq<Region>, i: nat, r: Region)
    requires Spaced(rs) && i < |rs| && Megs(r) && rs[i].end + 1 == r.start
    requires forall k | 0 <= k < |rs| :: Disjoint(rs[k], r)
    ensures Trailing(rs[i := Region(rs[i].start, r.end)], i)
  {
    SpacedWithout(rs, i);
    WithoutUpdate(rs, i, Region(rs[i].start, r.end));
  }

  /** With nothing ending before it, a new region trails. */
  lemma AddedTrails(rs: seq<Region>, r: Region)
    requires Spaced(rs) && Megs(r) && forall k | 0 <= k < |rs| :: Disjoint(rs[k], r) && rs[k].end + 1 != r.start
    ensures Trailing([r] + rs, 0)
  {
    assert Without([r] + rs, 0) == rs;
  }

  lemma TrailingIsSpaced(rs: seq<Region>, m: nat)
    requires Trailing(rs, m) && forall k | 0 <= k < |rs| :: rs[k].start != rs[m].end + 1
    ensures Spaced(rs)
  {
    forall k | 0 <= k < |rs| ensures Megs(rs[k]) {
      if k != m {
        WithoutAt(rs, m, k);
      }
    }
    forall i, j | 0 <= i < j < |rs| ensures Apart(rs[i], rs[j]) {
      if i != m { WithoutAt(rs, m, i); }
      if j != m { WithoutAt(rs, m, j); }
    }
  }

  /** Joined with the region that follows it directly, the region in hand is apart from all others. */
  lemma TrailingJoined(rs: seq<Region>, m: nat, j: nat)
    requires Trailing(rs, m) && j < |rs| && j != m && rs[j].start == rs[m].end + 1
    ensures Spaced(Without(rs[m := Region(rs[m].start, rs[j].end)], j))
  {
    var u := Region(rs[m].start, rs[j].end);
    var ts := rs[m := u];
    var ws := Without(ts, j);
    WithoutAt(rs, m, j);
    forall k | 0 <= k < |ws| ensures Megs(ws[k]) && ws[k] == ts[if k < j then k else k + 1] {
      var i := if k < j then k else k + 1;
      if i != m { WithoutAt(rs, m, i); }
    }
    forall k, l | 0 <= k < l < |ws| ensures Apart(ws[k], ws[l]) {
      var i, n := if k < j then k else k + 1, if l < j then l else l + 1;
      if i != m { WithoutAt(rs, m, i); }
      if n != m { WithoutAt(rs, m, n); }
    }
  }

  lemma CoversUpdate(rs: seq<Region>, m: nat, r: Region, a: int)
    requires m < |rs|
    ensures Covers(rs[m := r], a) <==> Covers(Without(rs, m), a) || In(r, a)
  {
    WithoutUpdate(rs, m, r);
    CoversWithout(rs[m := r], m, a);
  }
}
