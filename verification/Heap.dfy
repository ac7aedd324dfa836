/** The boundary-tag heap: markers in memory, and the block list they stand for. */
module Heap {
  import opened Arith
  import opened HeapSpec

  const TAKEN := 1
  const LAST := 2
  const ADDRESS_MOD := 0x1_0000_0000
  const INVALID: Word := 0xFFFF_FFFF

  type Word = x: int | 0 <= x < 0x1_0000_0000

  function SizeOf(mark: Word): (s: nat)
    ensures s % 4 == 0 && s <= mark
  {
    mark - mark % 4
  }

  predicate IsTaken(mark: Word) {
    mark % 2 == 1
  }

  predicate IsLast(mark: Word) {
    mark / 2 % 2 == 1
  }

  /** The marker word of a block. */
  function Mark(b: Block, last: bool): nat {
    8 * b.units + (if last then LAST else 0) + (if b.taken then TAKEN else 0)
  }

  lemma MarkReads(b: Block, last: bool, w: Word)
    requires w == Mark(b, last)
    ensures SizeOf(w) == 8 * b.units && IsTaken(w) == b.taken && IsLast(w) == last
  {
    var taken, end := if b.taken then 1 else 0, if last then 1 else 0;
    DivModUnique(w, 4, 2 * b.units, 2 * end + taken);
    DivModUnique(w, 2, 4 * b.units + end, taken);
    DivModUnique(4 * b.units + end, 2, 2 * b.units, end);
  }

  function PrevSize(bs: seq<Block>, k: nat): nat
    requires k < |bs|
  {
    if k == 0 then 0 else 8 * bs[k - 1].units
  }

  const UNITS_MAX := 0x2000_0000

  /** The markers tile the memory as the blocks bs, and each knows its predecessor's size. */
  ghost predicate Tiles(size: seq<Word>, sizePrev: seq<Word>, bs: seq<Block>) {
    && bs != [] && |size| == |sizePrev| == Total(bs) < UNITS_MAX
    && forall k | 0 <= k < |bs| :: MarkedAt(size, sizePrev, bs, k)
  }

  ghost predicate MarkedAt(size: seq<Word>, sizePrev: seq<Word>, bs: seq<Block>, k: nat)
    requires k < |bs| && |size| == |sizePrev|
  {
    && Offset(bs, k) < |size|
    && size[Offset(bs, k)] == Mark(bs[k], k == |bs| - 1)
    && sizePrev[Offset(bs, k)] == PrevSize(bs, k)
  }

  lemma {:induction false} OffsetMono(bs: seq<Block>, j: nat, k: nat)
    requires j < k <= |bs|
    ensures Offset(bs, j) + bs[j].units < Offset(bs, k)
    decreases k
  {
    if j < k - 1 {
      OffsetMono(bs, j, k - 1);
    }
  }

  lemma OffsetsDiffer(bs: seq<Block>, j: nat, k: nat)
    requires j < |bs| && k < |bs| && j != k
    ensures Offset(bs, j) != Offset(bs, k)
  {
    if j < k {
      OffsetMono(bs, j, k);
    } else {
      OffsetMono(bs, k, j);
    }
  }

  lemma NextOffset(bs: seq<Block>, k: nat)
    requires k < |bs|
    ensures Offset(bs, k + 1) == Offset(bs, k) + bs[k].units + 1
  {
  }

  // ----- two blocks made one

  lemma MergedTwo(bs: seq<Block>, k: nat)
    requires k + 1 < |bs|
    ensures Merged(bs, k, k + 2) == bs[..k] + [Block(bs[k].units + bs[k + 1].units + 1, false)] + bs[k + 2..]
  {
    var b := bs[k..k + 2];
    TotalRest(b);
    assert b[1..] == [bs[k + 1]];
    TotalOne(bs[k + 1]);
  }

  lemma MergedOffset(bs: seq<Block>, k: nat, j: nat)
    requires k + 1 < |bs| && j < |bs|
    ensures Offset(Merged(bs, k, k + 2), j) == if j <= k then Offset(bs, j) else Offset(bs, j + 1)
  {
    hide Merged;
    var ms := Merged(bs, k, k + 2);
    MergedTwo(bs, k);
    if j <= k {
      OffsetBetween(bs, 0, j);
      OffsetBetween(ms, 0, j);
      assert bs[0..j] == ms[0..j];
    } else {
      OffsetBetween(bs, 0, k);
      OffsetBetween(ms, 0, k);
      assert bs[0..k] == ms[0..k];
      NextOffset(ms, k);
      NextOffset(bs, k);
      NextOffset(bs, k + 1);
      OffsetBetween(bs, k + 2, j + 1);
      OffsetBetween(ms, k + 1, j);
      assert ms[k + 1..] == bs[k + 2..];
      assert ms[k + 1..j] == ms[k + 1..][..j - k - 1] && bs[k + 2..j + 1] == bs[k + 2..][..j - k - 1];
    }
  }

  /** Block k released, its neighbours not yet looked at. */
  function Released(bs: seq<Block>, k: nat): (cs: seq<Block>)
    requires k < |bs|
    ensures |cs| == |bs|
  {
    bs[k := Block(bs[k].units, false)]
  }

  /** Joining the neighbours one after the other gives what joining them at once does. */
  lemma JoinedBehind(bs: seq<Block>, k: nat)
    requires k < |bs| && First(bs, k) == k
    ensures var cs := Released(bs, k);
      Freed(bs, k) == if End(bs, k) == k + 2 then Merged(cs, k, k + 2) else cs
  {
    hide Merged;
    var cs := Released(bs, k);
    MergedShape(bs, k, k, End(bs, k));
    if End(bs, k) == k + 2 {
      MergedTwo(cs, k);
      assert cs[k + 2..] == bs[k + 2..];
    } else {
      assert cs == cs[..k] + [cs[k]] + cs[k + 1..];
    }
  }

  lemma JoinedBefore(bs: seq<Block>, k: nat)
    requires k < |bs| && First(bs, k) == k - 1
    ensures var ds := Merged(Released(bs, k), k - 1, k + 1);
      Freed(bs, k) == if End(bs, k) == k + 2 then Merged(ds, k - 1, k + 1) else ds
  {
    hide Merged;
    var cs := Released(bs, k);
    MergedShape(bs, k - 1, k, End(bs, k));
    MergedTwo(cs, k - 1);
    var ds := Merged(cs, k - 1, k + 1);
    assert ds[..k - 1] == bs[..k - 1] && ds[k..] == bs[k + 1..];
    if End(bs, k) == k + 2 {
      assert ds[k] == bs[k + 1] && ds[k + 1..] == bs[k + 2..];
      MergedTwo(ds, k - 1);
    }
  }

  lemma MergedShape(bs: seq<Block>, lo: nat, k: nat, hi: nat)
    requires k - 1 <= lo <= k < hi <= |bs| && hi <= k + 2
    ensures var units := (if lo < k then bs[lo].units + 1 else 0) + bs[k].units + (if hi > k + 1 then bs[k + 1].units + 1 else 0);
      Merged(bs, lo, hi) == bs[..lo] + [Block(units, false)] + bs[hi..]
  {
    MiddleTotal(bs, lo, k, hi);
  }

  lemma MiddleTotal(bs: seq<Block>, lo: nat, k: nat, hi: nat)
    requires k - 1 <= lo <= k < hi <= |bs| && hi <= k + 2
    ensures Total(bs[lo..hi]) == (if lo < k then bs[lo].units + 1 else 0) + bs[k].units + 1
                                 + (if hi > k + 1 then bs[k + 1].units + 1 else 0)
  {
    OffsetBetween(bs, lo, hi);
    if lo < k {
      NextOffset(bs, lo);
    }
    NextOffset(bs, k);
    if hi > k + 1 {
      NextOffset(bs, k + 1);
    }
  }

  // ----- one step on the markers

  /** Block k longer, blocks k and k + 1 made one, in words; the second marker is made invalid. */
  function JoinSize(size: seq<Word>, a: nat, b: nat, mark: Word): (t: seq<Word>)
    requires a < |size| && b < |size|
    ensures |t| == |size|
  {
    size[a := mark][b := INVALID]
  }

  function JoinPrev(sizePrev: seq<Word>, b: nat, c: int, units: nat): (t: seq<Word>)
    requires b < |sizePrev| && c < |sizePrev| && 8 * units < 0x1_0000_0000
    ensures |t| == |sizePrev|
  {
    (if c >= 0 then sizePrev[c := 8 * units] else sizePrev)[b := INVALID]
  }

  /** c is where the block behind the two lies, or -1. */
  ghost predicate Behind(bs: seq<Block>, k: nat, c: int)
    requires k <= |bs|
  {
    if k < |bs| then c == Offset(bs, k) else c == -1
  }

  /** The marker words after blocks k and k + 1 have been joined. */
  lemma JoinMarks(size: seq<Word>, sizePrev: seq<Word>, bs: seq<Block>, k: nat, a: nat, b: nat, c: int, units: nat, mark: Word)
    requires Tiles(size, sizePrev, bs) && k + 1 < |bs| && units == bs[k].units + bs[k + 1].units + 1
    requires a == Offset(bs, k) < |size| && b == Offset(bs, k + 1) < |size| && Behind(bs, k + 2, c) && c < |size|
    requires mark == Mark(Block(units, false), k + 2 == |bs|) && 8 * units < 0x1_0000_0000
    ensures Tiles(JoinSize(size, a, b, mark), JoinPrev(sizePrev, b, c, units), Merged(bs, k, k + 2))
  {
    hide Merged;
    var ms := Merged(bs, k, k + 2);
    MergedTotal(bs, k, k + 2);
    MergedTwo(bs, k);
    forall j | 0 <= j < |ms| ensures MarkedAt(JoinSize(size, a, b, mark), JoinPrev(sizePrev, b, c, units), ms, j) {
      MergedOffset(bs, k, j);
      var i := if j <= k then j else j + 1;
      assert MarkedAt(size, sizePrev, bs, i);
      OffsetsDiffer(bs, i, k + 1);
      if i != k {
        OffsetsDiffer(bs, i, k);
      }
      if k + 2 < |bs| && i != k + 2 {
        OffsetsDiffer(bs, i, k + 2);
      }
    }
  }

  /** Block k cut behind n units. */
  function Cut(bs: seq<Block>, k: nat, n: nat): (cs: seq<Block>)
    requires k < |bs| && bs[k].units > n + 1
    ensures |cs| == |bs| + 1 && cs[k] == Block(n, false) && cs[k + 1] == Block(bs[k].units - n - 1, false)
    ensures cs[..k] == bs[..k] && cs[k + 2..] == bs[k + 1..]
  {
    bs[..k] + [Block(n, false), Block(bs[k].units - n - 1, false)] + bs[k + 1..]
  }

  lemma CutOffset(bs: seq<Block>, k: nat, n: nat, j: nat)
    requires k < |bs| && bs[k].units > n + 1 && !bs[k].taken && j <= |bs|
    ensures Offset(Cut(bs, k, n), j) == if j <= k then Offset(bs, j) else if j == k + 1 then Offset(bs, k) + n + 1 else Offset(bs, j - 1)
    ensures Total(Cut(bs, k, n)) == Total(bs)
  {
    var cs := Cut(bs, k, n);
    MergedTwo(cs, k);
    assert Merged(cs, k, k + 2) == bs;
    MergedTotal(cs, k, k + 2);
    MergedOffset(cs, k, k);
    NextOffset(cs, k);
    if j <= k {
      MergedOffset(cs, k, j);
    } else if j > k + 1 {
      MergedOffset(cs, k, j - 1);
    }
  }

  function CutSize(size: seq<Word>, a: nat, b: nat, mark1: Word, mark2: Word): (t: seq<Word>)
    requires a < |size| && b < |size|
    ensures |t| == |size|
  {
    size[a := mark1][b := mark2]
  }

  function CutPrev(sizePrev: seq<Word>, b: nat, c: int, n: nat, rest: nat): (t: seq<Word>)
    requires b < |sizePrev| && c < |sizePrev| && 8 * n < 0x1_0000_0000 && 8 * rest < 0x1_0000_0000
    ensures |t| == |sizePrev|
  {
    (if c >= 0 then sizePrev[c := 8 * rest] else sizePrev)[b := 8 * n]
  }

  ghost predicate CutReady(size: seq<Word>, sizePrev: seq<Word>, bs: seq<Block>, k: nat, n: nat, a: nat, b: nat, c: int) {
    && Tiles(size, sizePrev, bs) && k < |bs| && bs[k].units > n + 1 && !bs[k].taken
    && a == Offset(bs, k) && b == a + n + 1 < |size| && Behind(bs, k + 1, c) && c < |size| && 8 * bs[k].units < 0x1_0000_0000
  }

  /** The marker words after block k has been cut behind n units. */
  lemma CutMarks(size: seq<Word>, sizePrev: seq<Word>, bs: seq<Block>, k: nat, n: nat, a: nat, b: nat, c: int, mark1: Word, mark2: Word)
    requires CutReady(size, sizePrev, bs, k, n, a, b, c)
    requires mark1 == Mark(Block(n, false), false) && mark2 == Mark(Block(bs[k].units - n - 1, false), k == |bs| - 1)
    ensures Tiles(CutSize(size, a, b, mark1, mark2), CutPrev(sizePrev, b, c, n, bs[k].units - n - 1), Cut(bs, k, n))
  {
    hide Cut, MarkedAt;
    CutOffset(bs, k, n, 0);
    var cs := Cut(bs, k, n);
    var size', sizePrev' := CutSize(size, a, b, mark1, mark2), CutPrev(sizePrev, b, c, n, bs[k].units - n - 1);
    forall j | 0 <= j < |cs| ensures MarkedAt(size', sizePrev', cs, j) {
      if j <= k {
        CutMarkBefore(size, sizePrev, bs, k, n, a, b, c, mark1, mark2, j);
      } else if j == k + 1 {
        CutMarkNew(size, sizePrev, bs, k, n, a, b, c, mark1, mark2);
      } else {
        CutMarkAfter(size, sizePrev, bs, k, n, a, b, c, mark1, mark2, j);
      }
    }
  }

  lemma CutMarkBefore(size: seq<Word>, sizePrev: seq<Word>, bs: seq<Block>, k: nat, n: nat, a: nat, b: nat, c: int,
                      mark1: Word, mark2: Word, j: nat)
    requires CutReady(size, sizePrev, bs, k, n, a, b, c) && j <= k && mark1 == Mark(Block(n, false), false)
    ensures MarkedAt(CutSize(size, a, b, mark1, mark2), CutPrev(sizePrev, b, c, n, bs[k].units - n - 1), Cut(bs, k, n), j)
  {
    var cs := Cut(bs, k, n);
    CutOffset(bs, k, n, j);
    CutOffset(bs, k, n, k + 1);
    assert MarkedAt(size, sizePrev, bs, j);
    OffsetsDiffer(cs, j, k + 1);
    if j < k {
      OffsetsDiffer(bs, j, k);
    }
    if k + 1 < |bs| {
      OffsetsDiffer(bs, j, k + 1);
    }
  }

  lemma CutMarkNew(size: seq<Word>, sizePrev: seq<Word>, bs: seq<Block>, k: nat, n: nat, a: nat, b: nat, c: int, mark1: Word, mark2: Word)
    requires CutReady(size, sizePrev, bs, k, n, a, b, c)
    requires mark2 == Mark(Block(bs[k].units - n - 1, false), k == |bs| - 1)
    ensures MarkedAt(CutSize(size, a, b, mark1, mark2), CutPrev(sizePrev, b, c, n, bs[k].units - n - 1), Cut(bs, k, n), k + 1)
  {
    CutOffset(bs, k, n, k + 1);
    if k + 1 < |bs| {
      CutNext(bs, k, n);
    }
  }

  lemma CutMarkAfter(size: seq<Word>, sizePrev: seq<Word>, bs: seq<Block>, k: nat, n: nat, a: nat, b: nat, c: int,
                     mark1: Word, mark2: Word, j: nat)
    requires CutReady(size, sizePrev, bs, k, n, a, b, c) && k + 1 < j <= |bs|
    ensures MarkedAt(CutSize(size, a, b, mark1, mark2), CutPrev(sizePrev, b, c, n, bs[k].units - n - 1), Cut(bs, k, n), j)
  {
    hide Cut;
    var cs := Cut(bs, k, n);
    assert cs[j] == cs[k + 2..][j - k - 2] == bs[j - 1];
    assert j > k + 2 ==> cs[j - 1] == cs[k + 2..][j - k - 3] == bs[j - 2];
    CutOffset(bs, k, n, j);
    CutOffset(bs, k, n, k + 1);
    assert MarkedAt(size, sizePrev, bs, j - 1);
    OffsetsDiffer(cs, j, k + 1);
    OffsetsDiffer(bs, j - 1, k);
    if j - 1 != k + 1 {
      OffsetsDiffer(bs, j - 1, k + 1);
    }
  }

  lemma CutNext(bs: seq<Block>, k: nat, n: nat)
    requires k + 1 < |bs| && bs[k].units > n + 1
    ensures Offset(bs, k) + n + 1 < Offset(bs, k + 1)
  {
    NextOffset(bs, k);
  }

  lemma OffsetAtMost(bs: seq<Block>, k: nat)
    requires k <= |bs|
    ensures Offset(bs, k) <= Total(bs)
  {
    if k < |bs| {
      OffsetMono(bs, k, |bs|);
    }
  }

  lemma {:induction false} SameUnits(bs: seq<Block>, cs: seq<Block>, k: nat)
    requires |bs| == |cs| && k <= |bs| && forall j | 0 <= j < |bs| :: bs[j].units == cs[j].units
    ensures Offset(bs, k) == Offset(cs, k)
  {
    if k > 0 {
      SameUnits(bs, cs, k - 1);
    }
  }

  /** Block k given out or released. */
  lemma FlipMarks(size: seq<Word>, sizePrev: seq<Word>, bs: seq<Block>, k: nat, a: nat, taken: bool, mark: Word)
    requires Tiles(size, sizePrev, bs) && k < |bs| && a == Offset(bs, k) < |size|
    requires mark == Mark(Block(bs[k].units, taken), k == |bs| - 1)
    ensures Tiles(size[a := mark], sizePrev, bs[k := Block(bs[k].units, taken)])
  {
    var cs := bs[k := Block(bs[k].units, taken)];
    var size' := size[a := mark];
    SameUnits(bs, cs, |bs|);
    forall j | 0 <= j < |cs| ensures MarkedAt(size', sizePrev, cs, j) {
      SameUnits(bs, cs, j);
      assert MarkedAt(size, sizePrev, bs, j);
      if j != k {
        OffsetsDiffer(bs, j, k);
      }
    }
  }

  /** What the marker of block k says. */
  lemma ReadMark(size: seq<Word>, sizePrev: seq<Word>, bs: seq<Block>, k: nat)
    requires Tiles(size, sizePrev, bs) && k < |bs|
    ensures Offset(bs, k) < |size|
    ensures var w := size[Offset(bs, k)];
      w == Mark(bs[k], k == |bs| - 1) && SizeOf(w) == 8 * bs[k].units && IsTaken(w) == bs[k].taken && IsLast(w) == (k == |bs| - 1)
    ensures sizePrev[Offset(bs, k)] == PrevSize(bs, k)
    ensures Offset(bs, k + 1) == Offset(bs, k) + bs[k].units + 1 <= |size|
  {
    assert MarkedAt(size, sizePrev, bs, k);
    MarkReads(bs[k], k == |bs| - 1, size[Offset(bs, k)]);
    NextOffset(bs, k);
    OffsetAtMost(bs, k + 1);
  }

  class HeapCtxt {
    const size: array<Word>
    const sizePrev: array<Word>
    /** `memory`, the address of the first marker */
    const base: Word
    ghost var blocks: seq<Block>

    ghost predicate Marked(bs: seq<Block>)
      reads size, sizePrev
    {
      size != sizePrev && Tiles(size[..], sizePrev[..], bs) && Located()
    }

    /** The heap lies inside the address space, with a marker's room before it. */
    ghost predicate Located() {
      8 <= base && base + 8 * size.Length <= ADDRESS_MOD
    }

    ghost predicate Valid()
      reads this, size, sizePrev
    {
      Marked(blocks) && Coalesced(blocks)
    }

    /** `heap_init`: one large free block; sizes are rounded down to 8 bytes. */
    constructor (bytes: nat, memory: Word)
      requires 8 <= bytes < ADDRESS_MOD && 8 <= memory && memory + bytes <= ADDRESS_MOD
      ensures Valid() && base == memory && fresh(size) && fresh(sizePrev) && blocks == [Block(bytes / 8 - 1, false)]
    {
      var units := bytes / 8;
      base := memory;
      size := new Word[units](i => if i == 0 then 8 * (units - 1) + LAST else 0);
      sizePrev := new Word[units](_ => 0);
      blocks := [Block(units - 1, false)];
      new;
      TotalOne(blocks[0]);
      assert MarkedAt(size[..], sizePrev[..], blocks, 0);
    }

    /** `heap_marker_next`; -1 behind the last block */
    method MarkerNext(mark: nat) returns (next: int)
      requires mark < size.Length
      ensures next == NextOf(mark, size[mark])
    {
      if IsLast(size[mark]) {
        return -1;
      }
      next := mark + 1 + SizeOf(size[mark]) / 8;
    }

    /**
     * `heap_marker_prev`; -1 before the first block.  The difference of pointers is a 32-bit word, so that a marker
     * that was made invalid is its own predecessor.
     */
    method MarkerPrev(mark: nat, ghost bs: seq<Block>, ghost k: nat) returns (prev: int)
      requires Marked(bs) && (Stale(mark) || (k < |bs| && mark == Offset(bs, k)))
      ensures prev == if Stale(mark) then mark else if k == 0 then -1 else Offset(bs, k - 1)
    {
      if !Stale(mark) {
        ReadMark(size[..], sizePrev[..], bs, k);
        if k > 0 {
          NextOffset(bs, k - 1);
        }
      }
      var address := (base + 8 * (mark - 1 - sizePrev[mark] / 8)) % ADDRESS_MOD;
      if address < base {
        return -1;
      }
      prev := (address - base) / 8;
    }

    /** A marker that was made invalid when its block was joined to the one before. */
    ghost predicate Stale(mark: int)
      reads size, sizePrev
    {
      0 <= mark < size.Length && mark < sizePrev.Length && size[mark] == INVALID && sizePrev[mark] == INVALID
    }

    /** No block has such a marker. */
    lemma HeadIsFresh(bs: seq<Block>, k: nat)
      requires Marked(bs) && k < |bs|
      ensures !Stale(Offset(bs, k))
    {
      ReadMark(size[..], sizePrev[..], bs, k);
    }

    /** `heap_marker_join` */
    method Join(m1: nat, m2: nat, ghost bs: seq<Block>, ghost k: nat)
      requires Marked(bs) && k + 1 < |bs| && m1 == Offset(bs, k) && m2 == Offset(bs, k + 1)
      requires !bs[k].taken && !bs[k + 1].taken
      modifies size, sizePrev
      ensures Marked(Merged(bs, k, k + 2))
      ensures Stale(m2) && forall i | old(Stale(i)) :: Stale(i)
    {
      assert size.Length == sizePrev.Length;
      hide Merged, Mark, SizeOf, IsTaken, IsLast, Stale;
      ReadMark(size[..], sizePrev[..], bs, k);
      ReadMark(size[..], sizePrev[..], bs, k + 1);
      NextIsBehind(size[..], sizePrev[..], bs, k);
      var next := MarkerNext(m1);
      if m2 != next {
        return;
      }
      if IsTaken(size[m1]) || IsTaken(size[m2]) {
        return;
      }
      WriteJoined(m1, m2, bs, k);
    }

    /** The marker of a block that has been joined to the one before. */
    method Invalidate(mark: nat)
      requires mark < size.Length == sizePrev.Length && size != sizePrev
      modifies size, sizePrev
      ensures size[..] == old(size[..])[mark := INVALID] && sizePrev[..] == old(sizePrev[..])[mark := INVALID]
      ensures Stale(mark) && forall i | old(Stale(i)) :: Stale(i)
    {
      size[mark], sizePrev[mark] := INVALID, INVALID;
    }

    /** The second half of `heap_marker_join`: the first marker takes over the second block, whose marker becomes invalid. */
    method WriteJoined(m1: nat, m2: nat, ghost bs: seq<Block>, ghost k: nat)
      requires Marked(bs) && k + 1 < |bs| && m1 == Offset(bs, k) && m2 == Offset(bs, k + 1)
      requires !bs[k].taken && !bs[k + 1].taken
      modifies size, sizePrev
      ensures Marked(Merged(bs, k, k + 2))
      ensures Stale(m2) && forall i | old(Stale(i)) :: Stale(i)
    {
      HeadIsFresh(bs, k);
      assert size.Length == sizePrev.Length;
      hide Tiles, Merged, Mark, SizeOf, IsTaken, IsLast;
      ghost var s, p := size[..], sizePrev[..];
      ghost var units := bs[k].units + bs[k + 1].units + 1;
      ReadMark(s, p, bs, k);
      ReadMark(s, p, bs, k + 1);
      if k + 2 < |bs| {
        HeadIsFresh(bs, k + 2);
      }
      JoinedMark(bs[k], bs[k + 1], k + 2 == |bs|, size[m1], size[m2]);
      JoinedNext(s, p, bs, k);
      size[m1] := size[m1] + SizeOf(size[m2]) + 8;
      if IsLast(size[m2]) {
        size[m1] := size[m1] + LAST;
      }
      ghost var mark := size[m1];
      var next := MarkerNext(m1);
      if next >= 0 {
        sizePrev[next] := SizeOf(size[m1]);
      }
      assert size[..] == s[m1 := mark] && sizePrev[..] == if next >= 0 then p[next := 8 * units] else p;
      Invalidate(m2);
      JoinMarks(s, p, bs, k, m1, m2, next, units, mark);
      assert size[..] == JoinSize(s, m1, m2, mark) && sizePrev[..] == JoinPrev(p, m2, next, units);
    }

    /** `heap_marker_split`, to n units; nothing happens where no unit would remain. */
    method Split(mark: nat, n: nat, ghost bs: seq<Block>, ghost k: nat)
      requires Marked(bs) && k < |bs| && mark == Offset(bs, k) && Fits(bs[k], n)
      modifies size, sizePrev
      ensures Marked(if bs[k].units - n > 1 then Cut(bs, k, n) else bs)
    {
      assert size.Length == sizePrev.Length;
      hide Tiles, Cut, Mark, SizeOf, IsTaken, IsLast;
      ghost var s, p := size[..], sizePrev[..];
      ReadMark(s, p, bs, k);
      var remain := SizeOf(size[mark]) - 8 * n;
      if remain > 8 {
        CutParts(s, p, bs, k, n);
        NextIsBehind(s, p, bs, k);
        var tmp := 8 * n / 8 + 1 + mark;
        ghost var c := NextOf(mark, size[mark]);
        size[tmp] := remain - 8 + (if IsLast(size[mark]) then LAST else 0) + (if IsTaken(size[mark]) then TAKEN else 0);
        size[mark] := 8 * n + (if IsTaken(size[mark]) then TAKEN else 0);
        sizePrev[tmp] := 8 * n;
        ghost var m1, m2 := size[mark], size[tmp];
        var next := MarkerNext(tmp);
        assert next == c;
        if next >= 0 {
          sizePrev[next] := SizeOf(size[tmp]);
        }
        CutMarks(s, p, bs, k, n, mark, tmp, next, m1, m2);
        assert size[..] == CutSize(s, mark, tmp, m1, m2);
        assert sizePrev[..] == CutPrev(p, tmp, next, n, bs[k].units - n - 1);
      }
    }

    /** The search of `heap_alloc`: the first of the smallest sufficient free blocks, or -1. */
    method FindBest(n: nat, ghost bs: seq<Block>) returns (best: int, ghost k: nat)
      requires Marked(bs)
      ensures best == -1 ==> forall j | 0 <= j < |bs| :: !Fits(bs[j], n)
      ensures best != -1 ==> Best(bs, n, k) && best == Offset(bs, k) < size.Length
    {
      hide Mark, SizeOf, IsTaken, IsLast, Tiles;
      best, k := -1, 0;
      var tmp := 0;
      ghost var i := 0;
      SomeBlock(size[..], sizePrev[..], bs);
      ReadMark(size[..], sizePrev[..], bs, 0);
      while tmp != -1
        invariant 0 <= i <= |bs| && Behind(bs, i, tmp) && -1 <= tmp < size.Length
        invariant best == -1 ==> forall j | 0 <= j < i :: !Fits(bs[j], n)
        invariant best != -1 ==> BestSoFar(bs, n, k, i) && best == Offset(bs, k) < size.Length && SizeOf(size[best]) == 8 * bs[k].units
        decreases |bs| - i
      {
        ReadMark(size[..], sizePrev[..], bs, i);
        var me := size[tmp];
        if !IsTaken(me) {
          if SizeOf(me) >= 8 * n {
            if best == -1 || SizeOf(me) < SizeOf(size[best]) {
              best, k := tmp, i;
            }
          }
        }
        NextIsBehind(size[..], sizePrev[..], bs, i);
        tmp := MarkerNext(tmp);
        i := i + 1;
      }
    }

    /** `heap_alloc`: a pointer behind the marker of a best fitting block, or -1. */
    method Alloc(bytes: int) returns (p: int, ghost k: nat)
      requires Valid() && bytes <= 0x7FFF_FFF8
      modifies this, size, sizePrev
      ensures Valid()
      ensures var n := (bytes + 7) / 8;
        if bytes < 1 || (forall j | 0 <= j < |old(blocks)| :: !Fits(old(blocks)[j], n)) then p == -1 && blocks == old(blocks)
        else Best(old(blocks), n, k) && blocks == Alloced(old(blocks), k, n) && p == Offset(old(blocks), k) + 1
    {
      p, k := -1, 0;
      if bytes >= 1 {
        var n := (bytes + 7) / 8;
        ghost var bs := blocks;
        var best, kk := FindBest(n, bs);
        k := kk;
        if best != -1 {
          AllocKeeps(bs, k, n);
          Take(best, n, bs, k);
          blocks := Alloced(bs, k, n);
          p := best + 1;
        }
      }
    }

    /** Split a free block and mark its first part as used. */
    method Take(best: nat, n: nat, ghost bs: seq<Block>, ghost k: nat)
      requires Marked(bs) && k < |bs| && best == Offset(bs, k) && Fits(bs[k], n)
      modifies size, sizePrev
      ensures Marked(Alloced(bs, k, n))
    {
      hide Tiles, Mark, SizeOf, IsTaken, IsLast;
      Split(best, n, bs, k);
      ghost var cs := if bs[k].units - n > 1 then Cut(bs, k, n) else bs;
      if bs[k].units - n > 1 {
        CutOffset(bs, k, n, k);
      }
      ReadMark(size[..], sizePrev[..], cs, k);
      SetTaken(size[..], sizePrev[..], cs, k);
      ghost var s := size[..];
      size[best] := size[best] + (if IsTaken(size[best]) then 0 else TAKEN);
      assert size[..] == s[best := size[best]];
      AllocedIsTaken(bs, k, n);
    }

    /** `heap_free`, for the pointer behind a marker, behind one made invalid by a join, or from outside the heap. */
    method Free(p: int, ghost k: nat) returns (ok: bool)
      requires Valid() && (Outside(p) || Stale(p - 1) || (k < |blocks| && p == Offset(blocks, k) + 1))
      modifies this, size, sizePrev
      ensures Valid()
      ensures ok == (!Outside(p) && !old(Stale(p - 1)) && old(blocks)[k].taken)
      ensures blocks == if ok then Freed(old(blocks), k) else old(blocks)
      ensures ok && k > 0 && !old(blocks)[k - 1].taken ==> Stale(p - 1)
      ensures !ok ==> size[..] == old(size[..]) && sizePrev[..] == old(sizePrev[..])
    {
      var mark := p - 1;
      if mark < 0 || mark >= 8 * size.Length {
        return false;
      }
      ghost var bs := blocks;
      ok := Sane(mark, bs, k);
      if !ok {
        return;
      }
      FreeKeeps(bs, k);
      Release(mark, bs, k);
      blocks := Freed(bs, k);
    }

    /** Not in the heap, as the first check of `heap_free` sees it: it allows eight times the heap's length. */
    predicate Outside(p: int) {
      p < 1 || p - 1 >= 8 * size.Length
    }

    /** The checks of `heap_free`: do the neighbours agree, and is the block in use? */
    method Sane(mark: nat, ghost bs: seq<Block>, ghost k: nat) returns (ok: bool)
      requires Marked(bs) && (Stale(mark) || (k < |bs| && mark == Offset(bs, k)))
      ensures ok == (!Stale(mark) && bs[k].taken)
    {
      hide Mark, SizeOf, IsTaken, IsLast;
      if Stale(mark) {
        InvalidWord();
      } else {
        ReadMark(size[..], sizePrev[..], bs, k);
        NextIsBehind(size[..], sizePrev[..], bs, k);
      }
      var prev := MarkerPrev(mark, bs, k);
      var next := MarkerNext(mark);
      if !Stale(mark) && k > 0 {
        ReadMark(size[..], sizePrev[..], bs, k - 1);
      }
      if !Stale(mark) && k + 1 < |bs| {
        ReadMark(size[..], sizePrev[..], bs, k + 1);
      }
      if prev >= 0 && sizePrev[mark] != SizeOf(size[prev]) {
        return false;
      }
      if next >= 0 && sizePrev[next] != SizeOf(size[mark]) {
        return false;
      }
      ok := IsTaken(size[mark]);
    }

    /** The release proper: clear the flag, then join with the neighbours. */
    method Release(mark: nat, ghost bs: seq<Block>, ghost k: nat)
      requires Marked(bs) && k < |bs| && mark == Offset(bs, k) && bs[k].taken
      modifies size, sizePrev
      ensures Marked(Freed(bs, k))
      ensures k > 0 && !bs[k - 1].taken ==> Stale(mark)
    {
      hide Tiles, Mark, SizeOf, IsTaken, IsLast, Merged, Freed;
      ReadMark(size[..], sizePrev[..], bs, k);
      HeadIsFresh(bs, k);
      var prev := MarkerPrev(mark, bs, k);
      NextIsBehind(size[..], sizePrev[..], bs, k);
      var next := MarkerNext(mark);
      ghost var s, cs := size[..], Released(bs, k);
      ClearTaken(s, sizePrev[..], bs, k);
      size[mark] := size[mark] - TAKEN;
      assert size[..] == s[mark := size[mark]];
      SameUnits(bs, cs, k);
      SameUnits(bs, cs, k + 1);
      if prev >= 0 {
        ReadMark(size[..], sizePrev[..], cs, k - 1);
        SameUnits(bs, cs, k - 1);
      }
      if prev >= 0 && !IsTaken(size[prev]) {
        Join(prev, mark, cs, k - 1);
        JoinedBefore(bs, k);
        ghost var ds := Merged(cs, k - 1, k + 1);
        JoinedList(bs, k);
        JoinNext(prev, next, ds, k - 1);
      } else {
        JoinedBehind(bs, k);
        JoinNext(mark, next, cs, k);
      }
    }

    /** Join a free block with the next one if there is one and it is free. */
    method JoinNext(mark: nat, next: int, ghost bs: seq<Block>, ghost k: nat)
      requires Marked(bs) && k < |bs| && !bs[k].taken && mark == Offset(bs, k) && Behind(bs, k + 1, next)
      modifies size, sizePrev
      ensures Marked(if k + 1 < |bs| && !bs[k + 1].taken then Merged(bs, k, k + 2) else bs)
      ensures forall i | old(Stale(i)) :: Stale(i)
    {
      hide Tiles, Mark, SizeOf, IsTaken, IsLast, Merged;
      if next >= 0 {
        ReadMark(size[..], sizePrev[..], bs, k + 1);
        if !IsTaken(size[next]) {
          Join(mark, next, bs, k);
        }
      }
    }
  }

  /** An invalid marker reads as the last one, and contradicts itself about sizes. */
  lemma InvalidWord()
    ensures IsLast(INVALID) && SizeOf(INVALID) != INVALID
  {
    DivModUnique(INVALID, 4, 0x3FFF_FFFF, 3);
    DivModUnique(INVALID, 2, 0x7FFF_FFFF, 1);
    DivModUnique(0x7FFF_FFFF, 2, 0x3FFF_FFFF, 1);
  }

  lemma ClearTaken(size: seq<Word>, sizePrev: seq<Word>, bs: seq<Block>, k: nat)
    requires Tiles(size, sizePrev, bs) && k < |bs| && bs[k].taken
    ensures Offset(bs, k) < |size|
    ensures var a, w := Offset(bs, k), size[Offset(bs, k)];
      w >= TAKEN && Tiles(size[a := w - TAKEN], sizePrev, Released(bs, k))
  {
    ReadMark(size, sizePrev, bs, k);
    var a := Offset(bs, k);
    FlipMarks(size, sizePrev, bs, k, a, false, size[a] - TAKEN);
  }

  /** The list after a released block has been joined with the one before it. */
  lemma JoinedList(bs: seq<Block>, k: nat)
    requires 0 < k < |bs|
    ensures var ds := Merged(Released(bs, k), k - 1, k + 1);
      && |ds| == |bs| - 1 && !ds[k - 1].taken && Offset(ds, k - 1) == Offset(bs, k - 1)
      && (k + 1 < |bs| ==> ds[k] == bs[k + 1] && Offset(ds, k) == Offset(bs, k + 1))
  {
    hide Merged;
    var cs := Released(bs, k);
    MergedTwo(cs, k - 1);
    MergedOffset(cs, k - 1, k - 1);
    SameUnits(bs, cs, k - 1);
    if k + 1 < |bs| {
      MergedOffset(cs, k - 1, k);
      SameUnits(bs, cs, k + 1);
    }
  }

  ghost predicate BestSoFar(bs: seq<Block>, n: nat, k: nat, i: nat)
    requires i <= |bs|
  {
    k < i && Fits(bs[k], n)
    && forall j | 0 <= j < i && Fits(bs[j], n) :: bs[k].units <= bs[j].units && (j < k ==> bs[k].units < bs[j].units)
  }

  lemma SomeBlock(size: seq<Word>, sizePrev: seq<Word>, bs: seq<Block>)
    requires Tiles(size, sizePrev, bs)
    ensures |bs| > 0
  {
  }

  lemma SetTaken(size: seq<Word>, sizePrev: seq<Word>, bs: seq<Block>, k: nat)
    requires Tiles(size, sizePrev, bs) && k < |bs| && !bs[k].taken
    ensures Offset(bs, k) < |size|
    ensures var a, w := Offset(bs, k), size[Offset(bs, k)];
      w + TAKEN < 0x1_0000_0000 && Tiles(size[a := w + TAKEN], sizePrev, bs[k := Block(bs[k].units, true)])
  {
    ReadMark(size, sizePrev, bs, k);
    var a := Offset(bs, k);
    assert Mark(bs[k], k == |bs| - 1) < 0xFFFF_FFFF by { OffsetAtMost(bs, k + 1); }
    FlipMarks(size, sizePrev, bs, k, a, true, size[a] + TAKEN);
  }

  lemma AllocedIsTaken(bs: seq<Block>, k: nat, n: nat)
    requires k < |bs| && Fits(bs[k], n)
    ensures var cs := if bs[k].units - n > 1 then Cut(bs, k, n) else bs;
      Alloced(bs, k, n) == cs[k := Block(cs[k].units, true)]
  {
  }

  function NextOf(mark: nat, w: Word): int {
    if IsLast(w) then -1 else mark + 1 + SizeOf(w) / 8
  }

  lemma NextIsBehind(size: seq<Word>, sizePrev: seq<Word>, bs: seq<Block>, k: nat)
    requires Tiles(size, sizePrev, bs) && k < |bs|
    ensures Offset(bs, k) < |size| && Behind(bs, k + 1, NextOf(Offset(bs, k), size[Offset(bs, k)]))
    ensures NextOf(Offset(bs, k), size[Offset(bs, k)]) < |size|
  {
    ReadMark(size, sizePrev, bs, k);
    if k + 1 < |bs| {
      ReadMark(size, sizePrev, bs, k + 1);
    }
  }

  /** The sum of two free markers and one unit more, with the second one's end flag, is the joined block's marker. */
  lemma JoinedMark(b: Block, c: Block, last: bool, v: Word, w: Word)
    requires v == Mark(b, false) && w == Mark(c, last) && !b.taken && !c.taken
    ensures SizeOf(w) == 8 * c.units && IsLast(w) == last
    ensures v + SizeOf(w) + 8 + (if last then LAST else 0) == Mark(Block(b.units + c.units + 1, false), last)
  {
    MarkReads(c, last, w);
  }

  /** Behind the joined block lies what lay behind the second one. */
  lemma JoinedNext(size: seq<Word>, sizePrev: seq<Word>, bs: seq<Block>, k: nat)
    requires Tiles(size, sizePrev, bs) && k + 1 < |bs|
    ensures var u := Block(bs[k].units + bs[k + 1].units + 1, false); var m := Mark(u, k + 2 == |bs|);
      m < 0x1_0000_0000 && SizeOf(m) == 8 * u.units
      && Behind(bs, k + 2, NextOf(Offset(bs, k), m)) && NextOf(Offset(bs, k), m) < |size|
  {
    var u := Block(bs[k].units + bs[k + 1].units + 1, false);
    var m := Mark(u, k + 2 == |bs|);
    NextOffset(bs, k);
    NextOffset(bs, k + 1);
    OffsetAtMost(bs, k + 2);
    assert m < 0x1_0000_0000;
    MarkReads(u, k + 2 == |bs|, m);
    if k + 2 < |bs| {
      ReadMark(size, sizePrev, bs, k + 2);
    }
  }

  /** The two markers of a cut block, and what lies behind the second. */
  lemma CutParts(size: seq<Word>, sizePrev: seq<Word>, bs: seq<Block>, k: nat, n: nat)
    requires Tiles(size, sizePrev, bs) && k < |bs| && Fits(bs[k], n) && bs[k].units - n > 1
    ensures var a, last, rest := Offset(bs, k), k == |bs| - 1, bs[k].units - n - 1;
      var m := Mark(Block(rest, false), last);
      && a + n + 1 < |size| && 8 * bs[k].units < 0x1_0000_0000
      && 8 * n == Mark(Block(n, false), false) && m == 8 * rest + (if last then LAST else 0) < 0x1_0000_0000
      && SizeOf(m) == 8 * rest && NextOf(a + n + 1, m) == NextOf(a, size[a])
  {
    var rest, last := bs[k].units - n - 1, k == |bs| - 1;
    ReadMark(size, sizePrev, bs, k);
    var m := Mark(Block(rest, false), last);
    assert m < 0x1_0000_0000;
    MarkReads(Block(rest, false), last, m);
  }
}
