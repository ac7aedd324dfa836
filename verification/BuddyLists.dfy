/** The packed next/prev words of the buddy allocator and the doubly linked lists they make. */
module BuddyLists {

  type Word32 = x: int | 0 <= x < 0x1_0000_0000

  /** `buddy_block_t` */
  datatype Node = Node(next: Word32, prev: Word32)

  const FLAG_FREE := 0x8000_0000
  const ORDER_UNIT := 0x0800_0000
  const NEXT_UNIT := 0x1000_0000

  /** Page indices stay below 2^26, so they fit both link fields. */
  const INDEX_LIMIT := 0x0400_0000

  /** GET_NEXT, GET_PREV, GET_ORDER and IS_FREE */
  function NextOf(n: Node): nat {
    n.next % NEXT_UNIT
  }

  function PrevOf(n: Node): nat {
    n.prev % ORDER_UNIT
  }

  function OrderOf(n: Node): nat {
    n.prev / ORDER_UNIT
  }

  predicate IsFreeNode(n: Node) {
    n.next / FLAG_FREE % 2 == 1
  }

  /** `(word & MASK_ORDER) | index`: the five top bits stay, the rest is replaced. */
  function KeepHigh(w: Word32, index: nat): Word32
    requires index < INDEX_LIMIT
  {
    w / ORDER_UNIT * ORDER_UNIT + index
  }

  /** The link words of element j of a list: its neighbours, or itself at the ends. */
  function NextIn(list: seq<nat>, j: nat): nat
    requires j < |list|
  {
    if j + 1 < |list| then list[j + 1] else list[j]
  }

  function PrevIn(list: seq<nat>, j: nat): nat
    requires j < |list|
  {
    if j > 0 then list[j - 1] else list[j]
  }

  ghost predicate Distinct(list: seq<nat>) {
    forall i, j | 0 <= i < j < |list| :: list[i] != list[j]
  }

  /** `first` and the words of the listed pages spell out the list, with order `o` in every block. */
  ghost predicate Linked(w: seq<Node>, first: int, list: seq<nat>, o: nat) {
    && o < 32 && first == (if list == [] then -1 else list[0]) && Distinct(list)
    && (forall j | 0 <= j < |list| :: list[j] < |w| && list[j] < INDEX_LIMIT)
    && forall j | 0 <= j < |list| :: LinkedAt(w, list, j, o)
  }

  ghost predicate LinkedAt(w: seq<Node>, list: seq<nat>, j: nat, o: nat)
    requires j < |list| && list[j] < |w|
  {
    w[list[j]].next == FLAG_FREE + NextIn(list, j) && w[list[j]].prev == o * ORDER_UNIT + PrevIn(list, j)
  }

  lemma LinkedReads(w: seq<Node>, first: int, list: seq<nat>, o: nat, j: nat)
    requires Linked(w, first, list, o) && j < |list|
    ensures list[j] < |w|
    ensures var n := w[list[j]];
            NextOf(n) == NextIn(list, j) && PrevOf(n) == PrevIn(list, j) && OrderOf(n) == o && IsFreeNode(n)
  {
    assert LinkedAt(w, list, j, o);
    assert NextIn(list, j) < INDEX_LIMIT && PrevIn(list, j) < INDEX_LIMIT;
  }

  lemma LinkedFrame(w: seq<Node>, w': seq<Node>, first: int, list: seq<nat>, o: nat)
    requires Linked(w, first, list, o) && |w'| == |w|
    requires forall h: nat | h in list :: h < |w| && w'[h] == w[h]
    ensures Linked(w', first, list, o)
  {
    forall j | 0 <= j < |list| ensures list[j] < |w'| && LinkedAt(w', list, j, o) {
      assert LinkedAt(w, list, j, o);
      assert list[j] in list;
    }
  }

  // ----- insertion at the front

  /** The words after `buddy_add_free`. */
  function AddWords(w: seq<Node>, first: int, index: nat, o: nat): (r: seq<Node>)
    requires index < |w| && index < INDEX_LIMIT && o < 32 && -1 <= first < |w| && first < INDEX_LIMIT
    ensures |r| == |w|
  {
    var w1 := if first == -1 then w else w[first := Node(w[first].next, KeepHigh(w[first].prev, index))];
    w1[index := Node(FLAG_FREE + if first == -1 then index else first, o * ORDER_UNIT + index)]
  }

  lemma LinkedAdd(w: seq<Node>, first: int, list: seq<nat>, o: nat, index: nat)
    requires Linked(w, first, list, o) && index < |w| && index < INDEX_LIMIT && index !in list
    ensures Linked(AddWords(w, first, index, o), index, [index] + list, o)
  {
    var r, l := AddWords(w, first, index, o), [index] + list;
    forall j | 0 <= j < |l| ensures LinkedAt(r, l, j, o) {
      if j > 0 {
        assert LinkedAt(w, list, j - 1, o);
      }
    }
  }

  // ----- removal

  /** The words after `buddy_remove_free`. */
  function RemoveWords(w: seq<Node>, index: nat): (r: seq<Node>)
    requires index < |w| && NextOf(w[index]) < |w| && PrevOf(w[index]) < |w|
    requires NextOf(w[index]) < INDEX_LIMIT && PrevOf(w[index]) < INDEX_LIMIT
    ensures |r| == |w|
  {
    var n, p := NextOf(w[index]), PrevOf(w[index]);
    if p == index then
      if n == index then w
      else w[n := Node(w[n].next, KeepHigh(w[n].prev, n))]
    else if n == index then w[p := Node(KeepHigh(w[p].next, p), w[p].prev)]
    else
      var w1 := w[n := Node(w[n].next, KeepHigh(w[n].prev, p))];
      w1[p := Node(KeepHigh(w1[p].next, n), w1[p].prev)]
  }

  function Without(list: seq<nat>, k: nat): seq<nat>
    requires k < |list|
  {
    list[..k] + list[k + 1..]
  }

  lemma KeepsFlag(x: nat, y: nat, o: nat)
    requires x < INDEX_LIMIT && y < INDEX_LIMIT && o < 32
    ensures KeepHigh(FLAG_FREE + x, y) == FLAG_FREE + y
    ensures KeepHigh(o * ORDER_UNIT + x, y) == o * ORDER_UNIT + y
  {
  }

  /** The words of the pages that stay: only the removed page's neighbours change, and only one field each. */
  lemma RemovedWord(w: seq<Node>, first: int, list: seq<nat>, o: nat, k: nat, i: nat)
    requires Linked(w, first, list, o) && k < |list| && i < |list| && i != k
    requires NextOf(w[list[k]]) == NextIn(list, k) && PrevOf(w[list[k]]) == PrevIn(list, k)
    ensures RemoveWords(w, list[k])[list[i]]
            == Node(FLAG_FREE + (if i + 1 == k then if k + 1 < |list| then list[k + 1] else list[i] else NextIn(list, i)),
                    o * ORDER_UNIT + (if i == k + 1 then if k > 0 then list[k - 1] else list[i] else PrevIn(list, i)))
  {
    assert LinkedAt(w, list, i, o);
    assert list[i] != list[k];
    KeepsFlag(NextIn(list, i), NextIn(list, k), o);
    KeepsFlag(NextIn(list, i), PrevIn(list, k), o);
    KeepsFlag(PrevIn(list, i), PrevIn(list, k), o);
    KeepsFlag(PrevIn(list, i), NextIn(list, k), o);
    assert i + 1 != k && k > 0 ==> list[i] != list[k - 1];
    assert i != k + 1 && k + 1 < |list| ==> list[i] != list[k + 1];
  }

  lemma WithoutDistinct(list: seq<nat>, k: nat)
    requires Distinct(list) && k < |list|
    ensures Distinct(Without(list, k)) && list[k] !in Without(list, k)
    ensures forall h | h in list :: h == list[k] || h in Without(list, k)
    ensures forall h | h in Without(list, k) :: h in list
  {
    forall h | h in list && h != list[k] ensures h in Without(list, k) {
      var j :| 0 <= j < |list| && list[j] == h;
      assert Without(list, k)[if j < k then j else j - 1] == h;
    }
  }

  lemma LinkedRemove(w: seq<Node>, first: int, list: seq<nat>, o: nat, k: nat)
    requires Linked(w, first, list, o) && k < |list|
    ensures NextOf(w[list[k]]) == NextIn(list, k) && PrevOf(w[list[k]]) == PrevIn(list, k)
    ensures NextIn(list, k) < |w| && PrevIn(list, k) < |w| && NextIn(list, k) < INDEX_LIMIT && PrevIn(list, k) < INDEX_LIMIT
    ensures var first' := if k > 0 then first else if |list| == 1 then -1 else list[1];
            Linked(RemoveWords(w, list[k]), first', Without(list, k), o)
  {
    LinkedReads(w, first, list, o, k);
    WithoutDistinct(list, k);
    var r, l := RemoveWords(w, list[k]), Without(list, k);
    hide RemoveWords;
    forall j | 0 <= j < |l| ensures LinkedAt(r, l, j, o) {
      var i := if j < k then j else j + 1;
      RemovedWord(w, first, list, o, k, i);
      assert l[j] == list[i];
    }
  }
}
