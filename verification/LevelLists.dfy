/**
 One side of a book: an array of price levels, each the head, tail and running total of a singly linked
 FIFO list whose links live in the slots of a pool shared with the other side.
 The link, level and quantity fields are the ones the algorithms of PriceLevels.h use.
 */
module LevelLists {
  import opened OrderPools
  import opened Words

  const NIL: nat := 0xFFFF

  datatype Node = Node(levelIndex: nat, nextIndex: nat, quantity: word32)
  datatype Level = Level(head: nat, tail: nat, totalQty: word32)

  type Slots = seq<Entry<Node>>

  const EMPTY_LEVEL: Level := Level(NIL, NIL, 0)

  // ---------- the list a level denotes ----------

  function Qty(slots: Slots, idx: nat): nat {
    if idx < |slots| then slots[idx].order.quantity else 0
  }

  /** The true sum of the quantities on a list. */
  function ListQty(slots: Slots, list: seq<nat>): nat {
    if list == [] then 0 else ListQty(slots, list[..|list| - 1]) + Qty(slots, list[|list| - 1])
  }

  /** The links of `slots` thread exactly `list` from the level's head to its tail. */
  ghost predicate Threads(slots: Slots, lvl: Level, list: seq<nat>, l: nat) {
    && (forall i :: 0 <= i < |list| ==> list[i] < |slots|)
    && (forall i {:trigger slots[list[i]]} :: 0 <= i < |list| ==> slots[list[i]].order.levelIndex == l)
    && (forall i {:trigger slots[list[i]]} :: 0 <= i < |list| ==>
          slots[list[i]].order.nextIndex == LinkAt(list, i + 1, NIL))
    && Distinct(list)
    && lvl.head == LinkAt(list, 0, NIL)
    && lvl.tail == (if list == [] then NIL else list[|list| - 1])
  }

  ghost predicate Linked(slots: Slots, lvl: Level, list: seq<nat>, l: nat) {
    && Threads(slots, lvl, list, l)
    && lvl.totalQty == ListQty(slots, list) % TWO32
  }

  ghost predicate AllLinked(slots: Slots, levels: seq<Level>, lists: seq<seq<nat>>) {
    && |slots| <= NIL
    && |lists| == |levels|
    && (forall l {:trigger Linked(slots, levels[l], lists[l], l)} ::
          0 <= l < |levels| ==> Linked(slots, levels[l], lists[l], l))
  }

  /** What walking a level's links shows, one slot at a time. */
  lemma Walk(slots: Slots, levels: seq<Level>, lists: seq<seq<nat>>, l: nat, k: nat)
    requires AllLinked(slots, levels, lists) && l < |lists| && k <= |lists[l]|
    ensures levels[l].head == LinkAt(lists[l], 0, NIL)
    ensures k < |lists[l]| ==> lists[l][k] < |slots|
                               && slots[lists[l][k]].order.nextIndex == LinkAt(lists[l], k + 1, NIL)
  {
    assert Linked(slots, levels[l], lists[l], l);
  }

  /** A level's stored total is the sum of its queue wrapped to 32 bits, hence exact just when the sum fits. */
  lemma LevelTotal(slots: Slots, levels: seq<Level>, lists: seq<seq<nat>>, l: nat)
    requires AllLinked(slots, levels, lists) && l < |levels|
    ensures levels[l].totalQty == ListQty(slots, lists[l]) % TWO32
    ensures levels[l].totalQty == ListQty(slots, lists[l]) <==> ListQty(slots, lists[l]) < TWO32
  {
    assert Linked(slots, levels[l], lists[l], l);
  }

  /** Lists of different levels share no slot, because each slot names its level. */
  lemma ListsAreDisjoint(slots: Slots, levels: seq<Level>, lists: seq<seq<nat>>, a: nat, b: nat, idx: nat)
    requires AllLinked(slots, levels, lists)
    requires a < |lists| && b < |lists| && idx in lists[a] && idx in lists[b]
    ensures a == b && idx < |slots| && slots[idx].order.levelIndex == a
  {
    assert Linked(slots, levels[a], lists[a], a) && Linked(slots, levels[b], lists[b], b);
    var i :| 0 <= i < |lists[a]| && lists[a][i] == idx;
    var j :| 0 <= j < |lists[b]| && lists[b][j] == idx;
    assert slots[lists[a][i]].order.levelIndex == a && slots[lists[b][j]].order.levelIndex == b;
  }

  /** The links leave no choice: a level denotes at most one list. */
  lemma {:induction false} ListIsDetermined(slots: Slots, lvl: Level, a: seq<nat>, b: seq<nat>, l: nat, k: nat)
    requires |slots| <= NIL && Threads(slots, lvl, a, l) && Threads(slots, lvl, b, l)
    requires k <= |a| && k <= |b| && a[..k] == b[..k]
    ensures a == b
    decreases |a| - k
  {
    assert LinkAt(a, k, NIL) == LinkAt(b, k, NIL) by {
      if k > 0 {
        assert a[k - 1] == a[..k][k - 1] == b[..k][k - 1] == b[k - 1];
        assert slots[a[k - 1]].order.nextIndex == LinkAt(a, k, NIL);
        assert slots[b[k - 1]].order.nextIndex == LinkAt(b, k, NIL);
      }
    }
    if k < |a| && k < |b| {
      assert a[..k + 1] == a[..k] + [a[k]] && b[..k + 1] == b[..k] + [b[k]];
      ListIsDetermined(slots, lvl, a, b, l, k + 1);
    } else {
      assert k == |a| && k == |b|;
      assert a == a[..k] && b == b[..k];
    }
  }

  lemma {:induction false} ListQtyFrame(slots: Slots, slots': Slots, list: seq<nat>)
    requires forall i :: i in list ==> Qty(slots', i) == Qty(slots, i)
    ensures ListQty(slots', list) == ListQty(slots, list)
  {
    if list != [] {
      assert list[|list| - 1] in list;
      ListQtyFrame(slots, slots', list[..|list| - 1]);
    }
  }

  lemma {:induction false} ListQtySplit(slots: Slots, a: seq<nat>, b: seq<nat>)
    ensures ListQty(slots, a + b) == ListQty(slots, a) + ListQty(slots, b)
  {
    if b == [] {
      assert a + b == a;
    } else {
      var b' := b[..|b| - 1];
      assert (a + b)[..|a + b| - 1] == a + b';
      ListQtySplit(slots, a, b');
    }
  }

  lemma ListQtyWithout(slots: Slots, list: seq<nat>, k: nat)
    requires k < |list|
    ensures ListQty(slots, list) == ListQty(slots, list[..k] + list[k + 1..]) + Qty(slots, list[k])
  {
    assert list == list[..k] + ([list[k]] + list[k + 1..]);
    ListQtySplit(slots, list[..k], [list[k]] + list[k + 1..]);
    ListQtySplit(slots, [list[k]], list[k + 1..]);
    ListQtySplit(slots, list[..k], list[k + 1..]);
    assert ListQty(slots, [list[k]]) == ListQty(slots, []) + Qty(slots, list[k]) by {
      assert [list[k]][..0] == [];
    }
  }

  /** A level ignores every change to slots off its list, and changes to free links anywhere. */
  lemma LinkedFrame(slots: Slots, slots': Slots, lvl: Level, list: seq<nat>, l: nat)
    requires Linked(slots, lvl, list, l) && |slots'| == |slots|
    requires forall i :: i in list && i < |slots| ==> slots'[i].order == slots[i].order
    ensures Linked(slots', lvl, list, l)
  {
    forall i | 0 <= i < |list|
      ensures slots'[list[i]].order == slots[list[i]].order
    {
      assert list[i] in list;
    }
    ListQtyFrame(slots, slots', list);
  }

  lemma AllLinkedFrame(slots: Slots, slots': Slots, levels: seq<Level>, lists: seq<seq<nat>>)
    requires AllLinked(slots, levels, lists) && |slots'| == |slots|
    requires forall l, i :: 0 <= l < |lists| && i in lists[l] && i < |slots| ==> slots'[i].order == slots[i].order
    ensures AllLinked(slots', levels, lists)
  {
    forall l | 0 <= l < |levels|
      ensures Linked(slots', levels[l], lists[l], l)
    {
      assert Linked(slots, levels[l], lists[l], l);
      LinkedFrame(slots, slots', levels[l], lists[l], l);
    }
  }

  /** Changing one level and slots that only its list, old or new, may use. */
  lemma OneLevelChanged(slots: Slots, slots': Slots, levels: seq<Level>, lists: seq<seq<nat>>,
                        l: nat, lvl': Level, list': seq<nat>)
    requires AllLinked(slots, levels, lists) && |slots'| == |slots| && l < |levels|
    requires Linked(slots', lvl', list', l)
    requires forall k, i :: 0 <= k < |lists| && k != l && i in lists[k] && i < |slots| ==>
               slots'[i].order == slots[i].order
    ensures AllLinked(slots', levels[l := lvl'], lists[l := list'])
  {
    forall k | 0 <= k < |levels| && k != l
      ensures Linked(slots', levels[k], lists[k], k)
    {
      assert Linked(slots, levels[k], lists[k], k);
      LinkedFrame(slots, slots', levels[k], lists[k], k);
    }
  }

  // ---------- append, unlink and reduce on values ----------

  function WithNode(slots: Slots, idx: nat, node: Node): Slots
    requires idx < |slots|
  {
    slots[idx := slots[idx].(order := node)]
  }

  function WithNext(slots: Slots, idx: nat, next: nat): Slots
    requires idx < |slots|
  {
    WithNode(slots, idx, slots[idx].order.(nextIndex := next))
  }

  function Appended(slots: Slots, tail: nat, idx: nat, l: nat): Slots
    requires idx < |slots| && (tail == NIL || tail < |slots|)
  {
    var placed := WithNode(slots, idx, Node(l, NIL, slots[idx].order.quantity));
    if tail != NIL then WithNext(placed, tail, idx) else placed
  }

  /** Free links and quantities are the same everywhere. */
  ghost predicate SameButLists(slots: Slots, slots': Slots) {
    && |slots'| == |slots|
    && (forall i :: 0 <= i < |slots| ==> slots'[i].nextFreeIndex == slots[i].nextFreeIndex
                                         && slots'[i].order.quantity == slots[i].order.quantity)
  }

  /** No slot changes but `idx` and those on `list`. */
  ghost predicate SameOff(slots: Slots, slots': Slots, list: seq<nat>, idx: nat) {
    && |slots'| == |slots|
    && (forall i :: 0 <= i < |slots| && i != idx && i !in list ==> slots'[i] == slots[i])
  }

  /** No slot but `idx` names another level than before. */
  ghost predicate SameLevelsBut(slots: Slots, slots': Slots, idx: nat) {
    && |slots'| == |slots|
    && (forall i :: 0 <= i < |slots| && i != idx ==> slots'[i].order.levelIndex == slots[i].order.levelIndex)
  }

  lemma SameButListsKeepsChain(slots: Slots, slots': Slots, head: nat, chain: seq<nat>)
    requires FreeChain(slots, head, chain) && SameButLists(slots, slots')
    ensures FreeChain(slots', head, chain)
  {
    FreeChainIgnoresOrders(slots, slots', head, chain);
  }

  /** An append writes the slot and the old tail; free links and quantities stay everywhere. */
  lemma AppendedFrame(slots: Slots, list: seq<nat>, tail: nat, idx: nat, l: nat)
    requires idx < |slots| && idx !in list && (tail == NIL || (tail < |slots| && tail in list))
    ensures var slots' := Appended(slots, tail, idx, l);
            && slots'[idx].order.levelIndex == l
            && SameButLists(slots, slots') && SameOff(slots, slots', list, idx) && SameLevelsBut(slots, slots', idx)
  {
  }

  lemma AppendedThreads(slots: Slots, lvl: Level, list: seq<nat>, l: nat, idx: nat)
    requires |slots| <= NIL && Threads(slots, lvl, list, l)
    requires idx < |slots| && idx !in list
    ensures lvl.tail == NIL <==> list == []
    ensures list != [] ==> lvl.tail < |slots| && lvl.tail == list[|list| - 1]
    ensures Threads(Appended(slots, lvl.tail, idx, l),
                    Level(if list == [] then idx else lvl.head, idx, 0), list + [idx], l)
  {
    var n, list' := |list|, list + [idx];
    if n > 0 {
      assert list[n - 1] in list;
    }
    var slots' := Appended(slots, lvl.tail, idx, l);
    assert slots'[idx].order == Node(l, NIL, slots[idx].order.quantity);
    forall i | 0 <= i < n
      ensures slots'[list[i]].order == slots[list[i]].order.(nextIndex := LinkAt(list', i + 1, NIL))
    {
      assert list[i] in list;
      assert slots[list[i]].order.nextIndex == LinkAt(list, i + 1, NIL);
      assert i < n - 1 ==> list[i] != list[n - 1];
    }
  }

  lemma AppendKeepsLinked(slots: Slots, lvl: Level, list: seq<nat>, l: nat, idx: nat)
    requires |slots| <= NIL && Linked(slots, lvl, list, l)
    requires idx < |slots| && idx !in list
    ensures lvl.tail == NIL <==> list == []
    ensures list != [] ==> lvl.tail < |slots| && lvl.tail == list[|list| - 1]
    ensures Linked(Appended(slots, lvl.tail, idx, l),
                   Level(if list == [] then idx else lvl.head, idx, (lvl.totalQty + Qty(slots, idx)) % TWO32),
                   list + [idx], l)
  {
    AppendedThreads(slots, lvl, list, l, idx);
    var slots' := Appended(slots, lvl.tail, idx, l);
    assert ListQty(slots', list + [idx]) == ListQty(slots, list) + Qty(slots, idx) by {
      ListQtyFrame(slots, slots', list + [idx]);
      assert (list + [idx])[..|list|] == list;
    }
    WrapSub(ListQty(slots, list), 0 - Qty(slots, idx));
  }

  /** The slot before position k, or NIL at the front. */
  function Before(list: seq<nat>, k: nat): nat
    requires k <= |list|
  {
    if k > 0 then list[k - 1] else NIL
  }

  /** The slots and the level after `unlinkFromLevel` found `idx` behind `prev`. */
  function UnlinkedSlots(slots: Slots, prev: nat, idx: nat): Slots
    requires idx < |slots| && (prev == NIL || prev < |slots|)
  {
    var bridged := if prev != NIL then WithNext(slots, prev, slots[idx].order.nextIndex) else slots;
    WithNext(bridged, idx, NIL)
  }

  /** An unlink writes the slot and the one before it; free links, quantities and levels stay everywhere. */
  lemma UnlinkedFrame(slots: Slots, list: seq<nat>, k: nat)
    requires k < |list| && list[k] < |slots| && (k > 0 ==> list[k - 1] < |slots|)
    ensures var idx, slots' := list[k], UnlinkedSlots(slots, Before(list, k), list[k]);
            && slots'[idx].order.nextIndex == NIL && slots'[idx].order.levelIndex == slots[idx].order.levelIndex
            && SameButLists(slots, slots') && SameOff(slots, slots', list, idx) && SameLevelsBut(slots, slots', idx)
  {
    if k > 0 {
      assert list[k - 1] in list;
    }
  }

  function UnlinkedLevel(slots: Slots, lvl: Level, prev: nat, idx: nat): Level
    requires idx < |slots|
  {
    Level(if prev != NIL then lvl.head else slots[idx].order.nextIndex,
          if lvl.tail == idx then prev else lvl.tail,
          (lvl.totalQty - slots[idx].order.quantity) % TWO32)
  }

  /** The list without one element, all others in their order. */
  function Without(list: seq<nat>, x: nat): seq<nat> {
    if list == [] then []
    else if list[0] == x then list[1..]
    else [list[0]] + Without(list[1..], x)
  }

  lemma {:induction false} WithoutAt(list: seq<nat>, k: nat)
    requires k < |list| && Distinct(list)
    ensures Without(list, list[k]) == list[..k] + list[k + 1..]
  {
    if k > 0 {
      WithoutAt(list[1..], k - 1);
      assert list[..k] + list[k + 1..] == [list[0]] + (list[1..][..k - 1] + list[1..][k..]);
    }
  }

  /** Unlinking takes out that slot alone: nothing else leaves, the others keep their order, and it is gone. */
  lemma WithoutIsExact(list: seq<nat>, x: nat)
    requires Distinct(list)
    ensures Distinct(Without(list, x))
    ensures forall y :: y in Without(list, x) <==> y in list && y != x
    ensures x !in list ==> Without(list, x) == list
    ensures forall k :: 0 <= k < |list| && list[k] == x ==> Without(list, x) == list[..k] + list[k + 1..]
  {
    WithoutMembers(list, x);
    forall k | 0 <= k < |list| && list[k] == x
      ensures Without(list, x) == list[..k] + list[k + 1..]
    {
      WithoutAt(list, k);
    }
  }

  lemma {:induction false} WithoutMembers(list: seq<nat>, x: nat)
    requires Distinct(list)
    ensures Distinct(Without(list, x))
    ensures forall y :: y in Without(list, x) <==> y in list && y != x
    ensures x !in list ==> Without(list, x) == list
  {
    if list != [] {
      var rest := Without(list[1..], x);
      WithoutMembers(list[1..], x);
      assert list == [list[0]] + list[1..];
      assert forall y :: y in list <==> y == list[0] || y in list[1..];
      assert list[0] !in list[1..];
      if list[0] != x {
        assert forall y :: y in Without(list, x) <==> y == list[0] || y in rest;
      }
    }
  }

  /** A list after one position is left out. */
  lemma CutOut(list: seq<nat>, k: nat)
    requires k < |list| && Distinct(list)
    ensures var list' := list[..k] + list[k + 1..];
            && Distinct(list')
            && forall i :: 0 <= i < |list'| ==> list'[i] == list[if i < k then i else i + 1]
  {
  }

  /** What the unlink makes of one of the slots that stay. */
  lemma UnlinkedSlot(slots: Slots, lvl: Level, list: seq<nat>, l: nat, k: nat, i: nat)
    requires |slots| <= NIL && Threads(slots, lvl, list, l) && k < |list| && i < |list| - 1
    ensures k > 0 ==> list[k - 1] < |slots|
    ensures var list' := list[..k] + list[k + 1..];
            && list'[i] < |slots|
            && UnlinkedSlots(slots, Before(list, k), list[k])[list'[i]].order
               == Node(l, LinkAt(list', i + 1, NIL), slots[list'[i]].order.quantity)
  {
    var j, list' := if i < k then i else i + 1, list[..k] + list[k + 1..];
    assert list'[i] == list[j] && list[j] != list[k];
    assert LinkAt(list', i + 1, NIL) == if i == k - 1 then LinkAt(list, k + 1, NIL) else LinkAt(list, j + 1, NIL);
    assert slots[list[j]].order.levelIndex == l && slots[list[j]].order.nextIndex == LinkAt(list, j + 1, NIL);
    assert slots[list[k]].order.nextIndex == LinkAt(list, k + 1, NIL);
    if k > 0 {
      assert list[j] == list[k - 1] <==> j == k - 1;
    }
  }

  /** What the unlink makes of the level's ends. */
  lemma UnlinkedEnds(slots: Slots, lvl: Level, list: seq<nat>, l: nat, k: nat)
    requires |slots| <= NIL && Threads(slots, lvl, list, l) && k < |list|
    ensures list[k] < |slots|
    ensures var list', lvl' := list[..k] + list[k + 1..], UnlinkedLevel(slots, lvl, Before(list, k), list[k]);
            && lvl'.head == LinkAt(list', 0, NIL)
            && lvl'.tail == (if list' == [] then NIL else list'[|list'| - 1])
  {
    assert slots[list[k]].order.nextIndex == LinkAt(list, k + 1, NIL);
    assert list[|list| - 1] == list[k] <==> k == |list| - 1;
  }

  lemma UnlinkedThreads(slots: Slots, lvl: Level, list: seq<nat>, l: nat, k: nat)
    requires |slots| <= NIL && Threads(slots, lvl, list, l) && k < |list|
    ensures list[k] < |slots| && (k > 0 ==> list[k - 1] < |slots|)
    ensures Threads(UnlinkedSlots(slots, Before(list, k), list[k]), UnlinkedLevel(slots, lvl, Before(list, k), list[k]),
                    list[..k] + list[k + 1..], l)
  {
    UnlinkedEnds(slots, lvl, list, l, k);
    CutOut(list, k);
    var list' := list[..k] + list[k + 1..];
    forall i | 0 <= i < |list'|
      ensures list'[i] < |slots|
      ensures UnlinkedSlots(slots, Before(list, k), list[k])[list'[i]].order
              == Node(l, LinkAt(list', i + 1, NIL), slots[list'[i]].order.quantity)
    {
      UnlinkedSlot(slots, lvl, list, l, k, i);
    }
  }

  lemma UnlinkedTotal(slots: Slots, list: seq<nat>, k: nat)
    requires |slots| <= NIL && k < |list| && list[k] < |slots| && (k > 0 ==> list[k - 1] < |slots|)
    ensures ListQty(UnlinkedSlots(slots, Before(list, k), list[k]), list[..k] + list[k + 1..])
            == ListQty(slots, list) - slots[list[k]].order.quantity
  {
    ListQtyFrame(slots, UnlinkedSlots(slots, Before(list, k), list[k]), list[..k] + list[k + 1..]);
    ListQtyWithout(slots, list, k);
  }

  lemma UnlinkKeepsLinked(slots: Slots, lvl: Level, list: seq<nat>, l: nat, k: nat)
    requires |slots| <= NIL && Linked(slots, lvl, list, l) && k < |list|
    ensures list[k] < |slots| && (k > 0 ==> list[k - 1] < |slots|)
    ensures Linked(UnlinkedSlots(slots, Before(list, k), list[k]), UnlinkedLevel(slots, lvl, Before(list, k), list[k]),
                   list[..k] + list[k + 1..], l)
  {
    UnlinkedThreads(slots, lvl, list, l, k);
    UnlinkedTotal(slots, list, k);
    WrapSub(ListQty(slots, list), slots[list[k]].order.quantity);
  }

  function Reduced(slots: Slots, idx: nat, qty: word32): Slots
    requires idx < |slots|
  {
    var node := slots[idx].order;
    WithNode(slots, idx, node.(quantity := (node.quantity - qty) % TWO32))
  }

  lemma ReducedListQty(slots: Slots, list: seq<nat>, idx: nat, qty: word32)
    requires idx < |slots| && Distinct(list)
    ensures ListQty(Reduced(slots, idx, qty), list)
            == ListQty(slots, list) + (if idx in list then Qty(Reduced(slots, idx, qty), idx) - Qty(slots, idx) else 0)
  {
    var slots' := Reduced(slots, idx, qty);
    if idx in list {
      var k :| 0 <= k < |list| && list[k] == idx;
      WithoutAt(list, k);
      WithoutIsExact(list, idx);
      ListQtyFrame(slots, slots', list[..k] + list[k + 1..]);
      ListQtyWithout(slots, list, k);
      ListQtyWithout(slots', list, k);
    } else {
      ListQtyFrame(slots, slots', list);
    }
  }

  /** In 32-bit arithmetic a total follows the change of one of its parts; otherwise it drifts by the cut. */
  lemma WrappedTotals(total: int, quantity: int, qty: word32)
    ensures (total % TWO32 - qty) % TWO32 == (total - quantity + (quantity - qty) % TWO32) % TWO32
    ensures (total % TWO32 - qty) % TWO32 == total % TWO32 <==> qty == 0
  {
  }

  /**
   A quantity cut, with wrap-around, in the slot and in its level's total together: the level stays
   consistent exactly when the slot is on its list (or nothing is cut).
   */
  lemma ReduceKeepsLinkedIff(slots: Slots, lvl: Level, list: seq<nat>, l: nat, idx: nat, qty: word32)
    requires Linked(slots, lvl, list, l) && idx < |slots|
    ensures Linked(Reduced(slots, idx, qty), lvl.(totalQty := (lvl.totalQty - qty) % TWO32), list, l)
            <==> idx in list || qty == 0
  {
    ReducedListQty(slots, list, idx, qty);
    WrappedTotals(ListQty(slots, list), Qty(slots, idx), qty);
    assert Threads(Reduced(slots, idx, qty), lvl.(totalQty := (lvl.totalQty - qty) % TWO32), list, l);
  }

  // ---------- one level changes, all levels stay linked ----------

  /** A slot on one level's list is on no other level's list. */
  lemma OthersOffList(slots: Slots, levels: seq<Level>, lists: seq<seq<nat>>, l: nat)
    requires AllLinked(slots, levels, lists) && l < |lists|
    ensures forall k, i :: 0 <= k < |lists| && k != l && i in lists[k] ==> i !in lists[l]
  {
    forall k, i | 0 <= k < |lists| && k != l && i in lists[k]
      ensures i !in lists[l]
    {
      if i in lists[l] {
        ListsAreDisjoint(slots, levels, lists, k, l, i);
      }
    }
  }

  lemma ListedOnce(slots: Slots, levels: seq<Level>, lists: seq<seq<nat>>, l: nat, idx: nat)
    requires AllLinked(slots, levels, lists) && l < |lists| && idx in lists[l]
    ensures forall k :: 0 <= k < |lists| && k != l ==> idx !in lists[k]
  {
    OthersOffList(slots, levels, lists, l);
  }

  /** Changing one level, slots on its list and one that no other list has. */
  lemma OwnLevelChanged(slots: Slots, slots': Slots, levels: seq<Level>, lists: seq<seq<nat>>,
                        l: nat, idx: nat, lvl': Level, list': seq<nat>)
    requires AllLinked(slots, levels, lists) && l < |levels| && SameOff(slots, slots', lists[l], idx)
    requires forall k :: 0 <= k < |lists| && k != l ==> idx !in lists[k]
    requires Linked(slots', lvl', list', l)
    ensures AllLinked(slots', levels[l := lvl'], lists[l := list'])
  {
    OthersOffList(slots, levels, lists, l);
    OneLevelChanged(slots, slots', levels, lists, l, lvl', list');
  }

  lemma AppendKeepsAllLinked(slots: Slots, levels: seq<Level>, lists: seq<seq<nat>>, l: nat, idx: nat)
    requires AllLinked(slots, levels, lists) && l < |lists| && idx < |slots|
    requires forall k :: 0 <= k < |lists| ==> idx !in lists[k]
    ensures levels[l].tail == NIL <==> lists[l] == []
    ensures lists[l] != [] ==> levels[l].tail < |slots| && levels[l].tail in lists[l]
    ensures AllLinked(Appended(slots, levels[l].tail, idx, l),
                      levels[l := Level(if lists[l] == [] then idx else levels[l].head, idx,
                                        (levels[l].totalQty + Qty(slots, idx)) % TWO32)],
                      lists[l := lists[l] + [idx]])
  {
    var lvl := Level(if lists[l] == [] then idx else levels[l].head, idx, (levels[l].totalQty + Qty(slots, idx)) % TWO32);
    assert Linked(slots, levels[l], lists[l], l);
    AppendKeepsLinked(slots, levels[l], lists[l], l, idx);
    var slots' := Appended(slots, levels[l].tail, idx, l);
    AppendedFrame(slots, lists[l], levels[l].tail, idx, l);
    OwnLevelChanged(slots, slots', levels, lists, l, idx, lvl, lists[l] + [idx]);
  }

  lemma UnlinkKeepsAllLinked(slots: Slots, levels: seq<Level>, lists: seq<seq<nat>>, l: nat, k: nat)
    requires AllLinked(slots, levels, lists) && l < |lists| && k < |lists[l]|
    ensures lists[l][k] < |slots| && (k > 0 ==> lists[l][k - 1] < |slots|)
    ensures UnlinkedLevel(slots, levels[l], Before(lists[l], k), lists[l][k]).head == NIL <==> Without(lists[l], lists[l][k]) == []
    ensures var prev, idx := Before(lists[l], k), lists[l][k];
            AllLinked(UnlinkedSlots(slots, prev, idx), levels[l := UnlinkedLevel(slots, levels[l], prev, idx)],
                      lists[l := Without(lists[l], idx)])
  {
    var list := lists[l];
    var prev, idx := Before(list, k), list[k];
    assert Linked(slots, levels[l], list, l);
    UnlinkKeepsLinked(slots, levels[l], list, l, k);
    WithoutAt(list, k);
    ListedOnce(slots, levels, lists, l, idx);
    var slots', lvl' := UnlinkedSlots(slots, prev, idx), UnlinkedLevel(slots, levels[l], prev, idx);
    UnlinkedFrame(slots, list, k);
    OwnLevelChanged(slots, slots', levels, lists, l, idx, lvl', Without(list, idx));
  }

  // ---------- level counts ----------

  /** The number of levels with at least one order. */
  function ActiveCount(lists: seq<seq<nat>>): nat {
    if lists == [] then 0
    else ActiveCount(lists[..|lists| - 1]) + (if lists[|lists| - 1] != [] then 1 else 0)
  }

  function Active(list: seq<nat>): nat {
    if list != [] then 1 else 0
  }

  /** Changing one level's list moves the count by the change of that level alone. */
  lemma {:induction false} ActiveCountUpdate(lists: seq<seq<nat>>, l: nat, list': seq<nat>)
    requires l < |lists|
    ensures ActiveCount(lists[l := list']) == ActiveCount(lists) - Active(lists[l]) + Active(list')
  {
    var n := |lists| - 1;
    if l == n {
      assert lists[l := list'][..n] == lists[..n];
    } else {
      assert lists[l := list'][..n] == lists[..n][l := list'];
      ActiveCountUpdate(lists[..n], l, list');
    }
  }

  lemma {:induction false} ActiveCountPositive(lists: seq<seq<nat>>)
    ensures ActiveCount(lists) > 0 <==> exists l :: 0 <= l < |lists| && lists[l] != []
  {
    if lists != [] {
      var n := |lists| - 1;
      ActiveCountPositive(lists[..n]);
      if ActiveCount(lists[..n]) > 0 {
        var l :| 0 <= l < n && lists[..n][l] != [];
        assert lists[l] != [];
      }
    }
  }
}
