/** The mutable price levels of one side, working on a pool that the other side shares. */
module PriceLevelSides {
  import opened LevelLists
  import opened OrderPools
  import opened Words

  class PriceLevels {
    const levels: array<Level>
    ghost var lists: seq<seq<nat>>

    ghost predicate Valid(pool: OrderBookPool<Node>)
      reads this, levels, pool.entries
    {
      && levels.Length <= TWO16
      && AllLinked(pool.entries[..], levels[..], lists)
    }

    constructor (maxLevels: nat)
      requires maxLevels <= TWO16
      ensures fresh(levels) && levels.Length == maxLevels
      ensures lists == seq(maxLevels, _ => [])
      ensures forall l :: 0 <= l < maxLevels ==> levels[l] == EMPTY_LEVEL
    {
      levels := new Level[maxLevels](_ => EMPTY_LEVEL);
      lists := seq(maxLevels, _ => []);
    }

    method HasOrders(pool: OrderBookPool<Node>) returns (found: bool)
      requires Valid(pool)
      ensures found <==> exists l :: 0 <= l < |lists| && lists[l] != []
      ensures found <==> ActiveCount(lists) > 0
    {
      ActiveCountPositive(lists);
      for l := 0 to levels.Length
        invariant forall k :: 0 <= k < l ==> lists[k] == []
      {
        Walk(pool.entries[..], levels[..], lists, l, 0);
        if levels[l].head != NIL {
          return true;
        }
      }
      return false;
    }

    method ActiveLevelCount(pool: OrderBookPool<Node>) returns (count: nat)
      requires Valid(pool)
      ensures count == ActiveCount(lists)
    {
      count := 0;
      for l := 0 to levels.Length
        invariant count == ActiveCount(lists[..l])
      {
        Walk(pool.entries[..], levels[..], lists, l, 0);
        assert lists[..l + 1][..l] == lists[..l];
        if levels[l].head != NIL {
          count := count + 1;
        }
      }
      assert lists[..levels.Length] == lists;
    }

    /** Puts a slot that no list of this side holds at the back of a level's queue. */
    method AppendToLevel(lvlIdx: nat, poolIdx: nat, pool: OrderBookPool<Node>)
      requires Valid(pool) && lvlIdx < levels.Length && poolIdx < pool.entries.Length
      requires forall l :: 0 <= l < |lists| ==> poolIdx !in lists[l]
      modifies this`lists, levels, pool.entries
      ensures Valid(pool)
      ensures lists == old(lists)[lvlIdx := old(lists)[lvlIdx] + [poolIdx]]
      ensures ActiveCount(lists) == old(ActiveCount(lists)) + (if old(lists)[lvlIdx] == [] then 1 else 0)
      ensures pool.entries[poolIdx].order.levelIndex == lvlIdx && pool.entries[poolIdx].order.nextIndex == 0xFFFF
      ensures levels[lvlIdx].totalQty
              == (old(levels[lvlIdx].totalQty) + old(pool.entries[poolIdx].order.quantity)) % 0x1_0000_0000
      ensures SameButLists(old(pool.entries[..]), pool.entries[..])
      ensures SameOff(old(pool.entries[..]), pool.entries[..], old(lists)[lvlIdx], poolIdx)
      ensures SameLevelsBut(old(pool.entries[..]), pool.entries[..], poolIdx)
    {
      ghost var slots, was, list := pool.entries[..], levels[..], lists[lvlIdx];
      AppendKeepsAllLinked(slots, was, lists, lvlIdx, poolIdx);
      AppendedFrame(slots, list, levels[lvlIdx].tail, poolIdx, lvlIdx);
      ghost var slots' := Appended(slots, levels[lvlIdx].tail, poolIdx, lvlIdx);
      ghost var lvl' := Level(if list == [] then poolIdx else levels[lvlIdx].head, poolIdx,
                              (levels[lvlIdx].totalQty + Qty(slots, poolIdx)) % TWO32);
      ActiveCountUpdate(lists, lvlIdx, list + [poolIdx]);

      var lvl := levels[lvlIdx];
      var entry := pool.entries[poolIdx];
      pool.entries[poolIdx] := entry.(order := Node(lvlIdx, NIL, entry.order.quantity));
      if lvl.tail != NIL {
        var last := pool.entries[lvl.tail];
        pool.entries[lvl.tail] := last.(order := last.order.(nextIndex := poolIdx));
      } else {
        lvl := lvl.(head := poolIdx);
      }
      levels[lvlIdx] := Level(lvl.head, poolIdx, (lvl.totalQty + entry.order.quantity) % TWO32);

      lists := lists[lvlIdx := list + [poolIdx]];
      assert pool.entries[..] == slots';
      assert levels[lvlIdx] == lvl' && levels[..] == was[lvlIdx := lvl'];
    }

    /** The writes of an unlink, whatever the lists are. */
    method Bridge(lvlIdx: nat, prev: nat, idx: nat, pool: OrderBookPool<Node>) returns (emptied: bool)
      requires lvlIdx < levels.Length && idx < pool.entries.Length && (prev == NIL || prev < pool.entries.Length)
      modifies levels, pool.entries
      ensures pool.entries[..] == UnlinkedSlots(old(pool.entries[..]), prev, idx)
      ensures var lvl := UnlinkedLevel(old(pool.entries[..]), old(levels[lvlIdx]), prev, idx);
              levels[..] == old(levels[..])[lvlIdx := lvl] && emptied == (lvl.head == NIL)
    {
      ghost var slots, was := pool.entries[..], levels[..];
      var lvl, next := levels[lvlIdx], pool.entries[idx].order.nextIndex;
      if prev != NIL {
        var before := pool.entries[prev];
        pool.entries[prev] := before.(order := before.order.(nextIndex := next));
      } else {
        lvl := lvl.(head := next);
      }
      if lvl.tail == idx {
        lvl := lvl.(tail := prev);
      }
      lvl := lvl.(totalQty := (lvl.totalQty - pool.entries[idx].order.quantity) % TWO32);
      var entry := pool.entries[idx];
      pool.entries[idx] := entry.(order := entry.order.(nextIndex := NIL));
      levels[lvlIdx] := lvl;
      assert pool.entries[..] == UnlinkedSlots(slots, prev, idx);
      assert lvl == UnlinkedLevel(slots, was[lvlIdx], prev, idx) && levels[..] == was[lvlIdx := lvl];
      return lvl.head == NIL;
    }

    /** The unlink once the search has found the slot, at position k, behind `prev`. */
    method TakeOut(lvlIdx: nat, ghost k: nat, prev: nat, idx: nat, pool: OrderBookPool<Node>) returns (emptied: bool)
      requires Valid(pool) && lvlIdx < levels.Length && k < |lists[lvlIdx]|
      requires idx == lists[lvlIdx][k] < pool.entries.Length && prev == Before(lists[lvlIdx], k)
      requires prev == NIL || prev < pool.entries.Length
      modifies this`lists, levels, pool.entries
      ensures Valid(pool)
      ensures lists == old(lists)[lvlIdx := Without(old(lists)[lvlIdx], idx)]
      ensures emptied == (lists[lvlIdx] == [])
      ensures ActiveCount(lists) == old(ActiveCount(lists)) - (if emptied then 1 else 0)
      ensures pool.entries[idx].order.nextIndex == 0xFFFF
      ensures pool.entries[idx].order.levelIndex == old(pool.entries[idx].order.levelIndex)
      ensures levels[lvlIdx].totalQty == (old(levels[lvlIdx].totalQty) - old(pool.entries[idx].order.quantity)) % 0x1_0000_0000
      ensures SameOff(old(pool.entries[..]), pool.entries[..], old(lists)[lvlIdx], idx)
      ensures SameButLists(old(pool.entries[..]), pool.entries[..])
      ensures SameLevelsBut(old(pool.entries[..]), pool.entries[..], idx)
    {
      ghost var slots, was := pool.entries[..], levels[..];
      UnlinkKeepsAllLinked(slots, was, lists, lvlIdx, k);
      UnlinkedFrame(slots, lists[lvlIdx], k);
      ActiveCountUpdate(lists, lvlIdx, Without(lists[lvlIdx], idx));
      emptied := Bridge(lvlIdx, prev, idx, pool);
      lists := lists[lvlIdx := Without(lists[lvlIdx], idx)];
    }

    /**
     Takes a slot out of its level's queue, wherever it is in it; true exactly when that emptied the level.
     A slot on no list of this side is left alone.
     */
    method UnlinkFromLevel(poolIdx: nat, pool: OrderBookPool<Node>) returns (emptied: bool)
      requires Valid(pool) && poolIdx < pool.entries.Length
      requires pool.entries[poolIdx].order.levelIndex < levels.Length
      modifies this`lists, levels, pool.entries
      ensures Valid(pool)
      ensures var l := old(pool.entries[poolIdx].order.levelIndex);
              var list := old(lists)[l];
              if poolIdx in list then
                && lists == old(lists)[l := Without(list, poolIdx)]
                && emptied == (lists[l] == [])
                && pool.entries[poolIdx].order.nextIndex == 0xFFFF
                && levels[l].totalQty
                   == (old(levels[..])[l].totalQty - old(pool.entries[poolIdx].order.quantity)) % 0x1_0000_0000
                && SameOff(old(pool.entries[..]), pool.entries[..], list, poolIdx)
              else
                && !emptied && lists == old(lists)
                && pool.entries[..] == old(pool.entries[..]) && levels[..] == old(levels[..])
      ensures ActiveCount(lists) == old(ActiveCount(lists)) - (if emptied then 1 else 0)
      ensures pool.entries[poolIdx].order.levelIndex == old(pool.entries[poolIdx].order.levelIndex)
      ensures SameButLists(old(pool.entries[..]), pool.entries[..])
      ensures SameLevelsBut(old(pool.entries[..]), pool.entries[..], poolIdx)
    {
      ghost var slots, was := pool.entries[..], levels[..];
      var lvlIdx := pool.entries[poolIdx].order.levelIndex;
      ghost var list := lists[lvlIdx];
      var prev, idx := NIL, levels[lvlIdx].head;
      Walk(slots, was, lists, lvlIdx, 0);
      ghost var k := 0;
      while idx != NIL
        invariant k <= |list| && idx == LinkAt(list, k, NIL)
        invariant prev == Before(list, k) && (k > 0 ==> prev < |slots|)
        invariant forall j :: 0 <= j < k ==> list[j] != poolIdx
        invariant pool.entries[..] == slots && levels[..] == was && lists == old(lists)
        decreases |list| - k
      {
        Walk(slots, was, lists, lvlIdx, k);
        if idx == poolIdx {
          emptied := TakeOut(lvlIdx, k, prev, idx, pool);
          return;
        }
        prev := idx;
        idx := pool.entries[idx].order.nextIndex;
        k := k + 1;
      }
      Walk(slots, was, lists, lvlIdx, k);
      return false;
    }

    /** Cuts a queued slot's quantity and its level's total together, both wrapping at 32 bits. */
    method ReduceQuantity(poolIdx: nat, qty: word32, pool: OrderBookPool<Node>)
      requires Valid(pool) && poolIdx < pool.entries.Length
      requires pool.entries[poolIdx].order.levelIndex < levels.Length
      modifies levels, pool.entries
      ensures pool.entries[..] == Reduced(old(pool.entries[..]), poolIdx, qty)
      ensures pool.entries[poolIdx].order.quantity == (old(pool.entries[poolIdx].order.quantity) - qty) % 0x1_0000_0000
      ensures var l := old(pool.entries[poolIdx].order.levelIndex);
              levels[l].totalQty == (old(levels[..])[l].totalQty - qty) % 0x1_0000_0000
      ensures Valid(pool) <==> poolIdx in lists[old(pool.entries[poolIdx].order.levelIndex)] || qty == 0
    {
      ghost var slots, was := pool.entries[..], levels[..];
      var entry := pool.entries[poolIdx];
      var lvlIdx := entry.order.levelIndex;
      assert Linked(slots, was[lvlIdx], lists[lvlIdx], lvlIdx);
      ReduceKeepsLinkedIff(slots, was[lvlIdx], lists[lvlIdx], lvlIdx, poolIdx, qty);
      pool.entries[poolIdx] := entry.(order := entry.order.(quantity := (entry.order.quantity - qty) % TWO32));
      levels[lvlIdx] := levels[lvlIdx].(totalQty := (levels[lvlIdx].totalQty - qty) % TWO32);
      assert pool.entries[..] == Reduced(slots, poolIdx, qty);
      assert levels[..] == was[lvlIdx := levels[lvlIdx]];
      if poolIdx in lists[lvlIdx] || qty == 0 {
        OthersOffList(slots, was, lists, lvlIdx);
        if qty == 0 {
          assert pool.entries[..] == slots;
        }
        OneLevelChanged(slots, pool.entries[..], was, lists, lvlIdx, levels[lvlIdx], lists[lvlIdx]);
        assert lists[lvlIdx := lists[lvlIdx]] == lists;
      } else {
        assert !Linked(pool.entries[..], levels[..][lvlIdx], lists[lvlIdx], lvlIdx);
      }
    }
  }
}
