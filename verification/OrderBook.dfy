/**
 One order book's shared structures: a slot pool and two sides of price levels threaded through it.
 OrderBook.h declares the book's add, cancel and modify operations without bodies; here are the structural steps
 any of them is made of, and the ownership of slots that each step keeps.
 */
module OrderBooks {
  import opened LevelLists
  import opened OrderPools
  import opened PriceLevelSides
  import opened Words

  /** Where a slot is: on the free chain, with the caller, or in one level's queue of one side. */
  datatype Place = Free | Held | OnLevel(isBid: bool, level: nat)

  ghost predicate FreePart(places: seq<Place>, chain: seq<nat>) {
    forall i :: 0 <= i < |places| ==> (i in chain <==> places[i] == Free)
  }

  ghost predicate SidePart(places: seq<Place>, isBid: bool, lists: seq<seq<nat>>) {
    && (forall i, l :: 0 <= i < |places| && 0 <= l < |lists| ==> (i in lists[l] <==> places[i] == OnLevel(isBid, l)))
    && (forall i :: 0 <= i < |places| && places[i].OnLevel? && places[i].isBid == isBid ==> places[i].level < |lists|)
  }

  /** The real chains and lists say of every slot what `places` says. */
  ghost predicate Partition(places: seq<Place>, chain: seq<nat>, bids: seq<seq<nat>>, asks: seq<seq<nat>>) {
    FreePart(places, chain) && SidePart(places, true, bids) && SidePart(places, false, asks)
  }

  /** A slot moves between places that are not on this side. */
  lemma MovedElsewhere(places: seq<Place>, isBid: bool, lists: seq<seq<nat>>, idx: nat, place: Place)
    requires SidePart(places, isBid, lists) && idx < |places|
    requires places[idx].OnLevel? ==> places[idx].isBid != isBid
    requires place.OnLevel? ==> place.isBid != isBid
    ensures SidePart(places[idx := place], isBid, lists)
  {
  }

  lemma StillNotFree(places: seq<Place>, chain: seq<nat>, idx: nat, place: Place)
    requires FreePart(places, chain) && idx < |places| && places[idx] != Free && place != Free
    ensures FreePart(places[idx := place], chain)
  {
  }

  lemma PartitionAppended(places: seq<Place>, isBid: bool, lists: seq<seq<nat>>, level: nat, idx: nat)
    requires SidePart(places, isBid, lists) && idx < |places| && places[idx] == Held && level < |lists|
    ensures SidePart(places[idx := OnLevel(isBid, level)], isBid, lists[level := lists[level] + [idx]])
  {
  }

  lemma PartitionUnlinked(places: seq<Place>, isBid: bool, lists: seq<seq<nat>>, level: nat, idx: nat)
    requires SidePart(places, isBid, lists) && idx < |places| && level < |lists| && Distinct(lists[level])
    requires places[idx] == OnLevel(isBid, level)
    ensures SidePart(places[idx := Held], isBid, lists[level := Without(lists[level], idx)])
  {
    WithoutIsExact(lists[level], idx);
  }

  /** None of these lists has the slot or anything on `list`. */
  ghost predicate Apart(lists: seq<seq<nat>>, list: seq<nat>, idx: nat) {
    forall l, i :: 0 <= l < |lists| && i in lists[l] ==> i != idx && i !in list
  }

  /** No slot queued on one side is queued on the other. */
  lemma SidesAreDisjoint(places: seq<Place>, slots: Slots, isBid: bool, lists: seq<seq<nat>>, levels: seq<Level>,
                         others: seq<seq<nat>>, level: nat, idx: nat)
    requires SidePart(places, isBid, lists) && SidePart(places, !isBid, others) && level < |lists|
    requires AllLinked(slots, levels, others) && |slots| == |places|
    requires idx < |places| && (places[idx].OnLevel? ==> places[idx].isBid == isBid)
    ensures Apart(others, lists[level], idx)
  {
    forall l, i | 0 <= l < |others| && i in others[l]
      ensures i != idx && i !in lists[level]
    {
      ListsAreDisjoint(slots, levels, others, l, l, i);
      assert places[i] == OnLevel(!isBid, l);
    }
  }

  /** A held slot is on no list and not on the chain, so its order may change. */
  lemma HeldIsOff(places: seq<Place>, chain: seq<nat>, head: nat, slots: Slots, isBid: bool, lists: seq<seq<nat>>,
                  levels: seq<Level>, idx: nat, node: Node)
    requires FreePart(places, chain) && SidePart(places, isBid, lists)
    requires FreeChain(slots, head, chain) && AllLinked(slots, levels, lists) && |slots| == |places|
    requires idx < |places| && places[idx] == Held
    ensures forall l :: 0 <= l < |lists| ==> idx !in lists[l]
    ensures FreeChain(WithNode(slots, idx, node), head, chain) && AllLinked(WithNode(slots, idx, node), levels, lists)
  {
    FreeChainIgnoresOrders(slots, WithNode(slots, idx, node), head, chain);
    AllLinkedFrame(slots, WithNode(slots, idx, node), levels, lists);
  }

  /** Where an append leaves the slot. */
  lemma AppendMoves(places: seq<Place>, chain: seq<nat>, slots: Slots, isBid: bool, lists: seq<seq<nat>>,
                    others: seq<seq<nat>>, otherLevels: seq<Level>, level: nat, idx: nat)
    requires FreePart(places, chain) && SidePart(places, isBid, lists) && SidePart(places, !isBid, others)
    requires AllLinked(slots, otherLevels, others) && |slots| == |places|
    requires idx < |places| && places[idx] == Held && level < |lists|
    ensures var places' := places[idx := OnLevel(isBid, level)];
            && Apart(others, lists[level], idx)
            && FreePart(places', chain) && SidePart(places', !isBid, others)
            && SidePart(places', isBid, lists[level := lists[level] + [idx]])
  {
    SidesAreDisjoint(places, slots, isBid, lists, otherLevels, others, level, idx);
    PartitionAppended(places, isBid, lists, level, idx);
    MovedElsewhere(places, !isBid, others, idx, OnLevel(isBid, level));
    StillNotFree(places, chain, idx, OnLevel(isBid, level));
  }

  /** Where an unlink leaves the slot, from where the slot is. */
  lemma UnlinkMoves(places: seq<Place>, chain: seq<nat>, slots: Slots, isBid: bool, lists: seq<seq<nat>>, levels: seq<Level>,
                    others: seq<seq<nat>>, otherLevels: seq<Level>, idx: nat)
    requires FreePart(places, chain) && SidePart(places, isBid, lists) && SidePart(places, !isBid, others)
    requires AllLinked(slots, levels, lists) && AllLinked(slots, otherLevels, others) && |slots| == |places|
    requires idx < |places| && slots[idx].order.levelIndex < |lists|
    ensures var level := slots[idx].order.levelIndex;
            && (idx in lists[level] <==> places[idx] == OnLevel(isBid, level))
            && (places[idx] == OnLevel(isBid, level) <==> places[idx].OnLevel? && places[idx].isBid == isBid)
            && (idx in lists[level] ==>
                  && Apart(others, lists[level], idx)
                  && FreePart(places[idx := Held], chain) && SidePart(places[idx := Held], !isBid, others)
                  && SidePart(places[idx := Held], isBid, lists[level := Without(lists[level], idx)]))
  {
    var level := slots[idx].order.levelIndex;
    OnItsLevel(slots, levels, lists, idx);
    if places[idx] == OnLevel(isBid, level) {
      assert Linked(slots, levels[level], lists[level], level);
      SidesAreDisjoint(places, slots, isBid, lists, otherLevels, others, level, idx);
      PartitionUnlinked(places, isBid, lists, level, idx);
      MovedElsewhere(places, !isBid, others, idx, Held);
      StillNotFree(places, chain, idx, Held);
    }
  }

  /** A step on one side leaves the free chain and the other side as they are. */
  lemma OtherSideKept(slots: Slots, slots': Slots, head: nat, chain: seq<nat>, levels: seq<Level>,
                      others: seq<seq<nat>>, list: seq<nat>, idx: nat)
    requires FreeChain(slots, head, chain) && AllLinked(slots, levels, others) && Apart(others, list, idx)
    requires SameButLists(slots, slots') && SameOff(slots, slots', list, idx)
    ensures FreeChain(slots', head, chain) && AllLinked(slots', levels, others)
  {
    SameButListsKeepsChain(slots, slots', head, chain);
    AllLinkedFrame(slots, slots', levels, others);
  }

  const BLANK: Node := Node(0, NIL, 0)

  class OrderBook {
    const pool: OrderBookPool<Node>
    const bids: PriceLevels
    const asks: PriceLevels
    ghost var places: seq<Place>

    ghost function Repr(): set<object> {
      {this, pool, pool.entries, bids, bids.levels, asks, asks.levels}
    }

    ghost predicate Valid()
      reads Repr()
    {
      && bids != asks && bids.levels != asks.levels
      && pool.Valid() && bids.Valid(pool) && asks.Valid(pool)
      && 0 < bids.levels.Length == asks.levels.Length
      && |places| == pool.entries.Length
      && (forall i :: 0 <= i < pool.entries.Length ==> pool.entries[i].order.levelIndex < bids.levels.Length)
      && pool.blank == BLANK
      && Partition(places, pool.chain, bids.lists, asks.lists)
    }

    ghost function Lists(isBid: bool): seq<seq<nat>>
      reads bids, asks
    {
      if isBid then bids.lists else asks.lists
    }

    constructor (poolSize: nat, maxLevels: nat)
      requires 1 <= poolSize <= 0xFFFF && 1 <= maxLevels <= TWO16
      ensures Valid() && fresh(Repr())
      ensures places == seq(poolSize, _ => Free)
    {
      pool := new OrderBookPool<Node>(poolSize, BLANK);
      bids := new PriceLevels(maxLevels);
      asks := new PriceLevels(maxLevels);
      places := seq(poolSize, _ => Free);
      new;
      forall l | 0 <= l < maxLevels
        ensures Linked(pool.entries[..], bids.levels[..][l], bids.lists[l], l)
        ensures Linked(pool.entries[..], asks.levels[..][l], asks.lists[l], l)
      {
      }
      forall i | 0 <= i < poolSize
        ensures i in pool.chain
      {
        assert pool.chain[i] == i;
      }
    }

    /** Takes a slot from the free chain; nothing is handed out exactly when no slot is free. */
    method Take() returns (idx: nat)
      requires Valid()
      modifies Repr()
      ensures Valid()
      ensures idx == NO_FREE_INDEX <==> Free !in old(places)
      ensures idx != NO_FREE_INDEX ==> idx < |old(places)| && old(places)[idx] == Free
                                       && places == old(places)[idx := Held]
      ensures idx == NO_FREE_INDEX ==> places == old(places)
      ensures Lists(true) == old(Lists(true)) && Lists(false) == old(Lists(false))
      ensures pool.entries[..] == old(pool.entries[..])
    {
      ghost var chain := pool.chain;
      idx := pool.Allocate();
      if idx != NO_FREE_INDEX {
        assert chain[0] in chain;
        assert forall i :: i in chain <==> i == idx || i in chain[1..] by {
          assert chain == [idx] + chain[1..];
        }
        assert idx !in chain[1..];
        places := places[idx := Held];
      }
    }

    /** Sets a held slot's quantity and queues it at the back of a level. */
    method Append(isBid: bool, level: nat, idx: nat, quantity: word32)
      requires Valid() && level < bids.levels.Length
      requires idx < |places| && places[idx] == Held
      modifies Repr()
      ensures Valid()
      ensures places == old(places)[idx := OnLevel(isBid, level)]
      ensures Lists(isBid) == old(Lists(isBid))[level := old(Lists(isBid))[level] + [idx]]
      ensures Lists(!isBid) == old(Lists(!isBid))
      ensures pool.entries[idx].order.quantity == quantity
      ensures forall i :: 0 <= i < |places| && i != idx ==>
                pool.entries[i].order.quantity == old(pool.entries[i].order.quantity)
    {
      var side, other := bids, asks;
      if !isBid {
        side, other := asks, bids;
      }
      ghost var sized := WithNode(pool.entries[..], idx, pool.entries[idx].order.(quantity := quantity));
      HeldIsOff(places, pool.chain, pool.freeIndex, pool.entries[..], isBid, side.lists, side.levels[..], idx, sized[idx].order);
      HeldIsOff(places, pool.chain, pool.freeIndex, pool.entries[..], !isBid, other.lists, other.levels[..], idx, sized[idx].order);
      AppendMoves(places, pool.chain, sized, isBid, side.lists, other.lists, other.levels[..], level, idx);
      pool.entries[idx] := pool.entries[idx].(order := pool.entries[idx].order.(quantity := quantity));
      assert pool.entries[..] == sized;
      ghost var list := side.lists[level];
      side.AppendToLevel(level, idx, pool);
      OtherSideKept(sized, pool.entries[..], pool.freeIndex, pool.chain, other.levels[..], other.lists, list, idx);
      places := places[idx := OnLevel(isBid, level)];
    }

    /** Takes a slot out of a side's queue. A slot that is not queued on that side stays where it is. */
    method Unlink(isBid: bool, idx: nat) returns (emptied: bool)
      requires Valid() && idx < |places|
      modifies Repr()
      ensures Valid()
      ensures var place := old(places)[idx];
              if place.OnLevel? && place.isBid == isBid then
                && places == old(places)[idx := Held]
                && Lists(isBid) == old(Lists(isBid))[place.level := Without(old(Lists(isBid))[place.level], idx)]
                && emptied == (Lists(isBid)[place.level] == [])
              else
                places == old(places) && !emptied && Lists(isBid) == old(Lists(isBid))
      ensures Lists(!isBid) == old(Lists(!isBid))
      ensures SameButLists(old(pool.entries[..]), pool.entries[..])
    {
      var side, other := bids, asks;
      if !isBid {
        side, other := asks, bids;
      }
      ghost var slots := pool.entries[..];
      ghost var list := side.lists[slots[idx].order.levelIndex];
      UnlinkMoves(places, pool.chain, slots, isBid, side.lists, side.levels[..], other.lists, other.levels[..], idx);
      emptied := side.UnlinkFromLevel(idx, pool);
      if idx in list {
        OtherSideKept(slots, pool.entries[..], pool.freeIndex, pool.chain, other.levels[..], other.lists, list, idx);
        places := places[idx := Held];
      }
    }

    method Reduce(isBid: bool, idx: nat, qty: word32)
      requires Valid() && idx < |places|
      requires places[idx].OnLevel? && places[idx].isBid == isBid
      modifies Repr()
      ensures Valid() && places == old(places)
      ensures Lists(true) == old(Lists(true)) && Lists(false) == old(Lists(false))
      ensures pool.entries[..] == Reduced(old(pool.entries[..]), idx, qty)
    {
      var side, other := bids, asks;
      if !isBid {
        side, other := asks, bids;
      }
      ghost var slots := pool.entries[..];
      OnItsLevel(slots, side.levels[..], side.lists, idx);
      side.ReduceQuantity(idx, qty, pool);
      FreeChainIgnoresOrders(slots, pool.entries[..], pool.freeIndex, pool.chain);
      AllLinkedFrame(slots, pool.entries[..], other.levels[..], other.lists);
    }

    /** Gives a held slot back, with the pool's clearing done before its linking. */
    method Release(idx: nat)
      requires Valid() && idx < |places| && places[idx] == Held
      modifies Repr()
      ensures Valid() && places == old(places)[idx := Free]
      ensures Lists(true) == old(Lists(true)) && Lists(false) == old(Lists(false))
      ensures forall i :: 0 <= i < |places| && i != idx ==> pool.entries[i] == old(pool.entries[i])
    {
      ghost var slots := pool.entries[..];
      pool.Free(idx);
      AllLinkedFrame(slots, pool.entries[..], bids.levels[..], bids.lists);
      AllLinkedFrame(slots, pool.entries[..], asks.levels[..], asks.lists);
      places := places[idx := Free];
    }
  }

  /** A queued slot is on the list of the level it names. */
  lemma OnItsLevel(slots: Slots, levels: seq<Level>, lists: seq<seq<nat>>, idx: nat)
    requires AllLinked(slots, levels, lists)
    ensures forall l :: 0 <= l < |lists| && idx in lists[l] ==> idx < |slots| && slots[idx].order.levelIndex == l
  {
    forall l | 0 <= l < |lists| && idx in lists[l]
      ensures idx < |slots| && slots[idx].order.levelIndex == l
    {
      ListsAreDisjoint(slots, levels, lists, l, l, idx);
    }
  }
}
