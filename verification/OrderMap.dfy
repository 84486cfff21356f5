/**
 The direct-mapped table from order id to pool index and side. Keys are not stored: a slot is chosen by
 the low bits of the id. `insert` and `erase` cut the slot number to 16 bits, `find` does not.
 */
module OrderMaps {
  import opened Words

  const NONE: nat := 0xFFFF

  datatype MapValue = MapValue(poolIndex: nat, side: char)

  const EMPTY: MapValue := MapValue(NONE, '\0')

  type Live = map<nat, MapValue>

  /** The slot that `find` reads. */
  function ReadSlot(id: nat, size: nat): nat
    requires size > 0
  {
    BitAnd(id, size - 1)
  }

  /** The slot that `insert` and `erase` write. */
  function WriteSlot(id: nat, size: nat): nat
    requires size > 0
  {
    BitAnd(id, size - 1) % TWO16
  }

  predicate Collides(a: nat, b: nat, size: nat)
    requires size > 0
  {
    WriteSlot(a, size) == WriteSlot(b, size)
  }

  /** No live id other than `id` itself uses the slot of `id`. */
  ghost predicate Alone(live: Live, id: nat, size: nat)
    requires size > 0
  {
    forall other :: other in live && Collides(other, id, size) ==> other == id
  }

  /** Every live id is in its slot, no two share one, and a slot without a live id shows NONE. */
  ghost predicate Represents(table: seq<MapValue>, live: Live) {
    && |table| > 0
    && (forall id :: id in live ==> WriteSlot(id, |table|) < |table| && table[WriteSlot(id, |table|)] == live[id]
                                    && live[id].poolIndex != NONE)
    && (forall id :: id in live ==> Alone(live, id, |table|))
    && (forall s :: 0 <= s < |table| && table[s].poolIndex != NONE ==>
          exists id :: id in live && WriteSlot(id, |table|) == s)
  }

  /** The map after erasing an id: whichever live id uses its slot is gone. */
  ghost function Evict(live: Live, id: nat, size: nat): Live
    requires size > 0
  {
    map other | other in live && !Collides(other, id, size) :: live[other]
  }

  lemma SlotsInRange(id: nat, size: nat)
    requires IsPow2(size)
    ensures ReadSlot(id, size) == id % size
    ensures WriteSlot(id, size) == id % size % TWO16 < size
    ensures size <= TWO16 ==> WriteSlot(id, size) == ReadSlot(id, size)
  {
    var k: nat :| size == Pow2(k);
    MaskIsRemainder(id, k);
    WordRemainder(id % size);
  }

  lemma WriteSlotInRange(id: nat, size: nat)
    requires IsPow2(size)
    ensures WriteSlot(id, size) < size
  {
    SlotsInRange(id, size);
  }

  lemma WordRemainder(x: nat)
    ensures x % TWO16 <= x && (x < TWO16 ==> x % TWO16 == x)
  {
  }

  /** In a table of at most 65536 slots two ids share a slot exactly when they have the same remainder. */
  lemma CollisionIsSameRemainder(a: nat, b: nat, size: nat)
    requires IsPow2(size) && size <= TWO16
    ensures Collides(a, b, size) <==> a % size == b % size
    ensures ReadSlot(a, size) == WriteSlot(a, size)
  {
    SlotsInRange(a, size);
    SlotsInRange(b, size);
  }

  /** Writing a slot that showed NONE adds exactly that id to the map. */
  lemma InsertRepresents(table: seq<MapValue>, live: Live, id: nat, value: MapValue)
    requires IsPow2(|table|) && Represents(table, live)
    requires WriteSlot(id, |table|) < |table|
    requires table[WriteSlot(id, |table|)].poolIndex == NONE && value.poolIndex != NONE
    ensures forall other :: other in live ==> !Collides(other, id, |table|)
    ensures Represents(table[WriteSlot(id, |table|) := value], live[id := value])
  {
    SlotsTakenAfterInsert(table, live, id, value);
  }

  /** After the write, too, a slot that shows an entry has a live id. */
  lemma SlotsTakenAfterInsert(table: seq<MapValue>, live: Live, id: nat, value: MapValue)
    requires |table| > 0 && WriteSlot(id, |table|) < |table|
    requires forall s :: 0 <= s < |table| && table[s].poolIndex != NONE ==>
               exists other :: other in live && WriteSlot(other, |table|) == s
    ensures var table', live' := table[WriteSlot(id, |table|) := value], live[id := value];
            forall s :: 0 <= s < |table| && table'[s].poolIndex != NONE ==>
              exists other :: other in live' && WriteSlot(other, |table|) == s
  {
    var slot := WriteSlot(id, |table|);
    var table', live' := table[slot := value], live[id := value];
    forall s | 0 <= s < |table| && table'[s].poolIndex != NONE
      ensures exists other :: other in live' && WriteSlot(other, |table|) == s
    {
      if s == slot {
        assert id in live';
      } else {
        assert table[s].poolIndex != NONE;
        var other :| other in live && WriteSlot(other, |table|) == s;
        assert other in live';
      }
    }
  }

  /** Clearing a slot takes exactly the ids that use it out of the map. */
  lemma EraseRepresents(table: seq<MapValue>, live: Live, id: nat)
    requires Represents(table, live)
    requires WriteSlot(id, |table|) < |table|
    ensures Represents(table[WriteSlot(id, |table|) := EMPTY], Evict(live, id, |table|))
  {
    var n, slot := |table|, WriteSlot(id, |table|);
    var table', live' := table[slot := EMPTY], Evict(live, id, n);
    forall s | 0 <= s < n && table'[s].poolIndex != NONE
      ensures exists other :: other in live' && WriteSlot(other, n) == s
    {
      assert s != slot && table[s].poolIndex != NONE;
      var other :| other in live && WriteSlot(other, n) == s;
      assert other in live';
    }
    forall other | other in live'
      ensures Alone(live', other, n)
    {
      assert Alone(live, other, n);
    }
  }

  lemma EvictIsRemoval(live: Live, id: nat, size: nat)
    requires size > 0
    ensures Evict(live, id, size) == live - {id} <==> Alone(live, id, size)
  {
    if !Alone(live, id, size) {
      var other :| other in live && Collides(other, id, size) && other != id;
      assert other in live - {id} && other !in Evict(live, id, size);
    }
  }

  /** Clearing an id's slot removes that id, and nothing else, exactly when no other live id uses the slot. */
  lemma EraseIsRemoval(table: seq<MapValue>, live: Live, id: nat)
    requires Represents(table, live)
    requires WriteSlot(id, |table|) < |table|
    ensures Represents(table[WriteSlot(id, |table|) := EMPTY], live - {id}) <==> Alone(live, id, |table|)
    ensures id in live ==> Alone(live, id, |table|)
  {
    EraseRepresents(table, live, id);
    EvictIsRemoval(live, id, |table|);
    if !Alone(live, id, |table|) {
      var other :| other in live && Collides(other, id, |table|) && other != id;
      assert other in live - {id} && (live - {id})[other].poolIndex != NONE;
    }
  }

  lemma EraseEvicts(table: seq<MapValue>, live: Live, id: nat)
    requires IsPow2(|table|) && Represents(table, live)
    ensures WriteSlot(id, |table|) < |table|
    ensures Represents(table[WriteSlot(id, |table|) := EMPTY], Evict(live, id, |table|))
    ensures Evict(live, id, |table|) == live - {id} <==> Alone(live, id, |table|)
    ensures id in live ==> Alone(live, id, |table|)
  {
    WriteSlotInRange(id, |table|);
    EraseRepresents(table, live, id);
    EvictIsRemoval(live, id, |table|);
  }

  /**
   In a table of at most 65536 slots the entry read for an id answers "is it live, and where" as the map
   does exactly when no other live id has the same remainder.
   */
  lemma FindIsLookup(table: seq<MapValue>, live: Live, id: nat)
    requires IsPow2(|table|) && |table| <= TWO16 && Represents(table, live)
    ensures ReadSlot(id, |table|) < |table|
    ensures (if id in live then table[ReadSlot(id, |table|)] == live[id]
             else table[ReadSlot(id, |table|)].poolIndex == NONE)
            <==> (id in live || Alone(live, id, |table|))
  {
    var n := |table|;
    SlotsInRange(id, n);
    CollisionIsSameRemainder(id, id, n);
    if id !in live && table[ReadSlot(id, n)].poolIndex != NONE {
      var other :| other in live && WriteSlot(other, n) == ReadSlot(id, n);
      assert Collides(other, id, n);
    }
    if id !in live && !Alone(live, id, n) {
      var other :| other in live && Collides(other, id, n);
      assert table[WriteSlot(other, n)] == live[other];
    }
  }

  /** Live ids always have distinct remainders. */
  lemma LiveIdsAreSpread(table: seq<MapValue>, live: Live, a: nat, b: nat)
    requires IsPow2(|table|) && |table| <= TWO16 && Represents(table, live)
    requires a in live && b in live && a != b
    ensures a % |table| != b % |table|
  {
    CollisionIsSameRemainder(a, b, |table|);
    assert Alone(live, b, |table|);
  }

  /**
   `insert` and `find` use the same slot for every id exactly when the table has at most 65536 slots;
   id 65536 shows the difference in a larger one.
   */
  lemma SlotsAgree(size: nat)
    requires IsPow2(size)
    ensures (forall id: nat :: ReadSlot(id, size) == WriteSlot(id, size)) <==> size <= TWO16
  {
    if size <= TWO16 {
      forall id: nat
        ensures ReadSlot(id, size) == WriteSlot(id, size)
      {
        CollisionIsSameRemainder(id, id, size);
      }
    } else {
      SlotsInRange(TWO16, size);
      DivModUnique(TWO16, size, 0, TWO16);
      assert ReadSlot(TWO16, size) != WriteSlot(TWO16, size);
    }
  }

  class OrderMap {
    const slots: array<MapValue>
    ghost var live: Live

    ghost predicate Valid()
      reads this, slots
    {
      && IsPow2(slots.Length)
      && Represents(slots[..], live)
    }

    constructor (ghost bits: nat, mapSize: nat)
      requires mapSize == Pow2(bits)
      ensures Valid() && live == map[] && slots.Length == mapSize && fresh(slots)
    {
      slots := new MapValue[mapSize](_ => EMPTY);
      live := map[];
    }

    method Reset()
      requires Valid()
      modifies this, slots
      ensures Valid() && live == map[]
    {
      for i := 0 to slots.Length
        invariant forall s :: 0 <= s < i ==> slots[s] == EMPTY
      {
        slots[i] := EMPTY;
      }
      live := map[];
    }

    /**
     Refused exactly when some live id, possibly the same one, uses the slot. Index 65535 is the mark of an empty
     slot and leaves no trace; every smaller one is stored.
     */
    method Insert(orderId: nat, poolIndex: nat, side: char) returns (ok: bool)
      requires Valid()
      modifies this, slots
      ensures Valid()
      ensures ok <==> forall id :: id in old(live) ==> !Collides(id, orderId, slots.Length)
      ensures live == if ok && poolIndex != 0xFFFF then old(live)[orderId := MapValue(poolIndex, side)] else old(live)
    {
      WriteSlotInRange(orderId, slots.Length);
      var idx := BitAnd(orderId, slots.Length - 1) % TWO16;
      if slots[idx].poolIndex != NONE {
        assert slots[..][idx].poolIndex != NONE;
        return false;
      }
      ghost var before := slots[..];
      slots[idx] := MapValue(poolIndex, side);
      assert slots[..] == before[idx := MapValue(poolIndex, side)];
      if poolIndex != NONE {
        InsertRepresents(before, live, orderId, MapValue(poolIndex, side));
        live := live[orderId := MapValue(poolIndex, side)];
      } else {
        forall s | 0 <= s < slots.Length && slots[..][s].poolIndex != NONE
          ensures exists id :: id in live && WriteSlot(id, slots.Length) == s
        {
          assert before[s].poolIndex != NONE;
        }
      }
      return true;
    }

    method Erase(orderId: nat)
      requires Valid()
      modifies this, slots
      ensures Valid() && live == Evict(old(live), orderId, slots.Length)
      ensures live == old(live) - {orderId} <==> Alone(old(live), orderId, slots.Length)
      ensures orderId in old(live) ==> live == old(live) - {orderId}
    {
      EraseEvicts(slots[..], live, orderId);
      var idx := BitAnd(orderId, slots.Length - 1) % TWO16;
      ghost var before := slots[..];
      slots[idx] := EMPTY;
      assert slots[..] == before[idx := EMPTY];
      live := Evict(live, orderId, slots.Length);
    }

    method Find(orderId: nat) returns (value: MapValue)
      requires Valid()
      ensures slots.Length <= TWO16 && orderId in live ==> value == live[orderId]
      ensures slots.Length <= TWO16 && orderId !in live && Alone(live, orderId, slots.Length) ==> value.poolIndex == NONE
      ensures ReadSlot(orderId, slots.Length) < slots.Length && value == slots[ReadSlot(orderId, slots.Length)]
    {
      SlotsInRange(orderId, slots.Length);
      if slots.Length <= TWO16 {
        FindIsLookup(slots[..], live, orderId);
      }
      value := slots[BitAnd(orderId, slots.Length - 1)];
    }
  }
}
