/** The fixed pool of order slots with its free chain threaded through the slots themselves. */
module OrderPools {

  const NO_FREE_INDEX: nat := 0xFFFF_FFFF_FFFF_FFFF

  datatype Entry<T> = Entry(order: T, nextFreeIndex: nat)

  ghost predicate Distinct(s: seq<nat>) {
    forall i, j :: 0 <= i < j < |s| ==> s[i] != s[j]
  }

  /** The element at position i of a chain, or the terminator just past its end. */
  function LinkAt(chain: seq<nat>, i: nat, terminator: nat): nat {
    if i < |chain| then chain[i] else terminator
  }

  /** Following the free links from `head` visits exactly `chain`, in order, and stops. */
  ghost predicate FreeChain<T>(entries: seq<Entry<T>>, head: nat, chain: seq<nat>) {
    && |entries| <= NO_FREE_INDEX
    && (forall i :: 0 <= i < |chain| ==> chain[i] < |entries|)
    && Distinct(chain)
    && head == LinkAt(chain, 0, NO_FREE_INDEX)
    && (forall i {:trigger entries[chain[i]]} :: 0 <= i < |chain| ==>
          entries[chain[i]].nextFreeIndex == LinkAt(chain, i + 1, NO_FREE_INDEX))
  }

  /** The links leave no choice: the chain is a function of the pool's real state. */
  lemma {:induction false} FreeChainIsDetermined<T>(entries: seq<Entry<T>>, head: nat, a: seq<nat>, b: seq<nat>)
    requires FreeChain(entries, head, a) && FreeChain(entries, head, b)
    ensures a == b
    decreases |a|
  {
    if a != [] && b != [] {
      var next := entries[head].nextFreeIndex;
      TailOfFreeChain(entries, head, a);
      TailOfFreeChain(entries, head, b);
      FreeChainIsDetermined(entries, next, a[1..], b[1..]);
      assert a == [a[0]] + a[1..] && b == [b[0]] + b[1..];
    }
  }

  /** The chain depends on the links alone, not on the orders stored in the slots. */
  lemma FreeChainIgnoresOrders<T>(entries: seq<Entry<T>>, entries': seq<Entry<T>>, head: nat, chain: seq<nat>)
    requires FreeChain(entries, head, chain)
    requires |entries'| == |entries|
    requires forall i :: i in chain && i < |entries| ==> entries'[i].nextFreeIndex == entries[i].nextFreeIndex
    ensures FreeChain(entries', head, chain)
  {
    forall i | 0 <= i < |chain|
      ensures entries'[chain[i]].nextFreeIndex == LinkAt(chain, i + 1, NO_FREE_INDEX)
    {
      assert chain[i] in chain;
    }
  }

  lemma TailOfFreeChain<T>(entries: seq<Entry<T>>, head: nat, chain: seq<nat>)
    requires FreeChain(entries, head, chain) && chain != []
    ensures FreeChain(entries, entries[head].nextFreeIndex, chain[1..])
  {
    var rest := chain[1..];
    forall i | 0 <= i < |rest|
      ensures entries[rest[i]].nextFreeIndex == LinkAt(rest, i + 1, NO_FREE_INDEX)
    {
      assert rest[i] == chain[i + 1];
    }
  }

  /** The head after one allocation; the allocation hands out the head before it. */
  function NextHead<T>(entries: seq<Entry<T>>, head: nat): nat {
    if head == NO_FREE_INDEX || head >= |entries| then head else entries[head].nextFreeIndex
  }

  /** The head after n allocations, so what the next one hands out. */
  function HeadAfter<T>(entries: seq<Entry<T>>, head: nat, n: nat): nat
    decreases n
  {
    if n == 0 then head else HeadAfter(entries, NextHead(entries, head), n - 1)
  }

  lemma {:induction false} SelfLinkStays<T>(entries: seq<Entry<T>>, head: nat, n: nat)
    requires NextHead(entries, head) == head
    ensures HeadAfter(entries, head, n) == head
    decreases n
  {
    if n > 0 {
      SelfLinkStays(entries, head, n - 1);
    }
  }

  /** Allocations hand out the chain in order, then the terminator for good. */
  lemma {:induction false} AllocationsFollowChain<T>(entries: seq<Entry<T>>, head: nat, chain: seq<nat>, n: nat)
    requires FreeChain(entries, head, chain)
    ensures HeadAfter(entries, head, n) == LinkAt(chain, n, NO_FREE_INDEX)
    decreases n
  {
    if n > 0 {
      if chain == [] {
        SelfLinkStays(entries, head, n);
      } else {
        TailOfFreeChain(entries, head, chain);
        AllocationsFollowChain(entries, NextHead(entries, head), chain[1..], n - 1);
      }
    }
  }

  /** The slots after `free(idx)` as written: the link is stored first, then `reset` clears the slot, link included. */
  function FreedAsWritten<T>(entries: seq<Entry<T>>, head: nat, idx: nat, blank: T): seq<Entry<T>>
    requires idx < |entries|
  {
    var linked := entries[idx := entries[idx].(nextFreeIndex := head)];
    linked[idx := Entry(blank, 0)]
  }

  /** The slots after the intended `free(idx)`: the slot is cleared first, then linked. */
  function FreedClearedFirst<T>(entries: seq<Entry<T>>, head: nat, idx: nat, blank: T): seq<Entry<T>>
    requires idx < |entries|
  {
    var cleared := entries[idx := Entry(blank, 0)];
    cleared[idx := cleared[idx].(nextFreeIndex := head)]
  }

  lemma FreeClearedFirstKeepsChain<T>(entries: seq<Entry<T>>, head: nat, chain: seq<nat>, idx: nat, blank: T)
    requires FreeChain(entries, head, chain)
    requires idx < |entries| && idx !in chain
    ensures FreeChain(FreedClearedFirst(entries, head, idx, blank), idx, [idx] + chain)
  {
    var after, chain' := FreedClearedFirst(entries, head, idx, blank), [idx] + chain;
    forall i | 0 <= i < |chain'|
      ensures after[chain'[i]].nextFreeIndex == LinkAt(chain', i + 1, NO_FREE_INDEX)
    {
      if i > 0 {
        assert chain'[i] == chain[i - 1];
      }
    }
  }

  /** As written, `free` returns the slot to the chain correctly exactly when slot 0 heads the chain at the call. */
  lemma FreeAsWrittenKeepsChainIff<T>(entries: seq<Entry<T>>, head: nat, chain: seq<nat>, idx: nat, blank: T)
    requires FreeChain(entries, head, chain)
    requires idx < |entries| && idx !in chain
    ensures FreeChain(FreedAsWritten(entries, head, idx, blank), idx, [idx] + chain) <==> head == 0
  {
    var after, chain' := FreedAsWritten(entries, head, idx, blank), [idx] + chain;
    if head == 0 {
      assert after == FreedClearedFirst(entries, head, idx, blank);
      FreeClearedFirstKeepsChain(entries, head, chain, idx, blank);
    } else {
      assert after[chain'[0]].nextFreeIndex == 0;
      assert LinkAt(chain', 1, NO_FREE_INDEX) == head;
    }
  }

  /**
   The failure, on a pool of any size above one: allocate slot 0, free it as written, and slot 0 links to
   itself, so every later allocation returns slot 0.
   */
  lemma FreeAsWrittenHandsOutTwice<T>(entries: seq<Entry<T>>, chain: seq<nat>, blank: T)
    requires FreeChain(entries, 0, chain) && |chain| > 1
    ensures var head' := entries[0].nextFreeIndex;
            var after := FreedAsWritten(entries, head', 0, blank);
            && head' != NO_FREE_INDEX
            && (forall n: nat :: HeadAfter(after, 0, n) == 0)
            && (forall c :: !FreeChain(after, 0, c))
  {
    assert chain[0] == 0 && entries[chain[0]].nextFreeIndex == chain[1];
    var after := FreedAsWritten(entries, entries[0].nextFreeIndex, 0, blank);
    forall n: nat
      ensures HeadAfter(after, 0, n) == 0
    {
      SelfLinkStays(after, 0, n);
    }
    forall c
      ensures !FreeChain(after, 0, c)
    {
      assert |c| > 1 && c[0] == 0 && c[1] == 0 ==> !Distinct(c);
      assert |c| > 0 && c[0] == 0 && LinkAt(c, 1, NO_FREE_INDEX) != 0 ==>
          after[c[0]].nextFreeIndex != LinkAt(c, 1, NO_FREE_INDEX);
    }
  }

  class OrderBookPool<T(0)> {
    const entries: array<Entry<T>>
    const blank: T
    var freeIndex: nat
    ghost var chain: seq<nat>

    ghost predicate Valid()
      reads this, entries
    {
      FreeChain(entries[..], freeIndex, chain)
    }

    /** All slots start free, in index order. */
    constructor (maxOrders: nat, blank: T)
      requires 1 <= maxOrders <= 0xFFFF_FFFF_FFFF_FFFF
      ensures Valid() && fresh(entries)
      ensures this.blank == blank && entries.Length == maxOrders
      ensures chain == seq(maxOrders, i => i)
      ensures forall i :: 0 <= i < maxOrders ==> entries[i].order == blank
    {
      entries := new Entry<T>[maxOrders](_ => Entry(blank, 0));
      this.blank := blank;
      freeIndex := 0;
      chain := seq(maxOrders, i => i);
      new;
      for i := 0 to maxOrders - 1
        invariant freeIndex == 0 && chain == seq(maxOrders, j => j)
        invariant forall j :: 0 <= j < i ==> entries[j] == Entry(blank, j + 1)
        invariant forall j :: i <= j < maxOrders ==> entries[j].order == blank
      {
        entries[i] := entries[i].(nextFreeIndex := i + 1);
      }
      entries[maxOrders - 1] := entries[maxOrders - 1].(nextFreeIndex := NO_FREE_INDEX);
    }

    /** Hands out the head whatever the links are; with a chain behind it, that is the front of the chain. */
    method Allocate() returns (idx: nat)
      requires freeIndex == NO_FREE_INDEX || freeIndex < entries.Length
      modifies this
      ensures idx == old(freeIndex) && freeIndex == NextHead(entries[..], old(freeIndex))
      ensures old(Valid()) ==> Valid()
      ensures old(Valid()) && old(chain) == [] ==> idx == 0xFFFF_FFFF_FFFF_FFFF && chain == []
      ensures old(Valid()) && old(chain) != [] ==> idx == old(chain)[0] && idx < entries.Length && chain == old(chain)[1..]
    {
      var current := freeIndex;
      if current == NO_FREE_INDEX {
        return NO_FREE_INDEX;
      }
      if Valid() {
        TailOfFreeChain(entries[..], freeIndex, chain);
        chain := chain[1..];
      }
      freeIndex := entries[current].nextFreeIndex;
      return current;
    }

    /** `free` exactly as written. It promises the chain only when slot 0 heads it. */
    method FreeAsWritten(idx: nat)
      requires Valid() && idx < entries.Length && idx !in chain
      modifies this, entries
      ensures entries[..] == FreedAsWritten(old(entries[..]), old(freeIndex), idx, blank) && freeIndex == idx
      ensures chain == [idx] + old(chain)
      ensures Valid() <==> old(freeIndex) == 0
    {
      FreeAsWrittenKeepsChainIff(entries[..], freeIndex, chain, idx, blank);
      entries[idx] := entries[idx].(nextFreeIndex := freeIndex);
      freeIndex := idx;
      entries[idx] := Entry(blank, 0);
      chain := [idx] + chain;
    }

    /** `free` with the clearing moved before the linking, as the rest of the model uses it. */
    method Free(idx: nat)
      requires Valid() && idx < entries.Length && idx !in chain
      modifies this, entries
      ensures Valid()
      ensures chain == [idx] + old(chain)
      ensures entries[idx].order == blank
      ensures forall i :: 0 <= i < entries.Length && i != idx ==> entries[i] == old(entries[i])
    {
      FreeClearedFirstKeepsChain(entries[..], freeIndex, chain, idx, blank);
      ghost var after := FreedClearedFirst(entries[..], freeIndex, idx, blank);
      entries[idx] := Entry(blank, 0);
      entries[idx] := entries[idx].(nextFreeIndex := freeIndex);
      assert entries[..] == after;
      freeIndex := idx;
      chain := [idx] + chain;
    }
  }
}
