/** The ring buffer as an object updated in place, used by one thread at a time. */
module RingBuffers {
  import opened RingCalls
  import opened RingProtocol

  class SpScRingBuffer<T(0)> {
    const buffer: array<T>
    var head: nat
    var tail: nat
    var dropped: nat
    var highWaterMark: nat
    ghost var accepted: seq<T>  // all items ever pushed
    ghost var popped: nat  // how many of them were popped

    ghost predicate Valid()
      reads this, buffer
    {
      var n, a := buffer.Length, |accepted|;
      && n > 0 && popped <= a < popped + n
      && head == Slot(a, n) && tail == Slot(popped, n)
      && highWaterMark < n
      && (forall k :: popped <= k < a ==> buffer[Slot(k, n)] == accepted[k])
    }

    /** The queue the buffer stands for. */
    ghost function Contents(): seq<T>
      reads this, buffer
      requires Valid()
    {
      accepted[popped..]
    }

    ghost function View(): Shared<T>
      reads this, buffer
    {
      Shared(buffer[..], head, tail, dropped, highWaterMark)
    }

    constructor (capacity: nat)
      requires capacity > 0
      ensures Valid() && fresh(buffer) && buffer.Length == capacity
      ensures Contents() == [] && dropped == 0 && highWaterMark == 0
    {
      buffer := new T[capacity];
      head, tail, dropped, highWaterMark := 0, 0, 0, 0;
      accepted, popped := [], 0;
    }

    /** The compare-and-swap loop; each weak swap may fail without cause, `misses` times in all. */
    method UpdateHighWaterMark(currentHead: nat, misses: nat)
      requires buffer.Length > 0 && tail < buffer.Length
      modifies this`highWaterMark
      ensures var used := (currentHead + buffer.Length - tail) % buffer.Length;
              highWaterMark == if used > old(highWaterMark) then used else old(highWaterMark)
    {
      var currentHigh := highWaterMark;
      var used := (currentHead + buffer.Length - tail) % buffer.Length;
      var left := misses;
      while used > currentHigh
        invariant currentHigh == highWaterMark == old(highWaterMark)
        decreases left
      {
        if left == 0 {
          highWaterMark := used;
          break;
        }
        currentHigh := highWaterMark;
        left := left - 1;
      }
    }

    /** Stores an item under the head; the queue grows by it at the back and the high-water mark follows its length. */
    method Store(item: T, misses: nat)
      requires Valid() && |Contents()| < buffer.Length - 1
      modifies this, buffer
      ensures Valid() && Contents() == old(Contents()) + [item]
      ensures dropped == old(dropped) && accepted == old(accepted) + [item] && popped == old(popped)
      ensures highWaterMark == if |Contents()| > old(highWaterMark) then |Contents()| else old(highWaterMark)
      ensures View() == TryPushed(old(View()), item)
    {
      var nextHead := Increment(head, buffer.Length);
      FullTest(|accepted|, popped, buffer.Length);
      UsedIsDistance(|accepted| + 1, popped, buffer.Length);
      forall k | popped <= k < |accepted|
        ensures Slot(k, buffer.Length) != head
      {
        SlotsDiffer(k, |accepted|, buffer.Length);
      }
      buffer[head] := item;
      head := nextHead;
      accepted := accepted + [item];
      UpdateHighWaterMark(nextHead, misses);
    }

    /** Refused and counted exactly when capacity - 1 items are queued. */
    method TryPush(item: T, misses: nat) returns (ok: bool)
      requires Valid()
      modifies this, buffer
      ensures Valid()
      ensures ok <==> |old(Contents())| < buffer.Length - 1
      ensures Contents() == if ok then old(Contents()) + [item] else old(Contents())
      ensures dropped == old(dropped) + (if ok then 0 else 1)
      ensures highWaterMark == if ok && |Contents()| > old(highWaterMark) then |Contents()| else old(highWaterMark)
      ensures View() == TryPushed(old(View()), item)
    {
      FullTest(|accepted|, popped, buffer.Length);
      if Increment(head, buffer.Length) == tail {
        dropped := dropped + 1;
        return false;
      }
      Store(item, misses);
      return true;
    }

    /** The spinning push: it looks `spins` more times before its time is up, and counts no drop. */
    method Push(item: T, spins: nat, misses: nat) returns (ok: bool)
      requires Valid()
      modifies this, buffer
      ensures Valid()
      ensures ok <==> |old(Contents())| < buffer.Length - 1
      ensures Contents() == if ok then old(Contents()) + [item] else old(Contents())
      ensures dropped == old(dropped)
      ensures highWaterMark == if ok && |Contents()| > old(highWaterMark) then |Contents()| else old(highWaterMark)
    {
      var left := spins;
      while true
        invariant Valid() && Contents() == old(Contents())
        invariant dropped == old(dropped) && highWaterMark == old(highWaterMark)
        decreases left
      {
        FullTest(|accepted|, popped, buffer.Length);
        if Increment(head, buffer.Length) != tail {
          Store(item, misses);
          return true;
        }
        if left == 0 {
          return false;
        }
        left := left - 1;
      }
    }

    /** Takes the oldest item, exactly when there is one. */
    method TryPop(previous: T) returns (ok: bool, item: T)
      requires Valid()
      modifies this
      ensures Valid()
      ensures ok <==> old(Contents()) != []
      ensures ok ==> item == old(Contents())[0] && Contents() == old(Contents())[1..]
      ensures !ok ==> item == previous && Contents() == old(Contents())
      ensures View() == TryPopped(old(View()))
    {
      SlotsDiffer(popped, |accepted|, buffer.Length);
      if tail == head {
        return false, previous;
      }
      item := buffer[tail];
      tail := Increment(tail, buffer.Length);
      popped := popped + 1;
      return true, item;
    }
  }
}
