/**
 The single-producer single-consumer ring as a step system: every atomic access of the two threads is one
 action, and any interleaving of actions is a run. A load of the other side's index may return any value that
 index has had since the reader's last look; a run is fresh when all such loads return the current value.
 The consumer is the thread's loop with its stop token; its check of the stop flag may miss a stop already requested.
 */
module RingProtocol {
  import opened Words

  /** The memory both threads share. */
  datatype Shared<T> = Shared(buffer: seq<T>, head: nat, tail: nat, dropped: nat, highWater: nat)

  /** Where the producer is in `tryPush`, or in `push` when `blocking`. */
  datatype Producer<T> =
    | Idle
    | LoadingTail(item: T, blocking: bool, cur: nat, next: nat)
    | Dropping(item: T)
    | Waiting(item: T)
    | Writing(item: T, blocking: bool, cur: nat, next: nat)
    | Publishing(item: T, blocking: bool, next: nat)
    | LoadingHigh(item: T, blocking: bool, next: nat)
    | LoadingUsed(item: T, blocking: bool, next: nat, high: nat)
    | Raising(item: T, blocking: bool, used: nat, high: nat)
    | Returning(item: T, blocking: bool, ok: bool)

  /** Where the consumer is in `consumeLoop` and the `tryPop` it calls. */
  datatype Consumer<T> =
    | Checking
    | LoadingOwn
    | LoadingHead(cur: nat)
    | Reading(cur: nat)
    | Freeing(cur: nat, item: T)
    | Calling(item: T)
    | Stopped

  /**
   What has happened: items published, items taken, items the callback got, items whose push returned true,
   failed `tryPush` calls, and the most each side has seen of the other's progress.
   */
  datatype Past<T> = Past(accepted: seq<T>, popped: seq<T>, delivered: seq<T>, returned: seq<T>, failedTries: nat,
                          tailSeen: nat, headSeen: nat)

  datatype State<T> = State(mem: Shared<T>, producer: Producer<T>, consumer: Consumer<T>, stop: bool, past: Past<T>) {
    function Capacity(): nat {
      |mem.buffer|
    }
  }

  /** `seen` counts the pops, or the pushes, that the loaded index stands for. */
  datatype Action<T> =
    | StartPush(item: T, blocking: bool)
    | LoadTail(seen: nat)
    | CountDrop
    | Retry
    | TimeOut
    | Write
    | Publish
    | LoadHigh
    | LoadUsed(seen: nat)
    | Raise(spurious: bool)
    | ReturnPush
    | CheckStop(sees: bool)
    | LoadOwnTail
    | LoadHead(seen: nat)
    | Read
    | Free
    | Callback
    | RequestStop

  function Increment(i: nat, capacity: nat): nat {
    if i + 1 == capacity then 0 else i + 1
  }

  /** The index after k increments from 0. */
  function Slot(k: nat, capacity: nat): (i: nat)
    requires capacity > 0
    ensures i < capacity
  {
    if k == 0 then 0 else Increment(Slot(k - 1, capacity), capacity)
  }

  predicate Enabled<T>(s: State<T>, a: Action<T>) {
    match a
    case StartPush(_, _) => s.producer.Idle?
    case LoadTail(seen) => s.producer.LoadingTail? && s.past.tailSeen <= seen <= |s.past.popped|
    case CountDrop => s.producer.Dropping?
    case Retry => s.producer.Waiting?
    case TimeOut => s.producer.Waiting?
    case Write => s.producer.Writing? && s.producer.cur < s.Capacity()
    case Publish => s.producer.Publishing?
    case LoadHigh => s.producer.LoadingHigh?
    case LoadUsed(seen) => s.producer.LoadingUsed? && s.past.tailSeen <= seen <= |s.past.popped|
    case Raise(_) => s.producer.Raising?
    case ReturnPush => s.producer.Returning?
    case CheckStop(sees) => s.consumer.Checking? && (sees ==> s.stop)
    case LoadOwnTail => s.consumer.LoadingOwn?
    case LoadHead(seen) => s.consumer.LoadingHead? && s.past.headSeen <= seen <= |s.past.accepted|
    case Read => s.consumer.Reading? && s.consumer.cur < s.Capacity()
    case Free => s.consumer.Freeing?
    case Callback => s.consumer.Calling?
    case RequestStop => true
  }

  /** The effect of one atomic step. */
  function Apply<T>(s: State<T>, a: Action<T>): State<T>
    requires s.Capacity() > 0 && Enabled(s, a)
  {
    var n := s.Capacity();
    var p := s.producer;
    match a
    case StartPush(item, blocking) =>
      s.(producer := LoadingTail(item, blocking, s.mem.head, Increment(s.mem.head, n)))
    case LoadTail(seen) =>
      var full := p.next == Slot(seen, n);
      s.(past := s.past.(tailSeen := seen),
         producer := if !full then Writing(p.item, p.blocking, p.cur, p.next)
                     else if p.blocking then Waiting(p.item) else Dropping(p.item))
    case CountDrop =>
      s.(mem := s.mem.(dropped := s.mem.dropped + 1), producer := Returning(p.item, false, false))
    case Retry =>
      s.(producer := LoadingTail(p.item, true, s.mem.head, Increment(s.mem.head, n)))
    case TimeOut =>
      s.(producer := Returning(p.item, true, false))
    case Write =>
      s.(mem := s.mem.(buffer := s.mem.buffer[p.cur := p.item]), producer := Publishing(p.item, p.blocking, p.next))
    case Publish =>
      s.(mem := s.mem.(head := p.next), producer := LoadingHigh(p.item, p.blocking, p.next),
         past := s.past.(accepted := s.past.accepted + [p.item]))
    case LoadHigh =>
      s.(producer := LoadingUsed(p.item, p.blocking, p.next, s.mem.highWater))
    case LoadUsed(seen) =>
      s.(past := s.past.(tailSeen := seen),
         producer := Raising(p.item, p.blocking, (p.next + n - Slot(seen, n)) % n, p.high))
    case Raise(spurious) =>
      if p.used <= p.high then s.(producer := Returning(p.item, p.blocking, true))
      else if p.high == s.mem.highWater && !spurious then
        s.(mem := s.mem.(highWater := p.used), producer := Returning(p.item, p.blocking, true))
      else s.(producer := p.(high := s.mem.highWater))
    case ReturnPush =>
      s.(producer := Idle,
         past := s.past.(returned := s.past.returned + (if p.ok then [p.item] else []),
                         failedTries := s.past.failedTries + (if p.ok || p.blocking then 0 else 1)))
    case CheckStop(sees) => s.(consumer := if sees then Stopped else LoadingOwn)
    case LoadOwnTail => s.(consumer := LoadingHead(s.mem.tail))
    case LoadHead(seen) =>
      s.(past := s.past.(headSeen := seen),
         consumer := if s.consumer.cur == Slot(seen, n) then Checking else Reading(s.consumer.cur))
    case Read => s.(consumer := Freeing(s.consumer.cur, s.mem.buffer[s.consumer.cur]))
    case Free =>
      s.(mem := s.mem.(tail := Increment(s.consumer.cur, n)), consumer := Calling(s.consumer.item),
         past := s.past.(popped := s.past.popped + [s.consumer.item]))
    case Callback =>
      s.(consumer := Checking, past := s.past.(delivered := s.past.delivered + [s.consumer.item]))
    case RequestStop => s.(stop := true)
  }

  predicate Initial<T>(s: State<T>) {
    && s.Capacity() > 0
    && s.mem.head == 0 && s.mem.tail == 0 && s.mem.dropped == 0 && s.mem.highWater == 0
    && s.producer == Idle && s.consumer == Checking
    && s.past == Past([], [], [], [], 0, 0, 0)
  }

  // ---------- slots ----------

  /** The distance between two counts less than a turn apart, read off their slots. */
  lemma {:induction false} SlotDistance(a: nat, b: nat, capacity: nat)
    requires capacity > 0 && a <= b < a + capacity
    ensures var i, j := Slot(a, capacity), Slot(b, capacity);
            b - a == if j >= i then j - i else j + capacity - i
    decreases b - a
  {
    if a < b {
      SlotDistance(a, b - 1, capacity);
    }
  }

  /** Among counts less than a whole turn apart, equal slots mean equal counts. */
  lemma SlotsDiffer(a: nat, b: nat, capacity: nat)
    requires capacity > 0 && a <= b < a + capacity
    ensures Slot(a, capacity) == Slot(b, capacity) <==> a == b
  {
    SlotDistance(a, b, capacity);
  }

  /** The next index equals the tail seen exactly when the seen queue fills the ring but one slot. */
  lemma FullTest(pushed: nat, seen: nat, capacity: nat)
    requires capacity > 0 && seen <= pushed < seen + capacity
    ensures Slot(pushed + 1, capacity) == Slot(seen, capacity) <==> pushed - seen == capacity - 1
  {
    SlotDistance(seen, pushed, capacity);
  }

  /** The occupancy formula of the high-water mark. */
  lemma UsedIsDistance(pushed: nat, seen: nat, capacity: nat)
    requires capacity > 0 && seen <= pushed < seen + capacity
    ensures (Slot(pushed, capacity) + capacity - Slot(seen, capacity)) % capacity == pushed - seen
  {
    SlotDistance(seen, pushed, capacity);
    var i, j := Slot(seen, capacity), Slot(pushed, capacity);
    DivModUnique(j + capacity - i, capacity, if j >= i then 1 else 0, pushed - seen);
  }

  // ---------- the invariant ----------

  /** The consumer has taken an exact prefix of what was accepted, and the callback all of it but one in hand. */
  ghost predicate PrefixInv<T>(past: Past<T>, consumer: Consumer<T>) {
    && past.popped <= past.accepted
    && past.popped == past.delivered + (if consumer.Calling? then [consumer.item] else [])
  }

  ghost predicate SeenInv<T>(past: Past<T>, capacity: nat) {
    && past.tailSeen <= |past.popped| <= past.headSeen <= |past.accepted| < past.tailSeen + capacity
  }

  ghost predicate MemoryInv<T>(mem: Shared<T>, past: Past<T>) {
    && |mem.buffer| > 0
    && mem.head == Slot(|past.accepted|, |mem.buffer|)
    && mem.tail == Slot(|past.popped|, |mem.buffer|)
    && mem.highWater < |mem.buffer|
    && (forall k :: |past.popped| <= k < |past.accepted| ==> mem.buffer[Slot(k, |mem.buffer|)] == past.accepted[k])
  }

  ghost predicate ProducerInv<T>(producer: Producer<T>, mem: Shared<T>, past: Past<T>) {
    var n, a := |mem.buffer|, |past.accepted|;
    n > 0 &&
    match producer
    case Idle => true
    case LoadingTail(_, _, cur, next) => cur == Slot(a, n) && next == Slot(a + 1, n)
    case Dropping(_) => true
    case Waiting(_) => true
    case Writing(_, _, cur, next) =>
      cur == Slot(a, n) && next == Slot(a + 1, n) && a + 1 < past.tailSeen + n
    case Publishing(item, _, next) =>
      next == Slot(a + 1, n) && a + 1 < past.tailSeen + n && mem.buffer[Slot(a, n)] == item
    case LoadingHigh(_, _, next) => next == Slot(a, n)
    case LoadingUsed(_, _, next, high) => next == Slot(a, n) && high == mem.highWater
    case Raising(_, _, used, high) => used < n && high == mem.highWater
    case Returning(_, _, _) => true
  }

  ghost predicate ConsumerInv<T>(consumer: Consumer<T>, capacity: nat, past: Past<T>) {
    var p := |past.popped|;
    capacity > 0 &&
    match consumer
    case LoadingHead(cur) => cur == Slot(p, capacity)
    case Reading(cur) => cur == Slot(p, capacity) && p < past.headSeen
    case Freeing(cur, item) => cur == Slot(p, capacity) && p < past.headSeen <= |past.accepted| && item == past.accepted[p]
    case _ => true
  }

  /** The item of a push that is published but has not returned yet. */
  function InFlight<T>(producer: Producer<T>): seq<T> {
    match producer
    case LoadingHigh(item, _, _) => [item]
    case LoadingUsed(item, _, _, _) => [item]
    case Raising(item, _, _, _) => [item]
    case Returning(item, _, ok) => if ok then [item] else []
    case _ => []
  }

  /** A push returns true for exactly the items that were published, and drops are counted for exactly the failed tries. */
  ghost predicate AnswersInv<T>(producer: Producer<T>, dropped: nat, past: Past<T>) {
    && past.accepted == past.returned + InFlight(producer)
    && dropped == past.failedTries + (if producer.Returning? && !producer.ok && !producer.blocking then 1 else 0)
  }

  ghost predicate Inv<T>(s: State<T>) {
    && s.Capacity() > 0
    && PrefixInv(s.past, s.consumer)
    && SeenInv(s.past, s.Capacity())
    && MemoryInv(s.mem, s.past)
    && ProducerInv(s.producer, s.mem, s.past)
    && ConsumerInv(s.consumer, s.Capacity(), s.past)
    && AnswersInv(s.producer, s.mem.dropped, s.past)
  }

  lemma InitialInv<T>(s: State<T>)
    requires Initial(s)
    ensures Inv(s)
  {
  }

  /** Writing the slot under the head disturbs no unread item. */
  lemma WriteKeepsMemory<T>(mem: Shared<T>, past: Past<T>, item: T)
    requires MemoryInv(mem, past) && SeenInv(past, |mem.buffer|)
    requires |past.accepted| + 1 < past.tailSeen + |mem.buffer|
    ensures MemoryInv(mem.(buffer := mem.buffer[Slot(|past.accepted|, |mem.buffer|) := item]), past)
  {
    var n, a := |mem.buffer|, |past.accepted|;
    forall k | |past.popped| <= k < a
      ensures Slot(k, n) != Slot(a, n)
    {
      SlotsDiffer(k, a, n);
    }
  }

  predicate ConsumerAction<T>(a: Action<T>) {
    a.CheckStop? || a.LoadOwnTail? || a.LoadHead? || a.Read? || a.Free? || a.Callback? || a.RequestStop?
  }

  lemma LoadTailInv<T>(s: State<T>, seen: nat)
    requires Inv(s) && Enabled(s, LoadTail(seen))
    ensures Inv(Apply(s, LoadTail(seen)))
  {
    FullTest(|s.past.accepted|, seen, s.Capacity());
  }

  lemma WriteInv<T>(s: State<T>)
    requires Inv(s) && Enabled(s, Write)
    ensures Inv(Apply(s, Write))
  {
    WriteKeepsMemory(s.mem, s.past, s.producer.item);
  }

  /** The item under the head becomes the last of the queue. */
  lemma PublishKeepsMemory<T>(mem: Shared<T>, past: Past<T>, item: T)
    requires MemoryInv(mem, past) && |past.popped| <= |past.accepted|
    requires mem.buffer[Slot(|past.accepted|, |mem.buffer|)] == item
    ensures MemoryInv(mem.(head := Slot(|past.accepted| + 1, |mem.buffer|)), past.(accepted := past.accepted + [item]))
  {
  }

  lemma PublishInv<T>(s: State<T>)
    requires Inv(s) && Enabled(s, Publish)
    ensures Inv(Apply(s, Publish))
  {
    var s' := Apply(s, Publish);
    assert s'.past.accepted == s.past.returned + [s.producer.item];
    PublishKeepsMemory(s.mem, s.past, s.producer.item);
  }

  lemma LoadUsedInv<T>(s: State<T>, seen: nat)
    requires Inv(s) && Enabled(s, LoadUsed(seen))
    ensures Inv(Apply(s, LoadUsed(seen)))
  {
  }

  lemma ReturnInv<T>(s: State<T>)
    requires Inv(s) && Enabled(s, ReturnPush)
    ensures Inv(Apply(s, ReturnPush))
  {
    var s' := Apply(s, ReturnPush);
    assert s'.past.returned + InFlight(s'.producer) == s.past.returned + InFlight(s.producer);
  }

  lemma RaiseInv<T>(s: State<T>, spurious: bool)
    requires Inv(s) && Enabled(s, Raise(spurious))
    ensures Inv(Apply(s, Raise(spurious)))
  {
    assert InFlight(Apply(s, Raise(spurious)).producer) == InFlight(s.producer);
  }

  lemma CountDropInv<T>(s: State<T>)
    requires Inv(s) && Enabled(s, CountDrop)
    ensures Inv(Apply(s, CountDrop))
  {
    assert InFlight(Apply(s, CountDrop).producer) == InFlight(s.producer);
  }

  lemma ProducerStepInv<T>(s: State<T>, a: Action<T>)
    requires Inv(s) && Enabled(s, a) && !ConsumerAction(a)
    ensures Inv(Apply(s, a))
  {
    match a {
      case LoadTail(seen) => LoadTailInv(s, seen);
      case Write => WriteInv(s);
      case Publish => PublishInv(s);
      case LoadUsed(seen) => LoadUsedInv(s, seen);
      case ReturnPush => ReturnInv(s);
      case Raise(spurious) => RaiseInv(s, spurious);
      case CountDrop => CountDropInv(s);
      case _ =>
    }
  }

  lemma FreeInv<T>(s: State<T>)
    requires Inv(s) && Enabled(s, Free)
    ensures Inv(Apply(s, Free))
  {
    var s' := Apply(s, Free);
    assert s'.past.popped == s.past.delivered + [s.consumer.item];
  }

  lemma ConsumerStepInv<T>(s: State<T>, a: Action<T>)
    requires Inv(s) && Enabled(s, a) && ConsumerAction(a)
    ensures Inv(Apply(s, a))
  {
    match a {
      case LoadHead(seen) =>
        SlotsDiffer(|s.past.popped|, seen, s.Capacity());
      case Free => FreeInv(s);
      case _ =>
    }
  }
}
