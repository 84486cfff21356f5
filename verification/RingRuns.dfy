/** What every run of the ring guarantees: refinement of a bounded FIFO queue, exclusive slots, and the stop. */
module RingRuns {
  import opened RingProtocol

  // ---------- the queue it refines ----------

  datatype Event<T> = Enqueue(item: T) | Dequeue(item: T) | RefuseFull | RefuseEmpty | Silent

  /**
   Whether a FIFO queue that holds at most `bound` items may answer so. With `exact` a push is refused only when
   the queue is full and a pop only when it is empty; without, either may also be refused for no reason.
   */
  predicate Allowed<T(==)>(items: seq<T>, bound: nat, exact: bool, e: Event<T>) {
    match e
    case Enqueue(_) => |items| < bound
    case Dequeue(item) => items != [] && item == items[0]
    case RefuseFull => exact ==> |items| == bound
    case RefuseEmpty => exact ==> items == []
    case Silent => true
  }

  function QueueAfter<T>(items: seq<T>, e: Event<T>): seq<T> {
    match e
    case Enqueue(item) => items + [item]
    case Dequeue(_) => if items == [] then [] else items[1..]
    case _ => items
  }

  /** The exact queue refuses just when it cannot serve: a push only when no item fits, a pop only when none is there. */
  lemma ExactQueueServes<T>(items: seq<T>, bound: nat, item: T)
    requires |items| <= bound
    ensures Allowed(items, bound, true, RefuseFull) <==> !Allowed(items, bound, true, Enqueue(item))
    ensures Allowed(items, bound, true, RefuseEmpty) <==> forall x :: !Allowed(items, bound, true, Dequeue(x))
    ensures Allowed(items, bound, true, Enqueue(item)) <==> |QueueAfter(items, Enqueue(item))| <= bound
    ensures forall x :: Allowed(items, bound, true, Dequeue(x)) <==> items == [x] + QueueAfter(items, Dequeue(x))
  {
    if items != [] {
      assert Allowed(items, bound, true, Dequeue(items[0]));
    }
  }

  /** Items published and not yet taken. */
  function Items<T>(s: State<T>): seq<T> {
    if |s.past.popped| <= |s.past.accepted| then s.past.accepted[|s.past.popped|..] else []
  }

  /** Where each operation takes effect: a push at the head store, a pop at the tail store, a refusal at the load that caused it. */
  function Effect<T>(s: State<T>, a: Action<T>): Event<T>
    requires s.Capacity() > 0 && Enabled(s, a)
  {
    match a
    case Publish => Enqueue(s.producer.item)
    case Free => Dequeue(s.consumer.item)
    case LoadTail(seen) => if s.producer.next == Slot(seen, s.Capacity()) then RefuseFull else Silent
    case LoadHead(seen) => if s.consumer.cur == Slot(seen, s.Capacity()) then RefuseEmpty else Silent
    case _ => Silent
  }

  /** Every load of the other side's index returns its current value. */
  predicate Fresh<T>(s: State<T>, a: Action<T>) {
    match a
    case LoadTail(seen) => seen == |s.past.popped|
    case LoadUsed(seen) => seen == |s.past.popped|
    case LoadHead(seen) => seen == |s.past.accepted|
    case _ => true
  }

  lemma StepInv<T>(s: State<T>, a: Action<T>)
    requires Inv(s) && Enabled(s, a)
    ensures Inv(Apply(s, a))
  {
    if ConsumerAction(a) {
      ConsumerStepInv(s, a);
    } else {
      ProducerStepInv(s, a);
    }
  }

  lemma StepMovesItems<T>(s: State<T>, a: Action<T>)
    requires s.Capacity() > 0 && Enabled(s, a) && |s.past.popped| <= |s.past.accepted|
    requires s.consumer.Freeing? ==> |s.past.popped| < |s.past.accepted|
    ensures Items(Apply(s, a)) == QueueAfter(Items(s), Effect(s, a))
  {
    var past, past' := s.past, Apply(s, a).past;
    if a.Publish? {
      assert past'.accepted[|past.popped|..] == past.accepted[|past.popped|..] + [s.producer.item];
    } else if a.Free? {
      assert past.accepted[|past.popped|..][1..] == past.accepted[|past.popped| + 1..];
    } else {
      assert past'.accepted == past.accepted && past'.popped == past.popped;
    }
  }

  lemma StepIsAllowed<T>(s: State<T>, a: Action<T>)
    requires Inv(s) && Enabled(s, a)
    ensures Allowed(Items(s), s.Capacity() - 1, Fresh(s, a), Effect(s, a))
  {
    if a.LoadTail? {
      FullTest(|s.past.accepted|, a.seen, s.Capacity());
    } else if a.LoadHead? {
      SlotsDiffer(|s.past.popped|, a.seen, s.Capacity());
    }
  }

  /** Each atomic step is a step of the queue at its point of effect, exact when the step is fresh. */
  lemma StepRefines<T>(s: State<T>, a: Action<T>, exact: bool)
    requires Inv(s) && Enabled(s, a) && (exact ==> Fresh(s, a))
    ensures Apply(s, a).Capacity() == s.Capacity()
    ensures Items(Apply(s, a)) == QueueAfter(Items(s), Effect(s, a))
    ensures Allowed(Items(s), s.Capacity() - 1, exact, Effect(s, a))
    ensures Effect(s, a) == RefuseFull <==> a.LoadTail? && !Apply(s, a).producer.Writing?
    ensures Effect(s, a) == RefuseEmpty <==> a.LoadHead? && !Apply(s, a).consumer.Reading?
  {
    StepMovesItems(s, a);
    StepIsAllowed(s, a);
  }

  /**
   What a look at the tail may show, and what it decides, for both kinds of push: the producer goes on to write
   exactly when fewer than capacity - 1 items are queued as far as it can see; otherwise a `tryPush` goes to count a drop and a `push` waits.
   */
  lemma LoadTailDecides<T>(s: State<T>, seen: nat)
    requires Inv(s) && s.producer.LoadingTail? && s.past.tailSeen <= seen <= |s.past.popped|
    ensures Enabled(s, LoadTail(seen))
    ensures var s', p := Apply(s, LoadTail(seen)), s.producer;
            && (s'.producer == Writing(p.item, p.blocking, p.cur, p.next) <==> |s.past.accepted| - seen < s.Capacity() - 1)
            && (s'.producer == (if p.blocking then Waiting(p.item) else Dropping(p.item))
                <==> |s.past.accepted| - seen == s.Capacity() - 1)
            && s'.mem == s.mem && s'.consumer == s.consumer && s'.stop == s.stop
  {
    FullTest(|s.past.accepted|, seen, s.Capacity());
  }

  /** What a look at the head decides: the consumer goes on to read exactly when it sees an item it has not taken. */
  lemma LoadHeadDecides<T>(s: State<T>, seen: nat)
    requires Inv(s) && s.consumer.LoadingHead? && s.past.headSeen <= seen <= |s.past.accepted|
    ensures Enabled(s, LoadHead(seen))
    ensures var s' := Apply(s, LoadHead(seen));
            && (s'.consumer == Reading(s.consumer.cur) <==> |s.past.popped| < seen)
            && (s'.consumer == Checking <==> |s.past.popped| == seen)
            && s'.mem == s.mem && s'.producer == s.producer && s'.stop == s.stop
  {
    SlotsDiffer(|s.past.popped|, seen, s.Capacity());
  }

  /** The occupancy computed is that of the queue as far as the producer can see, so never less than the queue's length. */
  lemma LoadUsedDecides<T>(s: State<T>, seen: nat)
    requires Inv(s) && s.producer.LoadingUsed? && s.past.tailSeen <= seen <= |s.past.popped|
    ensures Enabled(s, LoadUsed(seen))
    ensures var p, p' := s.producer, Apply(s, LoadUsed(seen)).producer;
            p'.Raising? && p'.used == |s.past.accepted| - seen >= |Items(s)| && p'.item == p.item && p'.blocking == p.blocking
  {
    UsedIsDistance(|s.past.accepted|, seen, s.Capacity());
  }

  /** The swap loop is left only with the mark at the larger of the old mark and the occupancy; a failed swap changes nothing. */
  lemma RaiseDecides<T>(s: State<T>, spurious: bool)
    requires Inv(s) && s.producer.Raising?
    ensures Enabled(s, Raise(spurious))
    ensures var s', used := Apply(s, Raise(spurious)), s.producer.used;
            && (s'.producer.Returning? ==> s'.producer.ok && used <= s'.mem.highWater
                                           && (s'.mem.highWater == used || s'.mem.highWater == s.mem.highWater))
            && (!s'.producer.Returning? <==> s' == s)
            && (s' == s <==> spurious && used > s.mem.highWater)
  {
  }

  /** With a current value, a look at the other index refuses exactly when the queue is full, or empty, at that moment. */
  lemma FreshRefusalIff<T>(s: State<T>, a: Action<T>)
    requires Inv(s) && Enabled(s, a) && Fresh(s, a)
    ensures a.LoadTail? ==> (Apply(s, a).producer.Dropping? || Apply(s, a).producer.Waiting? <==> |Items(s)| == s.Capacity() - 1)
    ensures a.LoadTail? ==> (Apply(s, a).producer.Writing? <==> |Items(s)| < s.Capacity() - 1)
    ensures a.LoadHead? ==> (Apply(s, a).consumer.Checking? <==> Items(s) == [])
    ensures a.LoadHead? ==> (Apply(s, a).consumer.Reading? <==> Items(s) != [])
  {
    match a {
      case LoadTail(seen) => LoadTailDecides(s, seen);
      case LoadHead(seen) => LoadHeadDecides(s, seen);
      case _ =>
    }
  }

  /** Neither thread is ever stuck: a push in progress and a loop not yet left can always take a step of their own. */
  lemma NeverStuck<T>(s: State<T>)
    requires Inv(s)
    ensures Enabled(s, RequestStop)
    ensures !s.producer.Idle? ==> exists a :: !ConsumerAction(a) && Enabled(s, a)
    ensures !s.consumer.Stopped? ==> exists a :: ConsumerAction(a) && !a.RequestStop? && Enabled(s, a)
  {
    if !s.producer.Idle? {
      var a: Action<T> := ProducerTurn(s);
      assert !ConsumerAction(a) && Enabled(s, a);
    }
    if !s.consumer.Stopped? {
      var a: Action<T> := ConsumerTurn(s);
      assert ConsumerAction(a) && !a.RequestStop? && Enabled(s, a);
    }
  }

  function ProducerTurn<T>(s: State<T>): Action<T>
    requires !s.producer.Idle?
  {
    match s.producer
    case LoadingTail(_, _, _, _) => LoadTail(|s.past.popped|)
    case Dropping(_) => CountDrop
    case Waiting(_) => Retry
    case Writing(_, _, _, _) => Write
    case Publishing(_, _, _) => Publish
    case LoadingHigh(_, _, _) => LoadHigh
    case LoadingUsed(_, _, _, _) => LoadUsed(|s.past.popped|)
    case Raising(_, _, _, _) => Raise(false)
    case Returning(_, _, _) => ReturnPush
  }

  function ConsumerTurn<T>(s: State<T>): Action<T>
    requires !s.consumer.Stopped?
  {
    match s.consumer
    case Checking => CheckStop(s.stop)
    case LoadingOwn => LoadOwnTail
    case LoadingHead(_) => LoadHead(|s.past.accepted|)
    case Reading(_) => Read
    case Freeing(_, _) => Free
    case Calling(_) => Callback
  }

  // ---------- runs ----------

  /** The actions can be taken one after the other from s. */
  predicate ValidRun<T>(s: State<T>, actions: seq<Action<T>>)
    requires s.Capacity() > 0
    decreases actions
  {
    actions == [] || (Enabled(s, actions[0]) && ValidRun(Apply(s, actions[0]), actions[1..]))
  }

  function Run<T>(s: State<T>, actions: seq<Action<T>>): (s': State<T>)
    requires s.Capacity() > 0 && ValidRun(s, actions)
    ensures s'.Capacity() == s.Capacity()
    decreases actions
  {
    if actions == [] then s else Run(Apply(s, actions[0]), actions[1..])
  }

  /** All loads of a run are fresh. */
  predicate AllFresh<T>(s: State<T>, actions: seq<Action<T>>)
    requires s.Capacity() > 0 && ValidRun(s, actions)
    decreases actions
  {
    actions == [] || (Fresh(s, actions[0]) && AllFresh(Apply(s, actions[0]), actions[1..]))
  }

  /** A run in two parts. */
  lemma {:induction false} RunConcat<T>(s: State<T>, a: seq<Action<T>>, b: seq<Action<T>>)
    requires s.Capacity() > 0
    ensures ValidRun(s, a + b) <==> ValidRun(s, a) && ValidRun(Run(s, a), b)
    ensures ValidRun(s, a + b) ==>
              && Run(s, a + b) == Run(Run(s, a), b)
              && (AllFresh(s, a + b) <==> AllFresh(s, a) && AllFresh(Run(s, a), b))
    decreases a
  {
    if a == [] {
      assert a + b == b;
    } else {
      assert (a + b)[0] == a[0] && (a + b)[1..] == a[1..] + b;
      if Enabled(s, a[0]) {
        RunConcat(Apply(s, a[0]), a[1..], b);
      }
    }
  }

  /** A run around one of its steps. */
  lemma RunAround<T>(s: State<T>, before: seq<Action<T>>, a: Action<T>, after: seq<Action<T>>)
    requires s.Capacity() > 0 && ValidRun(s, before + [a] + after)
    ensures ValidRun(s, before) && Enabled(Run(s, before), a) && ValidRun(Apply(Run(s, before), a), after)
    ensures Run(s, before + [a] + after) == Run(Apply(Run(s, before), a), after)
  {
    SeqAround(before, a, after);
    RunConcat(s, before, [a] + after);
  }

  lemma SeqAround<T>(before: seq<Action<T>>, a: Action<T>, after: seq<Action<T>>)
    ensures before + [a] + after == before + ([a] + after)
    ensures ([a] + after)[0] == a && ([a] + after)[1..] == after
  {
  }

  function Effects<T>(s: State<T>, actions: seq<Action<T>>): seq<Event<T>>
    requires s.Capacity() > 0 && ValidRun(s, actions)
    decreases actions
  {
    if actions == [] then [] else [Effect(s, actions[0])] + Effects(Apply(s, actions[0]), actions[1..])
  }

  datatype Replayed<T> = Impossible | Holds(items: seq<T>)

  /** What the queue holds after these events, if it can do them one after the other. */
  function Replay<T(==)>(items: seq<T>, bound: nat, exact: bool, events: seq<Event<T>>): Replayed<T>
    decreases events
  {
    if events == [] then Holds(items)
    else if Allowed(items, bound, exact, events[0]) then
      Replay(QueueAfter(items, events[0]), bound, exact, events[1..])
    else Impossible
  }

  lemma ReplayCons<T>(items: seq<T>, bound: nat, exact: bool, e: Event<T>, rest: seq<Event<T>>)
    requires Allowed(items, bound, exact, e)
    ensures Replay(items, bound, exact, [e] + rest) == Replay(QueueAfter(items, e), bound, exact, rest)
  {
    assert ([e] + rest)[1..] == rest;
  }

  lemma {:induction false} RunInv<T>(s: State<T>, actions: seq<Action<T>>)
    requires Inv(s) && ValidRun(s, actions)
    ensures Inv(Run(s, actions))
    decreases actions
  {
    if actions != [] {
      StepInv(s, actions[0]);
      RunInv(Apply(s, actions[0]), actions[1..]);
    }
  }

  /** Every step of the run is a step of the queue where it happens. */
  predicate StepsMatch<T(==)>(s: State<T>, actions: seq<Action<T>>, exact: bool)
    requires s.Capacity() > 0 && ValidRun(s, actions)
    decreases actions
  {
    actions == []
    || (&& Allowed(Items(s), s.Capacity() - 1, exact, Effect(s, actions[0]))
        && Items(Apply(s, actions[0])) == QueueAfter(Items(s), Effect(s, actions[0]))
        && StepsMatch(Apply(s, actions[0]), actions[1..], exact))
  }

  lemma {:induction false} RunStepsMatch<T>(s: State<T>, actions: seq<Action<T>>, exact: bool)
    requires Inv(s) && ValidRun(s, actions)
    requires exact ==> AllFresh(s, actions)
    ensures StepsMatch(s, actions, exact)
    decreases actions
  {
    if actions != [] {
      StepInv(s, actions[0]);
      RunStepsMatch(Apply(s, actions[0]), actions[1..], exact);
      StepRefines(s, actions[0], exact);
    }
  }

  lemma {:induction false} MatchingStepsReplay<T>(s: State<T>, actions: seq<Action<T>>, exact: bool)
    requires s.Capacity() > 0 && ValidRun(s, actions) && StepsMatch(s, actions, exact)
    ensures Replay(Items(s), s.Capacity() - 1, exact, Effects(s, actions)) == Holds(Items(Run(s, actions)))
    decreases actions
  {
    if actions != [] {
      var s', rest := Apply(s, actions[0]), actions[1..];
      MatchingStepsReplay(s', rest, exact);
      ReplayCons(Items(s), s.Capacity() - 1, exact, Effect(s, actions[0]), Effects(s', rest));
    }
  }

  /**
   Every interleaving refines the queue of capacity - 1 items, each operation taking effect at its point; if all
   loads of the run are fresh, refusals are exact too.
   */
  lemma RunRefinesQueue<T>(s: State<T>, actions: seq<Action<T>>, exact: bool)
    requires Inv(s) && ValidRun(s, actions)
    requires exact ==> AllFresh(s, actions)
    ensures Replay(Items(s), s.Capacity() - 1, exact, Effects(s, actions)) == Holds(Items(Run(s, actions)))
  {
    RunStepsMatch(s, actions, exact);
    MatchingStepsReplay(s, actions, exact);
  }

  /**
   Over every run from the start, however stale its loads: what was popped, and what the callback got, is an exact
   prefix of what was accepted, at most capacity - 1 items are ever in between, the pushes that returned true are
   the accepted items but for one still returning, and drops are the failed tries but for one still returning.
   */
  lemma RunsLoseNothing<T>(s: State<T>, actions: seq<Action<T>>)
    requires Initial(s) && ValidRun(s, actions)
    ensures var past := Run(s, actions).past;
            && past.delivered <= past.popped <= past.accepted
            && |past.popped| <= |past.delivered| + 1
            && |past.accepted| - |past.popped| < s.Capacity()
            && past.returned <= past.accepted && |past.accepted| <= |past.returned| + 1
    ensures var end := Run(s, actions);
            && end.mem.highWater < s.Capacity()
            && end.past.failedTries <= end.mem.dropped <= end.past.failedTries + 1
            && (end.producer.Idle? ==> end.past.returned == end.past.accepted && end.mem.dropped == end.past.failedTries)
            && (end.consumer.Checking? || end.consumer.Stopped? ==> end.past.delivered == end.past.popped)
  {
    InitialInv(s);
    RunInv(s, actions);
  }

  /**
   Over every run from the start, the producer writes no slot that is unread or being read, and the consumer reads
   published items.
   */
  lemma SlotsAreExclusive<T>(s: State<T>, actions: seq<Action<T>>)
    requires Initial(s) && ValidRun(s, actions)
    ensures var end := Run(s, actions);
            var p, n := |end.past.popped|, s.Capacity();
            && (end.producer.Writing? ==>
                  && (forall k :: p <= k < |end.past.accepted| ==> Slot(k, n) != end.producer.cur)
                  && (end.consumer.Reading? || end.consumer.Freeing? ==> end.consumer.cur != end.producer.cur))
            && (end.consumer.Reading? ==>
                  p < |end.past.accepted| && end.consumer.cur < n && end.mem.buffer[end.consumer.cur] == end.past.accepted[p])
  {
    InitialInv(s);
    RunInv(s, actions);
    var end := Run(s, actions);
    if end.producer.Writing? {
      forall k | |end.past.popped| <= k < |end.past.accepted|
        ensures Slot(k, s.Capacity()) != end.producer.cur
      {
        SlotsDiffer(k, |end.past.accepted|, s.Capacity());
      }
    }
  }

  /** The high-water mark never falls. */
  lemma {:induction false} HighWaterIsMonotone<T>(s: State<T>, actions: seq<Action<T>>)
    requires Inv(s) && ValidRun(s, actions)
    ensures s.mem.highWater <= Run(s, actions).mem.highWater
    decreases actions
  {
    if actions != [] {
      StepInv(s, actions[0]);
      HighWaterIsMonotone(Apply(s, actions[0]), actions[1..]);
    }
  }

  // ---------- the stop ----------

  /** Callbacks the consumer may still make once the stop flag is up. */
  function Owed<T>(consumer: Consumer<T>): nat {
    if consumer.Checking? || consumer.Stopped? then 0 else 1
  }

  /** How many of the run's checks found no stop. */
  function PassedChecks<T>(actions: seq<Action<T>>): nat {
    if actions == [] then 0
    else (if actions[0].CheckStop? && !actions[0].sees then 1 else 0) + PassedChecks(actions[1..])
  }

  /**
   After the stop is requested the loop makes at most one more callback, none if it stands at its test, and at
   most one for each later check that misses the stop; after the check that sees it, none.
   */
  lemma {:induction false} StopsWithinOneCallback<T>(s: State<T>, actions: seq<Action<T>>)
    requires s.Capacity() > 0 && ValidRun(s, actions) && s.stop
    ensures var end := Run(s, actions);
            && end.stop
            && |end.past.delivered| + Owed(end.consumer) <= |s.past.delivered| + Owed(s.consumer) + PassedChecks(actions)
            && (s.consumer.Stopped? ==> end.consumer.Stopped? && end.past.delivered == s.past.delivered)
    decreases actions
  {
    if actions != [] {
      StopsWithinOneCallback(Apply(s, actions[0]), actions[1..]);
    }
  }

  /** The stop flag is up exactly when it was or somebody has requested the stop. */
  lemma {:induction false} StopIsUpIff<T>(s: State<T>, actions: seq<Action<T>>)
    requires s.Capacity() > 0 && ValidRun(s, actions)
    ensures Run(s, actions).stop <==> s.stop || RequestStop in actions
    decreases actions
  {
    if actions != [] {
      StopIsUpIff(Apply(s, actions[0]), actions[1..]);
      assert actions == [actions[0]] + actions[1..];
    }
  }

  /** The consumer has left its loop exactly when some check of the run has seen the stop. */
  lemma {:induction false} StoppedIffSeen<T>(s: State<T>, actions: seq<Action<T>>)
    requires s.Capacity() > 0 && ValidRun(s, actions)
    ensures Run(s, actions).consumer.Stopped? <==> s.consumer.Stopped? || CheckStop(true) in actions
    decreases actions
  {
    if actions != [] {
      StoppedIffSeen(Apply(s, actions[0]), actions[1..]);
      assert actions == [actions[0]] + actions[1..];
    }
  }

  lemma {:induction false} NothingAfterStopped<T>(s: State<T>, actions: seq<Action<T>>)
    requires s.Capacity() > 0 && ValidRun(s, actions) && s.consumer.Stopped?
    ensures var end := Run(s, actions);
            end.consumer.Stopped? && end.past.delivered == s.past.delivered && end.past.popped == s.past.popped
    ensures forall a :: a in actions && ConsumerAction(a) ==> a.RequestStop?
    decreases actions
  {
    if actions != [] {
      NothingAfterStopped(Apply(s, actions[0]), actions[1..]);
      assert actions == [actions[0]] + actions[1..];
    }
  }

  /** A check that sees the stop ends the loop: nothing is taken or delivered after it, and no step of the loop is possible. */
  lemma StopEndsLoop<T>(s: State<T>, before: seq<Action<T>>, after: seq<Action<T>>)
    requires s.Capacity() > 0 && ValidRun(s, before + [CheckStop(true)] + after)
    ensures ValidRun(s, before)
    ensures var mid, end := Run(s, before), Run(s, before + [CheckStop(true)] + after);
            && mid.stop && end.consumer == Stopped
            && end.past.delivered == mid.past.delivered && end.past.popped == mid.past.popped
            && (forall a :: ConsumerAction(a) && Enabled(end, a) ==> a.RequestStop?)
            && (forall a :: a in after && ConsumerAction(a) ==> a.RequestStop?)
  {
    RunAround(s, before, CheckStop(true), after);
    NothingAfterStopped(Apply(Run(s, before), CheckStop(true)), after);
    StoppedTakesNoStep(Run(s, before + [CheckStop(true)] + after));
  }

  lemma StoppedTakesNoStep<T>(s: State<T>)
    requires s.consumer.Stopped?
    ensures forall a :: ConsumerAction(a) && Enabled(s, a) ==> a.RequestStop?
  {
  }

  /** From the start: a bounded FIFO queue under every interleaving, an exact one when all loads are fresh. */
  lemma RingIsBoundedFifo<T>(s: State<T>, actions: seq<Action<T>>)
    requires Initial(s) && ValidRun(s, actions)
    ensures Replay([], s.Capacity() - 1, false, Effects(s, actions)) == Holds(Items(Run(s, actions)))
    ensures AllFresh(s, actions) ==>
              Replay([], s.Capacity() - 1, true, Effects(s, actions)) == Holds(Items(Run(s, actions)))
  {
    InitialInv(s);
    assert Items(s) == [];
    RunRefinesQueue(s, actions, false);
    if AllFresh(s, actions) {
      RunRefinesQueue(s, actions, true);
    }
  }
}
