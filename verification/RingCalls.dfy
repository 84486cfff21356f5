/** Calls that nothing interrupts, as runs of their atomic steps, and what a look at an old index can do. */
module RingCalls {
  import opened RingProtocol
  import opened RingRuns

  // ---------- the memory after a whole call ----------

  /** The mark after it was compared with this occupancy. */
  function Raised<T>(mem: Shared<T>, used: nat): Shared<T> {
    mem.(highWater := if used > mem.highWater then used else mem.highWater)
  }

  function Used<T>(mem: Shared<T>, next: nat): nat
    requires mem.tail < |mem.buffer|
  {
    (next + |mem.buffer| - mem.tail) % |mem.buffer|
  }

  function Stored<T>(mem: Shared<T>, item: T, cur: nat, next: nat): Shared<T>
    requires cur < |mem.buffer| && mem.tail < |mem.buffer|
  {
    Raised(mem.(buffer := mem.buffer[cur := item], head := next), Used(mem, next))
  }

  /** The memory after a whole `tryPush`. */
  function TryPushed<T>(mem: Shared<T>, item: T): Shared<T>
    requires mem.head < |mem.buffer| && mem.tail < |mem.buffer|
  {
    var next := Increment(mem.head, |mem.buffer|);
    if next == mem.tail then mem.(dropped := mem.dropped + 1) else Stored(mem, item, mem.head, next)
  }

  /** The memory after a whole `tryPop`. */
  function TryPopped<T>(mem: Shared<T>): Shared<T> {
    if mem.tail == mem.head then mem else mem.(tail := Increment(mem.tail, |mem.buffer|))
  }

  // ---------- runs of one thread alone ----------

  /** The actions lead from s to this state, all loads fresh. */
  predicate RunsTo<T(==)>(s: State<T>, actions: seq<Action<T>>, end: State<T>) {
    s.Capacity() > 0 && ValidRun(s, actions) && AllFresh(s, actions) && Run(s, actions) == end
  }

  lemma RunMore<T>(s: State<T>, a: Action<T>, rest: seq<Action<T>>, end: State<T>) returns (actions: seq<Action<T>>)
    requires s.Capacity() > 0 && Enabled(s, a) && Fresh(s, a) && RunsTo(Apply(s, a), rest, end)
    ensures RunsTo(s, actions, end)
  {
    actions := [a] + rest;
    assert actions[1..] == rest;
  }

  lemma RunsOn<T>(s: State<T>, a: seq<Action<T>>, mid: State<T>, b: seq<Action<T>>, end: State<T>)
    requires RunsTo(s, a, mid) && RunsTo(mid, b, end)
    ensures RunsTo(s, a + b, end)
  {
    RunConcat(s, a, b);
  }

  // The push, from its last step back to its first.

  /** The state after the answer `ok` is given. */
  function Answered<T>(s: State<T>, item: T, blocking: bool, ok: bool): State<T> {
    s.(producer := Idle,
       past := s.past.(returned := s.past.returned + (if ok then [item] else []),
                       failedTries := s.past.failedTries + (if ok || blocking then 0 else 1)))
  }

  lemma ReturnIsARun<T>(s: State<T>) returns (actions: seq<Action<T>>)
    requires s.Capacity() > 0 && s.producer.Returning?
    ensures RunsTo(s, actions, Answered(s, s.producer.item, s.producer.blocking, s.producer.ok))
  {
    actions := RunMore(s, ReturnPush, [], Answered(s, s.producer.item, s.producer.blocking, s.producer.ok));
  }

  lemma DropIsARun<T>(s: State<T>) returns (actions: seq<Action<T>>)
    requires s.Capacity() > 0 && s.producer.Dropping?
    ensures RunsTo(s, actions, Answered(s.(mem := s.mem.(dropped := s.mem.dropped + 1)), s.producer.item, false, false))
  {
    actions := ReturnIsARun(Apply(s, CountDrop));
    actions := RunMore(s, CountDrop, actions,
                       Answered(s.(mem := s.mem.(dropped := s.mem.dropped + 1)), s.producer.item, false, false));
  }

  lemma CompareIsARun<T>(s: State<T>) returns (actions: seq<Action<T>>)
    requires s.Capacity() > 0 && s.producer.Raising? && s.producer.high == s.mem.highWater
    ensures RunsTo(s, actions, Answered(s.(mem := Raised(s.mem, s.producer.used)), s.producer.item, s.producer.blocking, true))
  {
    actions := ReturnIsARun(Apply(s, Raise(false)));
    actions := RunMore(s, Raise(false), actions,
                       Answered(s.(mem := Raised(s.mem, s.producer.used)), s.producer.item, s.producer.blocking, true));
  }

  /** The tail is where the count says, and the producer has seen all of it. */
  predicate TailKnown<T>(s: State<T>) {
    s.Capacity() > 0 && s.past.tailSeen == |s.past.popped| && s.mem.tail == Slot(|s.past.popped|, s.Capacity())
  }

  lemma LoadUsedIsARun<T>(s: State<T>) returns (actions: seq<Action<T>>)
    requires TailKnown(s) && s.producer.LoadingUsed? && s.producer.high == s.mem.highWater
    ensures RunsTo(s, actions, Answered(s.(mem := Raised(s.mem, Used(s.mem, s.producer.next))),
                                        s.producer.item, s.producer.blocking, true))
  {
    actions := CompareIsARun(Apply(s, LoadUsed(|s.past.popped|)));
    actions := RunMore(s, LoadUsed(|s.past.popped|), actions,
                       Answered(s.(mem := Raised(s.mem, Used(s.mem, s.producer.next))),
                                s.producer.item, s.producer.blocking, true));
  }

  lemma RaiseIsARun<T>(s: State<T>) returns (actions: seq<Action<T>>)
    requires TailKnown(s) && s.producer.LoadingHigh?
    ensures RunsTo(s, actions, Answered(s.(mem := Raised(s.mem, Used(s.mem, s.producer.next))),
                                        s.producer.item, s.producer.blocking, true))
  {
    actions := LoadUsedIsARun(Apply(s, LoadHigh));
    actions := RunMore(s, LoadHigh, actions,
                       Answered(s.(mem := Raised(s.mem, Used(s.mem, s.producer.next))),
                                s.producer.item, s.producer.blocking, true));
  }

  /** The state after the item is stored in `mem`, published and answered for. */
  function Pushed<T>(s: State<T>, mem: Shared<T>, item: T, blocking: bool): State<T> {
    Answered(s.(mem := mem, past := s.past.(accepted := s.past.accepted + [item])), item, blocking, true)
  }

  lemma PublishIsARun<T>(s: State<T>) returns (actions: seq<Action<T>>)
    requires TailKnown(s) && s.producer.Publishing?
    ensures RunsTo(s, actions, Pushed(s, Raised(s.mem.(head := s.producer.next), Used(s.mem, s.producer.next)),
                                      s.producer.item, s.producer.blocking))
  {
    actions := RaiseIsARun(Apply(s, Publish));
    actions := RunMore(s, Publish, actions, Pushed(s, Raised(s.mem.(head := s.producer.next), Used(s.mem, s.producer.next)),
                                                   s.producer.item, s.producer.blocking));
  }

  lemma StoreIsARun<T>(s: State<T>) returns (actions: seq<Action<T>>)
    requires TailKnown(s) && s.producer.Writing? && s.producer.cur < s.Capacity()
    ensures RunsTo(s, actions, Pushed(s, Stored(s.mem, s.producer.item, s.producer.cur, s.producer.next),
                                      s.producer.item, s.producer.blocking))
  {
    actions := PublishIsARun(Apply(s, Write));
    actions := RunMore(s, Write, actions, Pushed(s, Stored(s.mem, s.producer.item, s.producer.cur, s.producer.next),
                                                 s.producer.item, s.producer.blocking));
  }

  /** The state with the producer's knowledge of the tail brought up to date. */
  function Looked<T>(s: State<T>): State<T> {
    s.(past := s.past.(tailSeen := |s.past.popped|))
  }

  /** The state after a call that nothing interrupts has looked at the tail: done, or waiting if it may. */
  function PushOutcome<T>(s: State<T>, item: T, blocking: bool): State<T>
    requires s.mem.head < s.Capacity() && s.mem.tail < s.Capacity()
  {
    var next := Increment(s.mem.head, s.Capacity());
    if next != s.mem.tail then Pushed(Looked(s), Stored(s.mem, item, s.mem.head, next), item, blocking)
    else if blocking then Looked(s).(producer := Waiting(item))
    else Answered(Looked(s).(mem := s.mem.(dropped := s.mem.dropped + 1)), item, false, false)
  }

  lemma LoadTailIsARun<T>(s: State<T>) returns (actions: seq<Action<T>>)
    requires Inv(s) && s.producer.LoadingTail?
    ensures s.mem.head < s.Capacity() && s.mem.tail < s.Capacity()
    ensures RunsTo(s, actions, PushOutcome(s, s.producer.item, s.producer.blocking))
  {
    var a: Action<T> := LoadTail(|s.past.popped|);
    var s' := Apply(s, a);
    if s'.producer.Writing? {
      actions := StoreIsARun(s');
    } else if s.producer.blocking {
      actions := [];
    } else {
      actions := DropIsARun(s');
    }
    actions := RunMore(s, a, actions, PushOutcome(s, s.producer.item, s.producer.blocking));
  }

  lemma PushIsARun<T>(s: State<T>, item: T, blocking: bool) returns (actions: seq<Action<T>>)
    requires Inv(s) && s.producer.Idle?
    ensures s.mem.head < s.Capacity() && s.mem.tail < s.Capacity()
    ensures RunsTo(s, actions, PushOutcome(s, item, blocking))
  {
    StepInv(s, StartPush(item, blocking));
    actions := LoadTailIsARun(Apply(s, StartPush(item, blocking)));
    actions := RunMore(s, StartPush(item, blocking), actions, PushOutcome(s, item, blocking));
  }

  lemma RetryIsARun<T>(s: State<T>) returns (actions: seq<Action<T>>)
    requires Inv(s) && s.producer.Waiting?
    ensures s.mem.head < s.Capacity() && s.mem.tail < s.Capacity()
    ensures RunsTo(s, actions, PushOutcome(s, s.producer.item, true))
  {
    StepInv(s, Retry);
    actions := LoadTailIsARun(Apply(s, Retry));
    actions := RunMore(s, Retry, actions, PushOutcome(s, s.producer.item, true));
  }

  // The pass of the consumer's loop, from its last step back to its first.

  /** The state after the pass: one item taken and delivered, if there was one. */
  function PopOutcome<T>(s: State<T>): State<T>
    requires s.mem.tail < s.Capacity()
  {
    var looked := s.(consumer := Checking, past := s.past.(headSeen := |s.past.accepted|));
    if s.mem.tail == s.mem.head then looked
    else
      var item := s.mem.buffer[s.mem.tail];
      looked.(mem := TryPopped(s.mem),
              past := looked.past.(popped := s.past.popped + [item], delivered := s.past.delivered + [item]))
  }

  lemma TakeIsARun<T>(s: State<T>) returns (actions: seq<Action<T>>)
    requires s.Capacity() > 0 && s.consumer.Reading? && s.consumer.cur < s.Capacity()
    ensures var item := s.mem.buffer[s.consumer.cur];
            RunsTo(s, actions, s.(mem := s.mem.(tail := Increment(s.consumer.cur, s.Capacity())), consumer := Checking,
                                  past := s.past.(popped := s.past.popped + [item], delivered := s.past.delivered + [item])))
  {
    var s1 := Apply(s, Read);
    var s2 := Apply(s1, Free);
    var end := Apply(s2, Callback);
    actions := RunMore(s2, Callback, [], end);
    actions := RunMore(s1, Free, actions, end);
    actions := RunMore(s, Read, actions, end);
  }

  lemma LoadHeadIsARun<T>(s: State<T>) returns (actions: seq<Action<T>>)
    requires Inv(s) && s.consumer.LoadingHead?
    ensures s.mem.tail < s.Capacity()
    ensures RunsTo(s, actions, PopOutcome(s))
  {
    var a: Action<T> := LoadHead(|s.past.accepted|);
    var s' := Apply(s, a);
    if s'.consumer.Checking? {
      actions := [];
    } else {
      actions := TakeIsARun(s');
    }
    actions := RunMore(s, a, actions, PopOutcome(s));
  }

  lemma PopIsARun<T>(s: State<T>) returns (actions: seq<Action<T>>)
    requires Inv(s) && s.consumer.Checking?
    ensures s.mem.tail < s.Capacity()
    ensures RunsTo(s, actions, PopOutcome(s))
  {
    StepInv(s, CheckStop(false));
    var s1 := Apply(s, CheckStop(false));
    StepInv(s1, LoadOwnTail);
    actions := LoadHeadIsARun(Apply(s1, LoadOwnTail));
    actions := RunMore(s1, LoadOwnTail, actions, PopOutcome(s));
    actions := RunMore(s, CheckStop(false), actions, PopOutcome(s));
  }

  // ---------- what the calls do, in terms of the queue ----------

  function Larger(a: nat, b: nat): nat {
    if a >= b then a else b
  }

  /** The item is at the back of the queue and its push has returned true; the mark covers the queue's length. */
  ghost predicate PushedItem<T>(s: State<T>, end: State<T>, item: T) {
    && end.producer.Idle? && Items(end) == Items(s) + [item]
    && end.past.accepted == s.past.accepted + [item] && end.past.returned == s.past.returned + [item]
    && end.mem.highWater == Larger(s.mem.highWater, |Items(end)|)
    && end.mem.dropped == s.mem.dropped && end.past.failedTries == s.past.failedTries
  }

  /** Nothing is published, answered for or raised. */
  ghost predicate QueueKept<T>(s: State<T>, end: State<T>) {
    && Items(end) == Items(s) && end.past.accepted == s.past.accepted && end.past.returned == s.past.returned
    && end.mem.highWater == s.mem.highWater
  }

  /** The other thread's place and the stop flag stay as they are. */
  ghost predicate ConsumerKept<T>(s: State<T>, end: State<T>) {
    end.consumer == s.consumer && end.stop == s.stop && end.past.popped == s.past.popped && end.past.delivered == s.past.delivered
  }

  lemma PushOutcomeShows<T>(s: State<T>, item: T, blocking: bool)
    requires Inv(s) && (s.producer.Idle? || s.producer.Waiting?)
    ensures s.mem.head < s.Capacity() && s.mem.tail < s.Capacity()
    ensures var end := PushOutcome(s, item, blocking);
            && ConsumerKept(s, end)
            && (|Items(s)| < s.Capacity() - 1 ==> PushedItem(s, end, item))
            && (|Items(s)| == s.Capacity() - 1 ==> QueueKept(s, end))
            && |Items(s)| < s.Capacity()
  {
    FullTest(|s.past.accepted|, |s.past.popped|, s.Capacity());
    if |Items(s)| < s.Capacity() - 1 {
      UsedIsDistance(|s.past.accepted| + 1, |s.past.popped|, s.Capacity());
      assert (s.past.accepted + [item])[|s.past.popped|..] == s.past.accepted[|s.past.popped|..] + [item];
    }
  }

  lemma PopOutcomeShows<T>(s: State<T>)
    requires Inv(s) && s.consumer.Checking?
    ensures s.mem.tail < s.Capacity()
    ensures var end := PopOutcome(s);
            && end.consumer == Checking && end.producer == s.producer && end.stop == s.stop
            && end.past.accepted == s.past.accepted && end.past.returned == s.past.returned
            && end.mem.dropped == s.mem.dropped && end.mem.highWater == s.mem.highWater
            && Items(end) == (if Items(s) == [] then [] else Items(s)[1..])
            && end.past.delivered == s.past.delivered + (if Items(s) == [] then [] else [Items(s)[0]])
  {
    SlotsDiffer(|s.past.popped|, |s.past.accepted|, s.Capacity());
    if Items(s) != [] {
      assert s.past.accepted[|s.past.popped|..][1..] == s.past.accepted[|s.past.popped| + 1..];
    }
  }

  /**
   Wherever a run has led, an idle producer's `tryPush` can run through alone: with room it publishes the item and
   returns true, else it counts a drop and returns false.
   */
  lemma TryPushIsARun<T>(start: State<T>, before: seq<Action<T>>, item: T) returns (actions: seq<Action<T>>)
    requires Initial(start) && ValidRun(start, before) && Run(start, before).producer.Idle?
    ensures var s := Run(start, before);
            && ValidRun(s, actions) && AllFresh(s, actions)
            && var end := Run(s, actions);
               && ConsumerKept(s, end) && end.producer.Idle?
               && (|Items(s)| < s.Capacity() - 1 ==> PushedItem(s, end, item))
               && (|Items(s)| == s.Capacity() - 1 ==>
                     QueueKept(s, end) && end.mem.dropped == s.mem.dropped + 1 && end.past.failedTries == s.past.failedTries + 1)
               && s.mem.head < s.Capacity() && s.mem.tail < s.Capacity() && end.mem == TryPushed(s.mem, item)
  {
    RunInv(start, before) by {
      InitialInv(start);
    }
    var s := Run(start, before);
    actions := PushIsARun(s, item, false);
    PushOutcomeShows(s, item, false);
    FullTest(|s.past.accepted|, |s.past.popped|, s.Capacity());
  }

  /** The same for the spinning `push`: with room it publishes the item and returns true, else it waits and has counted nothing. */
  lemma BlockingPushIsARun<T>(start: State<T>, before: seq<Action<T>>, item: T) returns (actions: seq<Action<T>>)
    requires Initial(start) && ValidRun(start, before) && Run(start, before).producer.Idle?
    ensures var s := Run(start, before);
            && ValidRun(s, actions) && AllFresh(s, actions)
            && var end := Run(s, actions);
               && ConsumerKept(s, end)
               && (|Items(s)| < s.Capacity() - 1 ==> PushedItem(s, end, item))
               && (|Items(s)| == s.Capacity() - 1 ==> end.producer == Waiting(item) && QueueKept(s, end) && end.mem == s.mem
                                                      && end.past.failedTries == s.past.failedTries)
  {
    RunInv(start, before) by {
      InitialInv(start);
    }
    var s := Run(start, before);
    actions := PushIsARun(s, item, true);
    PushOutcomeShows(s, item, true);
    FullTest(|s.past.accepted|, |s.past.popped|, s.Capacity());
  }

  /** A waiting `push` that looks again publishes its item exactly when there is room by then. */
  lemma WaitingPushIsARun<T>(start: State<T>, before: seq<Action<T>>) returns (actions: seq<Action<T>>)
    requires Initial(start) && ValidRun(start, before) && Run(start, before).producer.Waiting?
    ensures var s := Run(start, before);
            && ValidRun(s, actions) && AllFresh(s, actions)
            && var end := Run(s, actions);
               && ConsumerKept(s, end)
               && (|Items(s)| < s.Capacity() - 1 ==> PushedItem(s, end, s.producer.item))
               && (|Items(s)| == s.Capacity() - 1 ==> end.producer == s.producer && QueueKept(s, end) && end.mem == s.mem)
  {
    RunInv(start, before) by {
      InitialInv(start);
    }
    var s := Run(start, before);
    actions := RetryIsARun(s);
    PushOutcomeShows(s, s.producer.item, true);
    FullTest(|s.past.accepted|, |s.past.popped|, s.Capacity());
  }

  /** A waiting `push` may also give up: it returns false and has published and counted nothing. */
  lemma GiveUp<T>(s: State<T>) returns (actions: seq<Action<T>>)
    requires s.Capacity() > 0 && s.producer.Waiting?
    ensures actions == [TimeOut, ReturnPush] && ValidRun(s, actions)
    ensures Run(s, actions) == s.(producer := Idle)
  {
    actions := [TimeOut, ReturnPush];
    TwoSteps(s, TimeOut, ReturnPush);
    assert Apply(Apply(s, TimeOut), ReturnPush) == s.(producer := Idle);
  }

  /**
   Wherever a run has led, one pass of the consumer's loop that sees no stop can run through alone: it takes and
   delivers the oldest item, or finds none.
   */
  lemma TryPopIsARun<T>(start: State<T>, before: seq<Action<T>>) returns (actions: seq<Action<T>>)
    requires Initial(start) && ValidRun(start, before) && Run(start, before).consumer.Checking?
    ensures var s := Run(start, before);
            && ValidRun(s, actions) && AllFresh(s, actions)
            && var end := Run(s, actions);
               && end.consumer == Checking && end.producer == s.producer && end.stop == s.stop
               && Items(end) == (if Items(s) == [] then [] else Items(s)[1..])
               && end.past.delivered == s.past.delivered + (if Items(s) == [] then [] else [Items(s)[0]])
               && end.past.accepted == s.past.accepted && end.past.returned == s.past.returned
               && end.mem == TryPopped(s.mem)
  {
    RunInv(start, before) by {
      InitialInv(start);
    }
    actions := PopIsARun(Run(start, before));
    PopOutcomeShows(Run(start, before));
  }

  /** A `push` that finds the ring full waits, and succeeds once the consumer has taken an item: nothing is dropped. */
  lemma PushSucceedsAfterPop<T>(start: State<T>, before: seq<Action<T>>, item: T) returns (actions: seq<Action<T>>)
    requires Initial(start) && ValidRun(start, before)
    requires var s := Run(start, before);
             s.producer.Idle? && s.consumer.Checking? && s.Capacity() > 1 && |Items(s)| == s.Capacity() - 1
    ensures var s := Run(start, before);
            && ValidRun(s, actions) && AllFresh(s, actions)
            && var end := Run(s, actions);
               && end.producer.Idle? && end.consumer.Checking?
               && Items(end) == Items(s)[1..] + [item]
               && end.past.returned == s.past.returned + [item]
               && end.past.delivered == s.past.delivered + [Items(s)[0]]
               && end.mem.dropped == s.mem.dropped
  {
    var s := Run(start, before);
    var push := BlockingPushIsARun(start, before, item);
    RunConcat(start, before, push);
    var waiting := Run(s, push);
    var pop := TryPopIsARun(start, before + push);
    RunConcat(start, before + push, pop);
    var roomy := Run(waiting, pop);
    var again := WaitingPushIsARun(start, before + push + pop);
    RunsOn(s, push, waiting, pop, roomy);
    RunsOn(s, push + pop, roomy, again, Run(roomy, again));
    actions := push + pop + again;
  }

  // ---------- what an old index can do ----------

  /** A stale look is enough to refuse: in a ring for one item, after one push and one pop, a `tryPush` may still see it full. */
  lemma StaleRefusalWitness<T>(start: State<T>, item: T) returns (actions: seq<Action<T>>)
    requires Initial(start) && start.Capacity() == 2
    ensures ValidRun(start, actions) && !AllFresh(start, actions)
    ensures Items(Run(start, actions)) == [] && Run(start, actions).producer == Dropping(item)
  {
    InitialInv(start);
    var push := PushIsARun(start, item, false);
    PushOutcomeShows(start, item, false);
    RunInv(start, push);
    var s1 := Run(start, push);
    var pop := PopIsARun(s1);
    PopOutcomeShows(s1);
    RunInv(s1, pop);
    var look := StaleLook(Run(s1, pop), item);
    RunConcat(start, push, pop);
    RunConcat(start, push + pop, look);
    actions := push + pop + look;
  }

  /** Likewise the consumer may still see an empty ring although an item is queued. */
  lemma StaleEmptyWitness<T>(start: State<T>, item: T) returns (actions: seq<Action<T>>)
    requires Initial(start) && start.Capacity() >= 2
    ensures ValidRun(start, actions) && !AllFresh(start, actions)
    ensures Items(Run(start, actions)) == [item] && Run(start, actions).consumer.Checking?
    ensures Run(start, actions).past.delivered == []
  {
    InitialInv(start);
    var push := PushIsARun(start, item, false);
    PushOutcomeShows(start, item, false);
    RunInv(start, push);
    var look := StaleHead(Run(start, push));
    RunConcat(start, push, look);
    actions := push + look;
  }

  lemma StaleHead<T>(s: State<T>) returns (actions: seq<Action<T>>)
    requires Inv(s) && s.consumer.Checking? && s.past.headSeen == |s.past.popped| < |s.past.accepted|
    ensures ValidRun(s, actions) && !AllFresh(s, actions)
    ensures Items(Run(s, actions)) == Items(s) && Run(s, actions).consumer.Checking?
    ensures Run(s, actions).past.delivered == s.past.delivered
  {
    var s1 := Apply(s, CheckStop(false));
    StepInv(s, CheckStop(false));
    var s2 := Apply(s1, LoadOwnTail);
    StepInv(s1, LoadOwnTail);
    LoadHeadDecides(s2, s.past.headSeen);
    TwoSteps(s, CheckStop(false), LoadOwnTail);
    OneStep(s2, LoadHead(s.past.headSeen));
    RunConcat(s, [CheckStop(false), LoadOwnTail], [LoadHead(s.past.headSeen)]);
    actions := [CheckStop(false), LoadOwnTail] + [LoadHead(s.past.headSeen)];
  }

  lemma StaleLook<T>(s: State<T>, item: T) returns (actions: seq<Action<T>>)
    requires Inv(s) && s.producer.Idle? && Items(s) == []
    requires s.past.tailSeen < |s.past.popped| && s.past.tailSeen + s.Capacity() == |s.past.accepted| + 1
    ensures ValidRun(s, actions) && !AllFresh(s, actions)
    ensures Items(Run(s, actions)) == [] && Run(s, actions).producer == Dropping(item)
  {
    var look: Action<T> := LoadTail(s.past.tailSeen);
    actions := [StartPush(item, false), look];
    var s1 := Apply(s, StartPush(item, false));
    StepInv(s, StartPush(item, false));
    LoadTailDecides(s1, s.past.tailSeen);
    TwoSteps(s, StartPush(item, false), look);
  }

  lemma TwoSteps<T>(s: State<T>, a: Action<T>, b: Action<T>)
    requires s.Capacity() > 0 && Enabled(s, a) && Enabled(Apply(s, a), b)
    ensures ValidRun(s, [a, b]) && Run(s, [a, b]) == Apply(Apply(s, a), b)
    ensures AllFresh(s, [a, b]) <==> Fresh(s, a) && Fresh(Apply(s, a), b)
  {
    assert [a, b][1..] == [b];
    OneStep(Apply(s, a), b);
  }

  lemma OneStep<T>(s: State<T>, a: Action<T>)
    requires s.Capacity() > 0 && Enabled(s, a)
    ensures ValidRun(s, [a]) && Run(s, [a]) == Apply(s, a)
    ensures AllFresh(s, [a]) <==> Fresh(s, a)
  {
    assert [a][1..] == [];
  }
}
