/** Runs of the whole engine: a fixed table of books chosen by a hash of the symbol, and one pool of order slots. */
module EngineRuns {
  import opened Matching
  import opened MatchingRuns
  import opened Words

  const BOOK_COUNT: nat := 1024

  /** The symbol hash before its final remainder; any function will do. */
  type Hash = string -> nat

  function Bucket(hash: Hash, order: Order): (b: nat)
    ensures b < BOOK_COUNT
  {
    hash(order.symbol) % BOOK_COUNT
  }

  /**
   The engine's state with what it has done so far: the orders that got a slot, in order, the slots
   neither resting nor free, the reports of each bucket, and all reports in the order of the callbacks.
   */
  datatype Engine = Engine(books: seq<Book>, freeSlots: nat, accepted: seq<Order>, lost: nat,
                           traces: seq<seq<Report>>, log: seq<Report>)

  function Start(capacity: nat): Engine {
    Engine(seq(BOOK_COUNT, _ => Book([], [])), capacity, [], 0, seq(BOOK_COUNT, _ => []), [])
  }

  predicate WellFormed(e: Engine) {
    |e.books| == BOOK_COUNT && |e.traces| == BOOK_COUNT
  }

  function EngineStep(hash: Hash, e: Engine, order: Order): (e': Engine)
    requires WellFormed(e)
    ensures WellFormed(e')
  {
    if e.freeSlots == 0 then e
    else
      var b := Bucket(hash, order);
      var out := Submit(e.books[b], order);
      Engine(e.books[b := out.book], e.freeSlots - 1 + out.freed, e.accepted + [order],
             e.lost + (if out.freed == 0 && out.rested == [] then 1 else 0),
             e.traces[b := e.traces[b] + out.reports], e.log + out.reports)
  }

  function EngineRun(hash: Hash, capacity: nat, orders: seq<Order>): (e: Engine)
    ensures WellFormed(e)
  {
    if orders == [] then Start(capacity)
    else EngineStep(hash, EngineRun(hash, capacity, orders[..|orders| - 1]), orders[|orders| - 1])
  }


  lemma RunExtends(hash: Hash, capacity: nat, orders: seq<Order>, order: Order)
    ensures EngineRun(hash, capacity, orders + [order]) == EngineStep(hash, EngineRun(hash, capacity, orders), order)
  {
    assert (orders + [order])[..|orders|] == orders;
  }

  // ---------- which book ----------

  /**
   The symbol alone chooses the book: the same symbol always the same one, two orders the same one exactly when
   their symbols' hashes are congruent modulo 1024, and a hash below 1024 is the number of the book.
   */
  lemma BucketBySymbol(hash: Hash, a: Order, b: Order)
    ensures a.symbol == b.symbol ==> Bucket(hash, a) == Bucket(hash, b)
    ensures Bucket(hash, a) == Bucket(hash, b) <==> (hash(a.symbol) - hash(b.symbol)) % 1024 == 0
    ensures hash(a.symbol) < 1024 ==> Bucket(hash, a) == hash(a.symbol)
  {
    SameRemainder(hash(a.symbol), hash(b.symbol), 1024);
  }

  /**
   One more submission: dropped without a trace if no slot is free; else the book of its symbol's hash modulo 1024
   changes by the matching rule, its reports are made, and no other book and no other bucket's reports change.
   */
  lemma StepEffect(hash: Hash, e: Engine, order: Order)
    requires WellFormed(e)
    ensures var e', b := EngineStep(hash, e, order), hash(order.symbol) % 1024;
            var out := Submit(e.books[b], order);
            && (e.freeSlots == 0 ==> e' == e)
            && (e.freeSlots > 0 ==>
                  && e'.books == e.books[b := out.book] && e'.traces == e.traces[b := e.traces[b] + out.reports]
                  && e'.log == e.log + out.reports && e'.freeSlots == e.freeSlots - 1 + out.freed
                  && e'.accepted == e.accepted + [order])
  {
  }

  // ---------- independence of books ----------

  /** One bucket's own subsequence. */
  function InBucket(hash: Hash, orders: seq<Order>, b: nat): seq<Order> {
    if orders == [] then []
    else
      var last := orders[|orders| - 1];
      InBucket(hash, orders[..|orders| - 1], b) + (if Bucket(hash, last) == b then [last] else [])
  }

  lemma InBucketOneMore(hash: Hash, orders: seq<Order>, order: Order, b: nat)
    ensures InBucket(hash, orders + [order], b)
            == if Bucket(hash, order) == b then InBucket(hash, orders, b) + [order] else InBucket(hash, orders, b)
  {
    assert (orders + [order])[..|orders|] == orders;
  }

  /** A bucket's book and reports are those of running its own accepted orders alone, whatever the other buckets did. */
  lemma {:induction false} BooksAreIndependent(hash: Hash, capacity: nat, orders: seq<Order>, b: nat)
    requires b < BOOK_COUNT
    ensures var e := EngineRun(hash, capacity, orders);
            var alone := BookRun(InBucket(hash, e.accepted, b));
            e.books[b] == alone.book && e.traces[b] == alone.reports
  {
    if orders != [] {
      var before, order := orders[..|orders| - 1], orders[|orders| - 1];
      var e := EngineRun(hash, capacity, before);
      BooksAreIndependent(hash, capacity, before, b);
      InBucketOneMore(hash, e.accepted, order, b);
      BookRunOneMore(InBucket(hash, e.accepted, b), order);
    }
  }

  /** No submission of the run finds the pool empty. */
  predicate NeverEmpty(hash: Hash, capacity: nat, orders: seq<Order>) {
    orders == []
    || (NeverEmpty(hash, capacity, orders[..|orders| - 1])
        && EngineRun(hash, capacity, orders[..|orders| - 1]).freeSlots > 0)
  }

  lemma AppendIsInjective(a: seq<Order>, b: seq<Order>, x: Order)
    ensures a + [x] == b + [x] <==> a == b
  {
    if a + [x] == b + [x] {
      assert a == (a + [x])[..|a|] == (b + [x])[..|b|] == b;
    }
  }

  lemma LastSplitsOff(orders: seq<Order>)
    requires orders != []
    ensures orders == orders[..|orders| - 1] + [orders[|orders| - 1]]
  {
  }

  /** What one more order adds to the accepted ones. */
  lemma StepAccepts(hash: Hash, e: Engine, before: seq<Order>, order: Order)
    requires WellFormed(e) && |e.accepted| <= |before|
    ensures var accepted := EngineStep(hash, e, order).accepted;
            && |accepted| <= |before| + 1
            && (accepted == before + [order] <==> e.accepted == before && e.freeSlots > 0)
  {
    AppendIsInjective(e.accepted, before, order);
  }

  /** Every order is accepted exactly when no submission of the run finds the pool empty. */
  lemma {:induction false} AllAcceptedIff(hash: Hash, capacity: nat, orders: seq<Order>)
    ensures EngineRun(hash, capacity, orders).accepted == orders <==> NeverEmpty(hash, capacity, orders)
    ensures |EngineRun(hash, capacity, orders).accepted| <= |orders|
  {
    if orders != [] {
      var before, order := orders[..|orders| - 1], orders[|orders| - 1];
      AllAcceptedIff(hash, capacity, before);
      LastSplitsOff(orders);
      StepAccepts(hash, EngineRun(hash, capacity, before), before, order);
    }
  }

  /** With no drops, each bucket ends up as if its own subsequence of orders had run alone. */
  lemma IndependentWithoutDrops(hash: Hash, capacity: nat, orders: seq<Order>, b: nat)
    requires b < BOOK_COUNT
    requires NeverEmpty(hash, capacity, orders)
    ensures var alone := BookRun(InBucket(hash, orders, b));
            && EngineRun(hash, capacity, orders).books[b] == alone.book
            && EngineRun(hash, capacity, orders).traces[b] == alone.reports
  {
    AllAcceptedIff(hash, capacity, orders);
    BooksAreIndependent(hash, capacity, orders, b);
  }

  // ---------- the pool ----------

  function TotalSize(books: seq<Book>): nat {
    if books == [] then 0 else TotalSize(books[..|books| - 1]) + Size(books[|books| - 1])
  }

  lemma {:induction false} TotalSizeUpdate(books: seq<Book>, b: nat, book: Book)
    requires b < |books|
    ensures TotalSize(books[b := book]) == TotalSize(books) - Size(books[b]) + Size(book)
  {
    var n := |books| - 1;
    if b == n {
      assert books[b := book][..n] == books[..n];
    } else {
      assert books[b := book][..n] == books[..n][b := book];
      TotalSizeUpdate(books[..n], b, book);
    }
  }

  lemma {:induction false} TotalSizeOfEmpty(n: nat)
    ensures TotalSize(seq(n, _ => Book([], []))) == 0
  {
    if n > 0 {
      assert seq(n, _ => Book([], []))[..n - 1] == seq(n - 1, _ => Book([], []));
      TotalSizeOfEmpty(n - 1);
    }
  }

  /** Slot accounting of one accepted submission. */
  lemma SubmitAccounts(book: Book, order: Order)
    ensures var out := Submit(book, order);
            && out.freed + Size(out.book) + (if out.freed == 0 && out.rested == [] then 1 else 0) == Size(book) + 1
            && (order.quantity > 0 ==> out.freed > 0 || out.rested != [])
  {
    ReleasedSlots(book.Side(!order.isBuy), order);
    UnfilledMeetsNoCrossingHead(book.Side(!order.isBuy), order);
  }

  /**
   Between submissions every slot is free, resting in some book, or lost to a zero-quantity order; with positive
   quantities none is lost.
   */
  lemma {:induction false} SlotsAreAccountedFor(hash: Hash, capacity: nat, orders: seq<Order>)
    ensures var e := EngineRun(hash, capacity, orders);
            && e.freeSlots + TotalSize(e.books) + e.lost == capacity
            && (AllPositive(orders) ==> e.lost == 0)
  {
    if orders == [] {
      TotalSizeOfEmpty(BOOK_COUNT);
    } else {
      var before, order := orders[..|orders| - 1], orders[|orders| - 1];
      var e := EngineRun(hash, capacity, before);
      SlotsAreAccountedFor(hash, capacity, before);
      if e.freeSlots > 0 {
        var b := Bucket(hash, order);
        SubmitAccounts(e.books[b], order);
        TotalSizeUpdate(e.books, b, Submit(e.books[b], order).book);
      }
      assert AllPositive(orders) ==> AllPositive(before) && order.quantity > 0;
    }
  }

  /** With positive quantities a submission is dropped exactly when as many orders rest as the pool has slots. */
  lemma DroppedIffFull(hash: Hash, capacity: nat, orders: seq<Order>, order: Order)
    requires AllPositive(orders)
    ensures var e := EngineRun(hash, capacity, orders);
            EngineRun(hash, capacity, orders + [order]).accepted == e.accepted <==> TotalSize(e.books) == capacity
  {
    SlotsAreAccountedFor(hash, capacity, orders);
    assert (orders + [order])[..|orders|] == orders;
  }

  // ---------- what the single-book results say of the engine ----------

  /** Per bucket: accepted quantity on a side is what rests there plus what the bucket's match reports announce. */
  lemma BucketIsConserved(hash: Hash, capacity: nat, orders: seq<Order>, b: nat, isBuy: bool)
    requires b < BOOK_COUNT
    ensures var e := EngineRun(hash, capacity, orders);
            QuantityOf((o: Order) => o.isBuy == isBuy, InBucket(hash, e.accepted, b))
            == QuantityOf((o: Order) => true, e.books[b].Side(isBuy)) + Matched(e.traces[b])
  {
    BooksAreIndependent(hash, capacity, orders, b);
    SidesAreConserved(InBucket(hash, EngineRun(hash, capacity, orders).accepted, b), isBuy);
  }

  /**
   Per bucket: an accepted order whose id no other accepted order of the bucket uses. Its quantity is what rests
   in the bucket's book under that id plus its executions in the bucket's reports.
   */
  lemma BucketOrderIsAccountedFor(hash: Hash, capacity: nat, orders: seq<Order>, b: nat, k: nat)
    requires b < BOOK_COUNT
    requires var own := InBucket(hash, EngineRun(hash, capacity, orders).accepted, b);
             k < |own| && forall i :: 0 <= i < |own| && i != k ==> own[i].id != own[k].id
    ensures var e := EngineRun(hash, capacity, orders);
            var order := InBucket(hash, e.accepted, b)[k];
            var sel := (o: Order) => o.id == order.id;
            order.quantity
            == QuantityOf(sel, e.books[b].buys) + QuantityOf(sel, e.books[b].sells) + Filled(sel, e.traces[b])
  {
    BooksAreIndependent(hash, capacity, orders, b);
    OrderIsAccountedFor(InBucket(hash, EngineRun(hash, capacity, orders).accepted, b), k);
  }

  /** Per bucket: each side is a suffix, in arrival order, of what ever rested there. */
  lemma BucketIsFifo(hash: Hash, capacity: nat, orders: seq<Order>, b: nat, isBuy: bool)
    requires b < BOOK_COUNT
    ensures var e := EngineRun(hash, capacity, orders);
            Faithful(BookRun(InBucket(hash, e.accepted, b)).Rested(isBuy), e.books[b].Side(isBuy), isBuy)
  {
    BooksAreIndependent(hash, capacity, orders, b);
    SideIsSuffixOfRested(InBucket(hash, EngineRun(hash, capacity, orders).accepted, b), isBuy);
  }

  // ---------- which orders meet ----------

  lemma {:induction false} InBucketMembers(hash: Hash, orders: seq<Order>, b: nat)
    ensures forall x :: x in InBucket(hash, orders, b) ==> x in orders && hash(x.symbol) % 1024 == b
  {
    if orders != [] {
      InBucketMembers(hash, orders[..|orders| - 1], b);
    }
  }

  lemma {:induction false} AcceptedWereSubmitted(hash: Hash, capacity: nat, orders: seq<Order>)
    ensures forall x :: x in EngineRun(hash, capacity, orders).accepted ==> x in orders
  {
    if orders != [] {
      AcceptedWereSubmitted(hash, capacity, orders[..|orders| - 1]);
    }
  }

  /** Whatever comes from a bucket's accepted orders was submitted, and has the bucket's hash. */
  lemma FromBucket(hash: Hash, capacity: nat, orders: seq<Order>, b: nat, x: Order, gone: nat)
    requires From(InBucket(hash, EngineRun(hash, capacity, orders).accepted, b), x, gone)
    ensures From(orders, x, gone) && hash(x.symbol) % 1024 == b
  {
    var own := InBucket(hash, EngineRun(hash, capacity, orders).accepted, b);
    InBucketMembers(hash, EngineRun(hash, capacity, orders).accepted, b);
    AcceptedWereSubmitted(hash, capacity, orders);
    var i :| 0 <= i < |own| && Identity(own[i]) == Identity(x) && x.quantity + gone <= own[i].quantity;
    assert own[i] in own && Identity(own[i]).symbol == own[i].symbol && Identity(x).symbol == x.symbol;
    forall y | y in [own[i]]
      ensures From(orders, y, 0)
    {
      MemberComesFrom(orders, y);
    }
    FromOne(own[i], x, gone);
    FromTwice(orders, [own[i]], x, gone);
  }

  lemma MemberComesFrom(orders: seq<Order>, x: Order)
    requires x in orders
    ensures From(orders, x, 0)
  {
    var i :| 0 <= i < |orders| && orders[i] == x;
  }

  /** Every resting order was submitted, and rests in the book of its symbol's hash modulo 1024, on its own side. */
  lemma OrdersRestInTheirBook(hash: Hash, capacity: nat, orders: seq<Order>, b: nat, isBuy: bool, x: Order)
    requires b < BOOK_COUNT && x in EngineRun(hash, capacity, orders).books[b].Side(isBuy)
    ensures hash(x.symbol) % 1024 == b && x.isBuy == isBuy && From(orders, x, 0)
  {
    var own := InBucket(hash, EngineRun(hash, capacity, orders).accepted, b);
    BooksAreIndependent(hash, capacity, orders, b);
    MemberComesFrom(BookRun(own).book.Side(isBuy), x);
    FromSide(own, isBuy, x, 0);
    FromBucket(hash, capacity, orders, b, x, 0);
  }

  /**
   Every match report of every run is between a submitted buy and a submitted sell whose prices cross and whose
   symbols' hashes are congruent modulo 1024, and for no more than either was submitted for.
   */
  lemma TradesAreTrue(hash: Hash, capacity: nat, orders: seq<Order>, b: nat, i: nat)
    requires b < BOOK_COUNT
    requires i < |EngineRun(hash, capacity, orders).traces[b]|
    ensures var r := EngineRun(hash, capacity, orders).traces[b][i];
            r.Trade? ==>
              && From(orders, r.incoming, r.matched) && From(orders, r.resting, r.matched)
              && hash(r.incoming.symbol) % 1024 == b == hash(r.resting.symbol) % 1024
              && r.incoming.isBuy != r.resting.isBuy
              && (if r.incoming.isBuy then r.incoming.price >= r.resting.price else r.incoming.price <= r.resting.price)
  {
    BooksAreIndependent(hash, capacity, orders, b);
    var own := InBucket(hash, EngineRun(hash, capacity, orders).accepted, b);
    ReportsAreTrue(own, i);
    var r := BookRun(own).reports[i];
    if r.Trade? {
      FromBucket(hash, capacity, orders, b, r.incoming, r.matched);
      FromBucket(hash, capacity, orders, b, r.resting, r.matched);
    }
  }

  /**
   An order that gets a slot and crosses the oldest opposite order of its own symbol's book must trade with it, at
   once and first: wherever in the engine that order rests, its book is the one the symbol leads to.
   */
  lemma SameSymbolTrades(hash: Hash, capacity: nat, orders: seq<Order>, order: Order, b: nat)
    requires b < BOOK_COUNT && EngineRun(hash, capacity, orders).freeSlots > 0
    requires var side := EngineRun(hash, capacity, orders).books[b].Side(!order.isBuy);
             && side != [] && side[0].symbol == order.symbol
             && (if order.isBuy then order.price >= side[0].price else order.price <= side[0].price)
    ensures var e, e' := EngineRun(hash, capacity, orders), EngineRun(hash, capacity, orders + [order]);
            TradesFirst(e.log, e'.log, order, e.books[b].Side(!order.isBuy)[0])
  {
    var e := EngineRun(hash, capacity, orders);
    var side := e.books[b].Side(!order.isBuy);
    OrdersRestInTheirBook(hash, capacity, orders, b, !order.isBuy, side[0]);
    RunExtends(hash, capacity, orders, order);
    StepEffect(hash, e, order);
    CrossingFrontTradesFirst(e.log, e.books[b], order);
  }

  /** The callbacks made next are those of a fill between the two orders, as large as both allow. */
  ghost predicate TradesFirst(log: seq<Report>, log': seq<Report>, order: Order, resting: Order) {
    var fill := if order.quantity <= resting.quantity then order.quantity else resting.quantity;
    var order', resting' := order.(quantity := order.quantity - fill), resting.(quantity := resting.quantity - fill);
    var n := |log|;
    && |log'| >= n + 3 && log'[..n] == log
    && log'[n] == Execution(order', fill) && log'[n + 1] == Execution(resting', fill)
    && log'[n + 2] == Trade(order', resting', fill)
  }

  lemma CrossingFrontTradesFirst(log: seq<Report>, book: Book, order: Order)
    requires book.Side(!order.isBuy) != [] && Crosses(order, book.Side(!order.isBuy)[0])
    ensures TradesFirst(log, log + Submit(book, order).reports, order, book.Side(!order.isBuy)[0])
  {
    CrossingFrontTrades(book, order);
    Behind(log, Submit(book, order).reports);
  }

  lemma Behind(log: seq<Report>, reports: seq<Report>)
    ensures (log + reports)[..|log|] == log
    ensures forall i :: 0 <= i < |reports| ==> (log + reports)[|log| + i] == reports[i]
  {
  }
}
