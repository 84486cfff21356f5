/** Whole runs of the matching engine: first one book, then many books that share one pool. */
module MatchingRuns {
  import opened Matching

  // ---------- one book ----------

  /** The book with everything it reported and every order that ever came to rest on each side, in arrival order. */
  datatype History = History(book: Book, reports: seq<Report>, restedBuys: seq<Order>, restedSells: seq<Order>) {
    function Rested(isBuy: bool): seq<Order> {
      if isBuy then restedBuys else restedSells
    }
  }

  const EMPTY_HISTORY: History := History(Book([], []), [], [], [])

  function BookStep(h: History, order: Order): History {
    var out := Submit(h.book, order);
    History(out.book, h.reports + out.reports,
            h.restedBuys + (if order.isBuy then out.rested else []),
            h.restedSells + (if order.isBuy then [] else out.rested))
  }

  function BookRun(orders: seq<Order>): History {
    if orders == [] then EMPTY_HISTORY
    else BookStep(BookRun(orders[..|orders| - 1]), orders[|orders| - 1])
  }

  lemma BookRunOneMore(orders: seq<Order>, order: Order)
    ensures BookRun(orders + [order]) == BookStep(BookRun(orders), order)
  {
    assert (orders + [order])[..|orders|] == orders;
  }

  // ---------- arrival order ----------

  lemma FrontTakenTwice(a: seq<Order>, b: seq<Order>, c: seq<Order>)
    requires FrontTaken(a, b) && FrontTaken(b, c)
    ensures FrontTaken(a, c)
  {
    var first, second := |a| - |b|, |b| - |c|;
    forall i | 0 < i < |c|
      ensures c[i] == a[first + second + i]
    {
      assert c[i] == b[second + i] == a[first + (second + i)];
    }
  }

  lemma FrontTakenThenAppended(a: seq<Order>, b: seq<Order>, order: Order)
    requires FrontTaken(a, b) && order.quantity > 0
    ensures FrontTaken(a + [order], b + [order])
  {
  }

  /** One side after the loop, before a remainder may join it. */
  function AfterLoop(book: Book, order: Order, isBuy: bool): seq<Order> {
    if order.isBuy == isBuy then book.Side(isBuy) else Match(book.Side(isBuy), order).opposite
  }

  function Joined(book: Book, order: Order, isBuy: bool): seq<Order> {
    if order.isBuy == isBuy then Submit(book, order).rested else []
  }

  /** What one submission does to each side: at most one positive remainder joins the back of what the loop left. */
  lemma SideStep(book: Book, order: Order, isBuy: bool)
    ensures Submit(book, order).book.Side(isBuy) == AfterLoop(book, order, isBuy) + Joined(book, order, isBuy)
    ensures var joined := Joined(book, order, isBuy);
            joined == [] || (joined == [joined[0]] && joined[0].quantity > 0 && Identity(joined[0]) == Identity(order))
  {
    UnfilledMeetsNoCrossingHead(book.Side(!order.isBuy), order);
  }

  lemma LoopTakesFront(book: Book, order: Order, isBuy: bool)
    requires AllPositive(book.Side(isBuy))
    ensures AllPositive(AfterLoop(book, order, isBuy))
    ensures FrontTaken(book.Side(isBuy), AfterLoop(book, order, isBuy))
  {
    if order.isBuy != isBuy {
      MatchTakesFront(book.Side(isBuy), order);
    }
  }

  /** The resting side against the history of what rested. */
  ghost predicate Faithful(rested: seq<Order>, side: seq<Order>, isBuy: bool) {
    FrontTaken(rested, side) && AllPositive(side) && AllOnSide(rested, isBuy)
  }

  lemma FaithfulStep(rested: seq<Order>, side: seq<Order>, kept: seq<Order>, joined: seq<Order>, isBuy: bool)
    requires Faithful(rested, side, isBuy) && FrontTaken(side, kept) && AllPositive(kept)
    requires joined == [] || (joined == [joined[0]] && joined[0].quantity > 0 && joined[0].isBuy == isBuy)
    ensures Faithful(rested + joined, kept + joined, isBuy)
  {
    FrontTakenTwice(rested, side, kept);
    if joined == [] {
      assert rested + joined == rested && kept + joined == kept;
    } else {
      FrontTakenThenAppended(rested, kept, joined[0]);
    }
  }

  /**
   After any run each side is the orders that ever rested there, in arrival order, with some number gone from the
   front and only the first of the rest possibly reduced. All resting quantities are positive.
   */
  lemma {:induction false} SideIsSuffixOfRested(orders: seq<Order>, isBuy: bool)
    ensures Faithful(BookRun(orders).Rested(isBuy), BookRun(orders).book.Side(isBuy), isBuy)
  {
    if orders != [] {
      var before, order := orders[..|orders| - 1], orders[|orders| - 1];
      var h := BookRun(before);
      SideIsSuffixOfRested(before, isBuy);
      SideStep(h.book, order, isBuy);
      LoopTakesFront(h.book, order, isBuy);
      var joined := Joined(h.book, order, isBuy);
      assert joined != [] ==> Identity(joined[0]).isBuy == isBuy;
      FaithfulStep(h.Rested(isBuy), h.book.Side(isBuy), AfterLoop(h.book, order, isBuy), joined, isBuy);
      assert h.Rested(isBuy) + [] == h.Rested(isBuy);
    }
  }

  lemma SideIsOneSided(orders: seq<Order>, isBuy: bool)
    ensures AllOnSide(BookRun(orders).book.Side(isBuy), isBuy)
  {
    SideIsSuffixOfRested(orders, isBuy);
    var h := BookRun(orders);
    var side, rested := h.book.Side(isBuy), h.Rested(isBuy);
    forall i | 0 <= i < |side|
      ensures side[i].isBuy == isBuy
    {
      assert Identity(side[i]) == Identity(rested[|rested| - |side| + i]);
      assert Identity(side[i]).isBuy == side[i].isBuy;
    }
  }

  /** An order that crosses the front of the other side trades with it first. */
  lemma CrossingFrontTrades(book: Book, order: Order)
    requires book.Side(!order.isBuy) != [] && Crosses(order, book.Side(!order.isBuy)[0])
    ensures var reports, resting := Submit(book, order).reports, book.Side(!order.isBuy)[0];
            var fill := if order.quantity <= resting.quantity then order.quantity else resting.quantity;
            var order', resting' := order.(quantity := order.quantity - fill), resting.(quantity := resting.quantity - fill);
            && |reports| >= 3 && reports[0] == Execution(order', fill) && reports[1] == Execution(resting', fill)
            && reports[2] == Trade(order', resting', fill)
  {
    var opposite := book.Side(!order.isBuy);
    ReportCount(opposite, order, 0);
    ReportsInClosedForm(opposite, order, 0);
    NothingInFront(opposite);
  }

  // ---------- where everything comes from ----------

  lemma FromMore(orders: seq<Order>, more: seq<Order>, x: Order, gone: nat)
    ensures From(orders, x, gone) ==> From(orders + more, x, gone) && From(more + orders, x, gone)
  {
    if From(orders, x, gone) {
      var i :| 0 <= i < |orders| && Identity(orders[i]) == Identity(x) && x.quantity + gone <= orders[i].quantity;
      assert (orders + more)[i] == orders[i] && (more + orders)[|more| + i] == orders[i];
    }
  }

  lemma FromTwice(orders: seq<Order>, between: seq<Order>, x: Order, gone: nat)
    requires From(between, x, gone) && forall y :: y in between ==> From(orders, y, 0)
    ensures From(orders, x, gone)
  {
    var i :| 0 <= i < |between| && Identity(between[i]) == Identity(x) && x.quantity + gone <= between[i].quantity;
    assert between[i] in between;
    var j :| 0 <= j < |orders| && Identity(orders[j]) == Identity(between[i]) && between[i].quantity <= orders[j].quantity;
  }

  lemma LastOf(orders: seq<Order>)
    requires orders != []
    ensures orders == orders[..|orders| - 1] + [orders[|orders| - 1]]
  {
  }

  lemma JoinedComesFrom(book: Book, order: Order, isBuy: bool)
    ensures forall x :: x in Joined(book, order, isBuy) ==> From([order], x, 0)
  {
    SideStep(book, order, isBuy);
    UnfilledMeetsNoCrossingHead(book.Side(!order.isBuy), order);
    FromOne(order, Match(book.Side(!order.isBuy), order).incoming, 0);
  }

  /** Whatever rests was submitted: same id, price, side and symbol, and no more of it than was submitted. */
  lemma {:induction false} RestedWasSubmitted(orders: seq<Order>, isBuy: bool)
    ensures forall x :: x in BookRun(orders).Rested(isBuy) ==> From(orders, x, 0)
  {
    if orders != [] {
      var before, order := orders[..|orders| - 1], orders[|orders| - 1];
      var h := BookRun(before);
      RestedWasSubmitted(before, isBuy);
      LastOf(orders);
      JoinedComesFrom(h.book, order, isBuy);
      forall x | x in BookRun(orders).Rested(isBuy)
        ensures From(orders, x, 0)
      {
        assert x in h.Rested(isBuy) || x in Joined(h.book, order, isBuy);
        FromMore(before, [order], x, 0);
        FromMore([order], before, x, 0);
      }
    }
  }

  lemma FrontTakenFrom(before: seq<Order>, after: seq<Order>, x: Order)
    requires FrontTaken(before, after) && x in after
    ensures From(before, x, 0)
  {
    var i :| 0 <= i < |after| && after[i] == x;
    assert Identity(before[|before| - |after| + i]) == Identity(x);
  }

  lemma RestingWasSubmitted(orders: seq<Order>, isBuy: bool)
    ensures forall x :: x in BookRun(orders).book.Side(isBuy) ==> From(orders, x, 0)
  {
    var h := BookRun(orders);
    var side, rested := h.book.Side(isBuy), h.Rested(isBuy);
    RestedWasSubmitted(orders, isBuy);
    SideIsSuffixOfRested(orders, isBuy);
    forall x | x in side
      ensures From(orders, x, 0)
    {
      FrontTakenFrom(rested, side, x);
      FromTwice(orders, rested, x, 0);
    }
  }

  /** A report of the run: it tells of submitted orders only, and a trade is between a buy and a sell whose prices cross. */
  ghost predicate TrueReport(orders: seq<Order>, r: Report) {
    match r
    case Execution(order, filled) => From(orders, order, filled)
    case Trade(taker, resting, matched) =>
      && From(orders, taker, matched) && From(orders, resting, matched)
      && taker.isBuy != resting.isBuy
      && (if taker.isBuy then taker.price >= resting.price else taker.price <= resting.price)
  }

  lemma TrueReportMore(orders: seq<Order>, order: Order, r: Report)
    requires TrueReport(orders, r)
    ensures TrueReport(orders + [order], r)
  {
    match r
    case Execution(x, filled) => FromMore(orders, [order], x, filled);
    case Trade(taker, resting, matched) =>
      FromMore(orders, [order], taker, matched);
      FromMore(orders, [order], resting, matched);
  }

  lemma FromSide(orders: seq<Order>, isBuy: bool, x: Order, gone: nat)
    requires From(BookRun(orders).book.Side(isBuy), x, gone)
    ensures From(orders, x, gone) && x.isBuy == isBuy
  {
    var side := BookRun(orders).book.Side(isBuy);
    RestingWasSubmitted(orders, isBuy);
    FromTwice(orders, side, x, gone);
    SideIsOneSided(orders, isBuy);
    var i :| 0 <= i < |side| && Identity(side[i]) == Identity(x) && x.quantity + gone <= side[i].quantity;
    assert Identity(side[i]).isBuy == side[i].isBuy && Identity(x).isBuy == x.isBuy;
  }

  lemma NewReportIsTrue(orders: seq<Order>, order: Order, r: Report)
    requires TrueOf(BookRun(orders).book.Side(!order.isBuy), order, r)
    ensures TrueReport(orders + [order], r)
  {
    match r
    case Execution(x, filled) =>
      if From([order], x, filled) {
        FromMore([order], orders, x, filled);
      } else {
        FromSide(orders, !order.isBuy, x, filled);
        FromMore(orders, [order], x, filled);
      }
    case Trade(taker, resting, matched) =>
      FromMore([order], orders, taker, matched);
      FromSide(orders, !order.isBuy, resting, matched);
      FromMore(orders, [order], resting, matched);
      assert Identity(taker).isBuy == taker.isBuy && Identity(order).isBuy == order.isBuy;
  }

  /** Every report of every run is true: see `TrueReport`. */
  lemma {:induction false} ReportsAreTrue(orders: seq<Order>, i: nat)
    requires i < |BookRun(orders).reports|
    ensures TrueReport(orders, BookRun(orders).reports[i])
  {
    var before, order := orders[..|orders| - 1], orders[|orders| - 1];
    var h := BookRun(before);
    LastOf(orders);
    if i < |h.reports| {
      ReportsAreTrue(before, i);
      TrueReportMore(before, order, h.reports[i]);
    } else {
      var opposite := h.book.Side(!order.isBuy);
      MatchReportsTruth(opposite, order, i - |h.reports|);
      NewReportIsTrue(before, order, Match(opposite, order).reports[i - |h.reports|]);
    }
  }

  // ---------- conservation ----------

  function Resting(sel: Selector, book: Book): nat {
    QuantityOf(sel, book.buys) + QuantityOf(sel, book.sells)
  }

  lemma RestingBySide(sel: Selector, book: Book, isBuy: bool)
    ensures Resting(sel, book) == QuantityOf(sel, book.Side(isBuy)) + QuantityOf(sel, book.Side(!isBuy))
  {
  }

  /** One submission keeps the chosen quantity: what rested and what came in is what rests and what was filled. */
  lemma SubmitConserves(sel: Selector, book: Book, order: Order)
    ensures var out := Submit(book, order);
            Resting(sel, book) + QuantityOf(sel, [order]) == Resting(sel, out.book) + Filled(sel, out.reports)
  {
    var out := Submit(book, order);
    SubmitSides(book, order);
    MatchConserves(sel, book.Side(!order.isBuy), order);
    RestedQuantity(sel, book, order);
    RestingBySide(sel, book, order.isBuy);
    RestingBySide(sel, out.book, order.isBuy);
    QuantityOfConcat(sel, book.Side(order.isBuy), out.rested);
    QuantityOfOne(sel, order);
  }

  lemma SubmitSides(book: Book, order: Order)
    ensures var sweep, out := Match(book.Side(!order.isBuy), order), Submit(book, order);
            && out.reports == sweep.reports && out.book.Side(!order.isBuy) == sweep.opposite
            && out.book.Side(order.isBuy) == book.Side(order.isBuy) + out.rested
  {
  }

  lemma QuantityOfOne(sel: Selector, order: Order)
    ensures QuantityOf(sel, [order]) == Chosen(sel, order)
  {
    assert [order][..0] == [];
  }

  /** What rests of an order is all that the loop left of it. */
  lemma RestedQuantity(sel: Selector, book: Book, order: Order)
    ensures QuantityOf(sel, Submit(book, order).rested) == Chosen(sel, Match(book.Side(!order.isBuy), order).incoming)
  {
    UnfilledMeetsNoCrossingHead(book.Side(!order.isBuy), order);
    QuantityOfOne(sel, Match(book.Side(!order.isBuy), order).incoming);
  }

  /**
   Whatever orders are chosen, over any run: the quantity submitted is the quantity still resting plus the
   quantity in execution reports.
   */
  lemma {:induction false} QuantityIsConserved(sel: Selector, orders: seq<Order>)
    ensures var h := BookRun(orders);
            QuantityOf(sel, orders)
            == QuantityOf(sel, h.book.buys) + QuantityOf(sel, h.book.sells) + Filled(sel, h.reports)
  {
    if orders != [] {
      var before, order := orders[..|orders| - 1], orders[|orders| - 1];
      QuantityIsConserved(sel, before);
      var h := BookRun(before);
      SubmitConserves(sel, h.book, order);
      ReportsConcat(sel, h.reports, Submit(h.book, order).reports);
    }
  }

  /** Execution reports on each side add up to the match reports. */
  lemma {:induction false} SideExecutionsAreTrades(orders: seq<Order>, isBuy: bool)
    ensures Filled((o: Order) => o.isBuy == isBuy, BookRun(orders).reports) == Matched(BookRun(orders).reports)
  {
    if orders != [] {
      var before, order := orders[..|orders| - 1], orders[|orders| - 1];
      SideExecutionsAreTrades(before, isBuy);
      SideIsOneSided(before, !order.isBuy);
      var h := BookRun(before);
      MatchReportsBalance(h.book.Side(!order.isBuy), order, isBuy);
      ReportsConcat((o: Order) => o.isBuy == isBuy, h.reports, Submit(h.book, order).reports);
    }
  }

  lemma {:induction false} FilledBySides(reports: seq<Report>)
    ensures Filled((o: Order) => true, reports)
            == Filled((o: Order) => o.isBuy == true, reports) + Filled((o: Order) => o.isBuy == false, reports)
  {
    if reports != [] {
      FilledBySides(reports[..|reports| - 1]);
    }
  }

  /** All execution reports together announce twice what the match reports do. */
  lemma ExecutionsAreTwiceTrades(orders: seq<Order>)
    ensures Filled((o: Order) => true, BookRun(orders).reports) == 2 * Matched(BookRun(orders).reports)
  {
    FilledBySides(BookRun(orders).reports);
    SideExecutionsAreTrades(orders, true);
    SideExecutionsAreTrades(orders, false);
  }

  lemma {:induction false} SideQuantity(side: seq<Order>, onSide: bool, isBuy: bool)
    requires AllOnSide(side, onSide)
    ensures QuantityOf((o: Order) => o.isBuy == isBuy, side)
            == if onSide == isBuy then QuantityOf((o: Order) => true, side) else 0
  {
    if side != [] {
      SideQuantity(side[..|side| - 1], onSide, isBuy);
    }
  }

  /** Submitted buy quantity is what rests on the buy side plus what was matched; likewise for sells. */
  lemma SidesAreConserved(orders: seq<Order>, isBuy: bool)
    ensures var h := BookRun(orders);
            QuantityOf((o: Order) => o.isBuy == isBuy, orders)
            == QuantityOf((o: Order) => true, h.book.Side(isBuy)) + Matched(h.reports)
  {
    var h := BookRun(orders);
    var sel := (o: Order) => o.isBuy == isBuy;
    QuantityIsConserved(sel, orders);
    SideExecutionsAreTrades(orders, isBuy);
    SideIsOneSided(orders, true);
    SideIsOneSided(orders, false);
    SideQuantity(h.book.buys, true, isBuy);
    SideQuantity(h.book.sells, false, isBuy);
  }

  lemma {:induction false} QuantityOfUniqueId(orders: seq<Order>, k: nat)
    requires k < |orders|
    requires forall i :: 0 <= i < |orders| && i != k ==> orders[i].id != orders[k].id
    ensures QuantityOf((o: Order) => o.id == orders[k].id, orders) == orders[k].quantity
  {
    var n, id := |orders| - 1, orders[k].id;
    if k < n {
      QuantityOfUniqueId(orders[..n], k);
    } else {
      NoQuantityWithoutId(orders[..n], id);
    }
  }

  lemma {:induction false} NoQuantityWithoutId(orders: seq<Order>, id: nat)
    requires forall i :: 0 <= i < |orders| ==> orders[i].id != id
    ensures QuantityOf((o: Order) => o.id == id, orders) == 0
  {
    if orders != [] {
      NoQuantityWithoutId(orders[..|orders| - 1], id);
    }
  }

  /** An order whose id no other order uses: its quantity is what rests under that id plus its own executions. */
  lemma OrderIsAccountedFor(orders: seq<Order>, k: nat)
    requires k < |orders|
    requires forall i :: 0 <= i < |orders| && i != k ==> orders[i].id != orders[k].id
    ensures var h, sel := BookRun(orders), (o: Order) => o.id == orders[k].id;
            orders[k].quantity
            == QuantityOf(sel, h.book.buys) + QuantityOf(sel, h.book.sells) + Filled(sel, h.reports)
  {
    var sel := (o: Order) => o.id == orders[k].id;
    QuantityIsConserved(sel, orders);
    QuantityOfUniqueId(orders, k);
  }

  // ---------- crossed books ----------

  /** A price of one side strictly misses a price of the other. */
  predicate Misses(isBuy: bool, own: int, other: int) {
    if isBuy then own < other else own > other
  }

  ghost predicate Separated(isBuy: bool, own: seq<Order>, other: seq<Order>) {
    forall i, j :: 0 <= i < |own| && 0 <= j < |other| ==> Misses(isBuy, own[i].price, other[j].price)
  }

  ghost predicate Uncrossed(book: Book) {
    Separated(true, book.buys, book.sells)
  }

  /** Some order behind the first non-crossing one would still cross. */
  ghost predicate HiddenCross(incoming: Order, opposite: seq<Order>) {
    exists j :: CrossingPrefix(incoming, opposite) < j < |opposite| && Crosses(incoming, opposite[j])
  }

  lemma {:induction false} TakeWholeOrders(queue: seq<Order>, n: nat)
    requires AllPositive(queue) && n <= |queue|
    ensures TakeUnits(queue, TotalQuantity(queue[..n])) == queue[n..]
  {
    if n > 0 {
      assert queue[..n][1..] == queue[1..][..n - 1];
      TakeWholeOrders(queue[1..], n - 1);
    }
  }

  /** Exactly when an order wants more than its crossing front offers does a remainder rest, and then that front is gone. */
  lemma RemainderRestsIff(book: Book, order: Order)
    requires AllPositive(book.buys) && AllPositive(book.sells)
    ensures var opposite, out := book.Side(!order.isBuy), Submit(book, order);
            && (out.rested != [] <==> order.quantity > ReachableQuantity(order, opposite))
            && (out.rested != [] ==>
                  && out.rested == [order.(quantity := order.quantity - ReachableQuantity(order, opposite))]
                  && out.book.Side(order.isBuy) == book.Side(order.isBuy) + out.rested
                  && out.book.Side(!order.isBuy) == opposite[CrossingPrefix(order, opposite)..])
            && (out.rested == [] ==> out.book.Side(order.isBuy) == book.Side(order.isBuy))
  {
    SubmitSides(book, order);
    RestedForm(book, order);
    if order.quantity > ReachableQuantity(order, book.Side(!order.isBuy)) {
      FrontIsGone(book.Side(!order.isBuy), order);
    }
  }

  lemma RestedForm(book: Book, order: Order)
    requires AllPositive(book.Side(!order.isBuy))
    ensures var reachable := ReachableQuantity(order, book.Side(!order.isBuy));
            Submit(book, order).rested
            == if order.quantity > reachable then [order.(quantity := order.quantity - reachable)] else []
  {
    MatchClosedForm(book.Side(!order.isBuy), order);
    UnfilledMeetsNoCrossingHead(book.Side(!order.isBuy), order);
  }

  lemma FrontIsGone(opposite: seq<Order>, order: Order)
    requires AllPositive(opposite) && order.quantity > ReachableQuantity(order, opposite)
    ensures Match(opposite, order).opposite == opposite[CrossingPrefix(order, opposite)..]
  {
    MatchClosedForm(opposite, order);
    TakeWholeOrders(opposite, CrossingPrefix(order, opposite));
  }

  /** Every price that a side still shows, it showed before. */
  lemma FrontTakenPrices(before: seq<Order>, after: seq<Order>)
    requires FrontTaken(before, after)
    ensures forall i :: 0 <= i < |after| ==> after[i].price == before[|before| - |after| + i].price
  {
    forall i | 0 <= i < |after|
      ensures after[i].price == before[|before| - |after| + i].price
    {
      assert Identity(after[i]).price == after[i].price;
      assert Identity(before[|before| - |after| + i]).price == before[|before| - |after| + i].price;
    }
  }

  lemma UncrossedFromEitherSide(book: Book, isBuy: bool)
    ensures Uncrossed(book) <==> Separated(isBuy, book.Side(isBuy), book.Side(!isBuy))
  {
    if Separated(isBuy, book.Side(isBuy), book.Side(!isBuy)) {
      forall i, j | 0 <= i < |book.buys| && 0 <= j < |book.sells|
        ensures Misses(true, book.buys[i].price, book.sells[j].price)
      {
        assert Misses(isBuy, book.Side(isBuy)[if isBuy then i else j].price, book.Side(!isBuy)[if isBuy then j else i].price);
      }
    }
  }

  /** A remainder joins one side while the other only loses orders: only the remainder can cross anything. */
  lemma SeparatedAfterJoin(isBuy: bool, own: seq<Order>, other: seq<Order>, other': seq<Order>, joined: seq<Order>)
    requires Separated(isBuy, own, other) && FrontTaken(other, other')
    ensures Separated(isBuy, own + joined, other') <==> Separated(isBuy, joined, other')
  {
    FrontTakenPrices(other, other');
    if Separated(isBuy, own + joined, other') {
      forall i, j | 0 <= i < |joined| && 0 <= j < |other'|
        ensures Misses(isBuy, joined[i].price, other'[j].price)
      {
        assert (own + joined)[|own| + i] == joined[i];
      }
    }
  }

  lemma RemainderSeparatedIff(order: Order, remainder: Order, opposite: seq<Order>)
    requires Identity(remainder) == Identity(order)
    ensures Separated(order.isBuy, [remainder], opposite[CrossingPrefix(order, opposite)..])
            <==> !HiddenCross(order, opposite)
  {
    var n := CrossingPrefix(order, opposite);
    assert remainder.price == Identity(remainder).price == order.price;
    if HiddenCross(order, opposite) {
      var j :| n < j < |opposite| && Crosses(order, opposite[j]);
      assert opposite[n..][j - n] == opposite[j];
      assert !Misses(order.isBuy, [remainder][0].price, opposite[n..][j - n].price);
    } else {
      forall i, j | 0 <= i < 1 && 0 <= j < |opposite[n..]|
        ensures Misses(order.isBuy, [remainder][i].price, opposite[n..][j].price)
      {
        assert opposite[n..][j] == opposite[n + j] && !Crosses(order, opposite[n + j]);
      }
    }
  }

  /**
   From an uncrossed book a submission leads to a crossed one exactly when it outruns its crossing front and
   another order that it crosses stands behind the one that stopped it.
   */
  lemma CrossedAfterIff(book: Book, order: Order)
    requires AllPositive(book.buys) && AllPositive(book.sells) && Uncrossed(book)
    ensures var opposite := book.Side(!order.isBuy);
            !Uncrossed(Submit(book, order).book)
            <==> order.quantity > ReachableQuantity(order, opposite) && HiddenCross(order, opposite)
  {
    var isBuy := order.isBuy;
    var opposite, out := book.Side(!isBuy), Submit(book, order);
    UncrossedFromEitherSide(book, isBuy);
    UncrossedFromEitherSide(out.book, isBuy);
    SideStep(book, order, isBuy);
    OppositeTakesFront(book, order);
    SeparatedAfterJoin(isBuy, book.Side(isBuy), opposite, out.book.Side(!isBuy), out.rested);
    RemainderRestsIff(book, order);
    RestedSeparatedIff(book, order);
  }

  predicate Better(isBuy: bool, a: int, b: int) {
    if isBuy then a > b else a < b
  }

  /** Prices along a side never improve. */
  ghost predicate BestFirst(side: seq<Order>, isBuy: bool) {
    forall i, j :: 0 <= i < j < |side| ==> !Better(isBuy, side[j].price, side[i].price)
  }

  lemma SortedHidesNothing(order: Order, opposite: seq<Order>)
    requires BestFirst(opposite, !order.isBuy)
    ensures !HiddenCross(order, opposite)
  {
  }

  lemma FrontTakenKeepsOrder(before: seq<Order>, after: seq<Order>, isBuy: bool)
    requires BestFirst(before, isBuy) && FrontTaken(before, after)
    ensures BestFirst(after, isBuy)
  {
    FrontTakenPrices(before, after);
  }

  /** A side sorted best price first stays so under the loop, and then nothing left on it crosses a rested remainder. */
  lemma SortedSideStaysSorted(book: Book, order: Order)
    requires AllPositive(book.buys) && AllPositive(book.sells)
    requires BestFirst(book.Side(!order.isBuy), !order.isBuy)
    ensures var out := Submit(book, order);
            && BestFirst(out.book.Side(!order.isBuy), !order.isBuy)
            && Separated(order.isBuy, out.rested, out.book.Side(!order.isBuy))
  {
    OppositeTakesFront(book, order);
    FrontTakenKeepsOrder(book.Side(!order.isBuy), Submit(book, order).book.Side(!order.isBuy), !order.isBuy);
    SortedHidesNothing(order, book.Side(!order.isBuy));
    RestedSeparatedIff(book, order);
  }

  /** The side matched against only loses orders from its front. */
  lemma OppositeTakesFront(book: Book, order: Order)
    requires AllPositive(book.Side(!order.isBuy))
    ensures FrontTaken(book.Side(!order.isBuy), Submit(book, order).book.Side(!order.isBuy))
  {
    SideStep(book, order, !order.isBuy);
    LoopTakesFront(book, order, !order.isBuy);
  }

  /** What rests of an order misses everything left on the other side, unless it hides a cross. */
  lemma RestedSeparatedIff(book: Book, order: Order)
    requires AllPositive(book.buys) && AllPositive(book.sells)
    ensures var out := Submit(book, order);
            Separated(order.isBuy, out.rested, out.book.Side(!order.isBuy))
            <==> (out.rested == [] || !HiddenCross(order, book.Side(!order.isBuy)))
  {
    RemainderRestsIff(book, order);
    if Submit(book, order).rested != [] {
      RemainderSeparatedIff(order, Submit(book, order).rested[0], book.Side(!order.isBuy));
    }
  }

  lemma BestFirstPrefix(before: seq<Order>, after: seq<Order>, isBuy: bool)
    requires before <= after && BestFirst(after, isBuy)
    ensures BestFirst(before, isBuy)
  {
  }

  lemma NonImprovingStep(h: History, order: Order)
    requires Faithful(h.restedBuys, h.book.buys, true) && Faithful(h.restedSells, h.book.sells, false)
    requires BestFirst(h.Rested(!order.isBuy), !order.isBuy) && Uncrossed(h.book)
    ensures Uncrossed(BookStep(h, order).book)
  {
    FrontTakenKeepsOrder(h.Rested(!order.isBuy), h.book.Side(!order.isBuy), !order.isBuy);
    SortedHidesNothing(order, h.book.Side(!order.isBuy));
    CrossedAfterIff(h.book, order);
  }

  /** Runs whose rested orders arrive at non-improving prices on each side never reach a crossed book. */
  lemma {:induction false} NonImprovingRunsStayUncrossed(orders: seq<Order>, k: nat)
    requires k <= |orders|
    requires BestFirst(BookRun(orders).restedBuys, true) && BestFirst(BookRun(orders).restedSells, false)
    ensures Uncrossed(BookRun(orders[..k]).book)
    decreases |orders|
  {
    if orders != [] {
      var n := |orders| - 1;
      var before, h := orders[..n], BookRun(orders[..n]);
      BestFirstPrefix(h.restedBuys, BookRun(orders).restedBuys, true);
      BestFirstPrefix(h.restedSells, BookRun(orders).restedSells, false);
      if k <= n {
        assert orders[..k] == before[..k];
        NonImprovingRunsStayUncrossed(before, k);
      } else {
        assert before[..n] == before && orders[..k] == orders;
        NonImprovingRunsStayUncrossed(before, n);
        SideIsSuffixOfRested(before, true);
        SideIsSuffixOfRested(before, false);
        NonImprovingStep(h, orders[n]);
      }
    }
  }

  /** Without that condition a book can end up crossed: sell at 10, sell at 5, buy at 7. */
  lemma CrossedBookWitness()
    ensures var orders := [Order(1, 10, 1, false, ""), Order(2, 5, 1, false, ""), Order(3, 7, 1, true, "")];
            && Uncrossed(BookRun(orders[..2]).book)
            && !Uncrossed(BookRun(orders).book)
  {
    var a, b, c := Order(1, 10, 1, false, ""), Order(2, 5, 1, false, ""), Order(3, 7, 1, true, "");
    var orders := [a, b, c];
    assert orders[..2][..1][..0] == [];
    assert orders[..2][..1] == [a] && orders[..2] == [a, b];
    assert BookRun(orders[..2][..1]).book == Book([], [a]);
    assert BookRun(orders[..2]).book == Book([], [a, b]);
    var last := BookRun(orders).book;
    assert last == Book([c], [a, b]);
    assert !Misses(true, last.buys[0].price, last.sells[1].price);
  }
}
