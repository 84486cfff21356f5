/** The matching rule of one book on values: what one submission does to the two sides, and what it reports. */
module Matching {

  datatype Order = Order(id: nat, price: int, quantity: nat, isBuy: bool, symbol: string)

  datatype Report =
    | Execution(order: Order, filled: nat)
    | Trade(incoming: Order, resting: Order, matched: nat)

  /** Both sides are kept in arrival order. */
  datatype Book = Book(buys: seq<Order>, sells: seq<Order>) {
    function Side(isBuy: bool): seq<Order> {
      if isBuy then buys else sells
    }

    function WithSide(isBuy: bool, side: seq<Order>): Book {
      if isBuy then Book(side, sells) else Book(buys, side)
    }
  }

  predicate Crosses(incoming: Order, resting: Order) {
    if incoming.isBuy then incoming.price >= resting.price else incoming.price <= resting.price
  }

  function Min(a: nat, b: nat): nat {
    if a <= b then a else b
  }

  /** The reports of one fill; both orders are shown after the fill. */
  function FillReports(incoming: Order, resting: Order, fill: nat): seq<Report> {
    [Execution(incoming, fill), Execution(resting, fill), Trade(incoming, resting, fill)]
  }

  /**
   The outcome of the loop over the opposite side. `released` counts the pool slots given back in the loop,
   and `finished` says that the incoming order was one of them.
   */
  datatype Sweep = Sweep(opposite: seq<Order>, incoming: Order, reports: seq<Report>, released: nat, finished: bool) {
    function After(earlier: seq<Report>, freed: nat): Sweep {
      Sweep(opposite, incoming, earlier + reports, freed + released, finished)
    }
  }

  function Cut(order: Order, fill: nat): Order
    requires fill <= order.quantity
  {
    order.(quantity := order.quantity - fill)
  }

  /** The opposite side after one fill against its front. */
  function AfterFill(opposite: seq<Order>, fill: nat): seq<Order>
    requires opposite != [] && fill <= opposite[0].quantity
  {
    if fill == opposite[0].quantity then opposite[1..] else [Cut(opposite[0], fill)] + opposite[1..]
  }

  /** The functional rule: consume the oldest orders from the front until exhausted or the front does not cross. */
  function Match(opposite: seq<Order>, incoming: Order): Sweep
    decreases |opposite|
  {
    if opposite == [] || !Crosses(incoming, opposite[0]) then
      Sweep(opposite, incoming, [], 0, false)
    else
      var fill := Min(incoming.quantity, opposite[0].quantity);
      var incoming', queue := Cut(incoming, fill), AfterFill(opposite, fill);
      (if incoming'.quantity == 0 then Sweep(queue, incoming', [], 1, true) else Match(queue, incoming'))
      .After(FillReports(incoming', Cut(opposite[0], fill), fill), if fill == opposite[0].quantity then 1 else 0)
  }

  /** One submission that got a pool slot. `freed` counts slots given back, `rested` is what joined the book. */
  datatype Outcome = Outcome(book: Book, reports: seq<Report>, freed: nat, rested: seq<Order>)

  function Submit(book: Book, order: Order): Outcome {
    var sweep := Match(book.Side(!order.isBuy), order);
    var book' := book.WithSide(!order.isBuy, sweep.opposite);
    if sweep.finished || sweep.incoming.quantity == 0 then
      Outcome(book', sweep.reports, sweep.released, [])
    else
      Outcome(book'.WithSide(order.isBuy, book'.Side(order.isBuy) + [sweep.incoming]),
              sweep.reports, sweep.released, [sweep.incoming])
  }

  // ---------- what an order keeps ----------

  /** Everything about an order but its quantity, as an order of quantity zero. */
  function Identity(order: Order): Order {
    order.(quantity := 0)
  }

  ghost predicate AllPositive(orders: seq<Order>) {
    forall i :: 0 <= i < |orders| ==> orders[i].quantity > 0
  }

  function TotalQuantity(orders: seq<Order>): nat {
    if orders == [] then 0 else orders[0].quantity + TotalQuantity(orders[1..])
  }

  // ---------- the rule in closed form ----------

  /** How many orders at the front cross the incoming price before the first that does not. */
  function CrossingPrefix(incoming: Order, opposite: seq<Order>): (n: nat)
    ensures n <= |opposite|
    ensures forall i :: 0 <= i < n ==> Crosses(incoming, opposite[i])
    ensures n < |opposite| ==> !Crosses(incoming, opposite[n])
  {
    if opposite == [] || !Crosses(incoming, opposite[0]) then 0 else 1 + CrossingPrefix(incoming, opposite[1..])
  }

  /** A queue after `quantity` units are taken from its front, emptied orders leaving it. */
  function TakeUnits(queue: seq<Order>, quantity: nat): seq<Order> {
    if queue == [] || quantity == 0 then queue
    else if queue[0].quantity <= quantity then TakeUnits(queue[1..], quantity - queue[0].quantity)
    else [queue[0].(quantity := queue[0].quantity - quantity)] + queue[1..]
  }

  function ReachableQuantity(incoming: Order, opposite: seq<Order>): nat {
    TotalQuantity(opposite[..CrossingPrefix(incoming, opposite)])
  }

  /**
   Against positive resting orders the loop trades exactly as much as the order wants and the crossing front
   offers, and takes it from the front of the queue.
   */
  lemma {:induction false} MatchClosedForm(opposite: seq<Order>, incoming: Order)
    requires AllPositive(opposite)
    ensures var traded := Min(incoming.quantity, ReachableQuantity(incoming, opposite));
            && Match(opposite, incoming).opposite == TakeUnits(opposite, traded)
            && Match(opposite, incoming).incoming == incoming.(quantity := incoming.quantity - traded)
  {
    if opposite != [] && Crosses(incoming, opposite[0]) {
      var head, rest := opposite[0], opposite[1..];
      if head.quantity < incoming.quantity {
        var incoming' := Cut(incoming, head.quantity);
        ReachableUnfolds(incoming, opposite);
        PrefixIgnoresQuantity(incoming, incoming', rest);
        MatchClosedForm(rest, incoming');
        MatchGoesOn(opposite, incoming);
        TakeUnitsHead(opposite, Min(incoming'.quantity, ReachableQuantity(incoming', rest)));
      } else {
        LastFillClosedForm(opposite, incoming);
      }
    }
  }

  lemma TakeUnitsHead(queue: seq<Order>, more: nat)
    requires queue != [] && queue[0].quantity > 0
    ensures TakeUnits(queue, queue[0].quantity + more) == TakeUnits(queue[1..], more)
  {
  }

  /** A fill that leaves the order wanting more takes the whole resting order. */
  lemma MatchGoesOn(opposite: seq<Order>, incoming: Order)
    requires opposite != [] && Crosses(incoming, opposite[0]) && opposite[0].quantity < incoming.quantity
    ensures var sweep, rest := Match(opposite, incoming), Match(opposite[1..], Cut(incoming, opposite[0].quantity));
            sweep.opposite == rest.opposite && sweep.incoming == rest.incoming && |sweep.reports| == 3 + |rest.reports|
  {
  }

  /** The fill that exhausts the order. */
  lemma LastFillClosedForm(opposite: seq<Order>, incoming: Order)
    requires opposite != [] && Crosses(incoming, opposite[0])
    requires 0 < opposite[0].quantity && incoming.quantity <= opposite[0].quantity
    ensures Min(incoming.quantity, ReachableQuantity(incoming, opposite)) == incoming.quantity
    ensures Match(opposite, incoming).opposite == TakeUnits(opposite, incoming.quantity)
    ensures Match(opposite, incoming).incoming == incoming.(quantity := 0)
  {
    ReachableUnfolds(incoming, opposite);
    if incoming.quantity == 0 {
      assert [Cut(opposite[0], 0)] + opposite[1..] == opposite;
    }
  }

  lemma ReachableUnfolds(incoming: Order, opposite: seq<Order>)
    requires opposite != [] && Crosses(incoming, opposite[0])
    ensures ReachableQuantity(incoming, opposite) == opposite[0].quantity + ReachableQuantity(incoming, opposite[1..])
  {
    TotalQuantityUnfolds(opposite, CrossingPrefix(incoming, opposite));
  }

  /** The reports of a match are those of its first fill and of the match that goes on behind it. */
  lemma MatchReportsUnfold(opposite: seq<Order>, incoming: Order)
    requires Match(opposite, incoming).reports != []
    ensures opposite != [] && Crosses(incoming, opposite[0])
    ensures var fill := Min(incoming.quantity, opposite[0].quantity);
            var first := FillReports(Cut(incoming, fill), Cut(opposite[0], fill), fill);
            && Match(opposite, incoming).reports
               == first + (if fill == incoming.quantity then [] else Match(opposite[1..], Cut(incoming, fill)).reports)
            && Match(opposite, incoming).reports[..3] == first
            && (fill < incoming.quantity ==> fill == opposite[0].quantity)
  {
  }

  lemma TotalQuantityUnfolds(orders: seq<Order>, k: nat)
    requires 0 < k <= |orders|
    ensures TotalQuantity(orders[..k]) == orders[0].quantity + TotalQuantity(orders[1..][..k - 1])
  {
    assert orders[..k][1..] == orders[1..][..k - 1];
  }

  /**
   The callbacks of a match come in threes, and the k-th three tell of a fill between the order, as the earlier
   fills left it, and the k-th resting order: an execution report for the order, one for the resting order, and the
   match report with the order as the incoming one, both orders shown after the fill.
   */
  lemma ReportsInClosedForm(opposite: seq<Order>, incoming: Order, k: nat)
    requires 3 * k < |Match(opposite, incoming).reports|
    ensures 3 * k + 3 <= |Match(opposite, incoming).reports|
    ensures k < |opposite| && TotalQuantity(opposite[..k]) <= incoming.quantity
    ensures var reports, wanted := Match(opposite, incoming).reports, incoming.quantity - TotalQuantity(opposite[..k]);
            var fill := if wanted <= opposite[k].quantity then wanted else opposite[k].quantity;
            var order, resting := incoming.(quantity := wanted - fill), opposite[k].(quantity := opposite[k].quantity - fill);
            && reports[3 * k] == Execution(order, fill)
            && reports[3 * k + 1] == Execution(resting, fill)
            && reports[3 * k + 2] == Trade(order, resting, fill)
  {
    ReportsTell(opposite, incoming, k);
  }

  /** Three reports tell of a fill against the k-th resting order. */
  ghost predicate TellsOf(reports: seq<Report>, opposite: seq<Order>, incoming: Order, k: nat) {
    && 3 * k + 3 <= |reports| && k < |opposite| && TotalQuantity(opposite[..k]) <= incoming.quantity
    && var wanted := incoming.quantity - TotalQuantity(opposite[..k]);
       var fill := if wanted <= opposite[k].quantity then wanted else opposite[k].quantity;
       var order, resting := incoming.(quantity := wanted - fill), opposite[k].(quantity := opposite[k].quantity - fill);
       && reports[3 * k] == Execution(order, fill)
       && reports[3 * k + 1] == Execution(resting, fill)
       && reports[3 * k + 2] == Trade(order, resting, fill)
  }

  lemma {:induction false} ReportsTell(opposite: seq<Order>, incoming: Order, k: nat)
    requires 3 * k < |Match(opposite, incoming).reports|
    ensures TellsOf(Match(opposite, incoming).reports, opposite, incoming, k)
    decreases k
  {
    if k == 0 {
      FirstThree(opposite, incoming);
    } else {
      ReportsBehind(opposite, incoming);
      var incoming' := Cut(incoming, opposite[0].quantity);
      ReportsTell(opposite[1..], incoming', k - 1);
      ThreeBehind(Match(opposite, incoming).reports, Match(opposite[1..], incoming').reports, opposite, incoming, k);
    }
  }

  lemma FirstThree(opposite: seq<Order>, incoming: Order)
    requires Match(opposite, incoming).reports != []
    ensures TellsOf(Match(opposite, incoming).reports, opposite, incoming, 0)
  {
    MatchReportsUnfold(opposite, incoming);
    NothingInFront(opposite);
  }

  lemma NothingInFront(opposite: seq<Order>)
    ensures TotalQuantity(opposite[..0]) == 0
  {
    assert opposite[..0] == [];
  }

  lemma ThreeBehind(reports: seq<Report>, behind: seq<Report>, opposite: seq<Order>, incoming: Order, k: nat)
    requires opposite != [] && opposite[0].quantity <= incoming.quantity && k > 0
    requires |reports| == 3 + |behind| && forall i :: 0 <= i < |behind| ==> reports[3 + i] == behind[i]
    requires TellsOf(behind, opposite[1..], Cut(incoming, opposite[0].quantity), k - 1)
    ensures TellsOf(reports, opposite, incoming, k)
  {
    TotalQuantityUnfolds(opposite, k);
    var j := 3 * (k - 1);
    assert reports[3 + j] == behind[j] && reports[3 + (j + 1)] == behind[j + 1] && reports[3 + (j + 2)] == behind[j + 2];
  }

  /** Later threes are those of the match behind the first resting order. */
  lemma ReportsBehind(opposite: seq<Order>, incoming: Order)
    requires 3 < |Match(opposite, incoming).reports|
    ensures opposite != [] && opposite[0].quantity < incoming.quantity
    ensures var reports, behind := Match(opposite, incoming).reports,
                                   Match(opposite[1..], Cut(incoming, opposite[0].quantity)).reports;
            |reports| == 3 + |behind| && forall i :: 0 <= i < |behind| ==> reports[3 + i] == behind[i]
  {
    MatchReportsUnfold(opposite, incoming);
  }

  /** There is a k-th three exactly when the first k + 1 resting orders cross and the first k leave the order wanting more. */
  lemma {:induction false} ReportCount(opposite: seq<Order>, incoming: Order, k: nat)
    ensures |Match(opposite, incoming).reports| % 3 == 0
    ensures 3 * k < |Match(opposite, incoming).reports|
            <==> k < CrossingPrefix(incoming, opposite) && (k == 0 || TotalQuantity(opposite[..k]) < incoming.quantity)
    decreases |opposite|
  {
    if opposite != [] && Crosses(incoming, opposite[0]) {
      if opposite[0].quantity < incoming.quantity {
        var incoming' := Cut(incoming, opposite[0].quantity);
        MatchGoesOn(opposite, incoming);
        PrefixIgnoresQuantity(incoming, incoming', opposite[1..]);
        ReportCount(opposite[1..], incoming', if k > 0 then k - 1 else 0);
        if k > 0 && k <= |opposite| {
          TotalQuantityUnfolds(opposite, k);
        }
      } else if 0 < k <= |opposite| {
        TotalQuantityUnfolds(opposite, k);
      }
    }
  }

  /** The order comes from this list: everything but its quantity is some member's, and so much of that is gone at least. */
  ghost predicate From(orders: seq<Order>, x: Order, gone: nat) {
    exists i :: 0 <= i < |orders| && Identity(orders[i]) == Identity(x) && x.quantity + gone <= orders[i].quantity
  }

  /** A report of this match: executions of the two orders of a fill, and a trade only between orders whose prices cross. */
  ghost predicate TrueOf(opposite: seq<Order>, incoming: Order, r: Report) {
    match r
    case Execution(order, filled) => From([incoming], order, filled) || From(opposite, order, filled)
    case Trade(taker, resting, matched) =>
      && From([incoming], taker, matched) && From(opposite, resting, matched)
      && (if taker.isBuy then taker.price >= resting.price else taker.price <= resting.price)
  }

  lemma CutComesFrom(orders: seq<Order>, k: nat, wanted: nat, fill: nat)
    requires k < |orders| && fill <= wanted <= orders[k].quantity
    ensures From(orders, orders[k].(quantity := wanted - fill), fill)
  {
  }

  lemma FromOne(order: Order, x: Order, gone: nat)
    requires Identity(order) == Identity(x) && x.quantity + gone <= order.quantity
    ensures From([order], x, gone)
  {
    assert [order][0] == order;
  }

  lemma FillIsTrue(opposite: seq<Order>, incoming: Order, k: nat, wanted: nat, fill: nat)
    requires k < |opposite| && Crosses(incoming, opposite[k])
    requires fill <= wanted <= incoming.quantity && fill <= opposite[k].quantity
    ensures var order, resting := incoming.(quantity := wanted - fill), opposite[k].(quantity := opposite[k].quantity - fill);
            && TrueOf(opposite, incoming, Execution(order, fill))
            && TrueOf(opposite, incoming, Execution(resting, fill))
            && TrueOf(opposite, incoming, Trade(order, resting, fill))
  {
    FromOne(incoming, incoming.(quantity := wanted - fill), fill);
    CutComesFrom(opposite, k, opposite[k].quantity, fill);
  }

  /** Everything a match reports is true of the order and the resting orders it met. */
  lemma MatchReportsTruth(opposite: seq<Order>, incoming: Order, i: nat)
    requires i < |Match(opposite, incoming).reports|
    ensures TrueOf(opposite, incoming, Match(opposite, incoming).reports[i])
  {
    var k := i / 3;
    ReportsTell(opposite, incoming, k);
    ReportCount(opposite, incoming, k);
    ToldIsTrue(Match(opposite, incoming).reports, opposite, incoming, k, i);
  }

  lemma ToldIsTrue(reports: seq<Report>, opposite: seq<Order>, incoming: Order, k: nat, i: nat)
    requires TellsOf(reports, opposite, incoming, k) && Crosses(incoming, opposite[k]) && 3 * k <= i < 3 * k + 3
    ensures TrueOf(opposite, incoming, reports[i])
  {
    var wanted := incoming.quantity - TotalQuantity(opposite[..k]);
    FillIsTrue(opposite, incoming, k, wanted, if wanted <= opposite[k].quantity then wanted else opposite[k].quantity);
    assert i == 3 * k || i == 3 * k + 1 || i == 3 * k + 2;
  }

  lemma {:induction false} PrefixIgnoresQuantity(a: Order, b: Order, opposite: seq<Order>)
    requires a.price == b.price && a.isBuy == b.isBuy
    ensures CrossingPrefix(a, opposite) == CrossingPrefix(b, opposite)
    ensures ReachableQuantity(a, opposite) == ReachableQuantity(b, opposite)
  {
    if opposite != [] && Crosses(a, opposite[0]) {
      PrefixIgnoresQuantity(a, b, opposite[1..]);
    }
  }

  /** Orders leave the queue from the front only; the survivors keep their places and, but for the first, their quantities. */
  ghost predicate FrontTaken(before: seq<Order>, after: seq<Order>) {
    && |after| <= |before|
    && var gone := |before| - |after|;
       && (forall i :: 0 < i < |after| ==> after[i] == before[gone + i])
       && (after != [] ==> Identity(after[0]) == Identity(before[gone]) && 0 < after[0].quantity <= before[gone].quantity)
  }

  lemma FrontTakenFromMore(before: seq<Order>, after: seq<Order>)
    requires before != [] && FrontTaken(before[1..], after)
    ensures FrontTaken(before, after)
  {
  }

  lemma {:induction false} TakeUnitsTakesFront(queue: seq<Order>, quantity: nat)
    requires AllPositive(queue)
    ensures FrontTaken(queue, TakeUnits(queue, quantity)) && AllPositive(TakeUnits(queue, quantity))
  {
    if queue != [] && 0 < queue[0].quantity <= quantity {
      TakeUnitsTakesFront(queue[1..], quantity - queue[0].quantity);
      FrontTakenFromMore(queue, TakeUnits(queue, quantity));
    }
  }

  lemma MatchTakesFront(opposite: seq<Order>, incoming: Order)
    requires AllPositive(opposite)
    ensures FrontTaken(opposite, Match(opposite, incoming).opposite)
    ensures AllPositive(Match(opposite, incoming).opposite)
  {
    MatchClosedForm(opposite, incoming);
    TakeUnitsTakesFront(opposite, Min(incoming.quantity, ReachableQuantity(incoming, opposite)));
  }

  /** When the loop ends without exhausting the order, the front that is left does not cross it. */
  lemma {:induction false} UnfilledMeetsNoCrossingHead(opposite: seq<Order>, incoming: Order)
    ensures var sweep := Match(opposite, incoming);
            && (!sweep.finished && sweep.opposite != [] ==> !Crosses(incoming, sweep.opposite[0]))
            && (sweep.finished ==> sweep.incoming.quantity == 0)
            && Identity(sweep.incoming) == Identity(incoming) && sweep.incoming.quantity <= incoming.quantity
            && (!sweep.finished && incoming.quantity > 0 ==> sweep.incoming.quantity > 0)
  {
    if opposite != [] && Crosses(incoming, opposite[0]) {
      var fill := Min(incoming.quantity, opposite[0].quantity);
      var incoming' := incoming.(quantity := incoming.quantity - fill);
      if opposite[0].quantity == fill && incoming'.quantity > 0 {
        UnfilledMeetsNoCrossingHead(opposite[1..], incoming');
      }
    }
  }

  /** Slots given back: one for each order that left the queue, and one for the incoming order if the loop finished it. */
  lemma {:induction false} ReleasedSlots(opposite: seq<Order>, incoming: Order)
    ensures var sweep := Match(opposite, incoming);
            sweep.released + |sweep.opposite| == |opposite| + (if sweep.finished then 1 else 0)
  {
    if opposite != [] && Crosses(incoming, opposite[0]) {
      var fill := Min(incoming.quantity, opposite[0].quantity);
      var incoming' := incoming.(quantity := incoming.quantity - fill);
      if opposite[0].quantity == fill && incoming'.quantity > 0 {
        ReleasedSlots(opposite[1..], incoming');
      }
    }
  }

  function Size(book: Book): nat {
    |book.buys| + |book.sells|
  }

  /**
   A submission keeps slots and resting orders in step, one slot taken for it included, exactly when its quantity
   is positive or it meets a crossing head: otherwise its slot is neither rested nor given back.
   */
  lemma SlotsInStepIff(book: Book, order: Order)
    ensures var out := Submit(book, order);
            out.freed + Size(out.book) == Size(book) + 1
            <==> order.quantity > 0 || CrossingPrefix(order, book.Side(!order.isBuy)) > 0
    ensures Submit(book, order).freed + Size(Submit(book, order).book) <= Size(book) + 1
  {
    var opposite := book.Side(!order.isBuy);
    ReleasedSlots(opposite, order);
    UnfilledMeetsNoCrossingHead(opposite, order);
  }

  // ---------- conservation ----------

  /** A choice of orders that looks at everything but the quantity. */
  type Selector = Order -> bool

  function Chosen(sel: Selector, order: Order): nat {
    if sel(Identity(order)) then order.quantity else 0
  }

  function QuantityOf(sel: Selector, orders: seq<Order>): nat {
    if orders == [] then 0
    else QuantityOf(sel, orders[..|orders| - 1]) + Chosen(sel, orders[|orders| - 1])
  }

  /** The quantity that execution reports say was filled for the chosen orders. */
  function Filled(sel: Selector, reports: seq<Report>): nat {
    if reports == [] then 0
    else
      var report := reports[|reports| - 1];
      Filled(sel, reports[..|reports| - 1])
      + (if report.Execution? && sel(Identity(report.order)) then report.filled else 0)
  }

  /** The quantity that match reports announce. */
  function Matched(reports: seq<Report>): nat {
    if reports == [] then 0
    else
      var report := reports[|reports| - 1];
      Matched(reports[..|reports| - 1]) + (if report.Trade? then report.matched else 0)
  }

  lemma {:induction false} QuantityOfConcat(sel: Selector, a: seq<Order>, b: seq<Order>)
    ensures QuantityOf(sel, a + b) == QuantityOf(sel, a) + QuantityOf(sel, b)
  {
    if b == [] {
      assert a + b == a;
    } else {
      assert (a + b)[..|a + b| - 1] == a + b[..|b| - 1];
      QuantityOfConcat(sel, a, b[..|b| - 1]);
    }
  }

  lemma QuantityOfHead(sel: Selector, orders: seq<Order>)
    requires orders != []
    ensures QuantityOf(sel, orders) == Chosen(sel, orders[0]) + QuantityOf(sel, orders[1..])
  {
    assert orders == [orders[0]] + orders[1..];
    QuantityOfConcat(sel, [orders[0]], orders[1..]);
    assert [orders[0]][..0] == [];
  }

  lemma {:induction false} ReportsConcat(sel: Selector, a: seq<Report>, b: seq<Report>)
    ensures Filled(sel, a + b) == Filled(sel, a) + Filled(sel, b)
    ensures Matched(a + b) == Matched(a) + Matched(b)
  {
    if b == [] {
      assert a + b == a;
    } else {
      assert (a + b)[..|a + b| - 1] == a + b[..|b| - 1];
      ReportsConcat(sel, a, b[..|b| - 1]);
    }
  }

  lemma FillReportsCount(sel: Selector, incoming: Order, resting: Order, fill: nat)
    ensures Matched(FillReports(incoming, resting, fill)) == fill
    ensures Filled(sel, FillReports(incoming, resting, fill))
            == (if sel(Identity(incoming)) then fill else 0) + (if sel(Identity(resting)) then fill else 0)
  {
    var reports := FillReports(incoming, resting, fill);
    assert reports[..2] == [Execution(incoming, fill), Execution(resting, fill)];
    assert reports[..2][..1] == [Execution(incoming, fill)];
    assert reports[..2][..1][..0] == [];
    assert Matched(reports[..2][..1]) == 0 && Matched(reports[..2]) == 0;
    assert Filled(sel, reports[..2][..1]) == if sel(Identity(incoming)) then fill else 0;
  }

  /** One fill: what the queue and the order lose is what its reports announce. */
  lemma FillConserves(sel: Selector, opposite: seq<Order>, incoming: Order)
    requires opposite != []
    ensures var fill := Min(incoming.quantity, opposite[0].quantity);
            QuantityOf(sel, opposite) + Chosen(sel, incoming)
            == QuantityOf(sel, AfterFill(opposite, fill)) + Chosen(sel, Cut(incoming, fill))
               + Filled(sel, FillReports(Cut(incoming, fill), Cut(opposite[0], fill), fill))
  {
    var fill := Min(incoming.quantity, opposite[0].quantity);
    QuantityOfHead(sel, opposite);
    if AfterFill(opposite, fill) != opposite[1..] {
      QuantityOfHead(sel, AfterFill(opposite, fill));
    }
    FillReportsCount(sel, Cut(incoming, fill), Cut(opposite[0], fill), fill);
  }

  /** Whatever orders are chosen, the loop moves their quantity into execution reports and nowhere else. */
  lemma {:induction false} MatchConserves(sel: Selector, opposite: seq<Order>, incoming: Order)
    ensures var sweep := Match(opposite, incoming);
            QuantityOf(sel, opposite) + Chosen(sel, incoming)
            == QuantityOf(sel, sweep.opposite) + Chosen(sel, sweep.incoming) + Filled(sel, sweep.reports)
  {
    if opposite != [] && Crosses(incoming, opposite[0]) {
      var fill := Min(incoming.quantity, opposite[0].quantity);
      var incoming', queue := Cut(incoming, fill), AfterFill(opposite, fill);
      var reports := FillReports(incoming', Cut(opposite[0], fill), fill);
      FillConserves(sel, opposite, incoming);
      if incoming'.quantity == 0 {
        assert reports + [] == reports;
      } else {
        MatchConserves(sel, queue, incoming');
        ReportsConcat(sel, reports, Match(queue, incoming').reports);
      }
    }
  }

  ghost predicate AllOnSide(orders: seq<Order>, isBuy: bool) {
    forall i :: 0 <= i < |orders| ==> orders[i].isBuy == isBuy
  }

  /** Every match report has one execution report on each side, for the same quantity. */
  lemma {:induction false} MatchReportsBalance(opposite: seq<Order>, incoming: Order, isBuy: bool)
    requires AllOnSide(opposite, !incoming.isBuy)
    ensures Filled((o: Order) => o.isBuy == isBuy, Match(opposite, incoming).reports)
            == Matched(Match(opposite, incoming).reports)
    ensures AllOnSide(Match(opposite, incoming).opposite, !incoming.isBuy)
  {
    var sel := (o: Order) => o.isBuy == isBuy;
    if opposite != [] && Crosses(incoming, opposite[0]) {
      var fill := Min(incoming.quantity, opposite[0].quantity);
      var incoming', resting', queue := Cut(incoming, fill), Cut(opposite[0], fill), AfterFill(opposite, fill);
      var reports := FillReports(incoming', resting', fill);
      FillReportsCount(sel, incoming', resting', fill);
      if incoming'.quantity == 0 {
        assert reports + [] == reports;
      } else {
        MatchReportsBalance(queue, incoming', isBuy);
        ReportsConcat(sel, reports, Match(queue, incoming').reports);
      }
    }
  }
}
