/**
 Runs of one side of the market-data book: upserts and removals in any order. The reference remembers every live
 order; the book forgets what it cuts. The results say when the book nevertheless shows the best of all.
 */
module FeedRuns {
  import opened FeedBooks

  datatype Event = Upsert(order: Order) | Removal(id: nat) {
    function Id(): nat {
      if Upsert? then order.id else id
    }
  }

  /** One event on a list that forgets nothing. */
  function After(all: seq<Order>, e: Event): seq<Order> {
    match e
    case Upsert(order) => Place(all, order)
    case Removal(id) => DropId(all, id)
  }

  /** The reference: every order upserted and not removed since, in its last version. */
  function Live(log: seq<Event>): seq<Order> {
    if log == [] then [] else After(Live(log[..|log| - 1]), log[|log| - 1])
  }

  /** What one event may make of the book, whatever the sort does with equal prices. */
  ghost predicate Changed(side: bool, depth: nat, book: seq<Order>, e: Event, book': seq<Order>) {
    match e
    case Upsert(order) => Upserted(side, depth, book, order, book')
    case Removal(id) => book' == DropId(book, id)
  }

  /** The books that the events of the log lead through. */
  ghost predicate Run(side: bool, depth: nat, log: seq<Event>, books: seq<seq<Order>>) {
    && |books| == |log| + 1 && books[0] == []
    && (forall k {:trigger log[k]} :: 0 <= k < |log| ==> Changed(side, depth, books[k], log[k], books[k + 1]))
  }

  lemma RunOneMore(side: bool, depth: nat, log: seq<Event>, books: seq<seq<Order>>, e: Event, book: seq<Order>)
    requires Run(side, depth, log, books) && Changed(side, depth, books[|log|], e, book)
    ensures Run(side, depth, log + [e], books + [book])
  {
    var log', books' := log + [e], books + [book];
    forall k | 0 <= k < |log'|
      ensures Changed(side, depth, books'[k], log'[k], books'[k + 1])
    {
      if k < |log| {
        assert log'[k] == log[k];
      }
    }
  }

  // ---------- the reference ----------

  /** The order was upserted, and its id is not named again afterwards. */
  ghost predicate IsLastVersion(log: seq<Event>, x: Order) {
    exists k :: 0 <= k < |log| && log[k] == Upsert(x) && forall j :: k < j < |log| ==> log[j].Id() != x.id
  }

  lemma LastVersionOneMore(log: seq<Event>, e: Event, x: Order)
    ensures IsLastVersion(log + [e], x) <==> e == Upsert(x) || (IsLastVersion(log, x) && x.id != e.Id())
  {
    var more := log + [e];
    assert more[|log|] == e;
    if IsLastVersion(log, x) && x.id != e.Id() {
      var k :| 0 <= k < |log| && log[k] == Upsert(x) && forall j :: k < j < |log| ==> log[j].Id() != x.id;
      assert more[k] == Upsert(x);
    }
    if IsLastVersion(more, x) && e != Upsert(x) {
      var k :| 0 <= k < |more| && more[k] == Upsert(x) && forall j :: k < j < |more| ==> more[j].Id() != x.id;
      assert k < |log| && log[k] == Upsert(x);
      assert forall j :: k < j < |log| ==> log[j] == more[j];
    }
  }

  lemma AfterMembers(all: seq<Order>, e: Event)
    requires UniqueIds(all)
    ensures UniqueIds(After(all, e))
    ensures forall x :: x in After(all, e) <==> e == Upsert(x) || (x in all && x.id != e.Id())
  {
    match e
    case Upsert(order) =>
      PlaceMembers(all, order);
    case Removal(id) =>
      DropIdMembers(all, id);
      DropIdUnique(all, id);
  }

  /** The reference holds exactly the orders whose id was last named by their own upsert. */
  lemma {:induction false} LiveIsLastVersions(log: seq<Event>)
    ensures UniqueIds(Live(log))
    ensures forall x :: x in Live(log) <==> IsLastVersion(log, x)
  {
    if log != [] {
      var before, e := log[..|log| - 1], log[|log| - 1];
      LiveIsLastVersions(before);
      AfterMembers(Live(before), e);
      assert log == before + [e];
      forall x
        ensures x in Live(log) <==> IsLastVersion(log, x)
      {
        LastVersionOneMore(before, e, x);
      }
    }
  }

  lemma LiveOneMore(log: seq<Event>, e: Event)
    ensures Live(log + [e]) == After(Live(log), e)
  {
    assert (log + [e])[..|log|] == log;
  }

  lemma LivePrefix(log: seq<Event>, k: nat)
    requires k < |log|
    ensures Live(log[..k + 1]) == After(Live(log[..k]), log[k])
  {
    assert log[..k + 1] == log[..k] + [log[k]];
    LiveOneMore(log[..k], log[k]);
  }

  // ---------- what every book keeps ----------

  ghost predicate Tidy(side: bool, depth: nat, book: seq<Order>) {
    Sorted(side, book) && UniqueIds(book) && |book| <= depth
  }

  lemma ChangedIsTidy(side: bool, depth: nat, book: seq<Order>, e: Event, book': seq<Order>)
    requires Tidy(side, depth, book) && Changed(side, depth, book, e, book')
    ensures Tidy(side, depth, book')
  {
    match e
    case Upsert(order) =>
      UpsertedIsTidy(side, depth, book, order, book');
    case Removal(id) =>
      DropIdKeepsOrder(side, book, id);
      DropIdMembers(book, id);
      DropIdUnique(book, id);
  }

  /** Every reachable book is sorted, has unique ids and respects the depth. */
  lemma {:induction false} ReachableBooksAreTidy(side: bool, depth: nat, log: seq<Event>, books: seq<seq<Order>>, k: nat)
    requires Run(side, depth, log, books) && k <= |log|
    ensures Tidy(side, depth, books[k])
  {
    if k > 0 {
      ReachableBooksAreTidy(side, depth, log, books, k - 1);
      ChangedIsTidy(side, depth, books[k - 1], log[k - 1], books[k]);
    }
  }

  // ---------- when the book shows the best ----------

  /**
   The condition on one event, in terms of what is shown and what is live before it: an upsert of a shown order
   does not fall behind a live order that is not shown; a removal takes nothing shown unless everything is shown.
   */
  ghost predicate Harmless(side: bool, book: seq<Order>, all: seq<Order>, e: Event) {
    Find(book, e.Id()) < |book| ==>
      match e
      case Upsert(order) => forall x :: x in all && x !in book ==> NoWorse(side, order.price, x.price)
      case Removal(_) => forall x :: x in all ==> x in book
  }

  lemma HiddenIsTheRest(side: bool, depth: nat, book: seq<Order>, hidden: seq<Order>, all: seq<Order>)
    requires ShowsBest(side, depth, book, hidden, all)
    ensures forall x :: x in hidden <==> x in all && x !in book
    ensures hidden == [] <==> forall x :: x in all ==> x in book
  {
    UniqueConcat(book, hidden);
    if hidden != [] {
      assert hidden[0] in hidden;
    }
  }

  /** One event keeps the book the best of the live orders exactly when it is harmless. */
  lemma EventKeepsBestIff(side: bool, depth: nat, book: seq<Order>, all: seq<Order>, e: Event, book': seq<Order>)
    requires IsBest(side, depth, book, all) && Changed(side, depth, book, e, book')
    ensures IsBest(side, depth, book', After(all, e)) <==> Harmless(side, book, all, e)
  {
    var hidden :| ShowsBest(side, depth, book, hidden, all);
    HiddenIsTheRest(side, depth, book, hidden, all);
    match e
    case Upsert(order) =>
      UpsertKeepsBestIff(side, depth, book, hidden, all, order, book');
    case Removal(id) =>
      RemovalKeepsBestIff(side, depth, book, hidden, all, id);
  }

  ghost predicate BestAt(side: bool, depth: nat, log: seq<Event>, books: seq<seq<Order>>, k: nat)
    requires k < |books| && k <= |log|
  {
    IsBest(side, depth, books[k], Live(log[..k]))
  }

  ghost predicate HarmlessAt(side: bool, log: seq<Event>, books: seq<seq<Order>>, k: nat)
    requires k < |books| && k < |log|
  {
    Harmless(side, books[k], Live(log[..k]), log[k])
  }

  lemma StartIsBest(side: bool, depth: nat, log: seq<Event>, books: seq<seq<Order>>)
    requires Run(side, depth, log, books)
    ensures BestAt(side, depth, log, books, 0)
  {
    assert ShowsBest(side, depth, [], [], []);
  }

  lemma BestOneMoreIff(side: bool, depth: nat, log: seq<Event>, books: seq<seq<Order>>, k: nat)
    requires Run(side, depth, log, books) && k < |log| && BestAt(side, depth, log, books, k)
    ensures BestAt(side, depth, log, books, k + 1) <==> HarmlessAt(side, log, books, k)
  {
    LivePrefix(log, k);
    EventKeepsBestIff(side, depth, books[k], Live(log[..k]), log[k], books[k + 1]);
  }

  lemma {:induction false} HarmlessRunShowsBest(side: bool, depth: nat, log: seq<Event>, books: seq<seq<Order>>, k: nat)
    requires Run(side, depth, log, books) && k <= |log|
    requires forall j :: 0 <= j < k ==> HarmlessAt(side, log, books, j)
    ensures BestAt(side, depth, log, books, k)
  {
    if k == 0 {
      StartIsBest(side, depth, log, books);
    } else {
      HarmlessRunShowsBest(side, depth, log, books, k - 1);
      BestOneMoreIff(side, depth, log, books, k - 1);
    }
  }

  /** Every book of a run shows the best of the orders then live exactly when every event is harmless where it happens. */
  lemma RunShowsBestIff(side: bool, depth: nat, log: seq<Event>, books: seq<seq<Order>>)
    requires Run(side, depth, log, books)
    ensures (forall k :: 0 <= k <= |log| ==> BestAt(side, depth, log, books, k))
            <==> (forall k :: 0 <= k < |log| ==> HarmlessAt(side, log, books, k))
  {
    if forall k :: 0 <= k <= |log| ==> BestAt(side, depth, log, books, k) {
      forall k | 0 <= k < |log|
        ensures HarmlessAt(side, log, books, k)
      {
        BestOneMoreIff(side, depth, log, books, k);
      }
    }
    if forall k :: 0 <= k < |log| ==> HarmlessAt(side, log, books, k) {
      forall k | 0 <= k <= |log|
        ensures BestAt(side, depth, log, books, k)
      {
        HarmlessRunShowsBest(side, depth, log, books, k);
      }
    }
  }

  // ---------- a condition on the log alone ----------

  /** No more orders are live than fit, or the event worsens and removes no live order. */
  ghost predicate GentleEvent(side: bool, depth: nat, all: seq<Order>, e: Event) {
    || |all| <= depth
    || (forall x :: x in all && x.id == e.Id() ==> e.Upsert? && NoWorse(side, e.order.price, x.price))
  }

  ghost predicate Gentle(side: bool, depth: nat, log: seq<Event>) {
    forall k :: 0 <= k < |log| ==> GentleEvent(side, depth, Live(log[..k]), log[k])
  }

  lemma GentleIsHarmless(side: bool, depth: nat, book: seq<Order>, all: seq<Order>, e: Event)
    requires IsBest(side, depth, book, all) && GentleEvent(side, depth, all, e)
    ensures Harmless(side, book, all, e)
  {
    var hidden :| ShowsBest(side, depth, book, hidden, all);
    HiddenIsTheRest(side, depth, book, hidden, all);
    ShownAndHiddenAreAll(side, depth, book, hidden, all);
    var k := Find(book, e.Id());
    if hidden != [] && k < |book| {
      assert book[k] in book && book[k] in all && e.Upsert?;
      forall x | x in hidden
        ensures NoWorse(side, e.order.price, x.price)
      {
        assert NoWorse(side, book[k].price, x.price);
      }
    }
  }

  /** A gentle log is harmless at every event, so each of its books shows the best. */
  lemma {:induction false} GentleRunShowsBest(side: bool, depth: nat, log: seq<Event>, books: seq<seq<Order>>, k: nat)
    requires Run(side, depth, log, books) && Gentle(side, depth, log) && k <= |log|
    ensures BestAt(side, depth, log, books, k)
    ensures k < |log| ==> HarmlessAt(side, log, books, k)
  {
    if k == 0 {
      StartIsBest(side, depth, log, books);
    } else {
      GentleRunShowsBest(side, depth, log, books, k - 1);
      BestOneMoreIff(side, depth, log, books, k - 1);
    }
    if k < |log| {
      GentleIsHarmless(side, depth, books[k], Live(log[..k]), log[k]);
    }
  }

  /**
   The whole statement: while events are harmless, the shown prices are the `depth` best prices of the live orders,
   in order, however the live orders are sorted.
   */
  lemma FeedShowsBestPrices(side: bool, depth: nat, log: seq<Event>, books: seq<seq<Order>>, k: nat, ladder: seq<Order>)
    requires Run(side, depth, log, books) && k <= |log|
    requires forall j :: 0 <= j < k ==> HarmlessAt(side, log, books, j)
    requires Sorted(side, ladder) && multiset(ladder) == multiset(Live(log[..k]))
    ensures |books[k]| == (if |ladder| < depth then |ladder| else depth)
    ensures Prices(books[k]) == Prices(ladder)[..|books[k]|]
  {
    HarmlessRunShowsBest(side, depth, log, books, k);
    BestIsFrontOfLadder(side, depth, books[k], Live(log[..k]), ladder);
    assert |ladder| == |multiset(ladder)| == |multiset(Live(log[..k]))| == |Live(log[..k])|;
  }

  /**
   The same order by order: after harmless events the side starts with the highest of all live bids, or the lowest
   of all live asks, and a live order that is not shown is missing only because the side is full of orders no worse.
   */
  lemma FeedLeavesOutWorst(side: bool, depth: nat, log: seq<Event>, books: seq<seq<Order>>, k: nat, x: Order)
    requires Run(side, depth, log, books) && k <= |log|
    requires forall j :: 0 <= j < k ==> HarmlessAt(side, log, books, j)
    requires x in Live(log[..k])
    ensures depth > 0 ==> books[k] != [] && if side then books[k][0].price >= x.price else books[k][0].price <= x.price
    ensures x !in books[k] ==> |books[k]| == depth
    ensures x !in books[k] ==> forall b :: b in books[k] ==> if side then b.price >= x.price else b.price <= x.price
  {
    HarmlessRunShowsBest(side, depth, log, books, k);
    BestByPrice(side, depth, books[k], Live(log[..k]), x);
  }

  // ---------- the two failures ----------

  lemma SortingIsAnUpsert(side: bool, depth: nat, book: seq<Order>, order: Order, sorted: seq<Order>)
    requires Sorted(side, sorted) && multiset(sorted) == multiset(Place(book, order))
    ensures Upserted(side, depth, book, order, Shown(depth, sorted))
  {
  }

  /** The run goes on with one event, the log and the books being these. */
  lemma RunGoesOn(side: bool, depth: nat, log: seq<Event>, books: seq<seq<Order>>, e: Event, book: seq<Order>,
                  log': seq<Event>, books': seq<seq<Order>>)
    requires Run(side, depth, log, books) && Changed(side, depth, books[|log|], e, book)
    requires log' == log + [e] && books' == books + [book]
    ensures Run(side, depth, log', books') && Live(log') == After(Live(log), e)
  {
    RunOneMore(side, depth, log, books, e, book);
    LiveOneMore(log, e);
  }

  lemma GoodIsShown(good: Order)
    ensures Run(true, 1, [Upsert(good)], [[], [good]]) && Live([Upsert(good)]) == [good]
  {
    assert Changed(true, 1, [], Upsert(good), [good]) by {
      SortingIsAnUpsert(true, 1, [], good, [good]);
    }
    RunGoesOn(true, 1, [], [[]], Upsert(good), [good], [Upsert(good)], [[], [good]]);
  }

  lemma SecondIsCut(good: Order, second: Order)
    requires good.id != second.id && good.price > second.price
    ensures Changed(true, 1, [good], Upsert(second), [good]) && After([good], Upsert(second)) == [good, second]
  {
    SortingIsAnUpsert(true, 1, [good], second, [good, second]);
    assert Shown(1, [good, second]) == [good];
  }

  /** At depth 1 a good bid hides a second one. */
  lemma GoodHidesSecond(good: Order, second: Order)
    requires good.id != second.id && good.price > second.price
    ensures Run(true, 1, [Upsert(good), Upsert(second)], [[], [good], [good]])
    ensures Live([Upsert(good), Upsert(second)]) == [good, second]
  {
    GoodIsShown(good);
    SecondIsCut(good, second);
    RunGoesOn(true, 1, [Upsert(good)], [[], [good]], Upsert(second), [good],
              [Upsert(good), Upsert(second)], [[], [good], [good]]);
  }

  /** When the good bid then falls behind the second, the book goes on showing the fallen bid. */
  lemma WorseningWitness(good: Order, second: Order, fallen: Order)
    requires good.id == fallen.id != second.id && good.price > second.price > fallen.price
    ensures var log, books := [Upsert(good), Upsert(second), Upsert(fallen)], [[], [good], [good], [fallen]];
            Run(true, 1, log, books) && !BestAt(true, 1, log, books, 3)
  {
    var log := [Upsert(good), Upsert(second)];
    GoodHidesSecond(good, second);
    assert Changed(true, 1, [good], Upsert(fallen), [fallen]) by {
      assert Place([good], fallen) == [fallen];
      SortingIsAnUpsert(true, 1, [good], fallen, [fallen]);
    }
    var log', books' := [Upsert(good), Upsert(second), Upsert(fallen)], [[], [good], [good], [fallen]];
    RunGoesOn(true, 1, log, [[], [good], [good]], Upsert(fallen), [fallen], log', books');
    assert Live(log') == [fallen, second] && log'[..3] == log';
    assert second in [fallen, second] && second !in [fallen];
  }

  lemma DropFirst(a: Order, b: Order)
    requires a.id != b.id
    ensures DropId([a], a.id) == [] && DropId([a, b], a.id) == [b]
  {
    assert [a, b][1..] == [b];
    assert DropId([b], a.id) == [b] + DropId([], a.id);
  }

  /** When the good bid is removed instead, the book is empty although the second bid is live. */
  lemma RemovalWitness(good: Order, second: Order)
    requires good.id != second.id && good.price > second.price
    ensures var log, books := [Upsert(good), Upsert(second), Removal(good.id)], [[], [good], [good], []];
            Run(true, 1, log, books) && Live(log) == [second] && !BestAt(true, 1, log, books, 3)
  {
    var log := [Upsert(good), Upsert(second)];
    GoodHidesSecond(good, second);
    var log', books' := [Upsert(good), Upsert(second), Removal(good.id)], [[], [good], [good], []];
    DropFirst(good, second);
    RunGoesOn(true, 1, log, [[], [good], [good]], Removal(good.id), [], log', books');
    assert log'[..3] == log' && second in [second];
  }
}
