/** The market-data book as an object: two sides, each the end of its own run of upserts and removals. */
module OrderBookFeeds {
  import opened FeedBooks
  import opened FeedRuns

  /** What one side has seen: its events, and the books they led through. */
  datatype Past = Past(log: seq<Event>, books: seq<seq<Order>>) {
    function Then(e: Event, book: seq<Order>): Past {
      Past(log + [e], books + [book])
    }
  }

  const NOTHING: Past := Past([], [[]])

  /** The book is the last one of the run of everything the side has seen. */
  ghost predicate SideValid(side: bool, depth: nat, book: seq<Order>, past: Past) {
    && Run(side, depth, past.log, past.books) && past.books[|past.log|] == book
  }

  ghost predicate HarmlessPast(side: bool, past: Past)
    requires |past.log| < |past.books|
  {
    forall k :: 0 <= k < |past.log| ==> HarmlessAt(side, past.log, past.books, k)
  }

  lemma LastBook(side: bool, depth: nat, book: seq<Order>, past: Past)
    requires SideValid(side, depth, book, past)
    ensures Tidy(side, depth, book)
    ensures HarmlessPast(side, past) ==> IsBest(side, depth, book, Live(past.log))
  {
    var n := |past.log|;
    ReachableBooksAreTidy(side, depth, past.log, past.books, n);
    if HarmlessPast(side, past) {
      HarmlessRunShowsBest(side, depth, past.log, past.books, n);
      assert past.log[..n] == past.log;
    }
  }

  lemma LastBookWithout(side: bool, depth: nat, book: seq<Order>, past: Past, id: nat)
    requires SideValid(side, depth, book, past)
    ensures TakenOut(book, id, DropId(book, id))
  {
    LastBook(side, depth, book, past);
    DropIdTakesOut(book, id);
  }

  /** Bids from the highest price down. */
  ghost predicate Falling(bids: seq<Order>) {
    forall i, j :: 0 <= i < j < |bids| ==> bids[i].price >= bids[j].price
  }

  /** Asks from the lowest price up. */
  ghost predicate Rising(asks: seq<Order>) {
    forall i, j :: 0 <= i < j < |asks| ==> asks[i].price <= asks[j].price
  }

  lemma UpsertedByPrice(side: bool, depth: nat, book: seq<Order>, order: Order, book': seq<Order>)
    requires UniqueIds(book) && Upserted(side, depth, book, order, book')
    ensures if side then Falling(book') else Rising(book')
    ensures forall x, b {:trigger x in Place(book, order), b in book'} ::
              x in Place(book, order) && x !in book' && b in book' ==> if side then b.price >= x.price else b.price <= x.price
  {
    UpsertedIsTidy(side, depth, book, order, book');
    SortedByPrice(book');
    forall x, b | x in Place(book, order) && x !in book' && b in book'
      ensures if side then b.price >= x.price else b.price <= x.price
    {
      UpsertCutsWorst(side, depth, book, order, book', x);
    }
  }

  lemma LastBookByPrice(side: bool, depth: nat, book: seq<Order>, past: Past)
    requires SideValid(side, depth, book, past)
    ensures if side then Falling(book) else Rising(book)
    ensures HarmlessPast(side, past) ==>
              forall x :: x in Live(past.log) && depth > 0 ==>
                book != [] && if side then book[0].price >= x.price else book[0].price <= x.price
  {
    LastBook(side, depth, book, past);
    SortedByPrice(book);
    if HarmlessPast(side, past) && depth > 0 {
      forall x | x in Live(past.log)
        ensures book != [] && if side then book[0].price >= x.price else book[0].price <= x.price
      {
        BestByPrice(side, depth, book, Live(past.log), x);
      }
    }
  }

  class OrderBookFeed {
    const maxLevels: nat
    var bids: seq<Order>
    var asks: seq<Order>
    ghost var bidPast: Past
    ghost var askPast: Past

    ghost predicate Valid()
      reads this
    {
      SideValid(true, maxLevels, bids, bidPast) && SideValid(false, maxLevels, asks, askPast)
    }

    constructor (maxLevels: nat)
      ensures Valid() && this.maxLevels == maxLevels
      ensures bids == [] && asks == [] && bidPast == NOTHING && askPast == NOTHING
    {
      this.maxLevels := maxLevels;
      bids, asks, bidPast, askPast := [], [], NOTHING, NOTHING;
    }

    /** The library sort: sorted, and nothing else is promised about equal prices. */
    static method Sort(side: bool, book: seq<Order>) returns (sorted: seq<Order>)
      ensures Sorted(side, sorted) && multiset(sorted) == multiset(book)
    {
      SortOrdersSorts(side, book);
      sorted := SortOrders(side, book);
    }

    /** Find, replace or append, sort, cut to depth. */
    method Update(side: bool, before: seq<Order>, order: Order) returns (book: seq<Order>)
      ensures Upserted(side, maxLevels, before, order, book)
    {
      book := before;
      var k := Find(book, order.id);
      if k < |book| {
        book := book[k := order];
      } else {
        book := book + [order];
      }
      var sorted := Sort(side, book);
      book := sorted;
      if |book| > maxLevels {
        book := book[..maxLevels];
      }
      SortingIsAnUpsert(side, maxLevels, before, order, sorted);
    }

    /** The side is sorted by price, bids falling and asks rising, and what it cuts is no better than what it shows. */
    method Upsert(side: bool, order: Order)
      requires Valid()
      modifies this
      ensures Valid() && Falling(bids) && Rising(asks)
      ensures side ==> forall x, b :: x in Place(old(bids), order) && x !in bids && b in bids ==> b.price >= x.price
      ensures !side ==> forall x, b :: x in Place(old(asks), order) && x !in asks && b in asks ==> b.price <= x.price
      ensures side ==> Upserted(true, maxLevels, old(bids), order, bids) && asks == old(asks) && askPast == old(askPast)
                       && bidPast == old(bidPast).Then(Event.Upsert(order), bids)
      ensures !side ==> Upserted(false, maxLevels, old(asks), order, asks) && bids == old(bids) && bidPast == old(bidPast)
                        && askPast == old(askPast).Then(Event.Upsert(order), asks)
    {
      LastBookByPrice(true, maxLevels, bids, bidPast);
      LastBookByPrice(false, maxLevels, asks, askPast);
      LastBook(side, maxLevels, if side then bids else asks, if side then bidPast else askPast);
      if side {
        var book := Update(true, bids, order);
        UpsertedByPrice(true, maxLevels, bids, order, book);
        RunOneMore(true, maxLevels, bidPast.log, bidPast.books, Event.Upsert(order), book);
        bids, bidPast := book, bidPast.Then(Event.Upsert(order), book);
      } else {
        var book := Update(false, asks, order);
        UpsertedByPrice(false, maxLevels, asks, order, book);
        RunOneMore(false, maxLevels, askPast.log, askPast.books, Event.Upsert(order), book);
        asks, askPast := book, askPast.Then(Event.Upsert(order), book);
      }
    }

    /** Takes the order with that id out; the others keep their order. */
    method Remove(side: bool, orderId: nat)
      requires Valid()
      modifies this
      ensures Valid()
      ensures side ==> bids == DropId(old(bids), orderId) && asks == old(asks) && askPast == old(askPast)
                       && bidPast == old(bidPast).Then(Removal(orderId), bids)
      ensures !side ==> asks == DropId(old(asks), orderId) && bids == old(bids) && bidPast == old(bidPast)
                        && askPast == old(askPast).Then(Removal(orderId), asks)
      ensures side ==> TakenOut(old(bids), orderId, bids)
      ensures !side ==> TakenOut(old(asks), orderId, asks)
    {
      if side {
        var book := DropId(bids, orderId);
        LastBookWithout(true, maxLevels, bids, bidPast, orderId);
        RunOneMore(true, maxLevels, bidPast.log, bidPast.books, Removal(orderId), book);
        bids, bidPast := book, bidPast.Then(Removal(orderId), book);
      } else {
        var book := DropId(asks, orderId);
        LastBookWithout(false, maxLevels, asks, askPast, orderId);
        RunOneMore(false, maxLevels, askPast.log, askPast.books, Removal(orderId), book);
        asks, askPast := book, askPast.Then(Removal(orderId), book);
      }
    }

    /** The copies handed out are tidy, and each shows the best of its live orders if its events were harmless. */
    method Snapshot() returns (bidSide: seq<Order>, askSide: seq<Order>)
      requires Valid()
      ensures bidSide == bids && askSide == asks
      ensures Tidy(true, maxLevels, bidSide) && Tidy(false, maxLevels, askSide) && Falling(bidSide) && Rising(askSide)
      ensures HarmlessPast(true, bidPast) ==> IsBest(true, maxLevels, bidSide, Live(bidPast.log))
      ensures HarmlessPast(false, askPast) ==> IsBest(false, maxLevels, askSide, Live(askPast.log))
      ensures HarmlessPast(true, bidPast) && maxLevels > 0 ==>
                forall x :: x in Live(bidPast.log) ==> bidSide != [] && bidSide[0].price >= x.price
      ensures HarmlessPast(false, askPast) && maxLevels > 0 ==>
                forall x :: x in Live(askPast.log) ==> askSide != [] && askSide[0].price <= x.price
    {
      LastBook(true, maxLevels, bids, bidPast);
      LastBook(false, maxLevels, asks, askPast);
      LastBookByPrice(true, maxLevels, bids, bidPast);
      LastBookByPrice(false, maxLevels, asks, askPast);
      return bids, asks;
    }
  }
}
