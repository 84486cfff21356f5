/**
 The matching engine as it works in place: books hold slot numbers (the order pointers of MatchingEngine.h) into a
 shared pool, quantities are cut in the slots, and the loop erases from a side while it walks it.
 */
module MatchingEngines {
  import opened EngineRuns
  import opened Matching
  import opened OrderPools

  const BLANK: Order := Order(0, -1, 0, true, "")

  datatype SlotBook = SlotBook(buyOrders: seq<nat>, sellOrders: seq<nat>) {
    function Side(isBuy: bool): seq<nat> {
      if isBuy then buyOrders else sellOrders
    }

    function WithSide(isBuy: bool, side: seq<nat>): SlotBook {
      if isBuy then SlotBook(side, sellOrders) else SlotBook(buyOrders, side)
    }
  }

  type Slots = seq<Entry<Order>>

  function OrderAt(slots: Slots, idx: nat): Order {
    if idx < |slots| then slots[idx].order else BLANK
  }

  function OrdersAt(slots: Slots, side: seq<nat>): seq<Order> {
    seq(|side|, i requires 0 <= i < |side| => OrderAt(slots, side[i]))
  }

  function BookAt(slots: Slots, book: SlotBook): Book {
    Book(OrdersAt(slots, book.buyOrders), OrdersAt(slots, book.sellOrders))
  }

  function BooksAt(slots: Slots, books: seq<SlotBook>): seq<Book> {
    seq(|books|, b requires 0 <= b < |books| => BookAt(slots, books[b]))
  }

  /** Where a slot is: free, in one queue of one bucket, or with the submission in progress (or lost by one). */
  datatype Place = Free | Held | Resting(bucket: nat, isBuy: bool)

  ghost predicate Queued(places: seq<Place>, side: seq<nat>, place: Place) {
    && Distinct(side)
    && (forall i :: i in side ==> i < |places|)
    && (forall i :: 0 <= i < |places| ==> (i in side <==> places[i] == place))
  }

  /** The free chain and all queues say of every slot what `places` says, and no queue holds a slot twice. */
  ghost predicate Placed(places: seq<Place>, chain: seq<nat>, books: seq<SlotBook>) {
    && Queued(places, chain, Free)
    && (forall b, isBuy {:trigger Queued(places, books[b].Side(isBuy), Resting(b, isBuy))} ::
          0 <= b < |books| ==> Queued(places, books[b].Side(isBuy), Resting(b, isBuy)))
  }

  /** No slot is in two queues, or in a queue and free. */
  lemma QueuesAreDisjoint(places: seq<Place>, chain: seq<nat>, books: seq<SlotBook>,
                          a: nat, aSide: bool, b: nat, bSide: bool, idx: nat)
    requires Placed(places, chain, books) && a < |books| && b < |books|
    requires idx in books[a].Side(aSide) && (a != b || aSide != bSide)
    ensures idx !in books[b].Side(bSide) && idx !in chain
  {
    assert Queued(places, books[a].Side(aSide), Resting(a, aSide));
    assert Queued(places, books[b].Side(bSide), Resting(b, bSide));
  }

  lemma OrdersAtFrame(slots: Slots, slots': Slots, side: seq<nat>)
    requires |slots'| == |slots|
    requires forall i :: i in side && i < |slots| ==> slots'[i].order == slots[i].order
    ensures OrdersAt(slots', side) == OrdersAt(slots, side)
  {
    forall k | 0 <= k < |side|
      ensures OrdersAt(slots', side)[k] == OrdersAt(slots, side)[k]
    {
      assert side[k] in side;
    }
  }

  /** A queue keeps its slots when a slot elsewhere moves elsewhere. */
  lemma QueuedFrame(places: seq<Place>, side: seq<nat>, place: Place, idx: nat, other: Place)
    requires Queued(places, side, place) && idx < |places| && places[idx] != place && other != place
    ensures Queued(places[idx := other], side, place)
  {
  }

  lemma QueuedJoins(places: seq<Place>, side: seq<nat>, place: Place, idx: nat)
    requires Queued(places, side, place) && idx < |places| && places[idx] != place
    ensures Queued(places[idx := place], side + [idx], place)
    ensures Queued(places[idx := place], [idx] + side, place)
  {
  }

  lemma QueuedLeaves(places: seq<Place>, side: seq<nat>, place: Place, other: Place)
    requires Queued(places, side, place) && side != [] && other != place
    ensures side[0] < |places| && places[side[0]] == place
    ensures Queued(places[side[0] := other], side[1..], place)
  {
    var idx := side[0];
    assert idx in side && side == [idx] + side[1..];
    assert idx !in side[1..];
    assert forall i :: i in side <==> i == idx || i in side[1..];
  }

  /** A held slot becomes free. */
  lemma HeldToFree(places: seq<Place>, chain: seq<nat>, books: seq<SlotBook>, idx: nat)
    requires Placed(places, chain, books) && idx < |places| && places[idx] == Held
    ensures Placed(places[idx := Free], [idx] + chain, books)
  {
    QueuedJoins(places, chain, Free, idx);
    forall b, isBuy | 0 <= b < |books|
      ensures Queued(places[idx := Free], books[b].Side(isBuy), Resting(b, isBuy))
    {
      QueuedFrame(places, books[b].Side(isBuy), Resting(b, isBuy), idx, Free);
    }
  }

  /** The head of the free chain is taken. */
  lemma FreeToHeld(places: seq<Place>, chain: seq<nat>, books: seq<SlotBook>)
    requires Placed(places, chain, books) && chain != []
    ensures chain[0] < |places| && places[chain[0]] == Free
    ensures Placed(places[chain[0] := Held], chain[1..], books)
  {
    QueuedLeaves(places, chain, Free, Held);
    forall b, isBuy | 0 <= b < |books|
      ensures Queued(places[chain[0] := Held], books[b].Side(isBuy), Resting(b, isBuy))
    {
      QueuedFrame(places, books[b].Side(isBuy), Resting(b, isBuy), chain[0], Held);
    }
  }

  /** A held slot joins the back of a queue. */
  lemma HeldToBack(places: seq<Place>, chain: seq<nat>, books: seq<SlotBook>, b: nat, isBuy: bool, idx: nat)
    requires Placed(places, chain, books) && b < |books| && idx < |places| && places[idx] == Held
    ensures Placed(places[idx := Resting(b, isBuy)], chain,
                   books[b := books[b].WithSide(isBuy, books[b].Side(isBuy) + [idx])])
  {
    var place := Resting(b, isBuy);
    var books' := books[b := books[b].WithSide(isBuy, books[b].Side(isBuy) + [idx])];
    QueuedFrame(places, chain, Free, idx, place);
    forall k, side | 0 <= k < |books|
      ensures Queued(places[idx := place], books'[k].Side(side), Resting(k, side))
    {
      if k == b && side == isBuy {
        QueuedJoins(places, books[b].Side(isBuy), place, idx);
      } else {
        QueuedFrame(places, books[k].Side(side), Resting(k, side), idx, place);
      }
    }
  }

  /** The head of a queue becomes free. */
  lemma HeadToFree(places: seq<Place>, chain: seq<nat>, books: seq<SlotBook>, b: nat, isBuy: bool)
    requires Placed(places, chain, books) && b < |books| && books[b].Side(isBuy) != []
    ensures var side := books[b].Side(isBuy);
            && side[0] < |places| && places[side[0]] == Resting(b, isBuy) && side[0] !in chain
            && Placed(places[side[0] := Free], [side[0]] + chain, books[b := books[b].WithSide(isBuy, side[1..])])
  {
    var side := books[b].Side(isBuy);
    var idx, books' := side[0], books[b := books[b].WithSide(isBuy, side[1..])];
    QueuedLeaves(places, side, Resting(b, isBuy), Free);
    QueuedJoins(places, chain, Free, idx);
    forall k, s | 0 <= k < |books|
      ensures Queued(places[idx := Free], books'[k].Side(s), Resting(k, s))
    {
      if k != b || s != isBuy {
        QueuedFrame(places, books[k].Side(s), Resting(k, s), idx, Free);
      }
    }
  }

  /** A change confined to one queue's slots and slots in no queue shows in that side of that book alone. */
  lemma OneSideChanged(places: seq<Place>, slots: Slots, slots': Slots, chain: seq<nat>, books: seq<SlotBook>,
                       b: nat, isBuy: bool, side': seq<nat>)
    requires Placed(places, chain, books) && b < |books|
    requires |slots'| == |slots| == |places|
    requires forall i :: 0 <= i < |places| && places[i].Resting? && places[i] != Resting(b, isBuy) ==>
               slots'[i].order == slots[i].order
    ensures BooksAt(slots', books[b := books[b].WithSide(isBuy, side')])
            == BooksAt(slots, books)[b := BookAt(slots, books[b]).WithSide(isBuy, OrdersAt(slots', side'))]
  {
    var books' := books[b := books[b].WithSide(isBuy, side')];
    forall k, s | 0 <= k < |books| && !(k == b && s == isBuy)
      ensures OrdersAt(slots', books'[k].Side(s)) == OrdersAt(slots, books[k].Side(s))
    {
      assert Queued(places, books[k].Side(s), Resting(k, s));
      OrdersAtFrame(slots, slots', books[k].Side(s));
    }
    var left := BooksAt(slots', books');
    var right := BooksAt(slots, books)[b := BookAt(slots, books[b]).WithSide(isBuy, OrdersAt(slots', side'))];
    forall k | 0 <= k < |books|
      ensures left[k] == right[k]
    {
      assert left[k] == Book(OrdersAt(slots', books'[k].Side(true)), OrdersAt(slots', books'[k].Side(false)));
      assert OrdersAt(slots', books'[k].Side(!isBuy)) == OrdersAt(slots, books[k].Side(!isBuy));
      assert k != b ==> OrdersAt(slots', books'[k].Side(isBuy)) == OrdersAt(slots, books[k].Side(isBuy));
    }
  }

  /** A change to slots in no queue shows in no book. */
  lemma OtherSlotChanged(places: seq<Place>, slots: Slots, slots': Slots, chain: seq<nat>, books: seq<SlotBook>)
    requires Placed(places, chain, books) && |slots'| == |slots| == |places|
    requires forall i :: 0 <= i < |places| && places[i].Resting? ==> slots'[i].order == slots[i].order
    ensures BooksAt(slots', books) == BooksAt(slots, books)
  {
    forall b | 0 <= b < |books|
      ensures BooksAt(slots', books)[b] == BooksAt(slots, books)[b]
    {
      assert Queued(places, books[b].Side(true), Resting(b, true));
      assert Queued(places, books[b].Side(false), Resting(b, false));
      OrdersAtFrame(slots, slots', books[b].buyOrders);
      OrdersAtFrame(slots, slots', books[b].sellOrders);
    }
  }

  lemma QueuedSlots(places: seq<Place>, chain: seq<nat>, books: seq<SlotBook>, b: nat, isBuy: bool)
    requires Placed(places, chain, books) && b < |books|
    ensures Distinct(books[b].Side(isBuy))
    ensures forall k :: 0 <= k < |books[b].Side(isBuy)| ==>
              books[b].Side(isBuy)[k] < |places| && places[books[b].Side(isBuy)[k]] == Resting(b, isBuy)
  {
    assert Queued(places, books[b].Side(isBuy), Resting(b, isBuy));
    forall k | 0 <= k < |books[b].Side(isBuy)|
      ensures books[b].Side(isBuy)[k] < |places| && places[books[b].Side(isBuy)[k]] == Resting(b, isBuy)
    {
      assert books[b].Side(isBuy)[k] in books[b].Side(isBuy);
    }
  }

  lemma HeadOrderChanged(slots: Slots, slots': Slots, side: seq<nat>)
    requires |slots'| == |slots| && side != [] && Distinct(side)
    requires forall k :: 0 < k < |side| ==> side[k] < |slots| && slots'[side[k]].order == slots[side[k]].order
    ensures OrdersAt(slots', side) == [OrderAt(slots', side[0])] + OrdersAt(slots, side)[1..]
  {
  }

  /** The books with one side of one of them replaced. */
  function WithQueue(books: seq<Book>, b: nat, isBuy: bool, queue: seq<Order>): seq<Book>
    requires b < |books|
  {
    books[b := books[b].WithSide(isBuy, queue)]
  }

  function FilledSlots(slots: Slots, incoming: nat, resting: nat): Slots
    requires incoming < |slots| && resting < |slots|
  {
    var first, second := slots[incoming], slots[resting];
    var fill := Min(first.order.quantity, second.order.quantity);
    slots[incoming := first.(order := first.order.(quantity := first.order.quantity - fill))]
         [resting := second.(order := second.order.(quantity := second.order.quantity - fill))]
  }

  lemma SameSide(books: seq<SlotBook>, b: nat, isBuy: bool)
    requires b < |books|
    ensures books[b := books[b].WithSide(isBuy, books[b].Side(isBuy))] == books
  {
  }

  /** A fill against the head of one side shows in that order alone. */
  lemma FillKeepsPlaces(places: seq<Place>, slots: Slots, chain: seq<nat>, books: seq<SlotBook>,
                        b: nat, isBuy: bool, incoming: nat)
    requires Placed(places, chain, books) && |slots| == |places| && b < |books| && books[b].Side(isBuy) != []
    requires incoming < |places| && places[incoming] == Held
    ensures var resting, opposite := books[b].Side(isBuy)[0], BooksAt(slots, books)[b].Side(isBuy);
            && resting < |places| && resting != incoming && opposite != [] && slots[resting].order == opposite[0]
            && var fill, slots' := Min(slots[incoming].order.quantity, opposite[0].quantity), FilledSlots(slots, incoming, resting);
               && slots'[incoming].order == Cut(slots[incoming].order, fill) && slots'[resting].order == Cut(opposite[0], fill)
               && BooksAt(slots', books) == WithQueue(BooksAt(slots, books), b, isBuy, [Cut(opposite[0], fill)] + opposite[1..])
  {
    var side := books[b].Side(isBuy);
    QueuedSlots(places, chain, books, b, isBuy);
    var slots' := FilledSlots(slots, incoming, side[0]);
    OneSideChanged(places, slots, slots', chain, books, b, isBuy, side);
    SameSide(books, b, isBuy);
    HeadOrderChanged(slots, slots', side);
  }

  lemma WithQueueTwice(books: seq<Book>, b: nat, isBuy: bool, first: seq<Order>, second: seq<Order>)
    requires b < |books|
    ensures WithQueue(WithQueue(books, b, isBuy, first), b, isBuy, second) == WithQueue(books, b, isBuy, second)
    ensures WithQueue(books, b, isBuy, first)[b].Side(isBuy) == first
    ensures WithQueue(books, b, isBuy, books[b].Side(isBuy)) == books
  {
  }

  lemma ReportsAssociate(a: seq<Report>, b: seq<Report>, c: seq<Report>)
    ensures (a + b) + c == a + (b + c)
  {
  }

  lemma AfterTwice(sweep: Sweep, done: seq<Report>, freed: nat, reports: seq<Report>, more: nat)
    ensures sweep.After(reports, more).After(done, freed) == sweep.After(done + reports, freed + more)
  {
    ReportsAssociate(done, reports, sweep.reports);
  }

  /** Erasing the head of one side shows as dropping the first order of that side. */
  lemma EraseShows(places: seq<Place>, slots: Slots, slots': Slots, chain: seq<nat>, books: seq<SlotBook>,
                   b: nat, isBuy: bool)
    requires Placed(places, chain, books) && b < |books| && books[b].Side(isBuy) != []
    requires |slots'| == |slots| == |places|
    requires forall i :: 0 <= i < |slots| && i != books[b].Side(isBuy)[0] ==> slots'[i] == slots[i]
    ensures BooksAt(slots', books[b := books[b].WithSide(isBuy, books[b].Side(isBuy)[1..])])
            == WithQueue(BooksAt(slots, books), b, isBuy, BooksAt(slots, books)[b].Side(isBuy)[1..])
  {
    var side := books[b].Side(isBuy);
    QueuedSlots(places, chain, books, b, isBuy);
    OneSideChanged(places, slots, slots', chain, books, b, isBuy, side[1..]);
    assert OrdersAt(slots', side[1..]) == OrdersAt(slots, side)[1..];
  }

  /** One turn of the loop's rule, carried along with what the loop has already reported and freed. */
  lemma MatchTurns(opposite: seq<Order>, incoming: Order, done: seq<Report>, freed: nat)
    requires opposite != [] && Crosses(incoming, opposite[0])
    ensures var fill := Min(incoming.quantity, opposite[0].quantity);
            var incoming', queue := Cut(incoming, fill), AfterFill(opposite, fill);
            var resting' := Cut(opposite[0], fill);
            var done' := done + [Execution(incoming', fill), Execution(resting', fill), Trade(incoming', resting', fill)];
            var freed' := freed + (if Cut(opposite[0], fill).quantity == 0 then 1 else 0);
            && Match(opposite, incoming).After(done, freed) ==
               (if incoming'.quantity == 0 then Sweep(queue, incoming', done', freed' + 1, true)
                else Match(queue, incoming').After(done', freed'))
            && (Cut(opposite[0], fill).quantity != 0 ==> incoming'.quantity == 0)
            && (incoming'.quantity != 0 ==> queue == opposite[1..])
  {
    var fill := Min(incoming.quantity, opposite[0].quantity);
    var incoming', queue := Cut(incoming, fill), AfterFill(opposite, fill);
    AfterTwice(if incoming'.quantity == 0 then Sweep(queue, incoming', [], 1, true) else Match(queue, incoming'),
               done, freed, FillReports(incoming', Cut(opposite[0], fill), fill),
               if fill == opposite[0].quantity then 1 else 0);
    var done' := done + FillReports(incoming', Cut(opposite[0], fill), fill);
    assert done' + [] == done';
  }

  lemma MatchStops(opposite: seq<Order>, incoming: Order, done: seq<Report>, freed: nat)
    requires opposite == [] || !Crosses(incoming, opposite[0])
    ensures Match(opposite, incoming).After(done, freed) == Sweep(opposite, incoming, done, freed, false)
  {
    assert done + [] == done;
  }

  /** The queue of slots and the queue of orders it shows have the same length and the same front. */
  lemma FrontSlot(places: seq<Place>, slots: Slots, chain: seq<nat>, books: seq<SlotBook>,
                  b: nat, isBuy: bool, start: seq<Book>, queue: seq<Order>)
    requires Placed(places, chain, books) && |slots| == |places| && b < |books| == |start|
    requires BooksAt(slots, books) == WithQueue(start, b, isBuy, queue)
    ensures |queue| == |books[b].Side(isBuy)|
    ensures queue != [] ==> books[b].Side(isBuy)[0] < |slots| && slots[books[b].Side(isBuy)[0]].order == queue[0]
    ensures queue != [] ==> places[books[b].Side(isBuy)[0]] != Held
  {
    QueuedSlots(places, chain, books, b, isBuy);
    assert BooksAt(slots, books)[b].Side(isBuy) == OrdersAt(slots, books[b].Side(isBuy));
    assert WithQueue(start, b, isBuy, queue)[b].Side(isBuy) == queue;
  }

  class MatchingEngine {
    const hash: Hash
    const pool: OrderBookPool<Order>
    const books: array<SlotBook>
    var reports: seq<Report>  // the callbacks made, in order
    ghost var history: seq<Order>  // the orders submitted
    ghost var places: seq<Place>

    ghost function Repr(): set<object> {
      {this, pool, pool.entries, books}
    }

    /** The structure alone: the pool's chain and the queues partition the slots. */
    ghost predicate Sound()
      reads Repr()
    {
      && pool.Valid() && pool.blank == BLANK
      && |places| == pool.entries.Length
      && books.Length == BOOK_COUNT
      && Placed(places, pool.chain, books[..])
    }

    ghost function Books(): seq<Book>
      reads Repr()
    {
      BooksAt(pool.entries[..], books[..])
    }

    /** Between submissions the books, the free slots and the callbacks are those of the run on values. */
    ghost predicate Valid()
      reads Repr()
    {
      Sound() && Shows(EngineRun(hash, pool.entries.Length, history))
    }

    ghost predicate Shows(e: Engine)
      reads Repr()
    {
      Books() == e.books && |pool.chain| == e.freeSlots && reports == e.log
    }

    constructor (hash: Hash, maxOrders: nat)
      requires 1 <= maxOrders <= NO_FREE_INDEX
      ensures Valid() && fresh(Repr())
      ensures this.hash == hash && pool.entries.Length == maxOrders && history == []
    {
      this.hash := hash;
      pool := new OrderBookPool<Order>(maxOrders, BLANK);
      books := new SlotBook[BOOK_COUNT](_ => SlotBook([], []));
      reports, history := [], [];
      places := seq(maxOrders, _ => Free);
      new;
      assert Queued(places, pool.chain, Free) by {
        forall i | 0 <= i < maxOrders
          ensures i in pool.chain
        {
          assert pool.chain[i] == i;
        }
      }
      assert Books() == Start(maxOrders).books;
    }

    /** Stores the order in a slot of its own, in no queue yet; no slot is handed out exactly when none is free. */
    method TakeSlot(order: Order) returns (idx: nat)
      requires Sound()
      modifies Repr()
      ensures Sound() && history == old(history) && reports == old(reports) && Books() == old(Books())
      ensures idx == NO_FREE_INDEX <==> old(pool.chain) == []
      ensures idx == NO_FREE_INDEX ==> pool.chain == old(pool.chain)
      ensures idx != NO_FREE_INDEX ==> idx < |places| && places[idx] == Held && pool.entries[idx].order == order
                                       && |pool.chain| == |old(pool.chain)| - 1
    {
      ghost var slots, chain := pool.entries[..], pool.chain;
      idx := pool.Allocate();
      if idx == NO_FREE_INDEX {
        return;
      }
      FreeToHeld(places, chain, books[..]);
      places := places[idx := Held];
      pool.entries[idx] := pool.entries[idx].(order := order);
      FreeChainIgnoresOrders(slots, pool.entries[..], pool.freeIndex, pool.chain);
      OtherSlotChanged(places, slots, pool.entries[..], pool.chain, books[..]);
    }

    /** Drops the order exactly when no slot is free; otherwise it goes through the book of its symbol's hash alone. */
    method Accept(order: Order, ghost e: Engine)
      requires Sound() && WellFormed(e) && Shows(e)
      modifies Repr()
      ensures Sound() && history == old(history) && Shows(EngineStep(hash, e, order))
      ensures var b := hash(order.symbol) % 1024;
              var out := Submit(old(Books())[b], order);
              if old(pool.chain) == [] then Books() == old(Books()) && reports == old(reports)
              else Books() == old(Books())[b := out.book] && reports == old(reports) + out.reports
    {
      StepEffect(hash, e, order);
      var newOrder := TakeSlot(order);
      if newOrder == NO_FREE_INDEX {
        return;
      }
      MatchOrder(Bucket(hash, order), newOrder);
    }

    /** One more step of the run on values, in the book of the order's symbol alone. */
    method SubmitOrder(order: Order)
      requires Valid()
      modifies Repr()
      ensures Valid() && history == old(history) + [order]
      ensures var b := hash(order.symbol) % 1024;
              var out := Submit(old(Books())[b], order);
              if old(pool.chain) == [] then Books() == old(Books()) && reports == old(reports)
              else Books() == old(Books())[b := out.book] && reports == old(reports) + out.reports
    {
      RunExtends(hash, pool.entries.Length, history, order);
      Accept(order, EngineRun(hash, pool.entries.Length, history));
      history := history + [order];
    }

    /** One fill against the oldest resting order: both quantities are cut, then the three callbacks are made. */
    method Fill(b: nat, isBuy: bool, incoming: nat)
      requires Sound() && b < BOOK_COUNT && books[b].Side(!isBuy) != []
      requires incoming < |places| && places[incoming] == Held
      modifies Repr()
      ensures Sound() && history == old(history) && places == old(places)
      ensures pool.chain == old(pool.chain) && books[..] == old(books[..])
      ensures var opposite, order := old(Books()[b].Side(!isBuy)), old(pool.entries[incoming].order);
              var fill := Min(order.quantity, opposite[0].quantity);
              var order', resting' := Cut(order, fill), Cut(opposite[0], fill);
              && pool.entries[incoming].order == order'
              && Books() == WithQueue(old(Books()), b, !isBuy, [resting'] + opposite[1..])
              && reports == old(reports) + [Execution(order', fill), Execution(resting', fill), Trade(order', resting', fill)]
    {
      ghost var slots := pool.entries[..];
      FillKeepsPlaces(places, slots, pool.chain, books[..], b, !isBuy, incoming);
      var resting := books[b].Side(!isBuy)[0];
      var first, second := pool.entries[incoming], pool.entries[resting];
      var fillQty := Min(first.order.quantity, second.order.quantity);
      pool.entries[incoming] := first.(order := first.order.(quantity := first.order.quantity - fillQty));
      pool.entries[resting] := second.(order := second.order.(quantity := second.order.quantity - fillQty));
      assert pool.entries[..] == FilledSlots(slots, incoming, resting);
      FreeChainIgnoresOrders(slots, pool.entries[..], pool.freeIndex, pool.chain);
      reports := reports + [Execution(pool.entries[incoming].order, fillQty)];
      reports := reports + [Execution(pool.entries[resting].order, fillQty)];
      reports := reports + [Trade(pool.entries[incoming].order, pool.entries[resting].order, fillQty)];
    }

    /** Gives the oldest resting order's slot back and erases it from its side. */
    method EraseFront(b: nat, isBuy: bool)
      requires Sound() && b < BOOK_COUNT && books[b].Side(isBuy) != []
      modifies Repr()
      ensures Sound() && history == old(history) && reports == old(reports)
      ensures |pool.chain| == |old(pool.chain)| + 1
      ensures books[b].Side(isBuy) == old(books[b].Side(isBuy))[1..]
      ensures forall i :: 0 <= i < |places| && old(places)[i] == Held ==>
                places[i] == Held && pool.entries[i] == old(pool.entries[i])
      ensures Books() == WithQueue(old(Books()), b, isBuy, old(Books())[b].Side(isBuy)[1..])
    {
      ghost var slots := pool.entries[..];
      ghost var was := books[..];
      ghost var side := books[b].Side(isBuy);
      var resting := books[b].Side(isBuy)[0];
      HeadToFree(places, pool.chain, was, b, isBuy);
      pool.Free(resting);
      EraseShows(places, slots, pool.entries[..], old(pool.chain), was, b, isBuy);
      books[b] := books[b].WithSide(isBuy, books[b].Side(isBuy)[1..]);
      assert books[..] == was[b := was[b].WithSide(isBuy, side[1..])];
      places := places[resting := Free];
    }

    /** Gives a held slot back. */
    method ReleaseHeld(idx: nat)
      requires Sound() && idx < |places| && places[idx] == Held
      modifies Repr()
      ensures Sound() && history == old(history) && reports == old(reports)
      ensures |pool.chain| == |old(pool.chain)| + 1 && Books() == old(Books())
    {
      ghost var slots := pool.entries[..];
      HeldToFree(places, pool.chain, books[..], idx);
      assert idx !in pool.chain;
      pool.Free(idx);
      OtherSlotChanged(places, slots, pool.entries[..], old(pool.chain), books[..]);
      places := places[idx := Free];
    }

    /** Queues a held slot at the back of its side. */
    method PushBack(b: nat, isBuy: bool, idx: nat)
      requires Sound() && b < BOOK_COUNT && idx < |places| && places[idx] == Held
      modifies Repr()
      ensures Sound() && history == old(history) && reports == old(reports) && pool.chain == old(pool.chain)
      ensures Books() == WithQueue(old(Books()), b, isBuy,
                                   old(Books())[b].Side(isBuy) + [old(pool.entries[idx].order)])
    {
      ghost var was, slots := books[..], pool.entries[..];
      ghost var side := books[b].Side(isBuy);
      HeldToBack(places, pool.chain, was, b, isBuy, idx);
      OneSideChanged(places, slots, slots, pool.chain, was, b, isBuy, side + [idx]);
      books[b] := books[b].WithSide(isBuy, books[b].Side(isBuy) + [idx]);
      assert books[..] == was[b := was[b].WithSide(isBuy, side + [idx])];
      assert OrdersAt(slots, side + [idx]) == OrdersAt(slots, side) + [slots[idx].order];
      places := places[idx := Resting(b, isBuy)];
    }

    /** The body of the loop for a front that crosses: fill, then give back whichever order is used up. */
    method CrossingTurn(b: nat, isBuy: bool, incoming: nat) returns (erased: bool, finished: bool)
      requires Sound() && b < BOOK_COUNT && books[b].Side(!isBuy) != []
      requires incoming < |places| && places[incoming] == Held
      modifies Repr()
      ensures Sound() && history == old(history)
      ensures var opposite, order := old(Books()[b].Side(!isBuy)), old(pool.entries[incoming].order);
              var fill := Min(order.quantity, opposite[0].quantity);
              var order', resting' := Cut(order, fill), Cut(opposite[0], fill);
              && erased == (resting'.quantity == 0) && finished == (order'.quantity == 0)
              && Books() == WithQueue(old(Books()), b, !isBuy, AfterFill(opposite, fill))
              && reports == old(reports) + [Execution(order', fill), Execution(resting', fill), Trade(order', resting', fill)]
              && |pool.chain| == |old(pool.chain)| + (if erased then 1 else 0) + (if finished then 1 else 0)
              && (!finished ==> places[incoming] == Held && pool.entries[incoming].order == order')
    {
      ghost var start, opposite := Books(), Books()[b].Side(!isBuy);
      ghost var fill := Min(pool.entries[incoming].order.quantity, opposite[0].quantity);
      var resting := books[b].Side(!isBuy)[0];
      Fill(b, isBuy, incoming);
      ghost var filled := [Cut(opposite[0], fill)] + opposite[1..];
      FrontSlot(places, pool.entries[..], pool.chain, books[..], b, !isBuy, start, filled);
      WithQueueTwice(start, b, !isBuy, filled, opposite[1..]);
      erased := pool.entries[resting].order.quantity == 0;
      if erased {
        assert filled[1..] == opposite[1..];
        EraseFront(b, !isBuy);
      }
      finished := pool.entries[incoming].order.quantity == 0;
      if finished {
        ReleaseHeld(incoming);
      }
    }

    /** The matching loop: it refines the functional rule, and its index is 0 at every test. */
    method MatchLoop(b: nat, isBuy: bool, incoming: nat) returns (finished: bool)
      requires Sound() && b < BOOK_COUNT
      requires incoming < |places| && places[incoming] == Held && pool.entries[incoming].order.isBuy == isBuy
      modifies Repr()
      ensures Sound() && history == old(history)
      ensures var sweep := Match(old(Books())[b].Side(!isBuy), old(pool.entries[incoming].order));
              && finished == sweep.finished
              && Books() == WithQueue(old(Books()), b, !isBuy, sweep.opposite)
              && |pool.chain| == |old(pool.chain)| + sweep.released
              && reports == old(reports) + sweep.reports
              && (!finished ==> places[incoming] == Held && pool.entries[incoming].order == sweep.incoming)
    {
      ghost var start, order := Books(), pool.entries[incoming].order;
      ghost var opposite := start[b].Side(!isBuy);
      ghost var goal := Match(opposite, order);
      ghost var done: seq<Report>, freed: nat := [], 0;
      assert goal == goal.After([], 0);
      WithQueueTwice(start, b, !isBuy, opposite, opposite);
      var i := 0;
      while i < |books[b].Side(!isBuy)|
        invariant i == 0
        invariant Sound() && history == old(history)
        invariant places[incoming] == Held
        invariant pool.entries[incoming].order.isBuy == isBuy
        invariant Books() == WithQueue(start, b, !isBuy, opposite)
        invariant goal == Match(opposite, pool.entries[incoming].order).After(done, freed)
        invariant reports == old(reports) + done && |pool.chain| == |old(pool.chain)| + freed
        decreases |opposite|
      {
        var resting := books[b].Side(!isBuy)[i];
        FrontSlot(places, pool.entries[..], pool.chain, books[..], b, !isBuy, start, opposite);
        ghost var inc, front := pool.entries[incoming].order, opposite[0];
        if (isBuy && pool.entries[incoming].order.price >= pool.entries[resting].order.price)
           || (!isBuy && pool.entries[incoming].order.price <= pool.entries[resting].order.price)
        {
          ghost var fill := Min(inc.quantity, front.quantity);
          MatchTurns(opposite, inc, done, freed);
          ReportsAssociate(old(reports), done, FillReports(Cut(inc, fill), Cut(front, fill), fill));
          WithQueueTwice(start, b, !isBuy, opposite, AfterFill(opposite, fill));
          var erased, exhausted := CrossingTurn(b, isBuy, incoming);
          done := done + FillReports(Cut(inc, fill), Cut(front, fill), fill);
          opposite := AfterFill(opposite, fill);
          freed := freed + (if erased then 1 else 0);
          if !erased {
            i := i + 1;
          }
          if exhausted {
            assert goal.finished && goal.opposite == opposite && goal.reports == done && goal.released == freed + 1;
            return true;
          }
        } else {
          break;
        }
      }
      FrontSlot(places, pool.entries[..], pool.chain, books[..], b, !isBuy, start, opposite);
      MatchStops(opposite, pool.entries[incoming].order, done, freed);
      return false;
    }

    /** The whole of one submission that got a slot: the loop, and what is left joins its own side. */
    method MatchOrder(b: nat, incoming: nat)
      requires Sound() && b < BOOK_COUNT
      requires incoming < |places| && places[incoming] == Held
      modifies Repr()
      ensures Sound() && history == old(history)
      ensures var out := Submit(old(Books())[b], old(pool.entries[incoming].order));
              && Books() == old(Books())[b := out.book]
              && |pool.chain| == |old(pool.chain)| + out.freed
              && reports == old(reports) + out.reports
    {
      var isBuy := pool.entries[incoming].order.isBuy;
      var finished := MatchLoop(b, isBuy, incoming);
      if finished {
        return;
      }
      if pool.entries[incoming].order.quantity > 0 {
        PushBack(b, isBuy, incoming);
      }
    }
  }
}
