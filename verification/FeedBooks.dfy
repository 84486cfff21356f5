/**
 The market-data book of one product: each side is a list of orders, kept sorted best price first and cut to a
 fixed depth after every update. Prices are reals; equal prices may come in any order.
 */
module FeedBooks {

  datatype Order = Order(id: nat, price: real, quantity: nat)

  /** Price a is no worse than price b on a side; `side` is true for bids. */
  predicate NoWorse(side: bool, a: real, b: real) {
    if side then a >= b else a <= b
  }

  ghost predicate Sorted(side: bool, book: seq<Order>) {
    forall i, j :: 0 <= i < j < |book| ==> NoWorse(side, book[i].price, book[j].price)
  }

  ghost predicate UniqueIds(book: seq<Order>) {
    forall i, j :: 0 <= i < j < |book| ==> book[i].id != book[j].id
  }

  /** The first position with that id, or the length. */
  function Find(book: seq<Order>, id: nat): (k: nat)
    ensures k <= |book|
    ensures k < |book| ==> book[k].id == id
    ensures forall i :: 0 <= i < k ==> book[i].id != id
  {
    if book == [] || book[0].id == id then 0 else 1 + Find(book[1..], id)
  }

  /** The order replaces the version with its id, or joins at the end. */
  function Place(book: seq<Order>, order: Order): seq<Order> {
    var k := Find(book, order.id);
    if k < |book| then book[k := order] else book + [order]
  }

  function Shown(depth: nat, sorted: seq<Order>): seq<Order> {
    if |sorted| > depth then sorted[..depth] else sorted
  }

  /** Some sorting of the updated list, cut to the depth: what `upsert` may leave. */
  ghost predicate Upserted(side: bool, depth: nat, book: seq<Order>, order: Order, book': seq<Order>) {
    exists sorted ::
      && Sorted(side, sorted) && multiset(sorted) == multiset(Place(book, order))
      && book' == Shown(depth, sorted)
  }

  /**
   The book shows the best orders: what it does not show is no better than anything it shows, and it leaves
   something out only when it is full.
   */
  ghost predicate ShowsBest(side: bool, depth: nat, book: seq<Order>, hidden: seq<Order>, all: seq<Order>) {
    && UniqueIds(book + hidden) && UniqueIds(all)
    && (forall x :: x in all <==> x in book || x in hidden)
    && (forall b, h :: b in book && h in hidden ==> NoWorse(side, b.price, h.price))
    && |book| <= depth && (hidden != [] ==> |book| == depth)
    && Sorted(side, book)
  }

  ghost predicate IsBest(side: bool, depth: nat, book: seq<Order>, all: seq<Order>) {
    exists hidden :: ShowsBest(side, depth, book, hidden, all)
  }

  // ---------- lists with unique ids ----------

  lemma PlaceMembers(book: seq<Order>, order: Order)
    requires UniqueIds(book)
    ensures UniqueIds(Place(book, order))
    ensures forall x :: x in Place(book, order) <==> x == order || (x in book && x.id != order.id)
  {
    var k, placed := Find(book, order.id), Place(book, order);
    forall x | x == order || (x in book && x.id != order.id)
      ensures x in placed
    {
      if x == order {
        assert placed[k] == order;
      } else {
        var i :| 0 <= i < |book| && book[i] == x;
        assert placed[i] == x;
      }
    }
  }

  lemma {:induction false} UniqueIdsCountOne(s: seq<Order>, x: Order)
    requires UniqueIds(s)
    ensures multiset(s)[x] == if x in s then 1 else 0
  {
    if s != [] {
      var n := |s| - 1;
      assert s == s[..n] + [s[n]];
      UniqueIdsCountOne(s[..n], x);
    }
  }

  lemma SameMembersSameMultiset(s: seq<Order>, t: seq<Order>)
    requires UniqueIds(s) && UniqueIds(t)
    requires forall x :: x in s <==> x in t
    ensures multiset(s) == multiset(t)
  {
    forall x: Order
      ensures multiset(s)[x] == multiset(t)[x]
    {
      UniqueIdsCountOne(s, x);
      UniqueIdsCountOne(t, x);
    }
  }

  lemma TwoPlacesCountTwo(t: seq<Order>, i: nat, j: nat)
    requires i < j < |t|
    ensures t[i] == t[j] ==> multiset(t)[t[i]] >= 2
  {
    assert t == t[..j] + [t[j]] + t[j + 1..];
    assert t[i] in t[..j];
  }

  lemma UniqueConcat(a: seq<Order>, b: seq<Order>)
    ensures UniqueIds(a + b) <==>
            UniqueIds(a) && UniqueIds(b) && (forall x, y :: x in a && y in b ==> x.id != y.id)
  {
    if UniqueIds(a + b) {
      forall x, y | x in a && y in b
        ensures x.id != y.id
      {
        var i :| 0 <= i < |a| && a[i] == x;
        var j :| 0 <= j < |b| && b[j] == y;
        assert (a + b)[i] == x && (a + b)[|a| + j] == y;
      }
      forall i, j | 0 <= i < j < |a|
        ensures a[i].id != a[j].id
      {
        assert (a + b)[i] == a[i] && (a + b)[j] == a[j];
      }
      forall i, j | 0 <= i < j < |b|
        ensures b[i].id != b[j].id
      {
        assert (a + b)[|a| + i] == b[i] && (a + b)[|a| + j] == b[j];
      }
    }
  }

  /** Sorting keeps ids unique. */
  lemma PermutationKeepsIds(s: seq<Order>, t: seq<Order>)
    requires UniqueIds(s) && multiset(s) == multiset(t)
    ensures UniqueIds(t)
    ensures forall x :: x in s <==> x in t
    ensures |s| == |t|
  {
    forall x
      ensures x in s <==> x in t
    {
      assert x in s <==> x in multiset(s);
      assert x in t <==> x in multiset(t);
    }
    assert |s| == |multiset(s)| == |multiset(t)| == |t|;
    forall i, j | 0 <= i < j < |t|
      ensures t[i].id != t[j].id
    {
      assert t[i] in s && t[j] in s;
      UniqueIdsCountOne(s, t[i]);
      TwoPlacesCountTwo(t, i, j);
    }
  }

  // ---------- one step ----------

  function DropId(orders: seq<Order>, id: nat): seq<Order> {
    if orders == [] then []
    else (if orders[0].id == id then [] else [orders[0]]) + DropId(orders[1..], id)
  }

  lemma {:induction false} DropIdMembers(orders: seq<Order>, id: nat)
    ensures forall x :: x in DropId(orders, id) <==> x in orders && x.id != id
    ensures |DropId(orders, id)| <= |orders|
  {
    if orders != [] {
      DropIdMembers(orders[1..], id);
      assert forall x :: x in orders <==> x == orders[0] || x in orders[1..];
      assert forall x :: x in [orders[0]] + DropId(orders[1..], id) <==> x == orders[0] || x in DropId(orders[1..], id);
    }
  }

  lemma UniqueCons(x: Order, rest: seq<Order>)
    requires UniqueIds(rest) && forall y :: y in rest ==> y.id != x.id
    ensures UniqueIds([x] + rest)
  {
  }

  lemma {:induction false} DropIdUnique(orders: seq<Order>, id: nat)
    requires UniqueIds(orders)
    ensures UniqueIds(DropId(orders, id))
  {
    if orders != [] {
      var rest := DropId(orders[1..], id);
      DropIdUnique(orders[1..], id);
      if orders[0].id != id {
        forall y | y in rest
          ensures y.id != orders[0].id
        {
          DropIdMembers(orders[1..], id);
          assert y in orders[1..];
        }
        UniqueCons(orders[0], rest);
      }
    }
  }

  /** An upsert of an order that the book shows must not fall behind a hidden order. */
  ghost predicate StaysAhead(side: bool, book: seq<Order>, hidden: seq<Order>, order: Order) {
    Find(book, order.id) < |book| ==> forall h :: h in hidden ==> NoWorse(side, order.price, h.price)
  }

  /** What is hidden after the step: what was hidden under other ids, and what the cut removed. */
  function HiddenAfter(depth: nat, hidden: seq<Order>, order: Order, sorted: seq<Order>): seq<Order> {
    DropId(hidden, order.id) + CutOff(depth, sorted)
  }

  lemma SplitMembers(a: seq<Order>, b: seq<Order>)
    ensures forall x :: x in a + b <==> x in a || x in b
  {
  }

  function CutOff(depth: nat, sorted: seq<Order>): seq<Order> {
    if |sorted| > depth then sorted[depth..] else []
  }

  /** Sorting the updated list: its members, and that the cut splits it. */
  lemma SortedMembers(depth: nat, book: seq<Order>, order: Order, sorted: seq<Order>)
    requires UniqueIds(book) && multiset(sorted) == multiset(Place(book, order))
    ensures UniqueIds(sorted) && sorted == Shown(depth, sorted) + CutOff(depth, sorted)
    ensures forall x :: x in sorted <==> x == order || (x in book && x.id != order.id)
    ensures forall x :: x in sorted <==> x in Shown(depth, sorted) || x in CutOff(depth, sorted)
  {
    assert UniqueIds(sorted) && forall x :: x in sorted <==> x == order || (x in book && x.id != order.id) by {
      PlaceMembers(book, order);
      PermutationKeepsIds(Place(book, order), sorted);
    }
    ShownAndCutOff(depth, sorted);
  }

  lemma ShownAndCutOff(depth: nat, sorted: seq<Order>)
    ensures sorted == Shown(depth, sorted) + CutOff(depth, sorted)
    ensures forall x :: x in sorted <==> x in Shown(depth, sorted) || x in CutOff(depth, sorted)
  {
    SplitMembers(Shown(depth, sorted), CutOff(depth, sorted));
  }

  lemma HiddenMembers(depth: nat, hidden: seq<Order>, order: Order, sorted: seq<Order>)
    ensures forall x :: x in HiddenAfter(depth, hidden, order, sorted) <==>
                        (x in hidden && x.id != order.id) || x in CutOff(depth, sorted)
  {
    DropIdMembers(hidden, order.id);
    SplitMembers(DropId(hidden, order.id), CutOff(depth, sorted));
  }

  lemma StepUniqueIds(depth: nat, book: seq<Order>, hidden: seq<Order>, order: Order, sorted: seq<Order>)
    requires UniqueIds(book + hidden)
    requires multiset(sorted) == multiset(Place(book, order))
    ensures UniqueIds(Shown(depth, sorted) + HiddenAfter(depth, hidden, order, sorted))
  {
    var shown, cut, kept := Shown(depth, sorted), CutOff(depth, sorted), DropId(hidden, order.id);
    UniqueConcat(book, hidden);
    SortedMembers(depth, book, order, sorted);
    DropIdMembers(hidden, order.id);
    DropIdUnique(hidden, order.id);
    HiddenMembers(depth, hidden, order, sorted);
    UniqueConcat(shown, cut);
    UniqueConcat(kept, cut);
    UniqueConcat(shown, kept + cut);
  }

  /** What is shown and hidden after a step are together the latest versions. */
  lemma StepMembers(depth: nat, book: seq<Order>, hidden: seq<Order>, all: seq<Order>, order: Order, sorted: seq<Order>)
    requires UniqueIds(book) && UniqueIds(all) && (forall x :: x in all <==> x in book || x in hidden)
    requires multiset(sorted) == multiset(Place(book, order))
    ensures UniqueIds(Place(all, order))
    ensures forall x :: x in Place(all, order) <==> x in Shown(depth, sorted) || x in HiddenAfter(depth, hidden, order, sorted)
  {
    SortedMembers(depth, book, order, sorted);
    HiddenMembers(depth, hidden, order, sorted);
    PlaceMembers(all, order);
  }

  /** The book stays within its depth, and is full if anything is hidden. */
  lemma StepFillsDepth(depth: nat, book: seq<Order>, hidden: seq<Order>, order: Order, sorted: seq<Order>)
    requires |book| <= depth && (hidden != [] ==> |book| == depth)
    requires multiset(sorted) == multiset(Place(book, order))
    ensures |Shown(depth, sorted)| <= depth
    ensures HiddenAfter(depth, hidden, order, sorted) != [] ==> |Shown(depth, sorted)| == depth
  {
    DropIdMembers(hidden, order.id);
    assert |sorted| == |multiset(sorted)| == |multiset(Place(book, order))| == |Place(book, order)|;
  }

  /** An order that joins a full book and is shown beats everything hidden: it beats the order it pushes out. */
  lemma NewcomerBeatsHidden(side: bool, depth: nat, book: seq<Order>, hidden: seq<Order>, order: Order,
                            sorted: seq<Order>, i: nat, h: Order)
    requires UniqueIds(book) && |book| == depth && Find(book, order.id) == |book|
    requires forall b :: b in book ==> NoWorse(side, b.price, h.price)
    requires Sorted(side, sorted) && multiset(sorted) == multiset(Place(book, order))
    requires i < |sorted| && i < depth && sorted[i] == order
    ensures NoWorse(side, order.price, h.price)
  {
    SortedMembers(depth, book, order, sorted);
    assert |sorted| == |multiset(sorted)| == |multiset(Place(book, order))| == depth + 1;
    var last := sorted[depth];
    assert last in sorted && last in book;
    assert NoWorse(side, sorted[i].price, last.price) && NoWorse(side, last.price, h.price);
  }

  /** What stays hidden is beaten by everything shown after the step. */
  lemma ShownBeatsHidden(side: bool, depth: nat, book: seq<Order>, hidden: seq<Order>, order: Order,
                         sorted: seq<Order>, i: nat, h: Order)
    requires UniqueIds(book) && |book| == depth && StaysAhead(side, book, hidden, order) && h in hidden
    requires forall b :: b in book ==> NoWorse(side, b.price, h.price)
    requires Sorted(side, sorted) && multiset(sorted) == multiset(Place(book, order))
    requires i < |sorted| && i < depth
    ensures NoWorse(side, sorted[i].price, h.price)
  {
    SortedMembers(depth, book, order, sorted);
    assert sorted[i] in sorted;
    if sorted[i] == order && Find(book, order.id) == |book| {
      NewcomerBeatsHidden(side, depth, book, hidden, order, sorted, i, h);
    }
  }

  lemma StepStaysAhead(side: bool, depth: nat, book: seq<Order>, hidden: seq<Order>, order: Order,
                       sorted: seq<Order>, i: nat, h: Order)
    requires UniqueIds(book) && (hidden != [] ==> |book| == depth) && StaysAhead(side, book, hidden, order)
    requires forall b, h :: b in book && h in hidden ==> NoWorse(side, b.price, h.price)
    requires Sorted(side, sorted) && multiset(sorted) == multiset(Place(book, order))
    requires i < |Shown(depth, sorted)| && h in HiddenAfter(depth, hidden, order, sorted)
    ensures NoWorse(side, Shown(depth, sorted)[i].price, h.price)
  {
    HiddenMembers(depth, hidden, order, sorted);
    if h in CutOff(depth, sorted) {
      ShownBeatsCut(side, depth, sorted, i, h);
    } else {
      ShownBeatsHidden(side, depth, book, hidden, order, sorted, i, h);
    }
  }

  lemma ShownBeatsCut(side: bool, depth: nat, sorted: seq<Order>, i: nat, h: Order)
    requires Sorted(side, sorted) && i < |Shown(depth, sorted)| && h in CutOff(depth, sorted)
    ensures NoWorse(side, Shown(depth, sorted)[i].price, h.price)
  {
    var j :| 0 <= j < |CutOff(depth, sorted)| && CutOff(depth, sorted)[j] == h;
    assert sorted[depth + j] == h;
  }

  lemma ShownStaysAhead(side: bool, depth: nat, book: seq<Order>, hidden: seq<Order>, order: Order, sorted: seq<Order>)
    requires UniqueIds(book) && (hidden != [] ==> |book| == depth) && StaysAhead(side, book, hidden, order)
    requires forall b, h :: b in book && h in hidden ==> NoWorse(side, b.price, h.price)
    requires Sorted(side, sorted) && multiset(sorted) == multiset(Place(book, order))
    ensures forall b, h :: b in Shown(depth, sorted) && h in HiddenAfter(depth, hidden, order, sorted) ==>
                             NoWorse(side, b.price, h.price)
  {
    forall b, h | b in Shown(depth, sorted) && h in HiddenAfter(depth, hidden, order, sorted)
      ensures NoWorse(side, b.price, h.price)
    {
      var i :| 0 <= i < |Shown(depth, sorted)| && Shown(depth, sorted)[i] == b;
      StepStaysAhead(side, depth, book, hidden, order, sorted, i, h);
    }
  }

  lemma StepKeepsBest(side: bool, depth: nat, book: seq<Order>, hidden: seq<Order>, all: seq<Order>,
                      order: Order, sorted: seq<Order>)
    requires ShowsBest(side, depth, book, hidden, all) && StaysAhead(side, book, hidden, order)
    requires Sorted(side, sorted) && multiset(sorted) == multiset(Place(book, order))
    ensures ShowsBest(side, depth, Shown(depth, sorted), HiddenAfter(depth, hidden, order, sorted), Place(all, order))
  {
    StepUniqueIds(depth, book, hidden, order, sorted);
    UniqueConcat(book, hidden);
    StepMembers(depth, book, hidden, all, order, sorted);
    StepFillsDepth(depth, book, hidden, order, sorted);
    ShownStaysAhead(side, depth, book, hidden, order, sorted);
  }

  /** If a shown order falls behind a hidden one, the book no longer shows the best. */
  lemma FallingBehindBreaks(side: bool, depth: nat, book: seq<Order>, hidden: seq<Order>, all: seq<Order>,
                            order: Order, book': seq<Order>)
    requires ShowsBest(side, depth, book, hidden, all) && !StaysAhead(side, book, hidden, order)
    requires Upserted(side, depth, book, order, book')
    ensures !IsBest(side, depth, book', Place(all, order))
  {
    var h :| h in hidden && !NoWorse(side, order.price, h.price);
    UniqueConcat(book, hidden);
    PlaceMembers(book, order);
    PlaceMembers(all, order);
    var sorted :| Sorted(side, sorted) && multiset(sorted) == multiset(Place(book, order))
                  && book' == Shown(depth, sorted);
    PermutationKeepsIds(Place(book, order), sorted);
    var k := Find(book, order.id);
    assert book[k] in book && h.id != order.id;
    assert h in Place(all, order) && order in book' && h !in book';
  }

  /**
   One upsert keeps the book the best of everything upserted exactly when, if the order is already shown, its new
   price is no worse than that of any hidden order.
   */
  lemma UpsertKeepsBestIff(side: bool, depth: nat, book: seq<Order>, hidden: seq<Order>, all: seq<Order>,
                           order: Order, book': seq<Order>)
    requires ShowsBest(side, depth, book, hidden, all) && Upserted(side, depth, book, order, book')
    ensures IsBest(side, depth, book', Place(all, order)) <==> StaysAhead(side, book, hidden, order)
  {
    if StaysAhead(side, book, hidden, order) {
      var sorted :| Sorted(side, sorted) && multiset(sorted) == multiset(Place(book, order))
                    && book' == Shown(depth, sorted);
      StepKeepsBest(side, depth, book, hidden, all, order, sorted);
    } else {
      FallingBehindBreaks(side, depth, book, hidden, all, order, book');
    }
  }

  // ---------- in terms of prices ----------

  /** Best first: bids from the highest price down, asks from the lowest price up. */
  lemma SortedByPrice(book: seq<Order>)
    ensures Sorted(true, book) <==> forall i, j :: 0 <= i < j < |book| ==> book[i].price >= book[j].price
    ensures Sorted(false, book) <==> forall i, j :: 0 <= i < j < |book| ==> book[i].price <= book[j].price
  {
  }

  lemma SamePermutationMember(s: seq<Order>, t: seq<Order>, x: Order)
    requires multiset(s) == multiset(t) && x in s
    ensures x in t
  {
    assert x in multiset(s) && x in multiset(t);
  }

  /** An upsert cuts only from a full side, and nothing it cuts is dearer (bids) or cheaper (asks) than what it leaves. */
  lemma UpsertCutsWorst(side: bool, depth: nat, book: seq<Order>, order: Order, book': seq<Order>, x: Order)
    requires Upserted(side, depth, book, order, book') && x in Place(book, order) && x !in book'
    ensures |book'| == depth
    ensures forall b :: b in book' ==> if side then b.price >= x.price else b.price <= x.price
  {
    var sorted :| Sorted(side, sorted) && multiset(sorted) == multiset(Place(book, order))
                  && book' == Shown(depth, sorted);
    SamePermutationMember(Place(book, order), sorted, x);
    ShownAndCutOff(depth, sorted);
    forall b | b in book'
      ensures if side then b.price >= x.price else b.price <= x.price
    {
      var i :| 0 <= i < |book'| && book'[i] == b;
      ShownBeatsCut(side, depth, sorted, i, x);
    }
  }

  /** A best book starts with the highest bid, or the lowest ask, of all; and what it leaves out beats nothing it shows. */
  lemma BestByPrice(side: bool, depth: nat, book: seq<Order>, all: seq<Order>, x: Order)
    requires IsBest(side, depth, book, all) && x in all
    ensures depth > 0 ==> book != [] && if side then book[0].price >= x.price else book[0].price <= x.price
    ensures x !in book ==> |book| == depth
    ensures x !in book ==> forall b :: b in book ==> if side then b.price >= x.price else b.price <= x.price
  {
    var hidden :| ShowsBest(side, depth, book, hidden, all);
    if x in book {
      var i :| 0 <= i < |book| && book[i] == x;
      assert i > 0 ==> NoWorse(side, book[0].price, book[i].price);
    } else {
      assert x in hidden;
      assert |book| == depth;
      assert depth > 0 ==> book[0] in book;
    }
  }

  // ---------- a removal ----------

  lemma {:induction false} DropIdAbsent(book: seq<Order>, id: nat)
    requires Find(book, id) == |book|
    ensures DropId(book, id) == book
  {
    if book != [] {
      DropIdAbsent(book[1..], id);
    }
  }

  lemma {:induction false} DropIdShown(book: seq<Order>, id: nat)
    requires UniqueIds(book) && Find(book, id) < |book|
    ensures |DropId(book, id)| == |book| - 1
  {
    if book[0].id != id {
      DropIdShown(book[1..], id);
    } else {
      assert forall i :: 0 <= i < |book[1..]| ==> book[1..][i].id != id;
      DropIdAbsent(book[1..], id);
    }
  }

  /** The one order with that id is gone, and the others keep their order; nothing happens if there is none. */
  ghost predicate TakenOut(book: seq<Order>, id: nat, book': seq<Order>) {
    && (forall k :: 0 <= k < |book| && book[k].id == id ==> book' == book[..k] + book[k + 1..])
    && ((forall k :: 0 <= k < |book| ==> book[k].id != id) ==> book' == book)
  }

  lemma DropIdTakesOut(book: seq<Order>, id: nat)
    requires UniqueIds(book)
    ensures TakenOut(book, id, DropId(book, id))
  {
    if forall k :: 0 <= k < |book| ==> book[k].id != id {
      assert Find(book, id) == |book|;
      DropIdAbsent(book, id);
    }
    forall k | 0 <= k < |book| && book[k].id == id
      ensures DropId(book, id) == book[..k] + book[k + 1..]
    {
      DropIdAt(book, id, k);
    }
  }

  lemma {:induction false} DropIdAt(book: seq<Order>, id: nat, k: nat)
    requires UniqueIds(book) && k < |book| && book[k].id == id
    ensures DropId(book, id) == book[..k] + book[k + 1..]
    decreases k
  {
    if k == 0 {
      FirstHasOwnId(book);
      DropIdAbsent(book[1..], id);
    } else {
      DropIdAt(book[1..], id, k - 1);
      CutBehindFirst(book, k);
    }
  }

  lemma FirstHasOwnId(book: seq<Order>)
    requires UniqueIds(book) && book != []
    ensures Find(book[1..], book[0].id) == |book[1..]|
  {
    assert forall i :: 0 <= i < |book[1..]| ==> book[1..][i].id != book[0].id;
  }

  lemma CutBehindFirst(book: seq<Order>, k: nat)
    requires 0 < k < |book|
    ensures book[..k] + book[k + 1..] == [book[0]] + (book[1..][..k - 1] + book[1..][k..])
  {
  }

  lemma RemovalKeepsBest(side: bool, depth: nat, book: seq<Order>, hidden: seq<Order>, all: seq<Order>, id: nat)
    requires ShowsBest(side, depth, book, hidden, all)
    requires Find(book, id) == |book| || hidden == []
    ensures ShowsBest(side, depth, DropId(book, id), DropId(hidden, id), DropId(all, id))
  {
    UniqueConcat(book, hidden);
    DropIdMembers(book, id);
    DropIdMembers(hidden, id);
    DropIdMembers(all, id);
    DropIdUnique(book, id);
    DropIdUnique(hidden, id);
    DropIdUnique(all, id);
    UniqueConcat(DropId(book, id), DropId(hidden, id));
    DropIdKeepsOrder(side, book, id);
    if Find(book, id) == |book| {
      DropIdAbsent(book, id);
    }
  }

  lemma RemovalBreaksBest(side: bool, depth: nat, book: seq<Order>, hidden: seq<Order>, all: seq<Order>, id: nat)
    requires ShowsBest(side, depth, book, hidden, all)
    requires Find(book, id) < |book| && hidden != []
    ensures !IsBest(side, depth, DropId(book, id), DropId(all, id))
  {
    UniqueConcat(book, hidden);
    DropIdShown(book, id);
    DropIdMembers(book, id);
    DropIdMembers(all, id);
    var h, b := hidden[0], book[Find(book, id)];
    assert h in hidden && b in book;
    assert h in DropId(all, id) && h !in DropId(book, id);
  }

  /** One removal keeps the book the best of what is left exactly when it takes nothing shown, or nothing is hidden. */
  lemma RemovalKeepsBestIff(side: bool, depth: nat, book: seq<Order>, hidden: seq<Order>, all: seq<Order>, id: nat)
    requires ShowsBest(side, depth, book, hidden, all)
    ensures IsBest(side, depth, DropId(book, id), DropId(all, id)) <==> Find(book, id) == |book| || hidden == []
  {
    if Find(book, id) == |book| || hidden == [] {
      RemovalKeepsBest(side, depth, book, hidden, all, id);
    } else {
      RemovalBreaksBest(side, depth, book, hidden, all, id);
    }
  }

  lemma UpsertedIsTidy(side: bool, depth: nat, book: seq<Order>, order: Order, book': seq<Order>)
    requires UniqueIds(book) && Upserted(side, depth, book, order, book')
    ensures Sorted(side, book') && UniqueIds(book') && |book'| <= depth
  {
    var sorted :| Sorted(side, sorted) && multiset(sorted) == multiset(Place(book, order))
                  && book' == Shown(depth, sorted);
    PlaceMembers(book, order);
    PermutationKeepsIds(Place(book, order), sorted);
  }

  lemma {:induction false} DropIdKeepsOrder(side: bool, book: seq<Order>, id: nat)
    requires Sorted(side, book)
    ensures Sorted(side, DropId(book, id))
  {
    if book != [] {
      DropIdKeepsOrder(side, book[1..], id);
      DropIdMembers(book[1..], id);
      var rest := DropId(book[1..], id);
      forall j | 0 <= j < |rest|
        ensures NoWorse(side, book[0].price, rest[j].price)
      {
        assert rest[j] in book[1..];
      }
    }
  }

  // ---------- the price ladder ----------

  function Prices(orders: seq<Order>): seq<real> {
    seq(|orders|, i requires 0 <= i < |orders| => orders[i].price)
  }

  function Insert(side: bool, order: Order, sorted: seq<Order>): seq<Order> {
    if sorted == [] || NoWorse(side, order.price, sorted[0].price) then [order] + sorted
    else [sorted[0]] + Insert(side, order, sorted[1..])
  }

  function SortOrders(side: bool, orders: seq<Order>): seq<Order> {
    if orders == [] then [] else Insert(side, orders[0], SortOrders(side, orders[1..]))
  }

  lemma {:induction false} InsertAdds(side: bool, order: Order, sorted: seq<Order>)
    ensures multiset(Insert(side, order, sorted)) == multiset{order} + multiset(sorted)
  {
    if sorted != [] {
      InsertAdds(side, order, sorted[1..]);
      assert sorted == [sorted[0]] + sorted[1..];
    }
  }

  lemma SortedCons(side: bool, head: Order, rest: seq<Order>)
    requires Sorted(side, rest) && forall x :: x in rest ==> NoWorse(side, head.price, x.price)
    ensures Sorted(side, [head] + rest)
  {
  }

  lemma {:induction false} InsertSorts(side: bool, order: Order, sorted: seq<Order>)
    requires Sorted(side, sorted)
    ensures Sorted(side, Insert(side, order, sorted))
  {
    if sorted != [] && !NoWorse(side, order.price, sorted[0].price) {
      var rest := Insert(side, order, sorted[1..]);
      InsertSorts(side, order, sorted[1..]);
      InsertAdds(side, order, sorted[1..]);
      forall x | x in rest
        ensures NoWorse(side, sorted[0].price, x.price)
      {
        assert x in multiset(rest);
        assert x == order || x in sorted[1..];
      }
      SortedCons(side, sorted[0], rest);
    }
  }

  lemma {:induction false} SortOrdersSorts(side: bool, orders: seq<Order>)
    ensures Sorted(side, SortOrders(side, orders)) && multiset(SortOrders(side, orders)) == multiset(orders)
  {
    if orders != [] {
      SortOrdersSorts(side, orders[1..]);
      InsertSorts(side, orders[0], SortOrders(side, orders[1..]));
      InsertAdds(side, orders[0], SortOrders(side, orders[1..]));
      assert orders == [orders[0]] + orders[1..];
    }
  }

  lemma WithoutAt(t: seq<Order>, k: nat)
    requires k < |t|
    ensures multiset(t) == multiset(t[..k] + t[k + 1..]) + multiset{t[k]}
    ensures multiset(Prices(t)) == multiset(Prices(t[..k] + t[k + 1..])) + multiset{t[k].price}
  {
    assert t == t[..k] + [t[k]] + t[k + 1..];
    assert Prices(t) == Prices(t[..k]) + [t[k].price] + Prices(t[k + 1..]);
    assert Prices(t[..k] + t[k + 1..]) == Prices(t[..k]) + Prices(t[k + 1..]);
  }

  lemma Cancel(a: multiset<Order>, b: multiset<Order>, x: Order)
    requires a + multiset{x} == b + multiset{x}
    ensures a == b
  {
    assert a == (a + multiset{x}) - multiset{x} && b == (b + multiset{x}) - multiset{x};
  }

  lemma {:induction false} PricesPermute(s: seq<Order>, t: seq<Order>)
    requires multiset(s) == multiset(t)
    ensures multiset(Prices(s)) == multiset(Prices(t))
    decreases |s|
  {
    if s == [] {
      assert |multiset(t)| == 0;
    } else {
      assert s[0] in multiset(t);
      var k :| 0 <= k < |t| && t[k] == s[0];
      WithoutFront(s, t, k);
      PricesPermute(s[1..], t[..k] + t[k + 1..]);
    }
  }

  lemma WithoutFront(s: seq<Order>, t: seq<Order>, k: nat)
    requires multiset(s) == multiset(t) && s != [] && k < |t| && t[k] == s[0]
    ensures var rest := t[..k] + t[k + 1..];
            && multiset(s[1..]) == multiset(rest)
            && multiset(Prices(s)) == multiset(Prices(s[1..])) + multiset{s[0].price}
            && multiset(Prices(t)) == multiset(Prices(rest)) + multiset{s[0].price}
  {
    WithoutAt(s, 0);
    WithoutAt(t, k);
    assert s[..0] + s[1..] == s[1..];
    Cancel(multiset(s[1..]), multiset(t[..k] + t[k + 1..]), s[0]);
  }

  ghost predicate SortedPrices(side: bool, prices: seq<real>) {
    forall i, j :: 0 <= i < j < |prices| ==> NoWorse(side, prices[i], prices[j])
  }

  lemma HeadsAgree(side: bool, s: seq<real>, t: seq<real>)
    requires SortedPrices(side, s) && SortedPrices(side, t) && multiset(s) == multiset(t) && s != [] && t != []
    ensures s[0] == t[0]
  {
    assert s[0] in multiset(t) && t[0] in multiset(s);
    assert s[0] in t && t[0] in s;
  }

  lemma TailsAgree(s: seq<real>, t: seq<real>)
    requires s != [] && t != [] && s[0] == t[0] && multiset(s) == multiset(t)
    ensures multiset(s[1..]) == multiset(t[1..])
  {
    assert s == [s[0]] + s[1..] && t == [t[0]] + t[1..];
    assert multiset(s[1..]) == multiset(s) - multiset{s[0]};
    assert multiset(t[1..]) == multiset(t) - multiset{t[0]};
  }

  /** There is only one way to list the same prices in order. */
  lemma {:induction false} SortedPricesAreUnique(side: bool, s: seq<real>, t: seq<real>)
    requires SortedPrices(side, s) && SortedPrices(side, t) && multiset(s) == multiset(t)
    ensures s == t
  {
    assert |s| == |multiset(s)| == |multiset(t)| == |t|;
    if s != [] {
      HeadsAgree(side, s, t);
      TailsAgree(s, t);
      SortedPricesAreUnique(side, s[1..], t[1..]);
      assert s == [s[0]] + s[1..] && t == [t[0]] + t[1..];
    }
  }

  lemma SortedTogether(side: bool, book: seq<Order>, hidden: seq<Order>, tail: seq<Order>)
    requires Sorted(side, book) && Sorted(side, tail) && multiset(tail) == multiset(hidden)
    requires forall b, h :: b in book && h in hidden ==> NoWorse(side, b.price, h.price)
    ensures Sorted(side, book + tail)
  {
    forall h | h in tail
      ensures h in hidden
    {
      assert h in multiset(tail);
    }
  }

  lemma ShownAndHiddenAreAll(side: bool, depth: nat, book: seq<Order>, hidden: seq<Order>, all: seq<Order>)
    requires ShowsBest(side, depth, book, hidden, all)
    ensures multiset(all) == multiset(book) + multiset(hidden)
    ensures |all| == |book| + |hidden|
  {
    SplitMembers(book, hidden);
    SameMembersSameMultiset(book + hidden, all);
    assert |all| == |multiset(all)| == |multiset(book + hidden)| == |book + hidden|;
  }

  /** A book that shows the best shows exactly the front of the full price ladder, as deep as it goes. */
  lemma BestIsFrontOfLadder(side: bool, depth: nat, book: seq<Order>, all: seq<Order>, ladder: seq<Order>)
    requires IsBest(side, depth, book, all)
    requires Sorted(side, ladder) && multiset(ladder) == multiset(all)
    ensures |book| == (if |all| < depth then |all| else depth) <= |ladder|
    ensures Prices(book) == Prices(ladder)[..|book|]
  {
    var hidden :| ShowsBest(side, depth, book, hidden, all);
    var tail := SortOrders(side, hidden);
    SortOrdersSorts(side, hidden);
    ShownAndHiddenAreAll(side, depth, book, hidden, all);
    assert multiset(book + tail) == multiset(all);
    SortedTogether(side, book, hidden, tail);
    PricesPermute(book + tail, ladder);
    SortedPricesAreUnique(side, Prices(book + tail), Prices(ladder));
    assert Prices(book + tail)[..|book|] == Prices(book);
    assert |tail| == |multiset(hidden)| == |hidden|;
  }
}
