/** The book's test scenarios replayed against the model. */
module Scenarios {
  import opened OrderRecord
  import opened BookSide
  import opened Matching
  import opened Engine

  /** An empty book reports the invalid order on both sides and cancels nothing. */
  method EmptyBook() returns (cancelled: bool)
    ensures !cancelled
  {
    var book := new Orderbook();
    assert book.GetMaxBid() == Invalid() && book.GetMinAsk() == Invalid();
    cancelled := book.CancelOrder(1, 1);
  }

  /** Submits a new order that does not cross the opposite side: it is
      accepted, trades nothing and rests, stamped with the next timestamp. */
  method AddPassive(book: Orderbook, order: Order) returns (ok: bool, placed: Order)
    requires book.Valid() && Key(order) !in book.placedOrders && order.size > 0
    requires var opp := book.Resting(Opposite(order.side));
      |opp| == 0 || !Crosses(order, opp[0])
    modifies book
    ensures ok && book.Valid() && book.timestamp == old(book.timestamp) + 1
    ensures placed == order.(timestamp := book.timestamp)
    ensures book.Resting(order.side) == Insert(order.side, old(book.Resting(order.side)), placed).0
    ensures book.Resting(Opposite(order.side)) == old(book.Resting(Opposite(order.side)))
    ensures book.placedOrders == old(book.placedOrders)[Key(order) := placed]
  {
    var stamped := order.(timestamp := book.timestamp + 1);
    if |book.Resting(Opposite(order.side))| > 0 {
      NoCrossNoTrade(stamped, book.Resting(Opposite(order.side)));
    }
    var fills;
    ok, placed, fills := book.AddOrder(order);
  }

  /** An order strictly better than the best of its side, which does not
      cross, goes to the front of its side. */
  method AddAtFront(book: Orderbook, order: Order) returns (placed: Order)
    requires book.Valid() && Key(order) !in book.placedOrders && order.size > 0
    requires var opp := book.Resting(Opposite(order.side));
      |opp| == 0 || !Crosses(order, opp[0])
    requires var own := book.Resting(order.side);
      |own| == 0 || (order.side == Sell && order.price < own[0].price)
                 || (order.side == Buy && order.price > own[0].price)
    modifies book
    ensures book.Valid() && book.timestamp == old(book.timestamp) + 1
    ensures placed == order.(timestamp := book.timestamp)
    ensures order.side == Sell ==> book.asks == [placed] + old(book.asks) && book.bids == old(book.bids)
    ensures order.side == Buy ==> book.bids == [placed] + old(book.bids) && book.asks == old(book.asks)
    ensures book.placedOrders == old(book.placedOrders)[Key(order) := placed]
  {
    ghost var own := book.Resting(order.side);
    var ok;
    ok, placed := AddPassive(book, order);
    if |own| == 0 {
      assert [placed] + own == [placed];
    } else {
      assert Before(order.side, placed, own[0]);
      assert Insert(order.side, own, placed) == ([placed] + own, true);
    }
  }

  /** An order priced no better than any order of its side, which does not
      cross, queues at the back of its side: it is the newest order. */
  method AddAtBack(book: Orderbook, order: Order) returns (placed: Order)
    requires book.Valid() && Key(order) !in book.placedOrders && order.size > 0
    requires var opp := book.Resting(Opposite(order.side));
      |opp| == 0 || !Crosses(order, opp[0])
    requires var own := book.Resting(order.side);
      forall i :: 0 <= i < |own| ==>
        (order.side == Sell ==> own[i].price <= order.price) && (order.side == Buy ==> own[i].price >= order.price)
    modifies book
    ensures book.Valid() && book.timestamp == old(book.timestamp) + 1
    ensures placed == order.(timestamp := book.timestamp)
    ensures order.side == Sell ==> book.asks == old(book.asks) + [placed] && book.bids == old(book.bids)
    ensures order.side == Buy ==> book.bids == old(book.bids) + [placed] && book.asks == old(book.asks)
    ensures book.placedOrders == old(book.placedOrders)[Key(order) := placed]
  {
    ghost var own := book.Resting(order.side);
    ghost var stamped := order.(timestamp := book.timestamp + 1);
    assert SideValid(order.side, own, book.placedOrders, book.timestamp);
    forall i | 0 <= i < |own| ensures Before(order.side, own[i], stamped) {
      assert own[i] in own;
    }
    InsertAtBack(order.side, own, stamped);
    var ok;
    ok, placed := AddPassive(book, order);
  }

  /** An order that does not cross, priced no better than the first i
      orders of its side and strictly better than the order at i, takes
      position i of its side. */
  method AddBetween(book: Orderbook, order: Order, i: nat) returns (placed: Order)
    requires book.Valid() && Key(order) !in book.placedOrders && order.size > 0
    requires var opp := book.Resting(Opposite(order.side));
      |opp| == 0 || !Crosses(order, opp[0])
    requires var own := book.Resting(order.side);
      && i <= |own|
      && (forall j :: 0 <= j < i ==>
            (order.side == Sell ==> own[j].price <= order.price) && (order.side == Buy ==> own[j].price >= order.price))
      && (i < |own| ==> (order.side == Sell && order.price < own[i].price)
                        || (order.side == Buy && order.price > own[i].price))
    modifies book
    ensures book.Valid() && book.timestamp == old(book.timestamp) + 1
    ensures placed == order.(timestamp := book.timestamp)
    ensures order.side == Sell ==>
      book.asks == old(book.asks)[..i] + [placed] + old(book.asks)[i..] && book.bids == old(book.bids)
    ensures order.side == Buy ==>
      book.bids == old(book.bids)[..i] + [placed] + old(book.bids)[i..] && book.asks == old(book.asks)
    ensures book.placedOrders == old(book.placedOrders)[Key(order) := placed]
  {
    ghost var own := book.Resting(order.side);
    ghost var stamped := order.(timestamp := book.timestamp + 1);
    assert SideValid(order.side, own, book.placedOrders, book.timestamp);
    forall j | 0 <= j < i ensures Before(order.side, own[j], stamped) {
      assert own[j] in own;
    }
    InsertBetween(order.side, own, i, stamped);
    var ok;
    ok, placed := AddPassive(book, order);
  }

  /** An order of exactly the size of the best opposite order, which crosses
      it, trades it away in full in one fill at its price and does not rest;
      the index keeps nothing new. */
  method TradeTop(book: Orderbook, order: Order) returns (fills: seq<Fill>)
    requires book.Valid() && Key(order) !in book.placedOrders
    requires var opp := book.Resting(Opposite(order.side));
      |opp| > 0 && !IsInvalid(opp[0]) && Crosses(order, opp[0]) && opp[0].size == order.size
    modifies book
    ensures book.Valid() && book.timestamp == old(book.timestamp) + 1
    ensures var top := old(book.Resting(Opposite(order.side)))[0];
      fills == [Fill(top, order.(timestamp := book.timestamp), top.price, order.size)]
    ensures order.side == Sell ==> book.bids == old(book.bids)[1..] && book.asks == old(book.asks)
    ensures order.side == Buy ==> book.asks == old(book.asks)[1..] && book.bids == old(book.bids)
    ensures book.placedOrders == old(book.placedOrders)
  {
    ghost var opp := book.Resting(Opposite(order.side));
    assert SideValid(Opposite(order.side), opp, book.placedOrders, book.timestamp);
    assert opp[0] in opp;
    var stamped := order.(timestamp := book.timestamp + 1);
    var step := ConsumeHead(stamped, opp);
    assert step.more && step.order.size == 0 && step.book == opp[1..];
    assert MatchAgainst(step.order, step.book) == MatchOutcome(true, step.order, step.book, []);
    var ok, placed;
    ok, placed, fills := book.AddOrder(order);
  }

  /** Adding an order that does not cross and then cancelling it restores
      both sides, so the tops are as they were before the add. */
  method AddThenCancel(book: Orderbook, order: Order) returns (cancelled: bool)
    requires book.Valid() && Key(order) !in book.placedOrders && order.size > 0
    requires var opp := book.Resting(Opposite(order.side));
      |opp| == 0 || !Crosses(order, opp[0])
    modifies book
    ensures book.Valid() && cancelled
    ensures book.asks == old(book.asks) && book.bids == old(book.bids)
    ensures book.GetMinAsk() == old(book.GetMinAsk()) && book.GetMaxBid() == old(book.GetMaxBid())
  {
    ghost var own := book.Resting(order.side);
    var added, placed := AddPassive(book, order);
    assert !HasKey(own, placed) by {
      forall o | o in own ensures !SameKey(o, placed) {
      }
    }
    InsertThenErase(order.side, own, placed);
    InsertFacts(order.side, own, placed);
    assert placed in multiset(book.Resting(order.side));
    assert placed in book.asks + book.bids;
    cancelled := book.CancelOrder(order.clientId, order.orderId);
  }

  /** The first four orders rest without trading, each at the back of its
      price, and the oldest order at the best price is the top of each side. */
  method AddRestingOrders() returns (book: Orderbook, results: seq<bool>)
    ensures results == [true, true, true, true]
    ensures fresh(book) && book.Valid() && book.timestamp == 4
    ensures book.bids == [Order(Buy, 1, 100, 100, 1, 1), Order(Buy, 3, 100, 100, 2, 2)]
    ensures book.asks == [Order(Sell, 2, 110, 100, 2, 1), Order(Sell, 4, 110, 100, 1, 2)]
    ensures forall k :: k in book.placedOrders ==> k.1 <= 2
    ensures Key(book.GetMaxBid()) == (1, 1) && Key(book.GetMinAsk()) == (2, 1)
  {
    book := new Orderbook();
    var ok1, placed := AddPassive(book, MakeOrder(Buy, 1, 1, 100, 100));
    var ok2;
    ok2, placed := AddPassive(book, MakeOrder(Sell, 2, 1, 110, 100));
    assert book.GetMaxBid().price == 100 && book.GetMaxBid().size == 100;
    assert book.GetMinAsk().price == 110 && book.GetMinAsk().size == 100;
    var ok3, ok4;
    ok3, placed := AddPassive(book, MakeOrder(Buy, 2, 2, 100, 100));
    ok4, placed := AddPassive(book, MakeOrder(Sell, 1, 2, 110, 100));
    results := [ok1, ok2, ok3, ok4];
  }

  /** A bid at 104 and an ask at 106 rest inside the spread and become the tops. */
  method AddInsideSpread(book: Orderbook) returns (bidAdded: bool, askAdded: bool)
    requires book.Valid()
    requires |book.bids| > 0 && book.bids[0].price < 104
    requires |book.asks| > 0 && book.asks[0].price > 106
    requires (2, 3) !in book.placedOrders && (1, 3) !in book.placedOrders
    modifies book
    ensures bidAdded && askAdded
    ensures book.Valid() && book.timestamp == old(book.timestamp) + 2
    ensures book.bids == [Order(Buy, old(book.timestamp) + 1, 104, 100, 2, 3)] + old(book.bids)
    ensures book.asks == [Order(Sell, old(book.timestamp) + 2, 106, 100, 1, 3)] + old(book.asks)
    ensures (2, 3) in book.placedOrders && (1, 3) in book.placedOrders
    ensures forall k :: k in book.placedOrders ==> k in old(book.placedOrders) || k == (2, 3) || k == (1, 3)
    ensures book.GetMaxBid().price == 104 && book.GetMaxBid().size == 100
    ensures book.GetMinAsk().price == 106 && book.GetMinAsk().size == 100
  {
    var bid;
    bidAdded, bid := AddPassive(book, MakeOrder(Buy, 2, 3, 104, 100));
    assert Insert(Buy, old(book.bids), bid) == ([bid] + old(book.bids), true);
    var ask;
    askAdded, ask := AddPassive(book, MakeOrder(Sell, 1, 3, 106, 100));
    assert Insert(Sell, old(book.asks), ask) == ([ask] + old(book.asks), true);
  }

  /** A bid at 105 rests and a sell at 105 then trades it in full: one fill
      of 100 at 105, both sides end as they were, and the consumed bid stays
      in the index. */
  method DirectMatch(book: Orderbook) returns (bidAdded: bool, sellAdded: bool, fills: seq<Fill>)
    requires book.Valid()
    requires |book.bids| > 0 && book.bids[0].price < 105
    requires |book.asks| > 0 && book.asks[0].price > 105
    requires (2, 4) !in book.placedOrders && (1, 4) !in book.placedOrders
    modifies book
    ensures bidAdded && sellAdded
    ensures book.Valid() && book.timestamp == old(book.timestamp) + 2
    ensures book.bids == old(book.bids) && book.asks == old(book.asks)
    ensures var bid := Order(Buy, old(book.timestamp) + 1, 105, 100, 2, 4);
      && book.placedOrders == old(book.placedOrders)[(2, 4) := bid]
      && fills == [Fill(bid, Order(Sell, old(book.timestamp) + 2, 105, 100, 1, 4), 105, 100)]
  {
    var bid;
    bidAdded, bid := AddPassive(book, MakeOrder(Buy, 2, 4, 105, 100));
    assert Insert(Buy, old(book.bids), bid) == ([bid] + old(book.bids), true);
    var sell := MakeOrder(Sell, 1, 4, 105, 100).(timestamp := book.timestamp + 1);
    var step := ConsumeHead(sell, book.bids);
    assert step.more && step.order.size == 0 && step.book == old(book.bids);
    assert MatchAgainst(step.order, step.book) == MatchOutcome(true, step.order, step.book, []);
    var placed;
    sellAdded, placed, fills := book.AddOrder(MakeOrder(Sell, 1, 4, 105, 100));
  }

  /** A bid at 100 and an ask at 110, prices no better than any resting
      order of their sides, queue at the back of their sides. */
  method AddBehindLevels(book: Orderbook)
    requires book.Valid()
    requires forall i :: 0 <= i < |book.bids| ==> book.bids[i].price >= 100
    requires forall i :: 0 <= i < |book.asks| ==> book.asks[i].price <= 110
    requires |book.bids| > 0 && book.bids[0].price < 110
    requires |book.asks| > 0 && book.asks[0].price > 100
    requires (2, 5) !in book.placedOrders && (1, 5) !in book.placedOrders
    modifies book
    ensures book.Valid() && book.timestamp == old(book.timestamp) + 2
    ensures book.bids == old(book.bids) + [Order(Buy, old(book.timestamp) + 1, 100, 100, 2, 5)]
    ensures book.asks == old(book.asks) + [Order(Sell, old(book.timestamp) + 2, 110, 100, 1, 5)]
    ensures (2, 5) in book.placedOrders && (1, 5) in book.placedOrders
    ensures forall k :: k in book.placedOrders ==> k in old(book.placedOrders) || k == (2, 5) || k == (1, 5)
  {
    var bidAdded, bid := AddPassive(book, MakeOrder(Buy, 2, 5, 100, 100));
    InsertAtBack(Buy, old(book.bids), bid);
    var askAdded, ask := AddPassive(book, MakeOrder(Sell, 1, 5, 110, 100));
    InsertAtBack(Sell, old(book.asks), ask);
  }

  /** The six orders both the add and the cancel scenarios start with. */
  method SixOrders() returns (book: Orderbook)
    ensures fresh(book) && book.Valid() && book.timestamp == 6
    ensures book.bids == [Order(Buy, 5, 104, 100, 2, 3), Order(Buy, 1, 100, 100, 1, 1),
                          Order(Buy, 3, 100, 100, 2, 2)]
    ensures book.asks == [Order(Sell, 6, 106, 100, 1, 3), Order(Sell, 2, 110, 100, 2, 1),
                          Order(Sell, 4, 110, 100, 1, 2)]
    ensures forall k :: k in book.placedOrders ==> k.1 <= 3
  {
    var results;
    book, results := AddRestingOrders();
    var bidAdded, askAdded := AddInsideSpread(book);
  }

  /** The add scenario: after the direct match of the seventh and eighth
      orders the tops are again the 104 bid and the 106 ask. */
  method AddScenario() returns (book: Orderbook, fills: seq<Fill>)
    ensures fresh(book) && book.Valid() && book.timestamp == 8
    ensures fills == [Fill(Order(Buy, 7, 105, 100, 2, 4), Order(Sell, 8, 105, 100, 1, 4), 105, 100)]
    ensures book.GetMaxBid() == Order(Buy, 5, 104, 100, 2, 3)
    ensures book.GetMinAsk() == Order(Sell, 6, 106, 100, 1, 3)
  {
    book := SixOrders();
    var bidAdded, sellAdded;
    bidAdded, sellAdded, fills := DirectMatch(book);
  }

  /** The first eight submissions of the cancel scenario: the six common
      orders and one more order queued behind each side. */
  method EightOrders() returns (book: Orderbook)
    ensures fresh(book) && book.Valid() && book.timestamp == 8
    ensures book.bids == [Order(Buy, 5, 104, 100, 2, 3), Order(Buy, 1, 100, 100, 1, 1),
                          Order(Buy, 3, 100, 100, 2, 2), Order(Buy, 7, 100, 100, 2, 5)]
    ensures book.asks == [Order(Sell, 6, 106, 100, 1, 3), Order(Sell, 2, 110, 100, 2, 1),
                          Order(Sell, 4, 110, 100, 1, 2), Order(Sell, 8, 110, 100, 1, 5)]
    ensures (2, 4) !in book.placedOrders && (1, 4) !in book.placedOrders
  {
    book := SixOrders();
    assert book.bids[0].price == 104 && book.asks[0].price == 106;
    AddBehindLevels(book);
  }

  /** The orders of the cancel scenario: ten submissions, of which the last
      trades the ninth away in full. */
  method CancelSetup() returns (book: Orderbook)
    ensures fresh(book) && book.Valid() && book.timestamp == 10
    ensures book.bids == [Order(Buy, 5, 104, 100, 2, 3), Order(Buy, 1, 100, 100, 1, 1),
                          Order(Buy, 3, 100, 100, 2, 2), Order(Buy, 7, 100, 100, 2, 5)]
    ensures book.asks == [Order(Sell, 6, 106, 100, 1, 3), Order(Sell, 2, 110, 100, 2, 1),
                          Order(Sell, 4, 110, 100, 1, 2), Order(Sell, 8, 110, 100, 1, 5)]
    ensures (2, 4) in book.placedOrders && book.placedOrders[(2, 4)] == Order(Buy, 9, 105, 100, 2, 4)
  {
    book := EightOrders();
    var bidAdded, sellAdded, fills := DirectMatch(book);
  }

  /** Cancels the resting order at position i of a side: the cancel succeeds
      and removes exactly that order. */
  method CancelAt(book: Orderbook, side: Side, i: nat) returns (ok: bool)
    requires book.Valid() && i < |book.Resting(side)|
    modifies book
    ensures book.Valid() && ok
    ensures book.Resting(side) == old(book.Resting(side)[..i] + book.Resting(side)[i + 1..])
    ensures book.Resting(Opposite(side)) == old(book.Resting(Opposite(side)))
  {
    var o := book.Resting(side)[i];
    assert o in book.asks + book.bids;
    ok := book.CancelOrder(o.clientId, o.orderId);
  }

  /** Cancels an identity no resting order has: the cancel fails and neither
      side changes. */
  method CancelAbsent(book: Orderbook, clientId: int, orderId: int) returns (ok: bool)
    requires book.Valid()
    requires forall i :: 0 <= i < |book.asks| ==> Key(book.asks[i]) != (clientId, orderId)
    requires forall i :: 0 <= i < |book.bids| ==> Key(book.bids[i]) != (clientId, orderId)
    modifies book
    ensures book.Valid() && !ok
    ensures book.asks == old(book.asks) && book.bids == old(book.bids)
  {
    ok := book.CancelOrder(clientId, orderId);
  }

  /** The cancel scenario: the two identities of the direct match no longer
      rest, so their cancels fail and the tops stay at 104 and 106; every
      resting order then cancels, in pairs, until both sides are empty. */
  method CancelScenario() returns (results: seq<bool>)
    ensures results == [false, false, true, true, true, true, true, true, true, true]
  {
    var book := CancelSetup();
    var ok1, ok2 := CancelMatched(book);
    var ok3, ok4 := CancelInsideSpread(book);
    var ok5, ok6 := CancelSecondQueued(book);
    var ok7, ok8 := CancelFirstQueued(book);
    var ok9, ok10 := CancelLastOrders(book);
    results := [ok1, ok2, ok3, ok4, ok5, ok6, ok7, ok8, ok9, ok10];
  }

  /** Cancels the two identities of the direct match: the bid rests no more
      and the ask never rested, so both cancels fail, and the tops stay at
      104 and 106. */
  method CancelMatched(book: Orderbook) returns (first: bool, second: bool)
    requires book.Valid()
    requires book.bids == [Order(Buy, 5, 104, 100, 2, 3), Order(Buy, 1, 100, 100, 1, 1), Order(Buy, 3, 100, 100, 2, 2), Order(Buy, 7, 100, 100, 2, 5)]
    requires book.asks == [Order(Sell, 6, 106, 100, 1, 3), Order(Sell, 2, 110, 100, 2, 1), Order(Sell, 4, 110, 100, 1, 2), Order(Sell, 8, 110, 100, 1, 5)]
    modifies book
    ensures book.Valid() && !first && !second
    ensures book.bids == old(book.bids) && book.asks == old(book.asks)
    ensures book.GetMaxBid() == Order(Buy, 5, 104, 100, 2, 3) && book.GetMinAsk() == Order(Sell, 6, 106, 100, 1, 3)
  {
    first := CancelAbsent(book, 2, 4);
    second := CancelAbsent(book, 1, 4);
  }

  /** Cancels the 106 ask and the 104 bid, the inside of the spread; the oldest orders at 100 and 110 become the tops. */
  method CancelInsideSpread(book: Orderbook) returns (first: bool, second: bool)
    requires book.Valid()
    requires book.bids == [Order(Buy, 5, 104, 100, 2, 3), Order(Buy, 1, 100, 100, 1, 1), Order(Buy, 3, 100, 100, 2, 2), Order(Buy, 7, 100, 100, 2, 5)]
    requires book.asks == [Order(Sell, 6, 106, 100, 1, 3), Order(Sell, 2, 110, 100, 2, 1), Order(Sell, 4, 110, 100, 1, 2), Order(Sell, 8, 110, 100, 1, 5)]
    modifies book
    ensures book.Valid() && first && second
    ensures book.bids == [Order(Buy, 1, 100, 100, 1, 1), Order(Buy, 3, 100, 100, 2, 2), Order(Buy, 7, 100, 100, 2, 5)]
    ensures book.asks == [Order(Sell, 2, 110, 100, 2, 1), Order(Sell, 4, 110, 100, 1, 2), Order(Sell, 8, 110, 100, 1, 5)]
    ensures book.GetMaxBid() == Order(Buy, 1, 100, 100, 1, 1) && book.GetMinAsk() == Order(Sell, 2, 110, 100, 2, 1)
  {
    first := CancelAt(book, Sell, 0);
    second := CancelAt(book, Buy, 0);
  }

  /** Cancels the second order queued at each of 110 and 100; the tops stay. */
  method CancelSecondQueued(book: Orderbook) returns (first: bool, second: bool)
    requires book.Valid()
    requires book.bids == [Order(Buy, 1, 100, 100, 1, 1), Order(Buy, 3, 100, 100, 2, 2), Order(Buy, 7, 100, 100, 2, 5)]
    requires book.asks == [Order(Sell, 2, 110, 100, 2, 1), Order(Sell, 4, 110, 100, 1, 2), Order(Sell, 8, 110, 100, 1, 5)]
    modifies book
    ensures book.Valid() && first && second
    ensures book.bids == [Order(Buy, 1, 100, 100, 1, 1), Order(Buy, 7, 100, 100, 2, 5)]
    ensures book.asks == [Order(Sell, 2, 110, 100, 2, 1), Order(Sell, 8, 110, 100, 1, 5)]
    ensures book.GetMaxBid() == Order(Buy, 1, 100, 100, 1, 1) && book.GetMinAsk() == Order(Sell, 2, 110, 100, 2, 1)
  {
    first := CancelAt(book, Sell, 1);
    second := CancelAt(book, Buy, 1);
  }

  /** Cancels the first order queued at each of 100 and 110; the orders queued behind them become the tops. */
  method CancelFirstQueued(book: Orderbook) returns (first: bool, second: bool)
    requires book.Valid()
    requires book.bids == [Order(Buy, 1, 100, 100, 1, 1), Order(Buy, 7, 100, 100, 2, 5)]
    requires book.asks == [Order(Sell, 2, 110, 100, 2, 1), Order(Sell, 8, 110, 100, 1, 5)]
    modifies book
    ensures book.Valid() && first && second
    ensures book.bids == [Order(Buy, 7, 100, 100, 2, 5)]
    ensures book.asks == [Order(Sell, 8, 110, 100, 1, 5)]
    ensures book.GetMaxBid() == Order(Buy, 7, 100, 100, 2, 5) && book.GetMinAsk() == Order(Sell, 8, 110, 100, 1, 5)
  {
    first := CancelAt(book, Buy, 0);
    second := CancelAt(book, Sell, 0);
  }

  /** Cancels the last ask and the last bid; both sides are empty and report the invalid order. */
  method CancelLastOrders(book: Orderbook) returns (first: bool, second: bool)
    requires book.Valid()
    requires book.bids == [Order(Buy, 7, 100, 100, 2, 5)]
    requires book.asks == [Order(Sell, 8, 110, 100, 1, 5)]
    modifies book
    ensures book.Valid() && first && second
    ensures book.bids == []
    ensures book.asks == []
    ensures book.GetMaxBid() == Invalid() && book.GetMinAsk() == Invalid()
  {
    first := CancelAt(book, Sell, 0);
    second := CancelAt(book, Buy, 0);
  }

  /** Flushing a book with one bid and one ask empties it: both tops report
      the invalid order and cancels of the flushed identities fail. */
  method FlushScenario() returns (first: bool, second: bool)
    ensures !first && !second
  {
    var book := new Orderbook();
    var bidAdded, bid := AddPassive(book, MakeOrder(Buy, 1, 1, 100, 100));
    var askAdded, ask := AddPassive(book, MakeOrder(Sell, 2, 2, 102, 100));
    assert book.GetMaxBid() == Order(Buy, 1, 100, 100, 1, 1);
    assert book.GetMinAsk() == Order(Sell, 2, 102, 100, 2, 2);
    book.Flush();
    assert book.GetMaxBid() == Invalid() && book.GetMinAsk() == Invalid();
    first := book.CancelOrder(1, 1);
    second := book.CancelOrder(2, 2);
  }

  /** A sell that crosses a larger resting buy fills once at the buy's price;
      the buy goes back at the front of its side with the rest of its size. */
  method PartialFill() returns (book: Orderbook, fills: seq<Fill>)
    ensures fresh(book) && book.Valid()
    ensures fills == [Fill(Order(Buy, 1, 90, 100, 1, 1), Order(Sell, 2, 90, 30, 2, 101), 90, 30)]
    ensures book.bids == [Order(Buy, 1, 90, 70, 1, 1)] && book.asks == []
  {
    book := new Orderbook();
    var bidAdded, bid := AddPassive(book, MakeOrder(Buy, 1, 1, 90, 100));
    var sell := MakeOrder(Sell, 2, 101, 90, 30).(timestamp := 2);
    ReinsertHead(Buy, book.bids, bid.(size := 70));
    assert book.bids[1..] == [];
    var ok, placed;
    ok, placed, fills := book.AddOrder(MakeOrder(Sell, 2, 101, 90, 30));
  }

  /** The first three asks of the market-order scenario, each cheaper than
      the one before, so each goes to the front. */
  method ThreeAsks() returns (book: Orderbook)
    ensures fresh(book) && book.Valid() && book.timestamp == 3 && book.bids == []
    ensures book.asks == [Order(Sell, 3, 98, 30, 1, 3), Order(Sell, 2, 99, 30, 1, 2),
                          Order(Sell, 1, 100, 20, 1, 1)]
    ensures forall k :: k in book.placedOrders ==> k.0 == 1 && k.1 <= 3
  {
    book := new Orderbook();
    var added, x := AddPassive(book, MakeOrder(Sell, 1, 1, 100, 20));
    ghost var s := book.asks;
    added, x := AddPassive(book, MakeOrder(Sell, 1, 2, 99, 30));
    InsertAtFront(Sell, s, x);
    s := book.asks;
    added, x := AddPassive(book, MakeOrder(Sell, 1, 3, 98, 30));
    InsertAtFront(Sell, s, x);
  }

  /** The fourth ask, at 97, also goes to the front. */
  method FourAsks() returns (book: Orderbook)
    ensures fresh(book) && book.Valid() && book.timestamp == 4 && book.bids == []
    ensures book.asks == [Order(Sell, 4, 97, 40, 1, 4), Order(Sell, 3, 98, 30, 1, 3),
                          Order(Sell, 2, 99, 30, 1, 2), Order(Sell, 1, 100, 20, 1, 1)]
    ensures forall k :: k in book.placedOrders ==> k.0 == 1 && k.1 <= 4
  {
    book := ThreeAsks();
    ghost var s := book.asks;
    var added, x := AddPassive(book, MakeOrder(Sell, 1, 4, 97, 40));
    InsertAtFront(Sell, s, x);
  }

  /** Five asks of the market-order scenario: cheapest first, and the two at
      98 in arrival order. */
  method FiveAsks() returns (book: Orderbook)
    ensures fresh(book) && book.Valid() && book.timestamp == 5 && book.bids == []
    ensures book.asks == [Order(Sell, 4, 97, 40, 1, 4), Order(Sell, 3, 98, 30, 1, 3),
                          Order(Sell, 5, 98, 40, 1, 5), Order(Sell, 2, 99, 30, 1, 2),
                          Order(Sell, 1, 100, 20, 1, 1)]
    ensures forall k :: k in book.placedOrders ==> k.0 == 1
  {
    book := FourAsks();
    ghost var s := book.asks;
    var added, x := AddPassive(book, MakeOrder(Sell, 1, 5, 98, 40));
    InsertAtFront(Sell, s[2..], x);
    assert Insert(Sell, s[1..], x) == ([s[1]] + ([x] + s[2..]), true);
    assert Insert(Sell, s, x) == ([s[0]] + ([s[1]] + ([x] + s[2..])), true);
  }

  /** A buy larger than all resting asks, crossing each of them, against a
      book with no bids: it consumes every ask in full, in book order, and
      its remainder becomes the only bid. */
  method SweepAsks(book: Orderbook, order: Order) returns (ok: bool, fills: seq<Fill>)
    requires book.Valid() && order.side == Buy && book.bids == []
    requires Key(order) !in book.placedOrders
    requires forall i :: 0 <= i < |book.asks| ==> Crosses(order, book.asks[i])
    requires order.size > Volume(book.asks)
    modifies book
    ensures book.Valid() && ok && book.asks == [] && book.timestamp == old(book.timestamp) + 1
    ensures book.bids == [order.(timestamp := book.timestamp, size := order.size - Volume(old(book.asks)))]
    ensures |fills| == |old(book.asks)|
    ensures forall i :: 0 <= i < |fills| ==>
      fills[i].bookOrder == old(book.asks)[i] && fills[i].quantity == old(book.asks)[i].size
  {
    var stamped := order.(timestamp := book.timestamp + 1);
    forall i | 0 <= i < |book.asks|
      ensures book.asks[i].size > 0 && !IsInvalid(book.asks[i]) && Crosses(stamped, book.asks[i])
    {
      assert book.asks[i] in book.asks;
    }
    MatchSweepsBook(stamped, book.asks);
    MatchConservesIncoming(stamped, book.asks);
    var rest := stamped.(size := order.size - Volume(book.asks));
    ghost var r := MatchAgainst(stamped, book.asks);
    assert !r.filled && r.book == [] && r.order == rest;
    assert Insert(Buy, [], rest) == ([rest], true);
    var placed;
    ok, placed, fills := book.AddOrder(order);
  }

  /** The market-order scenario: a market buy of 1000 against 160 resting
      sells consumes all five, cheapest first and FIFO at 98, and the 840
      left over rests as a bid at price 0. */
  method MarketSweep() returns (book: Orderbook, ok: bool, fills: seq<Fill>)
    ensures fresh(book) && book.Valid() && ok
    ensures |fills| == 5
    ensures [fills[0].bookOrder.orderId, fills[1].bookOrder.orderId, fills[2].bookOrder.orderId,
             fills[3].bookOrder.orderId, fills[4].bookOrder.orderId] == [4, 3, 5, 2, 1]
    ensures [fills[0].quantity, fills[1].quantity, fills[2].quantity,
             fills[3].quantity, fills[4].quantity] == [40, 30, 40, 30, 20]
    ensures book.asks == [] && book.GetMinAsk() == Invalid()
    ensures book.bids == [Order(Buy, 6, 0, 840, 2, 1)]
  {
    book := FiveAsks();
    var asks := book.asks;
    assert Volume(asks[5..]) == 0;
    assert Volume(asks[4..]) == 20;
    assert Volume(asks[3..]) == 50;
    assert Volume(asks[2..]) == 90;
    assert Volume(asks[1..]) == 120;
    assert Volume(asks) == 160;
    ok, fills := SweepAsks(book, MakeOrder(Buy, 2, 1, 0, 1000));
  }
}
