/** The matching engine of one instrument: the asks and bids sets, the index
    of placed orders by (clientId, orderId), and the arrival clock that stamps
    every accepted order. */
module Engine {
  import opened OrderRecord
  import opened BookSide
  import opened Matching

  /** The placed-orders index: identity to the order as it was placed. */
  type Index = map<(int, int), Order>

  /** A resting side is a set in comparator order of live orders of that
      side, each stamped no later than the clock and indexed under its
      identity with the same side, price, timestamp and ids. */
  ghost predicate SideValid(side: Side, s: seq<Order>, index: Index, clock: nat)
  {
    && Sorted(side, s)
    && AllPositive(s)
    && forall o :: o in s ==>
         o.side == side && o.timestamp <= clock && Key(o) in index && SamePlacement(index[Key(o)], o)
  }

  /** Every index entry is filed under its own identity and stamped no later than the clock. */
  ghost predicate IndexValid(index: Index, clock: nat)
  {
    forall k :: k in index ==> Key(index[k]) == k && index[k].timestamp <= clock
  }

  lemma SideValidLaterClock(side: Side, s: seq<Order>, index: Index, clock: nat, later: nat)
    requires SideValid(side, s, index, clock) && clock <= later
    ensures SideValid(side, s, index, later)
  {
  }

  /** Indexing an identity that no resting order has keeps a side valid. */
  lemma SideValidIndexAdd(side: Side, s: seq<Order>, index: Index, clock: nat, x: Order)
    requires SideValid(side, s, index, clock) && Key(x) !in index
    ensures SideValid(side, s, index[Key(x) := x], clock)
  {
  }

  /** Matching leaves the opposite side valid against the same index and clock. */
  lemma SideValidAfterMatch(order: Order, book: seq<Order>, index: Index, clock: nat)
    requires SideValid(Opposite(order.side), book, index, clock)
    ensures SideValid(Opposite(order.side), MatchAgainst(order, book).book, index, clock)
  {
    MatchKeepsSide(order, book);
    var r := MatchAgainst(order, book);
    forall o | o in r.book
      ensures o.side == Opposite(order.side) && o.timestamp <= clock
      ensures Key(o) in index && SamePlacement(index[Key(o)], o)
    {
      var p :| p in book && SamePlacement(p, o);
      assert Key(p) == Key(o);
    }
  }

  /** Resting a newly stamped order: the insertion succeeds, because no resting
      order carries its timestamp, and the side stays valid once it is indexed. */
  lemma RestNewOrder(side: Side, s: seq<Order>, index: Index, clock: nat, x: Order)
    requires SideValid(side, s, index, clock) && Key(x) !in index
    requires x.side == side && x.size > 0 && x.timestamp == clock + 1
    ensures Insert(side, s, x).1
    ensures SideValid(side, Insert(side, s, x).0, index[Key(x) := x], clock + 1)
  {
    InsertFacts(side, s, x);
    assert !HasKey(s, x) by {
      forall o | o in s ensures !SameKey(o, x) {
      }
    }
    var t := Insert(side, s, x).0;
    forall o | o in t ensures o in s || o == x {
      assert o in multiset(t);
    }
    SideValidIndexAdd(side, s, index, clock, x);
    SideValidLaterClock(side, s, index[Key(x) := x], clock, clock + 1);
  }

  /** Resting the residual of an accepted order keeps both sides and the
      index valid at the advanced clock. */
  lemma RestResidual(x: Order, own: seq<Order>, opp: seq<Order>, index: Index, clock: nat)
    requires SideValid(x.side, own, index, clock) && SideValid(Opposite(x.side), opp, index, clock)
    requires IndexValid(index, clock)
    requires Key(x) !in index && x.size > 0 && x.timestamp == clock + 1
    ensures Insert(x.side, own, x).1
    ensures SideValid(x.side, Insert(x.side, own, x).0, index[Key(x) := x], clock + 1)
    ensures SideValid(Opposite(x.side), opp, index[Key(x) := x], clock + 1)
    ensures IndexValid(index[Key(x) := x], clock + 1)
  {
    RestNewOrder(x.side, own, index, clock, x);
    SideValidIndexAdd(Opposite(x.side), opp, index, clock, x);
    SideValidLaterClock(Opposite(x.side), opp, index[Key(x) := x], clock, clock + 1);
  }

  class Orderbook {
    var asks: seq<Order>
    var bids: seq<Order>
    var placedOrders: Index
    var timestamp: nat

    ghost predicate Valid()
      reads this
    {
      && SideValid(Sell, asks, placedOrders, timestamp)
      && SideValid(Buy, bids, placedOrders, timestamp)
      && IndexValid(placedOrders, timestamp)
    }

    /** The set where orders of `side` rest. */
    function Resting(side: Side): seq<Order>
      reads this
    {
      if side == Sell then asks else bids
    }

    /** Whether some resting order has this identity. */
    ghost predicate Rests(key: (int, int))
      reads this
    {
      exists o :: o in asks + bids && Key(o) == key
    }

    constructor ()
      ensures Valid()
      ensures asks == [] && bids == [] && placedOrders == map[] && timestamp == 0
    {
      asks := [];
      bids := [];
      placedOrders := map[];
      timestamp := 0;
    }

    /** Submits an order. A duplicate identity is rejected with no change.
        Otherwise the order is stamped with the next timestamp, crossed
        against the opposite side, and whatever is left of it rests on its own
        side and in the index. The result is true unless the identity was a
        duplicate; `fills` is the sequence of match callbacks and `placed` the
        submitted order after stamping and matching. */
    method AddOrder(order: Order) returns (ok: bool, placed: Order, fills: seq<Fill>)
      requires Valid()
      modifies this
      ensures Valid()
      ensures ok <==> Key(order) !in old(placedOrders)
      ensures !ok ==> && placed == order && fills == []
                      && asks == old(asks) && bids == old(bids)
                      && placedOrders == old(placedOrders) && timestamp == old(timestamp)
      ensures ok ==>
        var r := MatchAgainst(order.(timestamp := timestamp), old(Resting(Opposite(order.side))));
        && timestamp == old(timestamp) + 1
        && placed == r.order && fills == r.fills
        && Resting(Opposite(order.side)) == r.book
        && (r.filled ==> Resting(order.side) == old(Resting(order.side))
                         && placedOrders == old(placedOrders))
        && (!r.filled ==> Resting(order.side) == Insert(order.side, old(Resting(order.side)), r.order).0
                          && placedOrders == old(placedOrders)[Key(order) := r.order])
    {
      var key := Key(order);
      if key in placedOrders {
        return false, order, [];
      }
      ok, placed, fills := Submit(order);
    }

    /** The accepted path of AddOrder: stamp, match, and rest what is left. */
    method Submit(order: Order) returns (ok: bool, placed: Order, fills: seq<Fill>)
      requires Valid() && Key(order) !in placedOrders
      modifies this
      ensures Valid() && ok
      ensures var r := MatchAgainst(order.(timestamp := timestamp), old(Resting(Opposite(order.side))));
        && timestamp == old(timestamp) + 1
        && placed == r.order && fills == r.fills
        && Resting(Opposite(order.side)) == r.book
        && (r.filled ==> Resting(order.side) == old(Resting(order.side))
                         && placedOrders == old(placedOrders))
        && (!r.filled ==> Resting(order.side) == Insert(order.side, old(Resting(order.side)), r.order).0
                          && placedOrders == old(placedOrders)[Key(order) := r.order])
    {
      var matched;
      matched, placed, fills := StampAndMatch(order);
      if matched {
        SideValidLaterClock(Sell, asks, placedOrders, timestamp - 1, timestamp);
        SideValidLaterClock(Buy, bids, placedOrders, timestamp - 1, timestamp);
        return true, placed, fills;
      }
      ok := Rest(placed);
    }

    /** Stamps an accepted order with the next timestamp and crosses it
        against the opposite side; the book stays valid at the previous clock. */
    method StampAndMatch(order: Order) returns (matched: bool, placed: Order, fills: seq<Fill>)
      requires Valid() && Key(order) !in placedOrders
      modifies this
      ensures var r := MatchAgainst(order.(timestamp := timestamp), old(Resting(Opposite(order.side))));
        && timestamp == old(timestamp) + 1
        && matched == r.filled && placed == r.order && fills == r.fills
        && Resting(Opposite(order.side)) == r.book
      ensures Resting(order.side) == old(Resting(order.side)) && placedOrders == old(placedOrders)
      ensures placed.side == order.side && Key(placed) == Key(order) && placed.timestamp == timestamp
      ensures !matched ==> placed.size > 0
      ensures SideValid(Sell, asks, placedOrders, timestamp - 1)
      ensures SideValid(Buy, bids, placedOrders, timestamp - 1)
      ensures IndexValid(placedOrders, timestamp - 1)
    {
      ghost var clock := timestamp;
      ghost var own := Resting(order.side);
      ghost var opp := Resting(Opposite(order.side));
      ghost var r := MatchAgainst(order.(timestamp := clock + 1), opp);
      assert SideValid(order.side, own, placedOrders, clock);
      SideValidAfterMatch(order.(timestamp := clock + 1), opp, placedOrders, clock);
      MatchConservesIncoming(order.(timestamp := clock + 1), opp);
      placed := order.(timestamp := timestamp + 1);
      matched, placed, fills := Match(placed);
      if order.side == Sell {
        assert asks == own && bids == r.book;
      } else {
        assert bids == own && asks == r.book;
      }
      timestamp := timestamp + 1;
    }

    /** Rests an unfilled order on its own side and in the index: both inserts
        succeed, because the order carries the newest timestamp and its
        identity is not yet indexed. */
    method Rest(order: Order) returns (ok: bool)
      requires timestamp > 0 && order.timestamp == timestamp && order.size > 0
      requires Key(order) !in placedOrders
      requires SideValid(Sell, asks, placedOrders, timestamp - 1)
      requires SideValid(Buy, bids, placedOrders, timestamp - 1)
      requires IndexValid(placedOrders, timestamp - 1)
      modifies this
      ensures Valid() && ok
      ensures Resting(order.side) == Insert(order.side, old(Resting(order.side)), order).0
      ensures Resting(Opposite(order.side)) == old(Resting(Opposite(order.side)))
      ensures placedOrders == old(placedOrders)[Key(order) := order] && timestamp == old(timestamp)
    {
      var key := Key(order);
      RestResidual(order, Resting(order.side), Resting(Opposite(order.side)), placedOrders, timestamp - 1);
      var orderAdded := false;
      if order.side == Sell {
        var inserted := Insert(Sell, asks, order);
        asks := inserted.0;
        orderAdded := inserted.1;
      } else {
        var inserted := Insert(Buy, bids, order);
        bids := inserted.0;
        orderAdded := inserted.1;
      }
      var addedInPlacedOrders := key !in placedOrders;
      if addedInPlacedOrders {
        placedOrders := placedOrders[key := order];
      }
      ok := orderAdded && addedInPlacedOrders;
    }

    /** The crossing loop: consumes best opposite orders while the incoming
        order has size, the best order reads as valid and it crosses. Returns
        whether the incoming order is fully filled. */
    method Match(order: Order) returns (filled: bool, remaining: Order, fills: seq<Fill>)
      modifies this
      ensures var r := MatchAgainst(order, old(Resting(Opposite(order.side))));
        && filled == r.filled && remaining == r.order && fills == r.fills
        && Resting(Opposite(order.side)) == r.book
      ensures Resting(order.side) == old(Resting(order.side))
      ensures placedOrders == old(placedOrders) && timestamp == old(timestamp)
    {
      ghost var outcome := MatchAgainst(order, Resting(Opposite(order.side)));
      remaining := order;
      fills := [];
      var current := Next(Resting(Opposite(order.side)));
      while remaining.size > 0 && !IsInvalid(current) && Crosses(remaining, current)
        invariant remaining == order.(size := remaining.size)
        invariant current == Next(Resting(Opposite(order.side)))
        invariant Resting(order.side) == old(Resting(order.side))
        invariant placedOrders == old(placedOrders) && timestamp == old(timestamp)
        invariant var r := MatchAgainst(remaining, Resting(Opposite(order.side)));
          outcome == r.(fills := fills + r.fills)
        decreases |Resting(Opposite(order.side))|
      {
        ghost var before := fills;
        ghost var rest := MatchAgainst(remaining, Resting(Opposite(order.side)));
        var more, fill;
        more, remaining, fill := Consume(remaining);
        fills := fills + [fill];
        if !more {
          return true, remaining, fills;
        }
        assert rest.fills == [fill] + MatchAgainst(remaining, Resting(Opposite(order.side))).fills;
        assert before + rest.fills == fills + MatchAgainst(remaining, Resting(Opposite(order.side))).fills;
        current := Next(Resting(Opposite(order.side)));
      }
      filled := !(remaining.size > 0);
      assert fills + [] == fills;
    }

    /** One consume step on the best opposite order; `more` is true when the
        incoming order covered the whole resting order. */
    method Consume(order: Order) returns (more: bool, remaining: Order, fill: Fill)
      requires |Resting(Opposite(order.side))| > 0
      modifies this
      ensures var step := ConsumeHead(order, old(Resting(Opposite(order.side))));
        && more == step.more && remaining == step.order && fill == step.fill
        && Resting(Opposite(order.side)) == step.book
      ensures Resting(order.side) == old(Resting(order.side))
      ensures placedOrders == old(placedOrders) && timestamp == old(timestamp)
    {
      var bookOrder: Order;
      if order.side == Buy {
        bookOrder := asks[0];
        asks := asks[1..];
      } else {
        bookOrder := bids[0];
        bids := bids[1..];
      }
      fill := Fill(bookOrder, order, bookOrder.price, Min(bookOrder.size, order.size));
      if order.size >= bookOrder.size {
        remaining := order.(size := order.size - bookOrder.size);
        more := true;
      } else {
        bookOrder := bookOrder.(size := bookOrder.size - order.size);
        remaining := order.(size := 0);
        if order.side == Buy {
          asks := Insert(Sell, asks, bookOrder).0;
        } else {
          bids := Insert(Buy, bids, bookOrder).0;
        }
        more := false;
      }
    }

    /** Cancels an order by identity. An identity missing from the index is
        rejected with no change. Otherwise the indexed order is erased from
        its side and the index entry is dropped; the result is true exactly
        when an order with that identity was resting, so a stale entry left by
        a fully filled order is dropped with result false. */
    method CancelOrder(clientId: int, orderId: int) returns (ok: bool)
      requires Valid()
      modifies this
      ensures Valid()
      ensures ok <==> old(Rests((clientId, orderId)))
      ensures !Rests((clientId, orderId))
      ensures timestamp == old(timestamp)
      ensures (clientId, orderId) !in old(placedOrders) ==>
        asks == old(asks) && bids == old(bids) && placedOrders == old(placedOrders)
      ensures (clientId, orderId) in old(placedOrders) ==>
        var e := old(placedOrders)[(clientId, orderId)];
        && placedOrders == old(placedOrders) - {(clientId, orderId)}
        && Resting(e.side) == Erase(old(Resting(e.side)), e).0
        && Resting(Opposite(e.side)) == old(Resting(Opposite(e.side)))
      ensures !ok ==> asks == old(asks) && bids == old(bids)
      ensures forall i :: 0 <= i < |old(asks)| && Key(old(asks)[i]) == (clientId, orderId) ==>
        asks == old(asks)[..i] + old(asks)[i + 1..] && bids == old(bids)
      ensures forall i :: 0 <= i < |old(bids)| && Key(old(bids)[i]) == (clientId, orderId) ==>
        bids == old(bids)[..i] + old(bids)[i + 1..] && asks == old(asks)
    {
      var key := (clientId, orderId);
      if key !in placedOrders {
        forall i | 0 <= i < |asks| ensures Key(asks[i]) != key {
          assert asks[i] in asks;
        }
        forall i | 0 <= i < |bids| ensures Key(bids[i]) != key {
          assert bids[i] in bids;
        }
        return false;
      }
      var order := placedOrders[key];
      ghost var index := placedOrders;
      CancelFacts(order.side, key);
      var orderErased := false;
      if order.side == Sell {
        var erased := Erase(asks, order);
        asks := erased.0;
        orderErased := erased.1 == 1;
      } else {
        var erased := Erase(bids, order);
        bids := erased.0;
        orderErased := erased.1 == 1;
      }
      var removedFromIndex := key in placedOrders;
      placedOrders := placedOrders - {key};
      ok := removedFromIndex && orderErased;
    }

    /** The proof obligations of CancelOrder, on the state before the erase. */
    lemma CancelFacts(side: Side, key: (int, int))
      requires Valid() && key in placedOrders && placedOrders[key].side == side
      ensures var e := placedOrders[key];
        var er := Erase(Resting(side), e);
        && (er.1 == 1 <==> Rests(key))
        && SideValid(side, er.0, placedOrders - {key}, timestamp)
        && SideValid(Opposite(side), Resting(Opposite(side)), placedOrders - {key}, timestamp)
        && (forall o :: o in er.0 + Resting(Opposite(side)) ==> Key(o) != key)
        && (!Rests(key) ==> er.0 == Resting(side))
        && (forall i :: 0 <= i < |Resting(side)| && Key(Resting(side)[i]) == key ==>
              er.0 == Resting(side)[..i] + Resting(side)[i + 1..])
        && (forall i :: 0 <= i < |Resting(Opposite(side))| ==> Key(Resting(Opposite(side))[i]) != key)
    {
      var e := placedOrders[key];
      var s := Resting(side);
      EraseFacts(side, s, e);
      var er := Erase(s, e);
      assert Key(e) == key;
      forall o | o in asks + bids && Key(o) == key ensures o in s && SameKey(o, e) {
        assert o in asks || o in bids;
      }
      if er.1 == 1 {
        var o :| o in s && SameKey(o, e);
        assert o in asks + bids;
      }
      forall o | o in er.0 ensures Key(o) != key {
      }
      forall o | o in Resting(Opposite(side)) ensures Key(o) != key {
      }
      forall i | 0 <= i < |Resting(Opposite(side))| ensures Key(Resting(Opposite(side))[i]) != key {
        assert Resting(Opposite(side))[i] in Resting(Opposite(side));
      }
      forall i | 0 <= i < |s| && Key(s[i]) == key ensures er.0 == s[..i] + s[i + 1..] {
        assert s[i] in s;
        EraseAt(side, s, i, e);
      }
    }

    /** Empties both sides and the index; the clock keeps counting. */
    method Flush()
      requires Valid()
      modifies this
      ensures Valid()
      ensures asks == [] && bids == [] && placedOrders == map[] && timestamp == old(timestamp)
    {
      asks := [];
      bids := [];
      placedOrders := map[];
    }

    /** The best ask: the invalid order when there are no asks, otherwise the
        cheapest ask and, among the cheapest, the oldest. */
    function GetMinAsk(): (r: Order)
      requires Valid()
      reads this
      ensures |asks| == 0 ==> r == Invalid()
      ensures |asks| > 0 ==> r in asks && forall o :: o in asks ==> r == o || AsksBefore(r, o)
      ensures forall o :: o in asks ==> r.price <= o.price
      ensures forall o :: o in asks && o.price == r.price ==> r.timestamp <= o.timestamp
    {
      if |asks| == 0 then Invalid()
      else
        BestFirst(Sell, asks);
        asks[0]
    }

    /** The best bid: the invalid order when there are no bids, otherwise the
        dearest bid and, among the dearest, the oldest. */
    function GetMaxBid(): (r: Order)
      requires Valid()
      reads this
      ensures |bids| == 0 ==> r == Invalid()
      ensures |bids| > 0 ==> r in bids && forall o :: o in bids ==> r == o || BidsBefore(r, o)
      ensures forall o :: o in bids ==> r.price >= o.price
      ensures forall o :: o in bids && o.price == r.price ==> r.timestamp <= o.timestamp
    {
      if |bids| == 0 then Invalid()
      else
        BestFirst(Buy, bids);
        bids[0]
    }
  }
}
