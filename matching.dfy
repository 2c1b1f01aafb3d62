/** The crossing algorithm of the book: an incoming order repeatedly consumes
    the best resting order of the opposite side while it still has size and
    that order crosses its price. Each consumed resting order yields one fill
    record, at the resting order's price. */
module Matching {
  import opened OrderRecord
  import opened BookSide

  /** One call of the match callback: the resting order and the incoming
      order as they were before the fill, the trade price and the quantity. */
  datatype Fill = Fill(bookOrder: Order, incoming: Order, price: int, quantity: int)

  /** What matching leaves behind: whether the incoming order is done, its
      remaining state, the opposite side afterwards and the fills in order. */
  datatype MatchOutcome = MatchOutcome(filled: bool, order: Order, book: seq<Order>, fills: seq<Fill>)

  /** What one consume step leaves behind; `more` is the step's boolean result. */
  datatype Step = Step(more: bool, order: Order, book: seq<Order>, fill: Fill)

  function Min(a: int, b: int): (m: int)
    ensures m <= a && m <= b && (m == a || m == b)
  {
    if a < b then a else b
  }

  /** Whether the incoming order trades against a resting order: a buy at or
      above the resting price, a sell at or below it, and a market order
      (price 0) against any price. */
  predicate Crosses(order: Order, bookOrder: Order): (r: bool)
    ensures order.price == 0 ==> r
    ensures order.side == Buy && order.price != 0 ==> (r <==> bookOrder.price <= order.price)
    ensures order.side == Sell && order.price != 0 ==> (r <==> bookOrder.price >= order.price)
  {
    if order.side == Buy then bookOrder.price <= order.price || order.price == 0
    else bookOrder.price >= order.price || order.price == 0
  }

  /** The best order of the opposite side, or the invalid order when it is empty. */
  function Next(book: seq<Order>): (o: Order)
    ensures |book| == 0 ==> IsInvalid(o)
    ensures |book| > 0 ==> o == book[0]
  {
    if |book| == 0 then Invalid() else book[0]
  }

  /** The loop condition of the crossing loop. */
  predicate Continues(order: Order, book: seq<Order>)
  {
    order.size > 0 && !IsInvalid(Next(book)) && Crosses(order, Next(book))
  }

  /** Crossing is monotone along the opposite side's order: an incoming order
      that crosses a resting order also crosses every resting order that comes
      before it. */
  lemma CrossesMonotone(order: Order, a: Order, b: Order)
    requires Before(Opposite(order.side), a, b) && Crosses(order, b)
    ensures Crosses(order, a)
  {
  }

  /** On a sorted opposite side the orders an incoming order crosses form a
      prefix, so stopping at the first best order that does not cross skips
      no crossing order. */
  lemma CrossesPrefix(order: Order, book: seq<Order>, j: nat)
    requires Sorted(Opposite(order.side), book) && j < |book| && Crosses(order, book[j])
    ensures forall i :: 0 <= i <= j ==> Crosses(order, book[i])
  {
    forall i | 0 <= i < j ensures Crosses(order, book[i]) {
      CrossesMonotone(order, book[i], book[j]);
    }
  }

  /** The total quantity of a sequence of fills. */
  function FillTotal(fills: seq<Fill>): int
  {
    if |fills| == 0 then 0 else fills[0].quantity + FillTotal(fills[1..])
  }

  /** One consume step: take the best resting order off the book and fill
      min(resting size, incoming size) at its price. If the incoming order
      covers the resting order, the incoming size drops by the resting size;
      otherwise the incoming order is done and the resting order goes back
      with its size reduced. */
  function ConsumeHead(order: Order, book: seq<Order>): (r: Step)
    requires |book| > 0
    ensures r.fill.quantity + r.order.size == order.size
    ensures r.fill.bookOrder == book[0] && r.fill.incoming == order && r.fill.price == book[0].price
    ensures r.fill.quantity <= order.size && r.fill.quantity <= book[0].size
    ensures r.order == order.(size := r.order.size)
    ensures r.more <==> order.size >= book[0].size
    ensures r.more ==> r.book == book[1..] && r.fill.quantity == book[0].size
    ensures !r.more ==> r.order.size == 0 && r.fill.quantity < book[0].size
    ensures !r.more && Sorted(Opposite(order.side), book) ==>
      r.book == [book[0].(size := book[0].size - order.size)] + book[1..]
  {
    var bookOrder := book[0];
    var fill := Fill(bookOrder, order, bookOrder.price, Min(bookOrder.size, order.size));
    if order.size >= bookOrder.size then
      Step(true, order.(size := order.size - bookOrder.size), book[1..], fill)
    else
      var reduced := bookOrder.(size := bookOrder.size - order.size);
      assert Sorted(Opposite(order.side), book) ==>
        Insert(Opposite(order.side), book[1..], reduced).0 == [reduced] + book[1..] by {
        if Sorted(Opposite(order.side), book) {
          ReinsertHead(Opposite(order.side), book, reduced);
        }
      }
      Step(false, order.(size := 0), Insert(Opposite(order.side), book[1..], reduced).0, fill)
  }

  /** The crossing loop run to completion on the opposite side `book`;
      `filled` is the loop's result, true when nothing of the order is left. */
  function MatchAgainst(order: Order, book: seq<Order>): (r: MatchOutcome)
    ensures |r.fills| <= |book|
    ensures r.order == order.(size := r.order.size)
    decreases |book|
  {
    if Continues(order, book) then
      var step := ConsumeHead(order, book);
      if step.more then
        var rest := MatchAgainst(step.order, step.book);
        rest.(fills := [step.fill] + rest.fills)
      else
        MatchOutcome(true, step.order, step.book, [step.fill])
    else
      MatchOutcome(order.size <= 0, order, book, [])
  }

  /** Every resting order has a positive size. */
  ghost predicate AllPositive(book: seq<Order>)
  {
    forall o :: o in book ==> o.size > 0
  }

  /** Quantity conservation for the incoming order: what was filled plus what
      remains is what was submitted; only the size changes; the order is
      filled exactly when nothing remains. */
  lemma {:induction false} MatchConservesIncoming(order: Order, book: seq<Order>)
    ensures var r := MatchAgainst(order, book);
      && FillTotal(r.fills) + r.order.size == order.size
      && r.order == order.(size := r.order.size)
      && (r.filled <==> r.order.size <= 0)
    decreases |book|
  {
    if Continues(order, book) {
      var step := ConsumeHead(order, book);
      if step.more {
        MatchConservesIncoming(step.order, step.book);
        var rest := MatchAgainst(step.order, step.book);
        assert ([step.fill] + rest.fills)[1..] == rest.fills;
      } else {
        assert [step.fill][1..] == [];
      }
    }
  }

  /** The remainder never goes negative and never exceeds the submitted
      size: no fill takes more than the incoming order still has, and a
      filled order has exactly nothing left. */
  lemma {:induction false} MatchRemainderBounded(order: Order, book: seq<Order>)
    requires order.size >= 0 && AllPositive(book)
    ensures var r := MatchAgainst(order, book);
      && 0 <= r.order.size <= order.size
      && (r.filled <==> r.order.size == 0)
    decreases |book|
  {
    if Continues(order, book) {
      var step := ConsumeHead(order, book);
      if step.more {
        assert book[0] in book;
        assert AllPositive(step.book) by {
          forall o | o in step.book ensures o.size > 0 {
            assert o in book;
          }
        }
        MatchRemainderBounded(step.order, step.book);
      }
    }
  }

  /** Why the loop stopped when the order is not filled: the opposite side is
      empty, or its best order reads as invalid, or it no longer crosses; and
      only fully consumed resting orders have left the book. */
  lemma {:induction false} MatchStops(order: Order, book: seq<Order>)
    ensures var r := MatchAgainst(order, book);
      !r.filled ==>
        && r.order.size > 0
        && |r.fills| <= |book|
        && r.book == book[|r.fills|..]
        && (|r.book| == 0 || IsInvalid(r.book[0]) || !Crosses(order, r.book[0]))
    decreases |book|
  {
    MatchConservesIncoming(order, book);
    if Continues(order, book) {
      var step := ConsumeHead(order, book);
      if step.more {
        MatchStops(step.order, step.book);
        MatchConservesIncoming(step.order, step.book);
      }
    }
  }

  /** What matching leaves of the opposite side: the resting orders after
      the last one filled, untouched, and, when that last order was filled
      only in part, that order in front of them with its size reduced by the
      fill. Nothing else on the side changes. */
  lemma {:induction false} MatchLeavesSuffix(order: Order, book: seq<Order>)
    requires Sorted(Opposite(order.side), book)
    ensures var r := MatchAgainst(order, book);
      var k := |r.fills|;
      && k <= |book|
      && (if k > 0 && r.fills[k - 1].quantity < book[k - 1].size
          then r.book == [book[k - 1].(size := book[k - 1].size - r.fills[k - 1].quantity)] + book[k..]
          else r.book == book[k..])
    decreases |book|
  {
    if Continues(order, book) {
      var step := ConsumeHead(order, book);
      var r := MatchAgainst(order, book);
      if step.more {
        SortedSplit(Opposite(order.side), book);
        MatchLeavesSuffix(step.order, step.book);
        var rest := MatchAgainst(step.order, step.book);
        var k := |r.fills|;
        assert r.fills == [step.fill] + rest.fills && r.book == rest.book;
        assert step.book[k - 1..] == book[k..];
        if |rest.fills| > 0 {
          assert step.book[|rest.fills| - 1] == book[k - 1];
          assert r.fills[k - 1] == rest.fills[|rest.fills| - 1];
        }
      } else {
        assert r.fills == [step.fill] && r.book == step.book;
      }
    }
  }

  /** The i-th fill consumes the i-th best resting order, at its price; that
      order crosses the incoming limit; the quantity is positive and at most
      the resting size, and the whole resting size unless it is the last fill. */
  lemma {:induction false} MatchFillAt(order: Order, book: seq<Order>, i: nat)
    requires AllPositive(book)
    requires i < |MatchAgainst(order, book).fills|
    ensures i < |book|
    ensures var f := MatchAgainst(order, book).fills[i];
      && f.bookOrder == book[i] && f.price == book[i].price && Crosses(order, book[i])
      && 0 < f.quantity <= book[i].size && SameOrder(f.incoming, order)
    ensures i < |MatchAgainst(order, book).fills| - 1 ==>
      MatchAgainst(order, book).fills[i].quantity == book[i].size
    decreases |book|
  {
    assert Continues(order, book);
    var step := ConsumeHead(order, book);
    assert book[0] in book;
    if i > 0 {
      assert step.more;
      assert AllPositive(step.book) by {
        forall o | o in step.book ensures o.size > 0 {
          assert o in book;
        }
      }
      var rest := MatchAgainst(step.order, step.book);
      assert MatchAgainst(order, book).fills[i] == rest.fills[i - 1];
      MatchFillAt(step.order, step.book, i - 1);
      assert book[i] == step.book[i - 1];
    }
  }

  /** Price-time priority of the fills: the i-th fill consumes the i-th best
      resting order, at that order's price, which crosses the incoming order's
      limit; every quantity is positive and at most the resting size, and
      every fill but the last takes the whole resting order. */
  lemma MatchFillsFollowBook(order: Order, book: seq<Order>)
    requires AllPositive(book)
    ensures var r := MatchAgainst(order, book);
      && |r.fills| <= |book|
      && (forall i :: 0 <= i < |r.fills| ==>
            && r.fills[i].bookOrder == book[i]
            && r.fills[i].price == book[i].price
            && Crosses(order, book[i])
            && 0 < r.fills[i].quantity <= book[i].size
            && SameOrder(r.fills[i].incoming, order))
      && (forall i :: 0 <= i < |r.fills| - 1 ==> r.fills[i].quantity == book[i].size)
  {
    var r := MatchAgainst(order, book);
    forall i | 0 <= i < |r.fills|
      ensures && r.fills[i].bookOrder == book[i]
              && r.fills[i].price == book[i].price
              && Crosses(order, book[i])
              && 0 < r.fills[i].quantity <= book[i].size
              && SameOrder(r.fills[i].incoming, order)
              && (i < |r.fills| - 1 ==> r.fills[i].quantity == book[i].size)
    {
      MatchFillAt(order, book, i);
    }
  }

  /** The match callback sees the incoming order with the size it still had
      before that fill. */
  lemma {:induction false} MatchIncomingSnapshot(order: Order, book: seq<Order>, i: nat)
    requires i < |MatchAgainst(order, book).fills|
    ensures var r := MatchAgainst(order, book);
      r.fills[i].incoming == order.(size := order.size - FillTotal(r.fills[..i]))
    decreases |book|
  {
    assert Continues(order, book);
    var step := ConsumeHead(order, book);
    var r := MatchAgainst(order, book);
    if i == 0 {
      assert r.fills[..0] == [];
    } else {
      assert step.more;
      var rest := MatchAgainst(step.order, step.book);
      assert r.fills == [step.fill] + rest.fills;
      MatchIncomingSnapshot(step.order, step.book, i - 1);
      var prefix := r.fills[..i];
      assert prefix[0] == step.fill && prefix[1..] == rest.fills[..i - 1];
      assert FillTotal(prefix) == step.fill.quantity + FillTotal(rest.fills[..i - 1]);
      assert r.fills[i] == rest.fills[i - 1];
    }
  }

  /** Reinserting the consumed best order with a smaller size puts it back at
      the front: only its size changed, and the comparators ignore sizes. */
  lemma ReinsertHead(side: Side, book: seq<Order>, reduced: Order)
    requires Sorted(side, book) && |book| > 0
    requires reduced == book[0].(size := reduced.size)
    ensures Insert(side, book[1..], reduced) == ([reduced] + book[1..], true)
    ensures Sorted(side, [reduced] + book[1..])
  {
    SortedSplit(side, book);
    forall i | 0 <= i < |book[1..]| ensures Before(side, reduced, book[1..][i]) {
      assert book[1..][i] in book[1..];
    }
    InsertAtFront(side, book[1..], reduced);
    forall o | o in book[1..] ensures Before(side, reduced, o) {
    }
    SortedCons(side, reduced, book[1..]);
  }

  /** The opposite side after matching is still a valid side: sorted, every
      size positive, and every order in it is an order of the side before,
      with the same side, price, timestamp and ids. */
  lemma {:induction false} MatchKeepsSide(order: Order, book: seq<Order>)
    requires Sorted(Opposite(order.side), book) && AllPositive(book)
    ensures var r := MatchAgainst(order, book);
      && Sorted(Opposite(order.side), r.book)
      && AllPositive(r.book)
      && (forall o :: o in r.book ==> exists p :: p in book && SamePlacement(p, o))
    decreases |book|
  {
    if Continues(order, book) {
      var step := ConsumeHead(order, book);
      SortedSplit(Opposite(order.side), book);
      assert book == [book[0]] + book[1..];
      if step.more {
        assert AllPositive(step.book) by {
          forall o | o in step.book ensures o.size > 0 {
            assert o in book;
          }
        }
        MatchKeepsSide(step.order, step.book);
        var rest := MatchAgainst(step.order, step.book);
        forall o | o in rest.book ensures exists p :: p in book && SamePlacement(p, o) {
          var p :| p in step.book && SamePlacement(p, o);
          assert p in book;
        }
      } else {
        var reduced := book[0].(size := book[0].size - order.size);
        ReinsertHead(Opposite(order.side), book, reduced);
        assert step.book == [reduced] + book[1..];
        assert book[0] in book;
        forall o | o in step.book ensures o.size > 0 && exists p :: p in book && SamePlacement(p, o) {
          if o == reduced {
            assert SamePlacement(book[0], o);
          } else {
            assert o in book[1..];
            assert SamePlacement(o, o);
          }
        }
      }
    } else {
      forall o | o in book ensures exists p :: p in book && SamePlacement(p, o) {
        assert SamePlacement(o, o);
      }
    }
  }

  /** Quantity conservation for the resting side: its volume drops by exactly
      the quantity filled. */
  lemma {:induction false} MatchConservesBook(order: Order, book: seq<Order>)
    requires Sorted(Opposite(order.side), book)
    ensures var r := MatchAgainst(order, book);
      Volume(r.book) + FillTotal(r.fills) == Volume(book)
    decreases |book|
  {
    if Continues(order, book) {
      var step := ConsumeHead(order, book);
      SortedSplit(Opposite(order.side), book);
      if step.more {
        MatchConservesBook(step.order, step.book);
        var rest := MatchAgainst(step.order, step.book);
        assert ([step.fill] + rest.fills)[1..] == rest.fills;
      } else {
        var reduced := book[0].(size := book[0].size - order.size);
        ReinsertHead(Opposite(order.side), book, reduced);
        assert ([reduced] + book[1..])[1..] == book[1..];
        assert [step.fill][1..] == [];
      }
    }
  }

  /** An order that does not cross the best opposite order trades nothing and
      leaves the opposite side as it was. */
  lemma NoCrossNoTrade(order: Order, book: seq<Order>)
    requires |book| > 0 && !Crosses(order, book[0])
    ensures var r := MatchAgainst(order, book);
      r.fills == [] && r.book == book && r.order == order && r.filled == (order.size <= 0)
  {
  }

  /** An order larger than the whole opposite side that crosses every resting
      order sweeps the side: every resting order is consumed in full, in book
      order, the side ends empty and the order is not filled, keeping what the
      side could not supply. */
  lemma {:induction false} MatchSweepsBook(order: Order, book: seq<Order>)
    requires forall i :: 0 <= i < |book| ==> book[i].size > 0 && !IsInvalid(book[i]) && Crosses(order, book[i])
    requires order.size > Volume(book)
    ensures var r := MatchAgainst(order, book);
      && !r.filled && r.book == [] && r.order.size == order.size - Volume(book)
      && |r.fills| == |book|
      && forall i :: 0 <= i < |book| ==> r.fills[i].bookOrder == book[i] && r.fills[i].quantity == book[i].size
    decreases |book|
  {
    VolumeNonNegative(book);
    if |book| > 0 {
      VolumeNonNegative(book[1..]);
      var step := ConsumeHead(order, book);
      assert Continues(order, book);
      assert step.more;
      forall i | 0 <= i < |book[1..]|
        ensures book[1..][i].size > 0 && !IsInvalid(book[1..][i]) && Crosses(step.order, book[1..][i])
      {
        assert book[1..][i] == book[i + 1];
      }
      MatchSweepsBook(step.order, step.book);
      var rest := MatchAgainst(step.order, step.book);
      var fills := [step.fill] + rest.fills;
      forall i | 1 <= i < |book|
        ensures fills[i] == rest.fills[i - 1] && book[i] == step.book[i - 1]
      {
      }
    }
  }
}
