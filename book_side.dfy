/** One side of the book: an ordered set of resting orders. The asks set is
    ordered by the asks comparator (cheapest first), the bids set by the bids
    comparator (dearest first); ties in price go to the earlier timestamp and
    then to the smaller ids. An ordered set is modelled as the sequence of its
    elements in comparator order: insert adds an element unless one equivalent
    under the comparator is present, erase removes the equivalent element, and
    the first element is the best. */
module BookSide {
  import opened OrderRecord

  /** The asks comparator: lower price first, then earlier timestamp, then ids. */
  predicate AsksBefore(a: Order, b: Order): (r: bool)
    ensures a.price < b.price ==> r
    ensures r ==> a.price <= b.price
    ensures a.price == b.price && a.timestamp < b.timestamp ==> r
    ensures r && a.price == b.price ==> a.timestamp <= b.timestamp
  {
    if a.price != b.price then a.price < b.price
    else if a.timestamp != b.timestamp then a.timestamp < b.timestamp
    else if a.clientId != b.clientId then a.clientId < b.clientId
    else a.orderId < b.orderId
  }

  /** The bids comparator: higher price first, then earlier timestamp, then ids. */
  predicate BidsBefore(a: Order, b: Order): (r: bool)
    ensures a.price > b.price ==> r
    ensures r ==> a.price >= b.price
    ensures a.price == b.price && a.timestamp < b.timestamp ==> r
    ensures r && a.price == b.price ==> a.timestamp <= b.timestamp
  {
    if a.price != b.price then a.price > b.price
    else if a.timestamp != b.timestamp then a.timestamp < b.timestamp
    else if a.clientId != b.clientId then a.clientId < b.clientId
    else a.orderId < b.orderId
  }

  /** The comparator of the set where orders of side `side` rest: sells rest
      among the asks, buys among the bids. */
  predicate Before(side: Side, a: Order, b: Order)
  {
    if side == Sell then AsksBefore(a, b) else BidsBefore(a, b)
  }

  /** The fields the comparators look at agree, so neither order comes before the other. */
  predicate SameKey(a: Order, b: Order)
  {
    a.price == b.price && a.timestamp == b.timestamp && a.clientId == b.clientId && a.orderId == b.orderId
  }

  /** Two states of one placed order: everything but the size agrees. */
  predicate SamePlacement(a: Order, b: Order)
  {
    a.side == b.side && SameKey(a, b)
  }

  /** Both comparators are strict total orders on (price, timestamp, clientId,
      orderId): irreflexive, transitive, and any two orders are ordered one way
      or the other unless they agree on all four. */
  lemma ComparatorIsStrictTotalOrder(side: Side, a: Order, b: Order, c: Order)
    ensures !Before(side, a, a)
    ensures Before(side, a, b) ==> !Before(side, b, a)
    ensures Before(side, a, b) && Before(side, b, c) ==> Before(side, a, c)
    ensures Before(side, a, b) || Before(side, b, a) || SameKey(a, b)
    ensures SameKey(a, b) ==> !Before(side, a, b) && !Before(side, b, a)
  {
  }

  /** Strictly increasing in comparator order: this is how a set holds its elements. */
  ghost predicate Sorted(side: Side, s: seq<Order>)
  {
    forall i, j :: 0 <= i < j < |s| ==> Before(side, s[i], s[j])
  }

  /** The first element of a sorted side is the best: the cheapest ask (or the
      dearest bid) and, among those at its price, the oldest. */
  lemma BestFirst(side: Side, s: seq<Order>)
    requires Sorted(side, s) && |s| > 0
    ensures forall o :: o in s ==> o == s[0] || Before(side, s[0], o)
    ensures side == Sell ==> forall o :: o in s ==> s[0].price <= o.price
    ensures side == Buy ==> forall o :: o in s ==> s[0].price >= o.price
    ensures forall o :: o in s && o.price == s[0].price ==> s[0].timestamp <= o.timestamp
  {
  }

  /** Whether some element of s is equivalent to x under the comparator. */
  ghost predicate HasKey(s: seq<Order>, x: Order)
  {
    exists o :: o in s && SameKey(o, x)
  }

  /** Set insertion: the sequence and whether x was added. */
  function Insert(side: Side, s: seq<Order>, x: Order): (r: (seq<Order>, bool))
  {
    if |s| == 0 then ([x], true)
    else if Before(side, x, s[0]) then ([x] + s, true)
    else if Before(side, s[0], x) then
      var t := Insert(side, s[1..], x);
      assert s == [s[0]] + s[1..];
      ([s[0]] + t.0, t.1)
    else (s, false)
  }

  /** A sorted sequence is its head, before every later element, and a sorted tail. */
  lemma SortedSplit(side: Side, s: seq<Order>)
    requires Sorted(side, s) && |s| > 0
    ensures Sorted(side, s[1..])
    ensures forall o :: o in s[1..] ==> Before(side, s[0], o)
  {
  }

  lemma SortedCons(side: Side, h: Order, t: seq<Order>)
    requires Sorted(side, t)
    requires forall o :: o in t ==> Before(side, h, o)
    ensures Sorted(side, [h] + t)
  {
    forall i, j | 0 <= i < j < |[h] + t| ensures Before(side, ([h] + t)[i], ([h] + t)[j]) {
      if i > 0 {
        assert ([h] + t)[i] == t[i - 1] && ([h] + t)[j] == t[j - 1];
      } else {
        assert ([h] + t)[j] in t;
      }
    }
  }

  lemma {:induction false} InsertFacts(side: Side, s: seq<Order>, x: Order)
    requires Sorted(side, s)
    ensures var r := Insert(side, s, x);
      && Sorted(side, r.0)
      && (r.1 <==> !HasKey(s, x))
      && (r.1 ==> multiset(r.0) == multiset(s) + multiset{x})
      && (!r.1 ==> r.0 == s)
    decreases |s|, 1
  {
    if |s| == 0 {
      assert !HasKey(s, x);
    } else if Before(side, x, s[0]) {
      forall o | o in s ensures Before(side, x, o) && !SameKey(o, x) {
        if o != s[0] {
          SortedSplit(side, s);
          assert o in s[1..] by { assert s == [s[0]] + s[1..]; }
          ComparatorIsStrictTotalOrder(side, x, s[0], o);
        }
      }
      SortedCons(side, x, s);
    } else if Before(side, s[0], x) {
      InsertStep(side, s, x);
    } else {
      ComparatorIsStrictTotalOrder(side, x, s[0], x);
      assert SameKey(s[0], x);
      assert HasKey(s, x);
    }
  }

  /** The recursive case of InsertFacts: x goes after the head. */
  lemma {:induction false} InsertStep(side: Side, s: seq<Order>, x: Order)
    requires Sorted(side, s) && |s| > 0
    requires !Before(side, x, s[0]) && Before(side, s[0], x)
    ensures var r := Insert(side, s, x);
      && Sorted(side, r.0)
      && (r.1 <==> !HasKey(s, x))
      && (r.1 ==> multiset(r.0) == multiset(s) + multiset{x})
      && (!r.1 ==> r.0 == s)
    decreases |s|, 0
  {
    var t := Insert(side, s[1..], x);
    SortedSplit(side, s);
    InsertFacts(side, s[1..], x);
    assert s == [s[0]] + s[1..];
    assert Insert(side, s, x) == ([s[0]] + t.0, t.1);
    forall o | o in t.0 ensures Before(side, s[0], o) {
      if t.1 {
        assert o in multiset(t.0);
        assert o in s[1..] || o == x;
      } else {
        assert o in s[1..];
      }
    }
    SortedCons(side, s[0], t.0);
    ComparatorIsStrictTotalOrder(side, s[0], x, x);
    assert !SameKey(s[0], x);
    assert HasKey(s, x) <==> HasKey(s[1..], x) by {
      if HasKey(s, x) {
        var o :| o in s && SameKey(o, x);
        assert o != s[0];
        assert o in s[1..];
      }
    }
  }

  /** If x comes before every element, insertion puts it at the front. */
  lemma InsertAtFront(side: Side, s: seq<Order>, x: Order)
    requires forall i :: 0 <= i < |s| ==> Before(side, x, s[i])
    ensures Insert(side, s, x) == ([x] + s, true)
  {
    if |s| > 0 {
      assert Before(side, x, s[0]);
      assert Insert(side, s, x) == ([x] + s, true);
    } else {
      assert Insert(side, s, x) == ([x], true);
      assert [x] + s == [x];
    }
  }

  /** If every element comes before x, insertion puts it at the back: an
      order at the worst price, or later at an equal price, queues last. */
  lemma {:induction false} InsertAtBack(side: Side, s: seq<Order>, x: Order)
    requires forall i :: 0 <= i < |s| ==> Before(side, s[i], x)
    ensures Insert(side, s, x) == (s + [x], true)
  {
    if |s| > 0 {
      assert Before(side, s[0], x);
      ComparatorIsStrictTotalOrder(side, s[0], x, x);
      forall i | 0 <= i < |s[1..]| ensures Before(side, s[1..][i], x) {
        assert s[1..][i] == s[i + 1];
      }
      InsertAtBack(side, s[1..], x);
      assert Insert(side, s, x) == ([s[0]] + Insert(side, s[1..], x).0, true);
      assert [s[0]] + (s[1..] + [x]) == s + [x];
    } else {
      assert Insert(side, s, x) == ([x], true);
      assert s + [x] == [x];
    }
  }

  /** If x comes after the first i elements and before the element at i,
      insertion puts it at position i. */
  lemma {:induction false} InsertBetween(side: Side, s: seq<Order>, i: nat, x: Order)
    requires i <= |s|
    requires forall j :: 0 <= j < i ==> Before(side, s[j], x)
    requires i < |s| ==> Before(side, x, s[i])
    ensures Insert(side, s, x) == (s[..i] + [x] + s[i..], true)
  {
    if i == 0 {
      assert s[..0] + [x] + s[0..] == [x] + s;
      if |s| == 0 {
        assert Insert(side, s, x) == ([x], true);
        assert [x] + s == [x];
      } else {
        assert Insert(side, s, x) == ([x] + s, true);
      }
    } else {
      assert Before(side, s[0], x);
      ComparatorIsStrictTotalOrder(side, s[0], x, s[0]);
      forall j | 0 <= j < i - 1 ensures Before(side, s[1..][j], x) {
        assert s[1..][j] == s[j + 1];
      }
      assert i - 1 < |s[1..]| ==> s[1..][i - 1] == s[i];
      InsertBetween(side, s[1..], i - 1, x);
      assert Insert(side, s, x) == ([s[0]] + Insert(side, s[1..], x).0, true);
      assert [s[0]] + (s[1..][..i - 1] + [x] + s[1..][i - 1..]) == s[..i] + [x] + s[i..];
    }
  }

  /** Set erase by comparator key: the sequence and how many elements were removed. */
  function Erase(s: seq<Order>, x: Order): (r: (seq<Order>, nat))
    ensures r.1 <= 1
    ensures r.1 == 0 ==> r.0 == s
    ensures r.1 == 1 ==> |r.0| + 1 == |s| && exists i :: 0 <= i < |s| && SameKey(s[i], x)
    ensures forall o :: o in r.0 ==> o in s
  {
    if |s| == 0 then (s, 0)
    else if SameKey(s[0], x) then (s[1..], 1)
    else
      var t := Erase(s[1..], x);
      assert s == [s[0]] + s[1..];
      assert t.1 == 1 ==> SameKey(s[1..][0], x) || exists i :: 1 <= i < |s| && SameKey(s[i], x);
      ([s[0]] + t.0, t.1)
  }

  lemma {:induction false} EraseFacts(side: Side, s: seq<Order>, x: Order)
    requires Sorted(side, s)
    ensures var r := Erase(s, x);
      && Sorted(side, r.0)
      && r.1 <= 1
      && (r.1 == 1 <==> HasKey(s, x))
      && (r.1 == 0 ==> r.0 == s)
      && (forall o :: o in r.0 <==> o in s && !SameKey(o, x))
  {
    if |s| == 0 {
      assert !HasKey(s, x);
    } else {
      SortedSplit(side, s);
      assert s == [s[0]] + s[1..];
      if SameKey(s[0], x) {
        forall o | o in s[1..] ensures !SameKey(o, x) {
          ComparatorIsStrictTotalOrder(side, s[0], o, o);
        }
        assert HasKey(s, x);
      } else {
        var t := Erase(s[1..], x);
        EraseFacts(side, s[1..], x);
        forall o | o in t.0 ensures Before(side, s[0], o) {
          assert o in s[1..];
        }
        SortedCons(side, s[0], t.0);
        assert HasKey(s, x) <==> HasKey(s[1..], x) by {
          if HasKey(s, x) {
            var o :| o in s && SameKey(o, x);
            assert o != s[0];
            assert o in s[1..];
          }
        }
      }
    }
  }

  /** In a sorted side, erase removes exactly the element at the position of
      the key and keeps the rest in order. */
  lemma {:induction false} EraseAt(side: Side, s: seq<Order>, i: nat, x: Order)
    requires Sorted(side, s) && i < |s| && SameKey(s[i], x)
    ensures Erase(s, x) == (s[..i] + s[i + 1..], 1)
  {
    if i == 0 {
      assert s[..0] + s[1..] == s[1..];
    } else {
      ComparatorIsStrictTotalOrder(side, s[0], s[i], x);
      assert !SameKey(s[0], x);
      SortedSplit(side, s);
      assert s[1..][i - 1] == s[i];
      EraseAt(side, s[1..], i - 1, x);
      assert [s[0]] + (s[1..][..i - 1] + s[1..][i..]) == s[..i] + s[i + 1..];
    }
  }

  /** Inserting a new order and then erasing it gives back the side: adding
      and cancelling an order leaves the set as it was. */
  lemma {:induction false} InsertThenErase(side: Side, s: seq<Order>, x: Order)
    requires Sorted(side, s) && !HasKey(s, x)
    ensures Insert(side, s, x).1 && Erase(Insert(side, s, x).0, x) == (s, 1)
  {
    InsertFacts(side, s, x);
    if |s| > 0 && !Before(side, x, s[0]) {
      assert !SameKey(s[0], x) by { assert s[0] in s; }
      SortedSplit(side, s);
      assert !HasKey(s[1..], x) by {
        forall o | o in s[1..] ensures !SameKey(o, x) {
          assert o in s;
        }
      }
      InsertThenErase(side, s[1..], x);
      assert ([s[0]] + Insert(side, s[1..], x).0)[1..] == Insert(side, s[1..], x).0;
      assert [s[0]] + s[1..] == s;
    } else if |s| > 0 {
      assert Insert(side, s, x) == ([x] + s, true);
      assert ([x] + s)[0] == x && SameKey(x, x);
      assert ([x] + s)[1..] == s;
    } else {
      assert Insert(side, s, x) == ([x], true);
      assert SameKey(x, x) && [x][1..] == s;
    }
  }

  /** The total resting size of a side. */
  function Volume(s: seq<Order>): int
  {
    if |s| == 0 then 0 else s[0].size + Volume(s[1..])
  }

  /** A successful insertion adds exactly the inserted order's size. */
  lemma {:induction false} InsertVolume(side: Side, s: seq<Order>, x: Order)
    ensures var r := Insert(side, s, x);
      Volume(r.0) == Volume(s) + (if r.1 then x.size else 0)
  {
    if |s| > 0 && !Before(side, x, s[0]) && Before(side, s[0], x) {
      InsertVolume(side, s[1..], x);
      assert ([s[0]] + Insert(side, s[1..], x).0)[1..] == Insert(side, s[1..], x).0;
    } else if |s| > 0 && Before(side, x, s[0]) {
      assert ([x] + s)[1..] == s;
    }
  }

  /** A side whose sizes are all positive has a positive volume unless it is empty. */
  lemma {:induction false} VolumeNonNegative(s: seq<Order>)
    requires forall i :: 0 <= i < |s| ==> s[i].size > 0
    ensures Volume(s) >= 0 && (|s| > 0 ==> Volume(s) > 0)
  {
    if |s| > 0 {
      forall i | 0 <= i < |s[1..]| ensures s[1..][i].size > 0 {
        assert s[1..][i] == s[i + 1];
      }
      VolumeNonNegative(s[1..]);
    }
  }
}
