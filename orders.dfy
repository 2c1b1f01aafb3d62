/** The price-level FIFO queue: a vector of (clientId, orderId, quantity)
    entries in arrival order and a cached aggregate size. */
module PriceLevel {

  datatype OrderDetails = OrderDetails(clientId: int, orderId: int, quantity: int)

  /** The identity test used by the removal scan. */
  predicate HasIdentity(d: OrderDetails, clientId: int, orderId: int)
  {
    d.clientId == clientId && d.orderId == orderId
  }

  /** Entry equality: identities agree; the quantity is not compared. */
  predicate SameDetail(a: OrderDetails, b: OrderDetails)
  {
    HasIdentity(a, b.clientId, b.orderId)
  }

  /** The sum of the quantities of a queue. */
  function TotalQuantity(details: seq<OrderDetails>): int
  {
    if |details| == 0 then 0 else details[0].quantity + TotalQuantity(details[1..])
  }

  /** The position of the first entry with the given identity, or |details| if there is none. */
  function FirstIndex(details: seq<OrderDetails>, clientId: int, orderId: int): (i: nat)
    ensures i <= |details|
    ensures i < |details| ==> HasIdentity(details[i], clientId, orderId)
    ensures forall j :: 0 <= j < i ==> !HasIdentity(details[j], clientId, orderId)
  {
    if |details| == 0 then 0
    else if HasIdentity(details[0], clientId, orderId) then 0
    else 1 + FirstIndex(details[1..], clientId, orderId)
  }

  /** The queue without the entry at position i. */
  function RemoveAt(details: seq<OrderDetails>, i: nat): (r: seq<OrderDetails>)
    requires i < |details|
    ensures |r| == |details| - 1
    ensures forall j :: 0 <= j < i ==> r[j] == details[j]
    ensures forall j :: i <= j < |r| ==> r[j] == details[j + 1]
  {
    details[..i] + details[i + 1..]
  }

  /** The linear identity scan of remove_order: returns the first matching
      position, or |details| when no entry has that identity. */
  method FindDetail(details: seq<OrderDetails>, clientId: int, orderId: int) returns (i: nat)
    ensures i == FirstIndex(details, clientId, orderId)
  {
    i := 0;
    while i < |details| && !HasIdentity(details[i], clientId, orderId)
      invariant i <= |details|
      invariant forall j :: 0 <= j < i ==> !HasIdentity(details[j], clientId, orderId)
    {
      i := i + 1;
    }
  }

  lemma {:induction false} TotalQuantityAppend(a: seq<OrderDetails>, b: seq<OrderDetails>)
    ensures TotalQuantity(a + b) == TotalQuantity(a) + TotalQuantity(b)
  {
    if |a| == 0 {
      assert a + b == b;
    } else {
      assert (a + b)[1..] == a[1..] + b;
      TotalQuantityAppend(a[1..], b);
    }
  }

  /** Removing one entry lowers the total by exactly that entry's quantity. */
  lemma {:induction false} TotalQuantityRemoveAt(details: seq<OrderDetails>, i: nat)
    requires i < |details|
    ensures TotalQuantity(RemoveAt(details, i)) == TotalQuantity(details) - details[i].quantity
  {
    if i == 0 {
      assert RemoveAt(details, 0) == details[1..];
    } else {
      var rest := RemoveAt(details[1..], i - 1);
      assert RemoveAt(details, i) == [details[0]] + rest;
      assert ([details[0]] + rest)[1..] == rest;
      TotalQuantityRemoveAt(details[1..], i - 1);
    }
  }

  /** Appending an entry whose identity is not yet queued and then removing
      that identity gives back the original queue and total. */
  lemma AddThenRemove(details: seq<OrderDetails>, clientId: int, orderId: int, quantity: int)
    requires forall j :: 0 <= j < |details| ==> !HasIdentity(details[j], clientId, orderId)
    ensures var added := details + [OrderDetails(clientId, orderId, quantity)];
      var i := FirstIndex(added, clientId, orderId);
      i == |details| && RemoveAt(added, i) == details
      && TotalQuantity(added) - added[i].quantity == TotalQuantity(details)
  {
    var added := details + [OrderDetails(clientId, orderId, quantity)];
    TotalQuantityAppend(details, [OrderDetails(clientId, orderId, quantity)]);
    assert [OrderDetails(clientId, orderId, quantity)][1..] == [];
    assert HasIdentity(added[|details|], clientId, orderId);
    assert RemoveAt(added, |details|) == details;
  }

  /** Two queues hold the same identities in the same order. */
  predicate SameIdentities(a: seq<OrderDetails>, b: seq<OrderDetails>)
  {
    |a| == |b| && forall i :: 0 <= i < |a| ==> SameDetail(a[i], b[i])
  }

  /** Queues with the same identities answer every removal scan identically. */
  lemma {:induction false} SameIdentitiesSameScan(a: seq<OrderDetails>, b: seq<OrderDetails>)
    requires SameIdentities(a, b)
    ensures forall c: int, o: int :: FirstIndex(a, c, o) == FirstIndex(b, c, o)
  {
    if |a| > 0 {
      assert SameDetail(a[0], b[0]);
      assert SameIdentities(a[1..], b[1..]) by {
        forall i | 0 <= i < |a| - 1 ensures SameDetail(a[1..][i], b[1..][i]) {
          assert SameDetail(a[i + 1], b[i + 1]);
        }
      }
      SameIdentitiesSameScan(a[1..], b[1..]);
    }
  }

  class Orders {
    var size: int
    var orderDetails: seq<OrderDetails>

    /** The cached aggregate equals the sum of the queued quantities. */
    ghost predicate Valid()
      reads this
    {
      size == TotalQuantity(orderDetails)
    }

    constructor ()
      ensures Valid() && size == 0 && orderDetails == []
    {
      size := 0;
      orderDetails := [];
    }

    /** Appends an entry at the tail and adds its quantity to the aggregate; always succeeds. */
    method AddOrder(clientId: int, orderId: int, quantity: int) returns (ok: bool)
      requires Valid()
      modifies this
      ensures Valid() && ok
      ensures orderDetails == old(orderDetails) + [OrderDetails(clientId, orderId, quantity)]
      ensures size == old(size) + quantity
    {
      TotalQuantityAppend(orderDetails, [OrderDetails(clientId, orderId, quantity)]);
      assert [OrderDetails(clientId, orderId, quantity)][1..] == [];
      orderDetails := orderDetails + [OrderDetails(clientId, orderId, quantity)];
      size := size + quantity;
      ok := true;
    }

    /** Removes the first entry with the given identity and subtracts its
        quantity; reports false and changes nothing when no entry has it. */
    method RemoveOrder(clientId: int, orderId: int) returns (ok: bool)
      requires Valid()
      modifies this
      ensures Valid()
      ensures var i := FirstIndex(old(orderDetails), clientId, orderId);
        && ok == (i < |old(orderDetails)|)
        && (ok ==> orderDetails == RemoveAt(old(orderDetails), i)
                   && size == old(size) - old(orderDetails)[i].quantity)
        && (!ok ==> orderDetails == old(orderDetails) && size == old(size))
    {
      var i := FindDetail(orderDetails, clientId, orderId);
      if i == |orderDetails| {
        return false;
      }
      TotalQuantityRemoveAt(orderDetails, i);
      size := size - orderDetails[i].quantity;
      orderDetails := RemoveAt(orderDetails, i);
      ok := true;
    }

    /** Level equality as written: the queue is compared with itself, so only
        the aggregate sizes decide. */
    function Equals(other: Orders): (r: bool)
      reads this, other
      ensures r <==> size == other.size
    {
      size == other.size && orderDetails == orderDetails
    }

    /** Level equality as evidently intended: the aggregate sizes and the queued
        identities, entry by entry. */
    function IntendedEquals(other: Orders): (r: bool)
      reads this, other
      ensures r ==> size == other.size
      ensures r ==> forall c: int, o: int ::
        FirstIndex(orderDetails, c, o) == FirstIndex(other.orderDetails, c, o)
    {
      if size == other.size && SameIdentities(orderDetails, other.orderDetails) then
        SameIdentitiesSameScan(orderDetails, other.orderDetails);
        true
      else
        false
    }
  }

  /** Two levels with equal totals but different queued orders compare equal
      as written, while a removal of (1, 1) finds an entry in one and none in
      the other; the intended comparison tells them apart. */
  lemma EqualsIgnoresQueue(a: Orders, b: Orders)
    requires a.size == 10 && a.orderDetails == [OrderDetails(1, 1, 10)]
    requires b.size == 10 && b.orderDetails == [OrderDetails(2, 2, 10)]
    ensures a.Equals(b) && !a.IntendedEquals(b)
    ensures FirstIndex(a.orderDetails, 1, 1) == 0 && FirstIndex(b.orderDetails, 1, 1) == 1
  {
    assert !HasIdentity(b.orderDetails[0], 1, 1);
  }
}
