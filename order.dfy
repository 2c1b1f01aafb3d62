/** The order record the book stores: a side, an arrival timestamp stamped by
    the book, a limit price (0 for a market order), a remaining size and the
    owner's identity (clientId, orderId). */
module OrderRecord {

  datatype Side = Buy | Sell

  /** The side whose resting orders an incoming order of side `s` trades against. */
  function Opposite(s: Side): (r: Side)
    ensures r != s
  {
    if s == Buy then Sell else Buy
  }

  datatype Order = Order(side: Side, timestamp: nat, price: int, size: int, clientId: int, orderId: int)

  /** The book's identity key for an order: (clientId, orderId), without the side. */
  function Key(o: Order): (int, int)
  {
    (o.clientId, o.orderId)
  }

  /** The default-constructed order, used as the "no order" sentinel. */
  function Invalid(): (o: Order)
    ensures o.side == Buy && o.timestamp == 0
    ensures o.price == -1 && o.size == -1 && o.clientId == -1 && o.orderId == -1
  {
    Order(Buy, 0, -1, -1, -1, -1)
  }

  /** The five-argument constructor: the timestamp keeps its default 0 until
      the book stamps the order. */
  function MakeOrder(side: Side, clientId: int, orderId: int, price: int, size: int): (o: Order)
    ensures o.side == side && o.clientId == clientId && o.orderId == orderId
    ensures o.price == price && o.size == size && o.timestamp == 0
  {
    Order(side, 0, price, size, clientId, orderId)
  }

  /** Order equality: two orders are "the same order" when side, clientId and
      orderId agree; price, size and timestamp are ignored. */
  predicate SameOrder(a: Order, b: Order): (r: bool)
    ensures r <==> a.side == b.side && Key(a) == Key(b)
  {
    a.side == b.side && a.clientId == b.clientId && a.orderId == b.orderId
  }

  /** An order is invalid when it equals the sentinel under SameOrder: a buy
      whose ids are both -1, whatever its price, size and timestamp. */
  predicate IsInvalid(o: Order): (r: bool)
    ensures r <==> (o.side == Buy && o.clientId == -1 && o.orderId == -1)
  {
    SameOrder(o, Invalid())
  }

  lemma SameOrderIsEquivalence(a: Order, b: Order, c: Order)
    ensures SameOrder(a, a)
    ensures SameOrder(a, b) <==> SameOrder(b, a)
    ensures SameOrder(a, b) && SameOrder(b, c) ==> SameOrder(a, c)
  {
  }

  /** Matching changes only the size, so an order stays the same order while it is filled. */
  lemma SameOrderIgnoresState(o: Order, timestamp: nat, price: int, size: int)
    ensures SameOrder(o, o.(timestamp := timestamp, price := price, size := size))
  {
  }

  /** The valid constructor yields an order that is not invalid unless it is
      given exactly the sentinel's side and ids. */
  lemma MakeOrderValidity(side: Side, clientId: int, orderId: int, price: int, size: int)
    ensures IsInvalid(Invalid())
    ensures IsInvalid(MakeOrder(side, clientId, orderId, price, size))
        <==> (side == Buy && clientId == -1 && orderId == -1)
  {
  }
}
