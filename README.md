# Orderbook matching engine, modelled in Dafny

This project models the single-instrument limit order book of
pratikborhade/Orderbook and proves properties of the model.

- **The book** keeps two ordered sets of resting orders. Asks are held cheapest
  first and bids dearest first. At an equal price the earlier timestamp comes
  first, then the smaller ids. This gives price-time priority.
- **The index** `placedOrders` maps each identity `(clientId, orderId)` to the
  order as it was placed.
- **The clock** is an arrival counter that stamps every accepted order.
- **`add_order`** rejects a duplicate identity. Otherwise it stamps the order
  and runs the crossing loop against the opposite side. Whatever is left of the
  order then rests on its own side and in the index.
- **`cancel_order`** erases by identity. **`flush`** empties the book.
  **`getMinAsk`** and **`getMaxBid`** return the best order of a side, or the
  invalid sentinel order when the side is empty.
- **The price-level queue `Orders`** is a FIFO vector of
  `(clientId, orderId, quantity)` entries with a cached total. It is modelled
  too, although the engine does not use it.

Modules, one file each:

| file | module | what it holds |
|---|---|---|
| `order.dfy` | `OrderRecord` | The `Order` value, its two constructors, identity equality and `isInvalid`. |
| `orders.dfy` | `PriceLevel` | The `Orders` class with fields `size` and `orderDetails`, and the linear identity scan as a loop. |
| `book_side.dfy` | `BookSide` | The two comparators. A `std::set` with a comparator, modelled as a strictly sorted sequence with set insert and erase. |
| `matching.dfy` | `Matching` | The `match` loop as a pure reference function `MatchAgainst` built from one consume step, `ConsumeHead`, and the lemmas about it. |
| `orderbook.dfy` | `Engine` | The `Orderbook` class with fields `asks`, `bids`, `placedOrders` and `timestamp`, and its methods, proved against `MatchAgainst`, `Insert` and `Erase`. |
| `scenarios.dfy` | `Scenarios` | The repository's test scenarios, a partial fill and a market sweep, replayed, and general placement facts about `add_order` as methods with concrete outcomes. |

The match callback is modelled as the sequence of fill records it would receive:
`(bookOrder, incoming, price, quantity)`. The clock `gTimestamp` is declared
outside the shown files, so it is modelled as a field of the book.

## Behaviour of the code worth knowing

- The two sets hold individual orders, not aggregated price levels. So
  `getMinAsk`/`getMaxBid` return the single best order: the oldest at the best
  price, with its own size.
  - The repository's tests expect totals per price, which this code does not
    give: (100, 200) and (110, 200) at src/tests/orderbook_tests.cpp:25-26,
    (100, 300) and (110, 300) at :64-65, and (100, 200) and (110, 200) at
    :69-70. The model follows the code: `Scenarios.AddRestingOrders` and the
    cancel scenario show orders of size 100 on top.
- A market order (price 0) that does not fill completely rests on its own side
  at price 0, and `add_order` returns true for it (`Scenarios.MarketSweep`).
  `match` itself returns false for that order.
- A resting order that is consumed in full leaves the sets but stays in
  `placedOrders`. A later cancel of it returns false and drops the stale entry.
  The test at src/tests/orderbook_tests.cpp:57-58 relies on this.
- `isInvalid` compares only the side and the ids with the sentinel. So a resting
  buy with ids (-1, -1) reads as "no order" and stops the crossing loop of an
  incoming sell.

## Model

| member | source | states |
|---|---|---|
| OrderRecord.Invalid | src/orderbook/order.cpp:5-7 | The default order is a buy with price, size, clientId and orderId all -1 and timestamp 0. |
| OrderRecord.MakeOrder | src/orderbook/order.cpp:9-11 | The valid constructor stores side, ids, price and size exactly as given, and the timestamp keeps its default 0. |
| OrderRecord.IsInvalid | src/orderbook/order.cpp:13-17 | An order is invalid exactly when it is a buy whose clientId and orderId are both -1, whatever its price, size and timestamp. |
| OrderRecord.SameOrder | src/orderbook/order.cpp:19-22 | Two orders are the same order exactly when their sides agree and they have the same (clientId, orderId) index key. |
| OrderRecord.SameOrderIsEquivalence | src/orderbook/order.cpp:19-22 | Identity equality is reflexive, symmetric and transitive. |
| OrderRecord.SameOrderIgnoresState | src/orderbook/order.cpp:19-22 | Changing timestamp, price or size never changes which order it is. |
| OrderRecord.MakeOrderValidity | src/orderbook/order.cpp:9-17 | The sentinel is invalid. A constructed order is invalid exactly when it is given the sentinel's side and ids. |
| PriceLevel.FirstIndex | src/orderbook/orders.cpp:19 | The scan position is the first entry with the identity, and no earlier entry has it. It is the queue length when no entry has it. |
| PriceLevel.RemoveAt | src/orderbook/orders.cpp:23 | Erasing one position keeps every entry before it and shifts every entry after it down by one, in order. |
| PriceLevel.FindDetail | src/orderbook/orders.cpp:19-20 | The find_if loop returns the position of the first entry with the identity, or the end. |
| PriceLevel.TotalQuantityAppend | src/orderbook/orders.cpp:12-13 | The total of two queues put together is the sum of their totals. |
| PriceLevel.TotalQuantityRemoveAt | src/orderbook/orders.cpp:22-23 | Removing one entry lowers the total by exactly that entry's quantity. |
| PriceLevel.AddThenRemove | src/orderbook/orders.cpp:10-24 | Appending an identity not yet queued and then removing it restores the queue and the total. |
| PriceLevel.SameIdentitiesSameScan | src/orderbook/orders.cpp:19 | Two queues with the same identities in the same order answer every removal scan alike. |
| PriceLevel.Orders.constructor | src/orderbook/orders.hpp:12-28 | A new level is empty with aggregate size 0, so the total invariant holds from the start. |
| PriceLevel.Orders.AddOrder | src/orderbook/orders.cpp:10-15 | It appends exactly one entry at the tail, adds the quantity to `size`, keeps `size` equal to the queued total, and returns true. |
| PriceLevel.Orders.RemoveOrder | src/orderbook/orders.cpp:17-24 | With the identity absent it returns false and nothing changes. Otherwise it removes only the first matching entry, keeps the order of the others, lowers `size` by that entry's quantity and keeps the total invariant. |
| PriceLevel.Orders.Equals | src/orderbook/orders.cpp:5-8 | As written, level equality holds exactly when the sizes are equal. |
| PriceLevel.Orders.IntendedEquals | src/orderbook/orders.cpp:5-8 | Corrected equality: equal levels have equal sizes and answer every removal scan alike. |
| PriceLevel.EqualsIgnoresQueue | src/orderbook/orders.cpp:7 | Two levels of size 10 holding different orders compare equal as written, although removing (1, 1) finds an entry in one and none in the other; the corrected equality tells them apart. |
| BookSide.AsksBefore | src/orderbook/orderbook.cpp:7-22 | A cheaper ask comes first. At equal price the earlier timestamp comes first. The comparator never puts a dearer ask first. |
| BookSide.BidsBefore | src/orderbook/orderbook.cpp:24-39 | A dearer bid comes first. At equal price the earlier timestamp comes first. The comparator never puts a cheaper bid first. |
| BookSide.ComparatorIsStrictTotalOrder | src/orderbook/orderbook.cpp:7-39 | Both comparators are irreflexive, asymmetric and transitive. Two orders are ordered one way or the other unless they agree on price, timestamp and both ids. |
| BookSide.BestFirst | src/orderbook/orderbook.cpp:103-116 | The first element of a side comes before every other: the ask is the cheapest, the bid the dearest, and it is the oldest at its price. |
| BookSide.InsertFacts | src/orderbook/orderbook.cpp:55-61 | The contract of `BookSide.Insert`, the model of `std::set::insert`. Set insert keeps the side sorted. It succeeds exactly when no element is equivalent under the comparator. On success it adds exactly the new order. On failure it changes nothing. |
| BookSide.InsertAtFront | src/orderbook/orderbook.cpp:55-61 | An order that comes before every element is inserted at the front. |
| BookSide.InsertAtBack | src/orderbook/orderbook.cpp:55-61 | An order that every element comes before is inserted at the back, so FIFO holds at an equal price. |
| BookSide.Erase | src/orderbook/orderbook.cpp:83-87 | Erase removes at most one element and adds none. It reports 1 only when an element equivalent to the key was present, and that shortens the side by one. When it reports 0 the side is unchanged. |
| BookSide.InsertBetween | src/orderbook/orderbook.cpp:55-61 | An order that comes after the first i elements and before the element at i is inserted at exactly position i, with the rest kept in order. |
| BookSide.EraseFacts | src/orderbook/orderbook.cpp:83-87 | Erase keeps the side sorted and removes at most one element. It reports 1 exactly when an equivalent element was present. It drops exactly the equivalent elements. |
| BookSide.EraseAt | src/orderbook/orderbook.cpp:83-87 | Erasing the key of the element at position i removes exactly that element and keeps the rest in order. |
| BookSide.InsertThenErase | src/orderbook/orderbook.cpp:55-87 | Inserting a new order and erasing it gives back the original side. |
| BookSide.InsertVolume | src/orderbook/orderbook.cpp:55-61 | A successful insert raises the side's total size by exactly the new order's size. A failed insert leaves it unchanged. |
| Matching.Next | src/orderbook/orderbook.cpp:133-148 | The best opposite order is the invalid order when the side is empty, and the first element of the side otherwise, which `BookSide.BestFirst` shows is the best. |
| Matching.ConsumeHead | src/orderbook/orderbook.cpp:151-189 | One step fills min(resting size, incoming size) at the resting price and conserves the incoming quantity. The head is covered exactly when the incoming size is at least its size: then the head leaves the book and the incoming size drops by the head's size. Otherwise the incoming size drops to 0 and, on a sorted side, the head goes back at the front with its size reduced by the incoming size. |
| Matching.MatchAgainst | src/orderbook/orderbook.cpp:191-199 | The crossing loop run to completion makes at most one fill per resting order and changes nothing of the incoming order but its size. |
| Matching.Crosses | src/orderbook/orderbook.cpp:120-131 | A market order (price 0) crosses every resting order. A limit buy crosses exactly the asks at or below its price, and a limit sell exactly the bids at or above its price. |
| Matching.CrossesMonotone | src/orderbook/orderbook.cpp:120-131 | An incoming order that crosses a resting order also crosses every order that comes before it on the opposite side. |
| Matching.CrossesPrefix | src/orderbook/orderbook.cpp:120-193 | On a sorted opposite side the crossed orders form a prefix, so stopping at the first best order that does not cross passes over no crossing order. |
| Matching.MatchRemainderBounded | src/orderbook/orderbook.cpp:170-199 | For a non-negative incoming size against positive resting sizes, the remainder lies between 0 and the submitted size, so nothing is over-filled, and the order is filled exactly when the remainder is 0. |
| Matching.MatchConservesIncoming | src/orderbook/orderbook.cpp:191-199 | The filled quantity plus what remains is the submitted size. Matching changes only the size. The result is true exactly when nothing remains. |
| Matching.MatchStops | src/orderbook/orderbook.cpp:191-199 | An unfilled order stops because the opposite side is empty, or its best order reads as invalid, or that order no longer crosses. Only fully consumed orders have left the side. |
| Matching.MatchFillsFollowBook | src/orderbook/orderbook.cpp:120-198 | The i-th fill consumes the i-th best resting order, at its price, and that order crosses the incoming limit. Each quantity is positive and at most the resting size. Every fill but the last takes the whole resting order. |
| Matching.MatchIncomingSnapshot | src/orderbook/orderbook.cpp:166-169 | The callback of each fill sees the incoming order with the size it still had before that fill. |
| Matching.ReinsertHead | src/orderbook/orderbook.cpp:177-186 | A partly filled head order is reinserted at the front of its side. |
| Matching.MatchLeavesSuffix | src/orderbook/orderbook.cpp:151-198 | After matching, the opposite side is exactly the resting orders past the last one filled, unchanged, with that last order in front of them, its size reduced by the fill, exactly when it was filled only in part. |
| Matching.MatchKeepsSide | src/orderbook/orderbook.cpp:151-198 | After matching, the opposite side is still sorted with positive sizes. Each order on it is an order that rested there before, with the same side, price, timestamp and ids. |
| Matching.MatchConservesBook | src/orderbook/orderbook.cpp:151-198 | The opposite side's total size drops by exactly the filled quantity. |
| Matching.NoCrossNoTrade | src/orderbook/orderbook.cpp:120-193 | An order that does not cross the best opposite order trades nothing and leaves the side as it was. |
| Matching.MatchSweepsBook | src/orderbook/orderbook.cpp:191-199 | An order larger than the whole side, crossing every order on it, consumes every order in full in book order. The side ends empty, the order is not filled, and the side's total is subtracted from it. |
| Engine.RestResidual | src/orderbook/orderbook.cpp:52-68 | Resting a newly stamped residual always succeeds and keeps both sides and the index valid at the advanced clock. |
| Engine.Orderbook.constructor | src/orderbook/orderbook.hpp:43-47 | A new book has no asks, no bids, an empty index and the clock at 0, and satisfies the book invariant. |
| Engine.Orderbook.AddOrder | src/orderbook/orderbook.cpp:41-69 | A duplicate identity returns false and changes no set, index entry or clock. Otherwise the clock advances by one, the stamped order is matched against the opposite side, and the result is true. A fully filled order leaves its own side and the index as they were. A residual is inserted into its own side and indexed. The book invariant is kept. |
| Engine.Orderbook.Submit | src/orderbook/orderbook.cpp:46-68 | An accepted order advances the clock by one and is matched as the reference crossing function says. A filled order leaves its own side and the index as they were. A residual is inserted into its own side and indexed. The result is true and the invariant is kept. |
| Engine.Orderbook.StampAndMatch | src/orderbook/orderbook.cpp:46-49 | The order is stamped with the next timestamp and crossed. Own side and index are unchanged, an unfilled order keeps a positive size, and the book stays valid at the previous clock. |
| Engine.Orderbook.Rest | src/orderbook/orderbook.cpp:52-68 | An unfilled order with the newest timestamp and a new identity is inserted into its own side and the index. Both inserts succeed, the opposite side is unchanged and the invariant is restored. |
| Engine.Orderbook.Match | src/orderbook/orderbook.cpp:118-199 | The loop's result, remaining order, fills and opposite side are those of the reference crossing function. The own side, index and clock do not change. |
| Engine.Orderbook.Consume | src/orderbook/orderbook.cpp:151-189 | One consume step on the book agrees with the reference step on the opposite side. |
| Engine.Orderbook.CancelOrder | src/orderbook/orderbook.cpp:71-94 | An identity absent from the index returns false and changes nothing. Otherwise the index entry is dropped and the order is erased from its side. The result is true exactly when an order with that identity was resting. A failed cancel changes no side. A resting order at position i is removed from exactly that position. The invariant is kept. |
| Engine.Orderbook.Flush | src/orderbook/orderbook.cpp:95-101 | Both sides and the index are empty afterwards, and the invariant holds. |
| Engine.Orderbook.GetMinAsk | src/orderbook/orderbook.cpp:103-109 | With no asks it returns the invalid order. Otherwise it returns a resting ask that comes before every other: the cheapest and, among those, the oldest. |
| Engine.Orderbook.GetMaxBid | src/orderbook/orderbook.cpp:110-116 | With no bids it returns the invalid order. Otherwise it returns a resting bid that comes before every other: the dearest and, among those, the oldest. |
| Scenarios.EmptyBook | src/tests/orderbook_tests.cpp:6-13 | On an empty book both tops are the invalid order and cancelling (1, 1) fails. |
| Scenarios.AddPassive | src/orderbook/orderbook.cpp:41-69 | An order that does not cross is accepted (`add_order` returns true) and rests, stamped with the next timestamp, and the other side is unchanged. |
| Scenarios.AddAtFront | src/orderbook/orderbook.cpp:41-69 | A non-crossing order priced strictly better than the best of its own side rests at the front of that side: price priority. |
| Scenarios.AddAtBack | src/orderbook/orderbook.cpp:41-69 | A non-crossing order priced no better than any order of its side rests at the back, behind older orders at its price: time priority. |
| Scenarios.AddBetween | src/orderbook/orderbook.cpp:41-69 | A non-crossing order priced no better than the first i orders of its side and strictly better than the one at i rests at position i. |
| Scenarios.TradeTop | src/orderbook/orderbook.cpp:41-69 | An order exactly the size of the best opposite order that crosses it makes one fill of its whole size at the resting price. That resting order leaves its side, nothing rests, and the index is unchanged. |
| Scenarios.AddThenCancel | src/orderbook/orderbook.cpp:41-94 | Adding an order that does not cross and then cancelling it succeeds and restores both sides and both tops. |
| Scenarios.AddRestingOrders | src/tests/orderbook_tests.cpp:17-26 | All four `add_order` calls return true, as the test asserts. The first four orders rest in price-time order. The top of each side is its oldest order of size 100, not an aggregate of 200. |
| Scenarios.AddInsideSpread | src/tests/orderbook_tests.cpp:28-31 | Both `add_order` calls return true, and the 104 bid and 106 ask become the tops, each of size 100. |
| Scenarios.DirectMatch | src/tests/orderbook_tests.cpp:33-37 | Both `add_order` calls return true. A 105 bid rests and a 105 sell trades it in full: one fill of 100 at 105. Both sides end as before, and the consumed bid stays in the index. |
| Scenarios.SixOrders | src/tests/orderbook_tests.cpp:44-50 | The six submissions the add and cancel tests share rest in price-time order: bids 104, 100, 100 and asks 106, 110, 110, with the oldest at each price first and no index key above order id 3. |
| Scenarios.AddScenario | src/tests/orderbook_tests.cpp:15-40 | After the direct match, the tops are again the 104 bid and the 106 ask. |
| Scenarios.AddBehindLevels | src/tests/orderbook_tests.cpp:51-52 | A 100 bid and a 110 ask queue behind the orders already resting. |
| Scenarios.EightOrders | src/tests/orderbook_tests.cpp:44-52 | The first eight submissions of the cancel test rest in price-time order, four orders on each side, and neither (2, 4) nor (1, 4) is indexed yet. |
| Scenarios.CancelSetup | src/tests/orderbook_tests.cpp:44-55 | The ten submissions of the cancel test give the stated sides, with a stale index entry for (2, 4). |
| Scenarios.CancelAt | src/orderbook/orderbook.cpp:71-94 | Cancelling the order at position i of a side succeeds and removes exactly that order. |
| Scenarios.CancelAbsent | src/orderbook/orderbook.cpp:71-94 | Cancelling an identity no order rests under fails and changes no side. |
| Scenarios.CancelMatched | src/tests/orderbook_tests.cpp:57-61 | Cancelling (2, 4) and (1, 4) fails, and the tops stay at 104 and 106. |
| Scenarios.CancelInsideSpread | src/tests/orderbook_tests.cpp:62-65 | Cancelling (1, 3) and (2, 3) succeeds, and the oldest orders at 100 and 110 become the tops. |
| Scenarios.CancelSecondQueued | src/tests/orderbook_tests.cpp:67-70 | Cancelling (1, 2) and (2, 2) succeeds, and the tops stay. |
| Scenarios.CancelFirstQueued | src/tests/orderbook_tests.cpp:72-75 | Cancelling (1, 1) and (2, 1) succeeds, and the orders queued behind them become the tops. |
| Scenarios.CancelLastOrders | src/tests/orderbook_tests.cpp:77-80 | Cancelling (1, 5) and (2, 5) succeeds, and both tops are the invalid order. |
| Scenarios.CancelScenario | src/tests/orderbook_tests.cpp:42-82 | The cancel test's results are false, false, then eight times true. |
| Scenarios.FlushScenario | src/tests/orderbook_tests.cpp:84-99 | After a flush both tops are invalid, and cancelling the flushed orders fails. |
| Scenarios.PartialFill | src/orderbook/orderbook.cpp:175-187 | A sell of 30 against a resting buy of 100 at 90 gives one fill of 30 at 90. The buy stays at the front with 70 left. |
| Scenarios.ThreeAsks | src/orderbook/orderbook.cpp:52-57 | Each ask cheaper than all resting asks goes to the front. |
| Scenarios.FourAsks | src/orderbook/orderbook.cpp:52-57 | A fourth, cheaper ask also goes to the front. |
| Scenarios.FiveAsks | src/orderbook/orderbook.cpp:52-57 | A second ask at 98 queues behind the earlier one at 98. |
| Scenarios.SweepAsks | src/orderbook/orderbook.cpp:41-69 | On a book without bids, a buy larger than all asks consumes each ask in full, in order. Its remainder becomes the only bid. |
| Scenarios.MarketSweep | src/orderbook/orderbook.cpp:118-199 | A market buy of 1000 against 160 resting sells fills 40, 30, 40, 30 and 20, cheapest first and FIFO at 98. No asks remain, and 840 rests as a bid at price 0. |

## Left out

- Locking: the shared mutex and its locks (src/orderbook/orderbook.cpp:48, 80, 97, 107, 114) are concurrency. The model has one sequential owner.
- Command parsing, file I/O and output formatting in src/main.cpp: input and presentation, outside the engine.
- Multi-symbol routing: the map from symbol to book in src/main.cpp is outside the book.
- The `float` price and size and the `ask`/`bid` side names of src/orderbook/orderbook.hpp come from another revision. The model uses the `int` fields and `buy`/`sell` sides of src/orderbook/order.hpp.
- The match callback is external code. The model records the fills it would receive, and matching never depends on what it returns. A null callback is the caller ignoring the record.
- Integer widths: prices, sizes and ids are unbounded integers, and the `size_t` clock never wraps. The 32-bit overflow of `int` arithmetic and clock wrap-around are not modelled.
- The branches for a side other than buy or sell (src/orderbook/orderbook.cpp:63-66, 89-92, 130, 147) are not modelled: the model's side type has only `Buy` and `Sell`. The C++ enum could hold other values, but no caller builds one: the command reader maps 'B' to buy and every other letter to sell (src/main.cpp:134), and the tests use only the two enumerators. On that path `add_order` would already have advanced `gTimestamp` (src/orderbook/orderbook.cpp:46) before returning false at line 65.
- Where the clock `gTimestamp` is declared is not shown. It is modelled as a field of the book, starting at 0.
- The engine never uses `Orders`, so `Orders` is modelled on its own. Its deleted copy operations and default move have no counterpart.
- PriceLevel.Orders.IntendedEquals: the contract states only what equality implies (equal sizes, identical removal scans), not the converse.
- Scenarios.AddRestingOrders, Scenarios.CancelInsideSpread, Scenarios.CancelSecondQueued and Scenarios.CancelFirstQueued state the orders the code returns, not the aggregated (price, total) pairs the repository's tests expect.

## Findings

| source | as written | input that shows it | evidently intended | confidence | as-written member | corrected member |
|---|---|---|---|---|---|---|
| src/orderbook/orders.cpp:7 | `orderDetails == orderDetails` compares the queue with itself, so only the sizes decide equality | level a: size 10 with entry (1, 1, 10); level b: size 10 with entry (2, 2, 10) | compare with `other.orderDetails`, entry by entry on identity | not executed | PriceLevel.Orders.Equals, PriceLevel.EqualsIgnoresQueue | PriceLevel.Orders.IntendedEquals |
