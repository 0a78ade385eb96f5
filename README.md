# A verified model of a limit-order matching engine

This project models the order book of a single-instrument limit-order
matching engine with price-time priority, and proves what it does. The
book has two sides of price levels: bids, best first from the highest
price, and asks, best first from the lowest price. Each level is a FIFO
queue of resting orders. An index maps every order identifier to its
order object. The listener receives three kinds of notifications: Match,
Add and Cancel.

The project has two layers.

- **Value layer.** `Matching` and `BookModel` state the book as values.
  - A side is a `map<int, seq<Resting>>` from price to queue.
  - The index maps each identifier to the side and price of its level.
  - `MatchQueue`, `Sweep`, `Enter` and `Cancel` say what each operation
    does, including the notifications it sends, in order.
  - The invariant `Inv` holds that:
    - every queue is non-empty;
    - every queue holds positive quantities and distinct identifiers;
    - every resting order is indexed at the level it rests in;
    - every bid is strictly below every ask.
- **Object layer.** `PriceLevels` and `OrderBooks` model the classes
  themselves, written as imperative Dafny.
  - `Order` has a mutable `remainingQuantity`.
  - `PriceLevel` holds a `seq<Order>`, and `match` and `delete` are loops.
  - `OrderBook` has its `bids`, `asks` and `orders` maps.
  - `Listener` records what it receives.
  - Every public operation is proved to take the book's view
    (`OrderBook.View`) to the book its value-layer function gives.
  - Every public operation is proved to append exactly that function's
    notifications to the listener's log.
  - The properties proved on the value layer therefore hold of the
    objects.

Two behaviours of the code are modelled as written. They depart from the
order lifecycle one would expect, in which an order leaves the index once
nothing of it rests, and the `getOrderTree == null` branch of `cancel`
would be unreachable. The Javadoc of `enter` and `cancel`
(`OrderBook.java:64-80`, `128-139`) does not say when index entries are
removed.

- A fully filled resting order leaves its level's list in
  `PriceLevel.match`, but nothing removes it from the book's `orders`
  index. Consequences:
  - A later `enter` with that identifier is ignored, because it is still
    "known".
  - A later `cancel` of it takes the branch where `getOrderTree` returns
    null, which drops the stale index entry and sends nothing. That branch
    is therefore reachable, and `BookModel.Cancel` models it.
  - The invariant does not require every index entry to rest somewhere.
    It only requires every resting order to be indexed where it rests.
  - `BookModel.FilledOrderStaysIndexed` shows this on a concrete trace.
- `cancel` with a negative size takes the delete branch. The Cancel
  notification then reports a canceled quantity larger than the
  remaining one. The model does the same.

## Model

| member | source | states |
|---|---|---|
| Events.Listener.Match | src/main/java/com/uts/match/OrderBookListener.java:39-40 | a match notification is appended to the log, after everything sent before it |
| Events.Listener.Add | src/main/java/com/uts/match/OrderBookListener.java:50 | an add notification is appended to the log |
| Events.Listener.Cancel | src/main/java/com/uts/match/OrderBookListener.java:61 | a cancel notification is appended to the log |
| Matching.MatchQueue | src/main/java/com/uts/match/PriceLevel.java:60-76 | matching a queue leaves no queue when quantity is left over and never lengthens it; every notification is a Match at the level's price (never the incoming limit) for the incoming order and side |
| Matching.MatchConserves | src/main/java/com/uts/match/PriceLevel.java:60-76 | quantity conservation: input minus returned quantity equals the executed quantities reported, and equals what the level's resting quantity lost |
| Matching.MatchBounds | src/main/java/com/uts/match/PriceLevel.java:60-76 | with positive resting quantities, the returned quantity lies between 0 and the input |
| Matching.MatchIsFifo | src/main/java/com/uts/match/PriceLevel.java:61-73 | FIFO: the orders removed are a prefix of the queue, each reported fully filled with 0 left; at most the next head is partially filled, reported with its new positive remainder; the orders behind it are untouched |
| PriceLevels.Order.constructor | src/main/java/com/uts/match/Order.java:30-34 | sets level, id and remaining quantity = size; level and id are constants |
| PriceLevels.Order.Reduce | src/main/java/com/uts/match/Order.java:48-50 | remaining quantity becomes its old value minus q; only this order changes |
| PriceLevels.Order.Resize | src/main/java/com/uts/match/Order.java:52-54 | remaining quantity becomes size; only this order changes |
| PriceLevels.IndexOf | src/main/java/com/uts/match/PriceLevel.java:78-80 | the position of the first occurrence of an order object (identity) in a list, or the length when absent |
| PriceLevels.HeadMatch | src/main/java/com/uts/match/PriceLevel.java:65-72 | the notification for the head, for the incoming order and side at the level's price: a partial fill reports the quantity and the head's new remainder, a full fill reports the head's whole quantity and 0 |
| PriceLevels.PriceLevel.constructor | src/main/java/com/uts/match/PriceLevel.java:32-36 | side and price set, empty list |
| PriceLevels.PriceLevel.IsEmpty | src/main/java/com/uts/match/PriceLevel.java:50-52 | true exactly when the level's queue is empty |
| PriceLevels.PriceLevel.Add | src/main/java/com/uts/match/PriceLevel.java:54-58 | a fresh order with level = this, the id and the size is appended at the tail; earlier orders unchanged |
| PriceLevels.PriceLevel.Match | src/main/java/com/uts/match/PriceLevel.java:60-76 | the loop leaves the queue, returned quantity and notifications `MatchQueue` gives; the remaining list is made of old orders |
| PriceLevels.PriceLevel.MatchHead | src/main/java/com/uts/match/PriceLevel.java:62-73 | one pass: either the head is removed (full fill) or it stays with 0 left to match (partial fill); one notification; the rest of the matching is what `MatchQueue` does next |
| PriceLevels.PriceLevel.Delete | src/main/java/com/uts/match/PriceLevel.java:78-80 | removes exactly the first occurrence of that order object, keeping the others in order; no change when absent |
| BookModel.BestPrice | src/main/java/com/uts/match/OrderBook.java:287-291 | the first key of a non-empty side: the highest bid or lowest ask (comparators at lines 57-58) |
| BookModel.BestExists | src/main/java/com/uts/match/OrderBook.java:287-291 | every non-empty side has a best price |
| BookModel.BestIsUnique | src/main/java/com/uts/match/OrderBook.java:287-291 | a side has only one best price |
| BookModel.FindIn | src/main/java/com/uts/match/OrderBook.java:173-178 | the scan's result: the first position holding the id, or the length when none does |
| BookModel.FindInIsFirst | src/main/java/com/uts/match/OrderBook.java:173-178 | any position that is first to hold the id is the one `FindIn` returns |
| BookModel.LookupIn | src/main/java/com/uts/match/OrderBook.java:163-201 | the lookup finds an order exactly when the level at that price exists and holds the id; what it finds carries the id and is the first order of that level with it, where the scan breaks |
| BookModel.Sweep | src/main/java/com/uts/match/OrderBook.java:93-102 | the reference definition of the buy/sell matching loop, which `OrderBook.SweepSide` is proved equal to; it only removes levels or changes their queues, never adds a price; its promises are carried by `SweepIsBestFirst`, `SweepStopsAtLimit`, `SweepConserves`, `SweepBounds` and `SweepKeepsSideOk` |
| BookModel.RestAppends | src/main/java/com/uts/match/OrderBook.java:293-300 | `Rest`, the reference definition of `add` that `OrderBook.AddOrder` is proved equal to, appends the order at the tail of the level at the price, after its old queue (empty when the level was absent); the other levels are untouched |
| BookModel.Enter | src/main/java/com/uts/match/OrderBook.java:81-126 | the reference definition of `enter`, which `OrderBook.Enter` is proved equal to: a known id gives the same book and no notification; otherwise only that id can be added to the index, at the order's side and limit; its promises are carried by `EnterKeepsInv`, `EnterConserves`, `EnterRestsRemainder` and `LookupAfterEnter` |
| BookModel.Cancel | src/main/java/com/uts/match/OrderBook.java:140-161 | the reference definition of `cancel`, which `OrderBook.Cancel` is proved equal to: an unknown id gives the same book and no notification; at most the cancelled id leaves the index; at most one notification; its promises are carried by `CancelKeepsInv`, `CancelLeaves`, `OrderBooks.CancelIgnored` and `OrderBooks.CancelStale` |
| BookModel.SideTotalSplit | src/main/java/com/uts/match/OrderBook.java:93-102 | the total resting on a side is any level's total plus the total of the others, whatever order the levels are taken in |
| BookModel.FilledOrderStaysIndexed | src/main/java/com/uts/match/OrderBook.java:81-161 | on a concrete trace, a sell of 10 at 100 is fully taken by a buy of 10 at 101; the seller stays indexed though no level holds it, re-entering its id is ignored, and cancelling it to any size only drops the index entry, with no notification |
| BookModel.MatchKeepsQueueOk | src/main/java/com/uts/match/PriceLevel.java:60-76 | a level that matching leaves non-empty still holds positive quantities and distinct indexed identifiers |
| BookModel.SweepBounds | src/main/java/com/uts/match/OrderBook.java:92-126 | what is left of the incoming order lies between 0 and its size |
| BookModel.SweepKeepsSideOk | src/main/java/com/uts/match/OrderBook.java:96-102 | the swept side keeps its invariant; in particular an emptied level does not stay on the side |
| BookModel.SweepStopsAtLimit | src/main/java/com/uts/match/OrderBook.java:96 | when quantity is left over, no level left on the opposite side crosses the limit |
| BookModel.SweepIsBestFirst | src/main/java/com/uts/match/OrderBook.java:92-126 | price priority: all notifications are Matches of the incoming order at crossing level prices, in best-first order, and no level left behind is better than any traded one |
| BookModel.SweepConserves | src/main/java/com/uts/match/OrderBook.java:96-102 | conservation on both sides: the incoming order lost what the Match notifications report executed, and so did the swept side's total resting quantity |
| BookModel.RestKeepsSideOk | src/main/java/com/uts/match/OrderBook.java:104-107 | resting a positive remainder under a fresh id at the tail of its level keeps the side's invariant |
| BookModel.EnterKeepsInv | src/main/java/com/uts/match/OrderBook.java:81-126 | entering keeps the invariant: queues well formed and indexed, and the book is never crossed |
| BookModel.EnterConserves | src/main/java/com/uts/match/OrderBook.java:92-108 | executed quantity plus the quantity added equals the size entered |
| BookModel.EnterRestsRemainder | src/main/java/com/uts/match/OrderBook.java:104-107 | at most one Add, sent last; the id is indexed exactly when it is sent; it carries a positive remainder, which sits at the tail of the level at the limit price on the order's side |
| BookModel.LookupAfterEnter | src/main/java/com/uts/match/OrderBook.java:104-107 | a rested order is indexed at its side and limit price and is found there with the quantity the Add reported |
| BookModel.CancelStaleKeepsSideOk | src/main/java/com/uts/match/OrderBook.java:145-149 | dropping the index entry of an order its level no longer holds keeps the side's invariant |
| BookModel.CancelShrinkKeepsSideOk | src/main/java/com/uts/match/OrderBook.java:154-155 | resizing the order in place to a positive size keeps the side's invariant |
| BookModel.CancelRemoveKeepsSideOk | src/main/java/com/uts/match/OrderBook.java:156-158 | removing the order, and its level when emptied, and unindexing it keeps the side's invariant |
| BookModel.CancelKeepsInv | src/main/java/com/uts/match/OrderBook.java:140-161 | cancelling keeps the invariant, including not crossed |
| BookModel.CancelLeaves | src/main/java/com/uts/match/OrderBook.java:150-160 | below the remaining quantity: one Cancel with canceled = remaining - size and remaining = size; a positive size leaves the order found at its level with the new size, otherwise it is neither indexed nor found |
| OrderBooks.OrderBook.constructor | src/main/java/com/uts/match/OrderBook.java:56-62 | an empty, valid book bound to the listener |
| OrderBooks.OrderBook.GetBestLevel | src/main/java/com/uts/match/OrderBook.java:287-291 | null exactly for an empty side; otherwise the level of that side at its best price |
| OrderBooks.OrderBook.DeleteLevel | src/main/java/com/uts/match/OrderBook.java:309-318 | the level's price leaves its own side only; the other side and the index are unchanged |
| OrderBooks.OrderBook.LevelFor | src/main/java/com/uts/match/OrderBook.java:294-298 | the level at the price, which is the existing one or a new empty one put on the side |
| OrderBooks.OrderBook.AddOrder | src/main/java/com/uts/match/OrderBook.java:293-300 | the side becomes `Rest` of the old side: the order appended at the tail of the level at price, created if absent; the other side unchanged |
| OrderBooks.OrderBook.AddToLevel | src/main/java/com/uts/match/OrderBook.java:299 | appending to one of the book's levels changes only that queue |
| OrderBooks.OrderBook.MatchBest | src/main/java/com/uts/match/OrderBook.java:97-100 | the level's queue, quantity and notifications are those of `MatchQueue`; an emptied level leaves its side |
| OrderBooks.OrderBook.SweepOnce | src/main/java/com/uts/match/OrderBook.java:96-101 | one iteration moves the opposite side one step along `Sweep`, appending the notifications `Sweep` sends first |
| OrderBooks.OrderBook.SweepSide | src/main/java/com/uts/match/OrderBook.java:93-102 | the matching loop of buy/sell: opposite side, quantity left and notifications are those of `Sweep`; the own side and index are unchanged |
| OrderBooks.OrderBook.RestRemainder | src/main/java/com/uts/match/OrderBook.java:104-107 | the remainder rests at the tail of its level, is indexed at (side, price), and exactly one Add with the remainder is sent |
| OrderBooks.OrderBook.IndexOrder | src/main/java/com/uts/match/OrderBook.java:105 | the order is put into the index; the levels are unchanged |
| OrderBooks.OrderBook.Trade | src/main/java/com/uts/match/OrderBook.java:92-126 | buy/sell take the book and log to what `BookModel.Enter` gives, keeping the invariant |
| OrderBooks.OrderBook.Enter | src/main/java/com/uts/match/OrderBook.java:81-90 | as `BookModel.Enter`: a known id changes nothing and sends nothing; the book stays valid |
| OrderBooks.OrderBook.GetOrderTree | src/main/java/com/uts/match/OrderBook.java:163-201 | null exactly when the level at the order's side and price does not hold its id; otherwise the first order there with that id, with the quantity `LookupIn` reports |
| OrderBooks.OrderBook.GetOrderTreeById | src/main/java/com/uts/match/OrderBook.java:203-246 | null for an unknown id or one its level does not hold; otherwise the order found at its indexed level |
| OrderBooks.OrderBook.GetRemainQuantityOrder | src/main/java/com/uts/match/OrderBook.java:248-285 | the remaining quantity of the order found at its level, 0 when not found |
| OrderBooks.OrderBook.ResizeOrder | src/main/java/com/uts/match/OrderBook.java:155 | the order keeps its queue position with the new size; nothing else changes |
| OrderBooks.OrderBook.DeleteOrder | src/main/java/com/uts/match/OrderBook.java:302-307 | the order leaves its queue, others keep their order, and the level leaves its side when emptied |
| OrderBooks.OrderBook.DeleteFromLevel | src/main/java/com/uts/match/OrderBook.java:303-304 | the order leaves its level's queue; the level stays on its side |
| OrderBooks.OrderBook.RemoveOrder | src/main/java/com/uts/match/OrderBook.java:157-158 | the order leaves its level (and the level its side when emptied) and the index |
| OrderBooks.OrderBook.Unindex | src/main/java/com/uts/match/OrderBook.java:158 | the id leaves the index; the levels are unchanged |
| OrderBooks.OrderBook.Cancel | src/main/java/com/uts/match/OrderBook.java:140-161 | the book and log become what `BookModel.Cancel` gives; the book stays valid |
| OrderBooks.OrderBook.CancelOnHeap | src/main/java/com/uts/match/OrderBook.java:141-145 | an unknown id is ignored; a known one is looked up in its level; either way the result is `BookModel.Cancel` |
| OrderBooks.OrderBook.CancelLocated | src/main/java/com/uts/match/OrderBook.java:146-161 | after the lookup, the stale, ignored and resting branches together give `BookModel.Cancel` |
| OrderBooks.OrderBook.DropStale | src/main/java/com/uts/match/OrderBook.java:146-148 | an id its level no longer holds only loses its index entry, with no notification |
| OrderBooks.OrderBook.CancelResting | src/main/java/com/uts/match/OrderBook.java:150-160 | cancelling a found order below its remaining quantity gives `BookModel.Cancel` |
| OrderBooks.OrderBook.CancelFound | src/main/java/com/uts/match/OrderBook.java:154-160 | a positive size resizes in place, otherwise the order is deleted and unindexed; then one Cancel(id, price, remaining - size, size, side) is sent |
| OrderBooks.EnterOutcome | src/main/java/com/uts/match/OrderBook.java:92-108 | sweeping then resting the remainder (with its Add) is what `Enter` gives for a fresh id |
| OrderBooks.FindOrder | src/main/java/com/uts/match/OrderBook.java:173-178 | the scan returns the first order of the level with the id, or null exactly when there is none |
| OrderBooks.CancelIgnored | src/main/java/com/uts/match/OrderBook.java:140-153 | an unknown id, or a size not below the remaining quantity, changes nothing and sends nothing |
| OrderBooks.CancelStale | src/main/java/com/uts/match/OrderBook.java:145-149 | an indexed id its level does not hold only loses its index entry |
| OrderBooks.CancelFoundOutcome | src/main/java/com/uts/match/OrderBook.java:154-160 | resizing or deleting the found order, with one Cancel notification, is what `Cancel` gives |

## Left out

- The listener is an object that records the notifications it receives, in
  order. No listener code runs inside an operation, so reentrancy is not
  modelled.
- The sorted maps of the levels and the hash map of the index are Dafny
  `map`s. The first key of a side's sorted map is its best price,
  `BestPrice`, which is the highest bid or the lowest ask.
- Prices and quantities are unbounded integers. Java `long` overflow is
  not modelled.
- Concurrency is not modelled. The book is used by one thread.
- `Side` is a two-valued datatype. The source file defining it is not part
  of this model.
- The getters of `Order` and `PriceLevel` are reads of the fields.
- `buy` and `sell` are one method, `OrderBook.Trade`, with the side as a
  parameter. Which side is swept, the crossing test and the best price
  all follow the side.
- The duplicated scans of `getOrderTree(Order)`, `getOrderTree(String)`
  and `getRemainQuantityOrder` are written once, as `FindOrder`.
- Several pieces are split into separate methods of the book:
  - the body of the matching loop;
  - the index updates;
  - the branches of `cancel`.
- Order.Reduce: positivity is not stated on the method. Its callers have
  `q < remainingQuantity`, and under that precondition the result stays
  positive. This follows from its ensures and is kept by the invariant
  (`MatchKeepsQueueOk`).
- Order.Resize: positivity is not stated on the method. Its callers have
  `0 < size < remainingQuantity`. That the result stays positive follows
  from its ensures and is kept by the invariant
  (`CancelShrinkKeepsSideOk`).
