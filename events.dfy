/**
  The two sides of the book and the three notifications an order book sends
  to its listener. The listener itself has no logic: here it is an object
  that records every notification, in the order it was sent.
 */
module Events {

  /** BUY or SELL. */
  datatype Side = Buy | Sell

  /** The side an incoming order of side `s` trades against. */
  function Opposite(s: Side): (o: Side)
    ensures o != s
  {
    if s == Buy then Sell else Buy
  }

  /**
    One notification. A `Match` always carries the price of the level the
    resting order sits in; `remainingQuantity` is what is left of the resting
    order. An `Add` carries the quantity that came to rest. A `Cancel`
    carries the level's price, the quantity taken away and what is left.
   */
  datatype Event =
    | Match(restingOrderId: string, incomingOrderId: string, incomingSide: Side,
            price: int, executedQuantity: int, remainingQuantity: int)
    | Add(orderId: string, side: Side, price: int, size: int)
    | Cancel(orderId: string, price: int, canceledQuantity: int, remainingQuantity: int, side: Side)

  /** The receiver of an order book's notifications, as a log of what it received. */
  class Listener {
    var events: seq<Event>

    constructor ()
      ensures events == []
    {
      events := [];
    }

    method Match(restingOrderId: string, incomingOrderId: string, incomingSide: Side,
                 price: int, executedQuantity: int, remainingQuantity: int)
      modifies this
      ensures events == old(events) + [Event.Match(restingOrderId, incomingOrderId, incomingSide,
                                                   price, executedQuantity, remainingQuantity)]
    {
      events := events + [Event.Match(restingOrderId, incomingOrderId, incomingSide,
                                      price, executedQuantity, remainingQuantity)];
    }

    method Add(orderId: string, side: Side, price: int, size: int)
      modifies this
      ensures events == old(events) + [Event.Add(orderId, side, price, size)]
    {
      events := events + [Event.Add(orderId, side, price, size)];
    }

    method Cancel(orderId: string, price: int, canceledQuantity: int, remainingQuantity: int, side: Side)
      modifies this
      ensures events == old(events) + [Event.Cancel(orderId, price, canceledQuantity, remainingQuantity, side)]
    {
      events := events + [Event.Cancel(orderId, price, canceledQuantity, remainingQuantity, side)];
    }
  }
}
