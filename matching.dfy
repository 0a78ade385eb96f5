/**
  What one price level does with an incoming quantity, stated on values:
  the level's queue is a sequence of resting orders in arrival order, and
  matching drains it from the head.
 */
module Matching {
  import opened Events

  /** A resting order as its level sees it: identifier and remaining quantity. */
  datatype Resting = Resting(id: string, quantity: int)

  /** The queue left after matching, the quantity not absorbed, and the notifications sent. */
  datatype Fill = Fill(queue: seq<Resting>, remaining: int, events: seq<Event>)

  /** Sum of the remaining quantities of a queue. */
  function Total(q: seq<Resting>): int
  {
    if q == [] then 0 else q[0].quantity + Total(q[1..])
  }

  /** Sum of the executed quantities of the Match notifications in `evs`. */
  function Executed(evs: seq<Event>): int
  {
    if evs == [] then 0
    else (if evs[0].Match? then evs[0].executedQuantity else 0) + Executed(evs[1..])
  }

  /** Sum of the sizes of the Add notifications in `evs`. */
  function Added(evs: seq<Event>): int
  {
    if evs == [] then 0
    else (if evs[0].Add? then evs[0].size else 0) + Added(evs[1..])
  }

  /**
    Matching `quantity` of an incoming order against a queue resting at
    `price`. While quantity is left and the queue is not empty, the head is
    either partially filled (it is larger than what is left: it is reduced and
    matching stops) or fully filled (it leaves the queue and matching goes
    on with what is left). Every notification carries the level's price.
   */
  function MatchQueue(q: seq<Resting>, incomingId: string, incomingSide: Side, price: int, quantity: int): (f: Fill)
    ensures f.remaining > 0 ==> f.queue == []
    ensures |f.queue| <= |q|
    ensures forall e :: e in f.events ==>
              e.Match? && e.price == price && e.incomingOrderId == incomingId && e.incomingSide == incomingSide
    decreases |q|
  {
    if quantity <= 0 || q == [] then Fill(q, quantity, [])
    else if q[0].quantity > quantity then
      Fill([Resting(q[0].id, q[0].quantity - quantity)] + q[1..], 0,
           [Event.Match(q[0].id, incomingId, incomingSide, price, quantity, q[0].quantity - quantity)])
    else
      var f := MatchQueue(q[1..], incomingId, incomingSide, price, quantity - q[0].quantity);
      Fill(f.queue, f.remaining,
           [Event.Match(q[0].id, incomingId, incomingSide, price, q[0].quantity, 0)] + f.events)
  }

  lemma {:induction false} ExecutedAppend(a: seq<Event>, b: seq<Event>)
    ensures Executed(a + b) == Executed(a) + Executed(b)
  {
    if a == [] {
      assert a + b == b;
    } else {
      assert (a + b)[1..] == a[1..] + b;
      ExecutedAppend(a[1..], b);
    }
  }

  lemma {:induction false} AddedAppend(a: seq<Event>, b: seq<Event>)
    ensures Added(a + b) == Added(a) + Added(b)
  {
    if a == [] {
      assert a + b == b;
    } else {
      assert (a + b)[1..] == a[1..] + b;
      AddedAppend(a[1..], b);
    }
  }

  /** Notifications that are all Match notifications add nothing. */
  lemma {:induction false} AddedOfMatches(evs: seq<Event>)
    requires forall i :: 0 <= i < |evs| ==> evs[i].Match?
    ensures Added(evs) == 0
  {
    if evs != [] {
      AddedOfMatches(evs[1..]);
    }
  }

  /**
    Quantity conservation at one level: what the incoming order lost is what
    the notifications report as executed, and is what the queue lost.
   */
  lemma {:induction false} MatchConserves(q: seq<Resting>, incomingId: string, incomingSide: Side, price: int, quantity: int)
    ensures var f := MatchQueue(q, incomingId, incomingSide, price, quantity);
            quantity - f.remaining == Executed(f.events) &&
            Total(q) - Total(f.queue) == Executed(f.events)
    decreases |q|
  {
    if quantity <= 0 || q == [] {
    } else if q[0].quantity > quantity {
      var rest := [Resting(q[0].id, q[0].quantity - quantity)] + q[1..];
      assert rest[1..] == q[1..];
    } else {
      MatchConserves(q[1..], incomingId, incomingSide, price, quantity - q[0].quantity);
      var f := MatchQueue(q[1..], incomingId, incomingSide, price, quantity - q[0].quantity);
      var evs := [Event.Match(q[0].id, incomingId, incomingSide, price, q[0].quantity, 0)] + f.events;
      assert evs[1..] == f.events;
    }
  }

  /** When the queue's quantities are positive, what is not absorbed is between 0 and the input. */
  lemma {:induction false} MatchBounds(q: seq<Resting>, incomingId: string, incomingSide: Side, price: int, quantity: int)
    requires forall i :: 0 <= i < |q| ==> q[i].quantity > 0
    requires quantity >= 0
    ensures var f := MatchQueue(q, incomingId, incomingSide, price, quantity);
            0 <= f.remaining <= quantity
    decreases |q|
  {
    if quantity > 0 && q != [] && q[0].quantity <= quantity {
      MatchBounds(q[1..], incomingId, incomingSide, price, quantity - q[0].quantity);
    }
  }

  /** Time priority inside a level: matching leaves the shape `FifoShape` describes. */
  lemma {:induction false} MatchIsFifo(q: seq<Resting>, incomingId: string, incomingSide: Side, price: int, quantity: int)
    ensures var f := MatchQueue(q, incomingId, incomingSide, price, quantity);
            FifoShape(q, f, incomingId, incomingSide, price)
    decreases |q|
  {
    var f := MatchQueue(q, incomingId, incomingSide, price, quantity);
    if quantity <= 0 || q == [] {
      assert f.queue == q[0..];
    } else if q[0].quantity > quantity {
      assert f.queue == [Resting(q[0].id, q[0].quantity - f.events[0].executedQuantity)] + q[1..];
    } else {
      MatchIsFifo(q[1..], incomingId, incomingSide, price, quantity - q[0].quantity);
      FifoCons(q, MatchQueue(q[1..], incomingId, incomingSide, price, quantity - q[0].quantity),
               incomingId, incomingSide, price);
    }
  }

  /** A fully filled head in front of a shape described by `FifoShape` keeps that shape. */
  lemma FifoCons(q: seq<Resting>, g: Fill, incomingId: string, incomingSide: Side, price: int)
    requires q != []
    requires FifoShape(q[1..], g, incomingId, incomingSide, price)
    ensures FifoShape(q, Fill(g.queue, g.remaining,
                              [Event.Match(q[0].id, incomingId, incomingSide, price, q[0].quantity, 0)] + g.events),
                      incomingId, incomingSide, price)
  {
    var head := Event.Match(q[0].id, incomingId, incomingSide, price, q[0].quantity, 0);
    var evs := [head] + g.events;
    var k := |q| - |g.queue|;
    forall i | 0 <= i < k
      ensures evs[i] == Event.Match(q[i].id, incomingId, incomingSide, price, q[i].quantity, 0)
    {
      if i > 0 {
        assert evs[i] == g.events[i - 1] && q[i] == q[1..][i - 1];
      }
    }
    if |g.events| == k - 1 {
      assert q[1..][k - 1..] == q[k..];
    } else {
      assert evs[k] == g.events[k - 1] && q[k] == q[1..][k - 1];
      assert q[1..][k..] == q[k + 1..];
    }
  }

  /**
    The shape matching leaves behind, with k the number of orders that left
    the queue: they are its first k orders, each fully filled in queue order
    with a notification reporting its whole remaining quantity and 0 left;
    then either the queue is exactly what followed them, or the next order
    alone was partially filled, reported with its new positive remainder,
    and the orders after it are untouched.
   */
  ghost predicate FifoShape(q: seq<Resting>, f: Fill, incomingId: string, incomingSide: Side, price: int)
  {
    var k := |q| - |f.queue|;
    && 0 <= k <= |f.events|
    && (forall i :: 0 <= i < k ==>
          f.events[i] == Event.Match(q[i].id, incomingId, incomingSide, price, q[i].quantity, 0))
    && (|| (|f.events| == k && f.queue == q[k..])
        || (&& |f.events| == k + 1 && k < |q|
            && f.events[k].Match? && 0 < f.events[k].executedQuantity < q[k].quantity
            && f.events[k] == Event.Match(q[k].id, incomingId, incomingSide, price,
                                          f.events[k].executedQuantity,
                                          q[k].quantity - f.events[k].executedQuantity)
            && f.queue == [Resting(q[k].id, q[k].quantity - f.events[k].executedQuantity)] + q[k + 1..]))
  }
}
