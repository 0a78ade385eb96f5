/**
  The objects of one price level: a level holds its resting orders in a
  list, in arrival order; every order points back to the level it was
  created in and carries a remaining quantity that matching and cancelling
  update in place.
 */
module PriceLevels {
  import opened Events
  import opened Matching

  /** A resting order. Its level and identifier never change; its remaining quantity does. */
  class Order {
    const level: PriceLevel
    const id: string
    var remainingQuantity: int

    constructor (level: PriceLevel, id: string, size: int)
      ensures this.level == level && this.id == id && remainingQuantity == size
    {
      this.level := level;
      this.id := id;
      remainingQuantity := size;
    }

    /** Takes `quantity` off the remaining quantity. */
    method Reduce(quantity: int)
      modifies this
      ensures remainingQuantity == old(remainingQuantity) - quantity
    {
      remainingQuantity := remainingQuantity - quantity;
    }

    /** Sets the remaining quantity to `size`. */
    method Resize(size: int)
      modifies this
      ensures remainingQuantity == size
    {
      remainingQuantity := size;
    }
  }

  /** The queue a list of orders shows: identifiers and remaining quantities, in list order. */
  ghost function Snapshot(os: seq<Order>): (q: seq<Resting>)
    reads os
    ensures |q| == |os|
    ensures forall i {:trigger q[i]} :: 0 <= i < |os| ==> q[i] == Resting(os[i].id, os[i].remainingQuantity)
  {
    if os == [] then [] else [Resting(os[0].id, os[0].remainingQuantity)] + Snapshot(os[1..])
  }

  /** Position of the first occurrence of the object `o` in `os`, or `|os|` when it does not occur. */
  function IndexOf(os: seq<Order>, o: Order): (i: nat)
    ensures i <= |os|
    ensures i < |os| ==> os[i] == o
    ensures forall j :: 0 <= j < i ==> os[j] != o
  {
    if os == [] then 0
    else if os[0] == o then 0
    else 1 + IndexOf(os[1..], o)
  }

  /** The first occurrence of an object in a list without repetitions is its position. */
  lemma IndexOfDistinct(os: seq<Order>, i: int)
    requires 0 <= i < |os|
    requires forall j, k :: 0 <= j < k < |os| ==> os[j] != os[k]
    ensures IndexOf(os, os[i]) == i
  {
  }

  /** Dropping the head of a list whose other orders did not change drops the head of its queue. */
  twostate lemma DroppedHead(os: seq<Order>)
    requires os != []
    requires forall i :: 1 <= i < |os| ==> os[i].remainingQuantity == old(os[i].remainingQuantity)
    ensures Snapshot(os[1..]) == old(Snapshot(os))[1..]
  {
  }

  /** `f` with `evs` sent before its notifications. */
  function Prefixed(evs: seq<Event>, f: Fill): Fill
  {
    Fill(f.queue, f.remaining, evs + f.events)
  }

  /** The notification for matching `quantity` against the head of `q`. */
  function HeadMatch(q: seq<Resting>, incomingId: string, incomingSide: Side, price: int, quantity: int): (e: Event)
    requires q != []
    ensures e.Match? && e.restingOrderId == q[0].id && e.price == price
    ensures e.incomingOrderId == incomingId && e.incomingSide == incomingSide
    ensures e.executedQuantity == (if q[0].quantity > quantity then quantity else q[0].quantity)
    ensures e.remainingQuantity == q[0].quantity - e.executedQuantity
  {
    if q[0].quantity > quantity then
      Event.Match(q[0].id, incomingId, incomingSide, price, quantity, q[0].quantity - quantity)
    else
      Event.Match(q[0].id, incomingId, incomingSide, price, q[0].quantity, 0)
  }

  lemma PrefixedTwice(a: seq<Event>, b: seq<Event>, f: Fill)
    ensures Prefixed(a, Prefixed(b, f)) == Prefixed(a + b, f)
  {
    assert a + (b + f.events) == (a + b) + f.events;
  }

  /** The resting orders at one price on one side, in time priority. */
  class PriceLevel {
    const side: Side
    const price: int
    var orders: seq<Order>

    /** Every order of the list belongs to this level and occurs once. */
    ghost predicate Valid()
      reads this
    {
      && (forall i :: 0 <= i < |orders| ==> orders[i].level == this)
      && (forall i, j :: 0 <= i < j < |orders| ==> orders[i] != orders[j])
    }

    /** The level and the orders it holds. */
    ghost function Footprint(): set<object>
      reads this
    {
      {this} + set o: Order | o in orders
    }

    /** A list in which only the order at `i` changed shows its old queue with a new entry at `i`. */
    twostate lemma EntryChanged(i: int)
      requires orders == old(orders) && 0 <= i < |orders|
      requires forall j :: 0 <= j < |orders| && j != i ==> orders[j].remainingQuantity == old(orders[j].remainingQuantity)
      ensures Queue() == old(Queue())[i := Resting(orders[i].id, orders[i].remainingQuantity)]
    {
    }

    /** The level's queue as a value. */
    ghost function Queue(): seq<Resting>
      reads this, orders
    {
      Snapshot(orders)
    }

    constructor (side: Side, price: int)
      ensures this.side == side && this.price == price
      ensures orders == [] && Valid()
    {
      this.side := side;
      this.price := price;
      orders := [];
    }

    function IsEmpty(): (empty: bool)
      reads this, orders
      ensures empty <==> Queue() == []
    {
      orders == []
    }

    /** Appends a new order at the tail of the queue. */
    method Add(orderId: string, size: int) returns (order: Order)
      requires Valid()
      modifies this
      ensures Valid()
      ensures fresh(order) && order.level == this && order.id == orderId && order.remainingQuantity == size
      ensures orders == old(orders) + [order]
      ensures Queue() == old(Queue()) + [Resting(orderId, size)]
    {
      order := new Order(this, orderId, size);
      orders := orders + [order];
      assert Snapshot(orders)[..|orders| - 1] == Snapshot(old(orders));
    }

    /**
      Matches `quantity` of the incoming order `orderId` against the queue,
      head first, notifying the listener of every execution at this level's
      price. The level's queue, the quantity returned and the notifications
      are those of `MatchQueue`; fully filled orders leave the list, whose
      remaining part is a suffix of the old list.
     */
    method Match(orderId: string, side: Side, quantity: int, listener: Listener) returns (remaining: int)
      requires Valid()
      modifies this, orders, listener
      ensures Valid()
      ensures forall o :: o in orders ==> o in old(orders)
      ensures var f := MatchQueue(old(Queue()), orderId, side, price, quantity);
              && Queue() == f.queue
              && remaining == f.remaining
              && listener.events == old(listener.events) + f.events
    {
      ghost var q0 := Queue();
      ghost var os0 := orders;
      ghost var sent: seq<Event> := [];
      remaining := quantity;
      while remaining > 0 && orders != []
        invariant Valid()
        invariant os0 == old(orders) && forall o :: o in orders ==> o in os0
        invariant listener.events == old(listener.events) + sent
        invariant MatchQueue(q0, orderId, side, price, quantity)
                  == Prefixed(sent, MatchQueue(Queue(), orderId, side, price, remaining))
        decreases |orders| + (if remaining > 0 then 1 else 0)
      {
        ghost var q := Queue();
        ghost var ev := HeadMatch(q, orderId, side, price, remaining);
        assert orders[0] in orders;
        remaining := MatchHead(orderId, side, remaining, listener);
        PrefixedTwice(sent, [ev], MatchQueue(Queue(), orderId, side, price, remaining));
        sent := sent + [ev];
      }
    }

    /**
      One pass of the matching loop, against the head order: it is either
      partially filled, reduced and left in place, with nothing left to
      match, or fully filled and removed from the list.
     */
    method MatchHead(orderId: string, side: Side, quantity: int, listener: Listener) returns (remaining: int)
      requires Valid()
      requires quantity > 0 && orders != []
      modifies this, orders[0], listener
      ensures Valid()
      ensures orders == old(orders)[1..] || (orders == old(orders) && remaining == 0)
      ensures listener.events == old(listener.events) + [HeadMatch(old(Queue()), orderId, side, price, quantity)]
      ensures MatchQueue(old(Queue()), orderId, side, price, quantity)
              == Prefixed([HeadMatch(old(Queue()), orderId, side, price, quantity)],
                          MatchQueue(Queue(), orderId, side, price, remaining))
    {
      ghost var q := Queue();
      var order := orders[0];
      var orderQuantity := order.remainingQuantity;
      assert q[0] == Resting(order.id, orderQuantity);
      if orderQuantity > quantity {
        order.Reduce(quantity);
        listener.Match(order.id, orderId, side, price, quantity, order.remainingQuantity);
        forall j | 1 <= j < |orders|
          ensures orders[j].remainingQuantity == old(orders[j].remainingQuantity)
        {
          assert orders[j] != orders[0];
        }
        EntryChanged(0);
        remaining := 0;
      } else {
        ghost var before := orders;
        orders := orders[1..];
        listener.Match(order.id, orderId, side, price, orderQuantity, 0);
        DroppedHead(before);
        remaining := quantity - orderQuantity;
      }
    }

    /** Removes the first occurrence of `order` from the list, if it occurs. */
    method Delete(order: Order)
      requires Valid()
      modifies this
      ensures Valid()
      ensures var i := IndexOf(old(orders), order);
              orders == if i < |old(orders)| then old(orders)[..i] + old(orders)[i + 1..] else old(orders)
      ensures var i := IndexOf(old(orders), order);
              Queue() == if i < |old(orders)| then old(Queue())[..i] + old(Queue())[i + 1..] else old(Queue())
    {
      var i := 0;
      while i < |orders| && orders[i] != order
        invariant 0 <= i <= |orders|
        invariant forall j :: 0 <= j < i ==> orders[j] != order
      {
        i := i + 1;
      }
      ghost var q := Queue();
      if i < |orders| {
        orders := orders[..i] + orders[i + 1..];
        assert Queue() == q[..i] + q[i + 1..];
      }
    }
  }
}
