/**
  The order book as objects: a map from price to price level per side, a
  map from order identifier to order, and the listener that receives the
  book's notifications. Every public operation is proved to change the
  objects exactly as the value model in `BookModel` says and to send the
  notifications it lists, and to keep the book's invariant.
 */
module OrderBooks {
  import opened Events
  import opened Matching
  import opened BookModel
  import opened PriceLevels

  /** `s` with `evs` sent before its notifications. */
  function After(evs: seq<Event>, s: SweepResult): SweepResult
  {
    SweepResult(s.levels, s.remaining, evs + s.events)
  }

  lemma AfterTwice(a: seq<Event>, b: seq<Event>, s: SweepResult)
    ensures After(a, After(b, s)) == After(a + b, s)
  {
    assert a + (b + s.events) == (a + b) + s.events;
  }

  /**
    One pass of the sweep: matching the best level, which crosses the
    limit, sends that level's notifications; then the sweep goes on from the
    side with that level emptied and removed, or reduced.
   */
  lemma SweepStep(levels: Levels, incomingId: string, incoming: Side, limit: int, quantity: int, best: int)
    requires quantity > 0 && levels != map[]
    requires best == BestPrice(levels.Keys, Opposite(incoming))
    requires Crosses(incoming, best, limit)
    ensures var f := MatchQueue(levels[best], incomingId, incoming, best, quantity);
            var next := if f.queue == [] then levels - {best} else levels[best := f.queue];
            Sweep(levels, incomingId, incoming, limit, quantity)
            == After(f.events, Sweep(next, incomingId, incoming, limit, f.remaining))
  {
    var f := MatchQueue(levels[best], incomingId, incoming, best, quantity);
    if f.queue == [] {
      assert f.events + Sweep(levels - {best}, incomingId, incoming, limit, f.remaining).events
             == f.events + Sweep(levels - {best}, incomingId, incoming, limit, f.remaining).events;
    } else {
      assert f.events + [] == f.events;
    }
  }

  /** Resting an order is putting the level's queue in place, then appending the order to it. */
  lemma RestInTwoSteps(v0: Levels, mid: Levels, v1: Levels, price: int, q: seq<Resting>, r: Resting)
    requires q == if price in v0 then v0[price] else []
    requires mid == v0[price := q]
    requires v1 == mid[price := q + [r]]
    ensures v1 == Rest(v0, price, r.id, r.quantity)
  {
  }

  /** A map with the keys of `v0` and `k`, holding `x` at `k` and what `v0` holds elsewhere, is `v0` updated at `k`. */
  lemma UpdatedAt<V>(v: map<int, V>, v0: map<int, V>, k: int, x: V)
    requires v.Keys == v0.Keys + {k} && k in v && v[k] == x
    requires forall p :: p in v && p != k ==> v[p] == v0[p]
    ensures v == v0[k := x]
  {
    assert v.Keys == v0[k := x].Keys;
    forall p | p in v
      ensures v[p] == v0[k := x][p]
    {
    }
  }

  class OrderBook {
    var bids: map<int, PriceLevel>
    var asks: map<int, PriceLevel>
    var orders: map<string, Order>
    const listener: Listener
    ghost var Repr: set<object>

    /** The price levels of one side. */
    function LevelMap(side: Side): map<int, PriceLevel>
      reads this`bids, this`asks
    {
      if side == Buy then bids else asks
    }

    /** The level at `p` on `side` belongs to the book, sits at its own price and side, and is well formed. */
    ghost predicate LevelOk(side: Side, p: int)
      reads this`bids, this`asks, this`Repr, Repr - {this}
      requires p in LevelMap(side)
    {
      var level := LevelMap(side)[p];
      && level in Repr
      && level.side == side && level.price == p
      && level.Valid()
      && (forall o :: o in level.orders ==> o in Repr)
    }

    /** Every level of `side` is well formed. */
    ghost predicate LevelsOk(side: Side)
      reads this`bids, this`asks, this`Repr, Repr - {this}
    {
      forall p :: p in LevelMap(side) ==> LevelOk(side, p)
    }

    ghost predicate HeapOk()
      reads this`bids, this`asks, this`Repr, Repr - {this}
    {
      && this in Repr && listener !in Repr
      && (forall side :: LevelsOk(side))
    }

    /** The queues of one side, as values. */
    ghost function LevelsView(side: Side): (v: Levels)
      reads this`bids, this`asks, this`Repr, Repr - {this}
      requires LevelsOk(side)
      ensures v.Keys == LevelMap(side).Keys
    {
      map p | p in LevelMap(side) :: LevelMap(side)[p].Queue()
    }

    /** The order index, as the level each known order was entered at. */
    function Index(): map<string, Loc>
      reads this`orders
    {
      map id | id in orders :: Loc(orders[id].level.side, orders[id].level.price)
    }

    /** The whole book as a value. */
    ghost function View(): Book
      reads this, Repr
      requires HeapOk()
    {
      Book(LevelsView(Buy), LevelsView(Sell), Index())
    }

    /** Every indexed order carries the identifier it is indexed under. */
    predicate IndexOk()
      reads this`orders
    {
      forall id :: id in orders ==> orders[id].id == id
    }

    ghost predicate Valid()
      reads this, Repr
    {
      HeapOk() && IndexOk() && Inv(View())
    }

    constructor (listener: Listener)
      ensures Valid() && fresh(Repr)
      ensures this.listener == listener
      ensures View() == Book(map[], map[], map[])
    {
      bids := map[];
      asks := map[];
      orders := map[];
      this.listener := listener;
      Repr := {this};
    }

    /**
      When, of the book's objects other than the book itself, at most `level`
      and the orders it held changed, and the side opposite to `level` kept
      its levels, that side stays well formed and keeps its queues.
     */
    twostate lemma OppositeKept(level: PriceLevel)
      requires old(HeapOk()) && old(level.Valid()) && old(Repr) <= Repr
      requires LevelMap(Opposite(level.side)) == old(LevelMap(Opposite(level.side)))
      requires unchanged(old(Repr) - {this} - old(level.Footprint()))
      ensures LevelsOk(Opposite(level.side))
      ensures LevelsView(Opposite(level.side)) == old(LevelsView(Opposite(level.side)))
    {
      var side := Opposite(level.side);
      assert old(LevelsOk(side));
      forall p | p in LevelMap(side)
        ensures LevelOk(side, p) && LevelMap(side)[p].Queue() == old(LevelMap(side)[p].Queue())
      {
        assert old(LevelOk(side, p));
        var other := LevelMap(side)[p];
        forall o | o in other.orders
          ensures o in old(Repr) - {this} - old(level.Footprint())
        {
          assert o.level == other;
        }
      }
      assert LevelsOk(side);
      forall p | p in LevelMap(side)
        ensures LevelsView(side)[p] == old(LevelsView(side))[p]
      {
      }
      assert LevelsView(side) == old(LevelsView(side));
    }

    /**
      When, of the book's objects other than the book itself, at most `level`
      and the orders it held changed, the side of `level` kept its levels at
      every other price and holds `level`, well formed and with its orders
      in the book, at its price, that side is well formed and its queues
      differ from the old ones at that price only.
     */
    twostate lemma SameSideChanged(level: PriceLevel)
      requires old(HeapOk()) && old(level.Valid()) && old(Repr) <= Repr
      requires level.price in LevelMap(level.side) && LevelMap(level.side)[level.price] == level
      requires forall p :: p != level.price ==> (p in LevelMap(level.side) <==> p in old(LevelMap(level.side)))
      requires forall p :: p != level.price && p in LevelMap(level.side) ==>
                 LevelMap(level.side)[p] == old(LevelMap(level.side))[p]
      requires level in Repr && level.Valid() && (forall o :: o in level.orders ==> o in Repr)
      requires unchanged(old(Repr) - {this} - old(level.Footprint()))
      ensures LevelsOk(level.side)
      ensures LevelsView(level.side) == old(LevelsView(level.side))[level.price := level.Queue()]
    {
      var side, price := level.side, level.price;
      OtherLevelsKept(level);
      assert LevelOk(side, price);
      assert LevelsOk(side);
      assert LevelMap(side).Keys == old(LevelMap(side)).Keys + {price} by {
        forall p ensures p in LevelMap(side) <==> p in old(LevelMap(side)).Keys + {price} {
          if p != price {
            assert p in LevelMap(side) <==> p in old(LevelMap(side));
          }
        }
      }
      UpdatedAt(LevelsView(side), old(LevelsView(side)), price, level.Queue());
    }

    /**
      When, of the book's objects other than the book itself, at most `level`
      and the orders it held changed, and the side of `level` kept its levels
      at every other price, those levels stay well formed and keep their
      queues.
     */
    twostate lemma OtherLevelsKept(level: PriceLevel)
      requires old(HeapOk()) && old(level.Valid()) && old(Repr) <= Repr
      requires forall p :: p != level.price && p in LevelMap(level.side) ==>
                 p in old(LevelMap(level.side)) && LevelMap(level.side)[p] == old(LevelMap(level.side))[p]
      requires unchanged(old(Repr) - {this} - old(level.Footprint()))
      ensures forall p :: p != level.price && p in LevelMap(level.side) ==>
                LevelOk(level.side, p) && LevelMap(level.side)[p].Queue() == old(LevelMap(level.side)[p].Queue())
    {
      var side, price := level.side, level.price;
      assert old(LevelsOk(side));
      forall p | p != price && p in LevelMap(side)
        ensures LevelOk(side, p) && LevelMap(side)[p].Queue() == old(LevelMap(side)[p].Queue())
      {
        assert old(LevelOk(side, p));
        var other := LevelMap(side)[p];
        forall o | o in other.orders
          ensures o in old(Repr) - {this} - old(level.Footprint())
        {
          assert o.level == other;
        }
      }
    }

    /** A book whose two sides are well formed, and which holds itself and not its listener, is well formed. */
    lemma BothSidesOk(side: Side)
      requires this in Repr && listener !in Repr
      requires LevelsOk(side) && LevelsOk(Opposite(side))
      ensures HeapOk()
    {
      forall s
        ensures LevelsOk(s)
      {
        if s != side {
          assert s == Opposite(side);
        }
      }
    }

    /**
      When, of the book's objects other than the book itself, only `level`
      and the orders it held changed, the sides kept their levels, `level`
      is still well formed and all its orders belong to the book, the book
      stays well formed and its view differs at that level only.
     */
    twostate lemma OneLevelChanged(level: PriceLevel)
      requires old(HeapOk())
      requires bids == old(bids) && asks == old(asks) && old(Repr) <= Repr && listener !in Repr
      requires level.price in LevelMap(level.side) && LevelMap(level.side)[level.price] == level
      requires level.Valid()
      requires forall o :: o in level.orders ==> o in Repr
      requires unchanged(old(Repr) - {this} - old(level.Footprint()))
      ensures HeapOk()
      ensures LevelsView(level.side) == old(LevelsView(level.side))[level.price := level.Queue()]
      ensures LevelsView(Opposite(level.side)) == old(LevelsView(Opposite(level.side)))
    {
      assert old(LevelsOk(level.side)) && old(LevelOk(level.side, level.price));
      OppositeKept(level);
      SameSideChanged(level);
      BothSidesOk(level.side);
    }

    /** The best level of a side: the highest bid or the lowest ask, or null for an empty side. */
    function GetBestLevel(side: Side): (level: PriceLevel?)
      reads this, Repr
      requires HeapOk()
      ensures level == null <==> LevelMap(side) == map[]
      ensures level != null ==>
                && level.side == side
                && level.price in LevelMap(side) && LevelMap(side)[level.price] == level
                && level.price == BestPrice(LevelMap(side).Keys, side)
    {
      var levels := LevelMap(side);
      if levels == map[] then null
      else
        BestExists(levels.Keys, side);
        BestIsUnique(levels.Keys, side);
        var p :| p in levels && IsBest(p, levels.Keys, side);
        assert LevelsOk(side) && LevelOk(side, p);
        levels[p]
    }

    /** Removes the level at the price of `level` from its side. */
    method DeleteLevel(level: PriceLevel)
      requires HeapOk()
      modifies this
      ensures HeapOk() && Repr == old(Repr) && orders == old(orders)
      ensures LevelMap(level.side) == old(LevelMap(level.side)) - {level.price}
      ensures LevelMap(Opposite(level.side)) == old(LevelMap(Opposite(level.side)))
      ensures LevelsView(level.side) == old(LevelsView(level.side)) - {level.price}
      ensures LevelsView(Opposite(level.side)) == old(LevelsView(Opposite(level.side)))
    {
      if level.side == Buy {
        bids := bids - {level.price};
      } else {
        asks := asks - {level.price};
      }
      LevelRemoved(level);
    }

    /** Removing the level at the price of `level` from its side, and changing nothing else, keeps the book well formed. */
    twostate lemma LevelRemoved(level: PriceLevel)
      requires old(HeapOk())
      requires LevelMap(level.side) == old(LevelMap(level.side)) - {level.price}
      requires LevelMap(Opposite(level.side)) == old(LevelMap(Opposite(level.side)))
      requires Repr == old(Repr) && listener !in Repr
      requires unchanged(old(Repr) - {this})
      ensures HeapOk()
      ensures LevelsView(level.side) == old(LevelsView(level.side)) - {level.price}
      ensures LevelsView(Opposite(level.side)) == old(LevelsView(Opposite(level.side)))
    {
      var side := level.side;
      forall s, p | p in LevelMap(s)
        ensures LevelOk(s, p) && LevelMap(s)[p].Queue() == old(LevelMap(s)[p].Queue())
      {
        assert old(LevelsOk(s));
        assert old(LevelOk(s, p));
      }
      assert LevelsOk(side) && LevelsOk(Opposite(side));
      BothSidesOk(side);
      forall s, p | p in LevelMap(s)
        ensures LevelsView(s)[p] == old(LevelsView(s))[p]
      {
      }
      assert LevelsView(side) == old(LevelsView(side)) - {level.price};
      assert LevelsView(Opposite(side)) == old(LevelsView(Opposite(side)));
    }

    /**
      After `level`, with no orders, was put at its price on its side and
      nothing else of the book changed, the book is well formed and its view
      has an empty queue at that price.
     */
    twostate lemma LevelInserted(level: PriceLevel)
      requires old(HeapOk()) && old(level.Valid())
      requires LevelMap(level.side) == old(LevelMap(level.side))[level.price := level]
      requires LevelMap(Opposite(level.side)) == old(LevelMap(Opposite(level.side)))
      requires Repr == old(Repr) + {level} && listener !in Repr
      requires level.orders == []
      requires unchanged(old(Repr) - {this})
      ensures HeapOk()
      ensures LevelsView(level.side) == old(LevelsView(level.side))[level.price := []]
      ensures LevelsView(Opposite(level.side)) == old(LevelsView(Opposite(level.side)))
    {
      OppositeKept(level);
      SameSideChanged(level);
      BothSidesOk(level.side);
    }

    /** The level at `price` on `side`, created empty and put on that side when absent. */
    method LevelFor(side: Side, price: int) returns (level: PriceLevel)
      requires HeapOk()
      modifies this
      ensures HeapOk() && orders == old(orders) && fresh(Repr - old(Repr)) && old(Repr) <= Repr
      ensures level.side == side && level.price == price
      ensures price in LevelMap(side) && LevelMap(side)[price] == level
      ensures LevelsView(side) == old(LevelsView(side))[price := level.Queue()]
      ensures level.Queue() == if price in old(LevelMap(side)) then old(LevelsView(side))[price] else []
      ensures LevelsView(Opposite(side)) == old(LevelsView(Opposite(side)))
    {
      if price in LevelMap(side) {
        level := LevelMap(side)[price];
        assert LevelsOk(side);
        assert LevelOk(side, price);
        return;
      }
      level := new PriceLevel(side, price);
      label Created:
      if side == Buy {
        bids := bids[price := level];
      } else {
        asks := asks[price := level];
      }
      Repr := Repr + {level};
      LevelInserted@Created(level);
    }

    /** Rests an order of `size` at the tail of the level at `price` on `side`, creating the level when absent. */
    method AddOrder(side: Side, orderId: string, price: int, size: int) returns (order: Order)
      requires HeapOk()
      modifies Repr
      ensures HeapOk() && orders == old(orders) && fresh(Repr - old(Repr)) && old(Repr) <= Repr
      ensures fresh(order) && order.level.side == side && order.level.price == price && order.id == orderId
      ensures LevelsView(side) == Rest(old(LevelsView(side)), price, orderId, size)
      ensures LevelsView(Opposite(side)) == old(LevelsView(Opposite(side)))
    {
      ghost var v0 := LevelsView(side);
      var level := LevelFor(side, price);
      assert LevelsOk(side) && LevelOk(side, price);
      ghost var mid, q := LevelsView(side), level.Queue();
      order := AddToLevel(level, orderId, size);
      RestInTwoSteps(v0, mid, LevelsView(side), price, q, Resting(orderId, size));
    }

    /** Appends a new order of `size` to `level`, one of the book's levels. */
    method AddToLevel(level: PriceLevel, orderId: string, size: int) returns (order: Order)
      requires HeapOk()
      requires level.price in LevelMap(level.side) && LevelMap(level.side)[level.price] == level
      modifies this, level
      ensures HeapOk() && orders == old(orders) && Repr == old(Repr) + {order}
      ensures bids == old(bids) && asks == old(asks)
      ensures fresh(order) && order.level == level && order.id == orderId
      ensures LevelsView(level.side) == old(LevelsView(level.side))[level.price := old(level.Queue()) + [Resting(orderId, size)]]
      ensures LevelsView(Opposite(level.side)) == old(LevelsView(Opposite(level.side)))
    {
      assert LevelsOk(level.side);
      assert LevelOk(level.side, level.price);
      order := level.Add(orderId, size);
      Repr := Repr + {order};
      OneLevelChanged(level);
    }

    /**
      One pass of the sweep: the incoming order `orderId` is matched against
      `level`, and the level leaves its side when that empties it.
     */
    method MatchBest(level: PriceLevel, orderId: string, side: Side, quantity: int) returns (remaining: int)
      requires HeapOk()
      requires level.price in LevelMap(level.side) && LevelMap(level.side)[level.price] == level
      modifies Repr, listener
      ensures HeapOk() && Repr == old(Repr) && orders == old(orders)
      ensures var f := MatchQueue(old(LevelsView(level.side))[level.price], orderId, side, level.price, quantity);
              && remaining == f.remaining
              && listener.events == old(listener.events) + f.events
              && LevelsView(level.side) == if f.queue == [] then old(LevelsView(level.side)) - {level.price}
                                           else old(LevelsView(level.side))[level.price := f.queue]
      ensures LevelsView(Opposite(level.side)) == old(LevelsView(Opposite(level.side)))
    {
      ghost var levels := LevelsView(level.side);
      assert LevelOk(level.side, level.price);
      label Matching:
      remaining := level.Match(orderId, side, quantity, listener);
      OneLevelChanged@Matching(level);
      if level.IsEmpty() {
        DeleteLevel(level);
        assert LevelsView(level.side) == levels - {level.price};
      }
    }

    /** What is left of the incoming order rests on its side, is indexed and is announced. */
    method RestRemainder(orderId: string, side: Side, price: int, quantity: int)
      requires HeapOk() && IndexOk()
      modifies Repr, listener
      ensures HeapOk() && IndexOk() && fresh(Repr - old(Repr))
      ensures LevelsView(side) == Rest(old(LevelsView(side)), price, orderId, quantity)
      ensures LevelsView(Opposite(side)) == old(LevelsView(Opposite(side)))
      ensures Index() == old(Index())[orderId := Loc(side, price)]
      ensures listener.events == old(listener.events) + [Event.Add(orderId, side, price, quantity)]
    {
      var order := AddOrder(side, orderId, price, quantity);
      IndexOrder(order);
      label Indexed:
      listener.Add(orderId, side, price, quantity);
      BookKept@Indexed();
    }

    /** Records `order` in the index under its identifier. */
    method IndexOrder(order: Order)
      requires HeapOk() && IndexOk()
      modifies this`orders
      ensures HeapOk() && IndexOk()
      ensures orders == old(orders)[order.id := order]
      ensures Index() == old(Index())[order.id := Loc(order.level.side, order.level.price)]
      ensures forall side :: LevelsView(side) == old(LevelsView(side))
    {
      label Before:
      orders := orders[order.id := order];
      BookKept@Before();
    }

    /**
      One pass of the sweep loop of the incoming order `orderId` on `side`
      with limit `price`: the best opposite level, which crosses the limit,
      is matched and leaves its side if emptied. The notifications sent are
      those the sweep sends first.
     */
    method SweepOnce(bestLevel: PriceLevel, orderId: string, side: Side, price: int, quantity: int,
                     ghost s0: SweepResult, ghost base: seq<Event>, ghost sent: seq<Event>)
      returns (remaining: int, ghost sent': seq<Event>)
      requires HeapOk() && quantity > 0
      requires bestLevel.side == Opposite(side)
      requires bestLevel.price in LevelMap(bestLevel.side) && LevelMap(bestLevel.side)[bestLevel.price] == bestLevel
      requires bestLevel.price == BestPrice(LevelMap(bestLevel.side).Keys, bestLevel.side)
      requires Crosses(side, bestLevel.price, price)
      requires listener.events == base + sent
      requires s0 == After(sent, Sweep(LevelsView(Opposite(side)), orderId, side, price, quantity))
      modifies Repr, listener
      ensures HeapOk() && Repr == old(Repr) && orders == old(orders)
      ensures LevelsView(side) == old(LevelsView(side))
      ensures listener.events == base + sent'
      ensures s0 == After(sent', Sweep(LevelsView(Opposite(side)), orderId, side, price, remaining))
      ensures |LevelMap(Opposite(side))| <= old(|LevelMap(Opposite(side))|)
      ensures remaining <= 0 || |LevelMap(Opposite(side))| < old(|LevelMap(Opposite(side))|)
    {
      var opp := Opposite(side);
      assert Opposite(opp) == side;
      ghost var levels := LevelsView(opp);
      ghost var best := bestLevel.price;
      ghost var f := MatchQueue(levels[best], orderId, side, best, quantity);
      SweepStep(levels, orderId, side, price, quantity, best);
      ghost var before := listener.events;
      remaining := MatchBest(bestLevel, orderId, side, quantity);
      AfterTwice(sent, f.events, Sweep(LevelsView(opp), orderId, side, price, remaining));
      sent' := sent + f.events;
      assert listener.events == before + f.events;
      assert before + f.events == base + sent' by {
        assert (base + sent) + f.events == base + (sent + f.events);
      }
    }

    /**
      The matching loop of an incoming order `orderId` on `side` with limit
      `price`: while quantity is left and the best opposite level crosses the
      limit, that level is matched and leaves its side when emptied. The
      opposite side, the quantity left and the notifications are those of
      `Sweep`; nothing else of the book changes.
     */
    method SweepSide(orderId: string, side: Side, price: int, size: int) returns (remainingQuantity: int, ghost sent: seq<Event>)
      requires HeapOk()
      modifies Repr, listener
      ensures HeapOk() && Repr == old(Repr) && orders == old(orders)
      ensures LevelsView(side) == old(LevelsView(side))
      ensures listener.events == old(listener.events) + sent
      ensures Sweep(old(LevelsView(Opposite(side))), orderId, side, price, size)
              == SweepResult(LevelsView(Opposite(side)), remainingQuantity, sent)
    {
      var opp := Opposite(side);
      assert Opposite(opp) == side;
      ghost var s0 := Sweep(LevelsView(opp), orderId, side, price, size);
      ghost var side0 := LevelsView(side);
      sent := [];
      remainingQuantity := size;
      var bestLevel := GetBestLevel(opp);
      while remainingQuantity > 0 && bestLevel != null && Crosses(side, bestLevel.price, price)
        invariant HeapOk() && Repr == old(Repr) && orders == old(orders)
        invariant LevelsView(side) == side0
        invariant bestLevel == null <==> LevelMap(opp) == map[]
        invariant bestLevel != null ==>
                    && bestLevel.side == opp
                    && bestLevel.price in LevelMap(opp) && LevelMap(opp)[bestLevel.price] == bestLevel
                    && bestLevel.price == BestPrice(LevelMap(opp).Keys, opp)
        invariant s0 == After(sent, Sweep(LevelsView(opp), orderId, side, price, remainingQuantity))
        invariant listener.events == old(listener.events) + sent
        decreases |LevelMap(opp)| + (if remainingQuantity > 0 then 1 else 0)
      {
        remainingQuantity, sent := SweepOnce(bestLevel, orderId, side, price, remainingQuantity, s0, old(listener.events), sent);
        bestLevel := GetBestLevel(opp);
      }
      assert Sweep(LevelsView(opp), orderId, side, price, remainingQuantity)
             == SweepResult(LevelsView(opp), remainingQuantity, []);
    }

    /**
      A new order `orderId` sweeps the opposite side, best level first,
      while quantity is left and the best level crosses its limit `price`;
      an emptied level leaves its side. Whatever quantity is left rests at
      `price` on the order's own side, is indexed and is announced.
     */
    method Trade(orderId: string, side: Side, price: int, size: int)
      requires Valid() && orderId !in orders
      modifies Repr, listener
      ensures Valid() && fresh(Repr - old(Repr))
      ensures var out := BookModel.Enter(old(View()), orderId, side, price, size);
              View() == out.book && listener.events == old(listener.events) + out.events
    {
      ghost var b0 := View();
      var remainingQuantity, sent := SweepSide(orderId, side, price, size);
      ghost var mid := View();
      ghost var evs := sent;
      if remainingQuantity > 0 {
        ghost var before := listener.events;
        RestRemainder(orderId, side, price, remainingQuantity);
        evs := sent + [Event.Add(orderId, side, price, remainingQuantity)];
        assert listener.events == old(listener.events) + evs by {
          assert listener.events == before + [Event.Add(orderId, side, price, remainingQuantity)];
        }
      }
      assert Opposite(Opposite(side)) == side;
      EnterOutcome(b0, orderId, side, price, size, mid, View(), evs);
      EnterKeepsInv(b0, orderId, side, price, size);
    }

    /**
      Entering an order: a known identifier, indexed or filled, is ignored;
      otherwise the order trades against the opposite side and its remainder
      rests, as `BookModel.Enter` says, and the book stays valid.
     */
    method Enter(orderId: string, side: Side, price: int, size: int)
      requires Valid()
      modifies Repr, listener
      ensures Valid() && fresh(Repr - old(Repr))
      ensures var out := BookModel.Enter(old(View()), orderId, side, price, size);
              View() == out.book && listener.events == old(listener.events) + out.events
    {
      if orderId in orders {
        assert orderId in Index();
        return;
      }
      Trade(orderId, side, price, size);
    }

    /**
      The order of the book with the identifier of `order`, searched only in
      the level at the price and side `order` was placed at: the first order
      of that level's list with that identifier, or null.
     */
    method GetOrderTree(order: Order) returns (rs: Order?)
      requires HeapOk()
      ensures var r := LookupIn(LevelsView(order.level.side), order.level.price, order.id);
              && (rs == null <==> r.None?)
              && (rs != null ==> r == Some(Resting(rs.id, rs.remainingQuantity)))
      ensures rs != null ==>
                var side, p := order.level.side, order.level.price;
                && p in LevelMap(side)
                && FindIn(LevelsView(side)[p], order.id) < |LevelMap(side)[p].orders|
                && rs == LevelMap(side)[p].orders[FindIn(LevelsView(side)[p], order.id)]
    {
      rs := null;
      var side, price := order.level.side, order.level.price;
      var levels := LevelMap(side);
      assert LevelsOk(side);
      if levels != map[] && price in levels {
        var pl := levels[price];
        assert LevelOk(side, price);
        if pl.orders != [] {
          rs := FindOrder(pl, order.id);
        }
      }
    }

    /** The order indexed under `orderId`, looked up in its level as `GetOrderTree` does; null for an unknown identifier. */
    method GetOrderTreeById(orderId: string) returns (rs: Order?)
      requires HeapOk() && IndexOk()
      ensures rs == null <==> orderId !in Index() || Lookup(View(), Index()[orderId], orderId).None?
      ensures rs != null ==> Lookup(View(), Index()[orderId], orderId) == Some(Resting(rs.id, rs.remainingQuantity))
    {
      if orderId !in orders {
        return null;
      }
      var order := orders[orderId];
      rs := GetOrderTree(order);
    }

    /** The remaining quantity of the order found as `GetOrderTree` finds it, or 0 when it is not found. */
    method GetRemainQuantityOrder(order: Order) returns (rs: int)
      requires HeapOk()
      ensures rs == match Lookup(View(), Loc(order.level.side, order.level.price), order.id)
                    case None => 0
                    case Some(r) => r.quantity
    {
      var o := GetOrderTree(order);
      rs := if o == null then 0 else o.remainingQuantity;
    }

    /** Sets the remaining quantity of `order`, the `k`th order of its level, where it stands. */
    method ResizeOrder(order: Order, size: int, ghost k: nat)
      requires HeapOk()
      requires order.level.price in LevelMap(order.level.side)
      requires LevelMap(order.level.side)[order.level.price] == order.level
      requires k < |order.level.orders| && order.level.orders[k] == order
      modifies order
      ensures HeapOk()
      ensures var side, p := order.level.side, order.level.price;
              LevelsView(side) == old(LevelsView(side))[p := old(LevelsView(side)[p])[k := Resting(order.id, size)]]
      ensures LevelsView(Opposite(order.level.side)) == old(LevelsView(Opposite(order.level.side)))
    {
      var level := order.level;
      assert LevelsOk(level.side) && LevelOk(level.side, level.price);
      order.Resize(size);
      forall j | 0 <= j < |level.orders| && j != k
        ensures level.orders[j].remainingQuantity == old(level.orders[j].remainingQuantity)
      {
        assert level.orders[j] != order;
      }
      level.EntryChanged(k);
      OneLevelChanged(level);
    }

    /** Removes `order`, the `k`th order of its level, from that level; an emptied level leaves its side. */
    method DeleteOrder(order: Order, ghost k: nat)
      requires HeapOk()
      requires order.level.price in LevelMap(order.level.side)
      requires LevelMap(order.level.side)[order.level.price] == order.level
      requires k < |order.level.orders| && order.level.orders[k] == order
      modifies this, order.level
      ensures HeapOk() && Repr == old(Repr) && orders == old(orders)
      ensures var side, p := order.level.side, order.level.price;
              var q := old(LevelsView(side)[p]);
              var rest := q[..k] + q[k + 1..];
              LevelsView(side) == if rest == [] then old(LevelsView(side)) - {p} else old(LevelsView(side))[p := rest]
      ensures LevelsView(Opposite(order.level.side)) == old(LevelsView(Opposite(order.level.side)))
    {
      var level := order.level;
      DeleteFromLevel(order, k);
      if level.IsEmpty() {
        ghost var levels := LevelsView(level.side);
        DeleteLevel(level);
        assert levels - {level.price} == old(LevelsView(level.side)) - {level.price};
      }
    }

    /** Removes `order`, the `k`th order of its level, from that level, which stays on its side. */
    method DeleteFromLevel(order: Order, ghost k: nat)
      requires HeapOk()
      requires order.level.price in LevelMap(order.level.side)
      requires LevelMap(order.level.side)[order.level.price] == order.level
      requires k < |order.level.orders| && order.level.orders[k] == order
      modifies order.level
      ensures HeapOk() && Repr == old(Repr)
      ensures order.level.price in LevelMap(order.level.side) && LevelMap(order.level.side)[order.level.price] == order.level
      ensures var side, p := order.level.side, order.level.price;
              var q := old(LevelsView(side)[p]);
              && order.level.Queue() == q[..k] + q[k + 1..]
              && LevelsView(side) == old(LevelsView(side))[p := q[..k] + q[k + 1..]]
      ensures LevelsView(Opposite(order.level.side)) == old(LevelsView(Opposite(order.level.side)))
    {
      var level := order.level;
      assert LevelsOk(level.side) && LevelOk(level.side, level.price);
      IndexOfDistinct(level.orders, k);
      level.Delete(order);
      OneLevelChanged(level);
    }

    /**
      Cancelling the order `orderId` down to `size`, as `BookModel.Cancel`
      says: an unknown identifier is ignored; an indexed order its level no
      longer holds loses its index entry; a size not below the remaining
      quantity changes nothing; a positive size shrinks the order in place
      and any other size removes it from its level and from the index. The
      last two send one Cancel notification. The book stays valid.
     */
    method Cancel(orderId: string, size: int)
      requires Valid()
      modifies Repr, listener
      ensures Valid() && Repr == old(Repr)
      ensures var out := BookModel.Cancel(old(View()), orderId, size);
              View() == out.book && listener.events == old(listener.events) + out.events
    {
      CancelKeepsInv(View(), orderId, size);
      CancelOnHeap(orderId, size);
    }

    /**
      Neither the sides nor any object of the book other than the book itself
      changed: it is well formed as before and shows the same queues.
     */
    twostate lemma BookKept()
      requires old(HeapOk())
      requires bids == old(bids) && asks == old(asks) && Repr == old(Repr)
      requires unchanged(old(Repr) - {this})
      ensures HeapOk() && Repr == old(Repr)
      ensures forall side :: LevelsView(side) == old(LevelsView(side))
    {
      forall side ensures LevelsOk(side) && LevelsView(side) == old(LevelsView(side)) {
        assert old(LevelsOk(side));
      }
    }

    /** The steps of `Cancel` on the book's objects, which keep them well formed. */
    method CancelOnHeap(orderId: string, size: int)
      requires HeapOk() && IndexOk()
      modifies Repr, listener
      ensures HeapOk() && IndexOk() && Repr == old(Repr)
      ensures var out := BookModel.Cancel(old(View()), orderId, size);
              View() == out.book && listener.events == old(listener.events) + out.events
    {
      if orderId !in orders {
        CancelIgnored(View(), orderId, size);
        return;
      }
      var orderMap := orders[orderId];
      var order := GetOrderTree(orderMap);
      CancelLocated(orderId, order, size);
    }

    /**
      The steps of `Cancel` once the order indexed under `orderId` was looked
      up in the level it was placed at: `order` is the order found there, or
      null when that level no longer holds it.
     */
    method CancelLocated(orderId: string, order: Order?, size: int)
      requires HeapOk() && IndexOk() && orderId in orders
      requires var loc := Index()[orderId];
               var r := LookupIn(LevelsView(loc.side), loc.price, orderId);
               && (order == null <==> r.None?)
               && (order != null ==>
                     && r == Some(Resting(order.id, order.remainingQuantity))
                     && loc.price in LevelMap(loc.side)
                     && FindIn(LevelsView(loc.side)[loc.price], orderId) < |LevelMap(loc.side)[loc.price].orders|
                     && order == LevelMap(loc.side)[loc.price].orders[FindIn(LevelsView(loc.side)[loc.price], orderId)])
      modifies Repr, listener
      ensures HeapOk() && IndexOk() && Repr == old(Repr)
      ensures var out := BookModel.Cancel(old(View()), orderId, size);
              View() == out.book && listener.events == old(listener.events) + out.events
    {
      if order == null {
        DropStale(orderId, size);
        return;
      }
      var remainingQuantity := order.remainingQuantity;
      if size >= remainingQuantity {
        CancelIgnored(View(), orderId, size);
        return;
      }
      CancelResting(orderId, order, size);
    }

    /** `Cancel` of an indexed order its level no longer holds: the stale index entry is dropped. */
    method DropStale(orderId: string, size: int)
      requires HeapOk() && IndexOk() && orderId in orders
      requires LookupIn(LevelsView(Index()[orderId].side), Index()[orderId].price, orderId).None?
      modifies this`orders
      ensures HeapOk() && IndexOk() && Repr == old(Repr)
      ensures var out := BookModel.Cancel(old(View()), orderId, size);
              View() == out.book && out.events == []
    {
      ghost var b0 := View();
      ghost var side := Index()[orderId].side;
      assert LevelsOf(b0, side) == LevelsView(side);
      Unindex(orderId);
      assert LevelsView(Buy) == b0.bids && LevelsView(Sell) == b0.asks;
      CancelStale(b0, orderId, size);
    }

    /** `Cancel` of an order found in its level to a `size` below what it has left. */
    method CancelResting(orderId: string, order: Order, size: int)
      requires HeapOk() && IndexOk() && orderId in orders
      requires var loc := Index()[orderId];
               && LookupIn(LevelsView(loc.side), loc.price, orderId) == Some(Resting(order.id, order.remainingQuantity))
               && loc.price in LevelMap(loc.side)
               && FindIn(LevelsView(loc.side)[loc.price], orderId) < |LevelMap(loc.side)[loc.price].orders|
               && order == LevelMap(loc.side)[loc.price].orders[FindIn(LevelsView(loc.side)[loc.price], orderId)]
      requires size < order.remainingQuantity
      modifies Repr, listener
      ensures HeapOk() && IndexOk() && Repr == old(Repr)
      ensures var out := BookModel.Cancel(old(View()), orderId, size);
              View() == out.book && listener.events == old(listener.events) + out.events
    {
      ghost var b0 := View();
      ghost var side, p := Index()[orderId].side, Index()[orderId].price;
      ghost var levels0 := LevelsView(side);
      assert LevelsOf(b0, side) == levels0 && LevelsOf(b0, Opposite(side)) == LevelsView(Opposite(side));
      var remainingQuantity := order.remainingQuantity;
      ghost var k := FindIn(levels0[p], orderId);
      assert LevelsOk(side) && LevelOk(side, p);
      CancelFound(orderId, order, remainingQuantity, size, k);
      ghost var b1 := View();
      assert LevelsOf(b1, side) == LevelsView(side) && LevelsOf(b1, Opposite(side)) == LevelsView(Opposite(side));
      assert b1.index == if size > 0 then b0.index else b0.index - {orderId};
      CancelFoundOutcome(b0, orderId, size, b1, side, p, k, remainingQuantity);
    }

    /** Deletes `order` from its level and drops its index entry, as a cancel down to nothing does. */
    method RemoveOrder(order: Order, ghost k: nat)
      requires HeapOk()
      requires order.level.price in LevelMap(order.level.side)
      requires LevelMap(order.level.side)[order.level.price] == order.level
      requires k < |order.level.orders| && order.level.orders[k] == order
      modifies this, order.level
      ensures HeapOk() && Repr == old(Repr)
      ensures var side, p := order.level.side, order.level.price;
              var q := old(LevelsView(side)[p]);
              var rest := q[..k] + q[k + 1..];
              LevelsView(side) == if rest == [] then old(LevelsView(side)) - {p} else old(LevelsView(side))[p := rest]
      ensures LevelsView(Opposite(order.level.side)) == old(LevelsView(Opposite(order.level.side)))
      ensures orders == old(orders) - {order.id}
      ensures Index() == old(Index()) - {order.id}
    {
      DeleteOrder(order, k);
      Unindex(order.id);
    }

    /** Drops the index entry of `orderId`. */
    method Unindex(orderId: string)
      requires HeapOk()
      modifies this`orders
      ensures HeapOk()
      ensures orders == old(orders) - {orderId}
      ensures Index() == old(Index()) - {orderId}
      ensures forall side :: LevelsView(side) == old(LevelsView(side))
    {
      label Before:
      orders := orders - {orderId};
      BookKept@Before();
    }

    /**
      The branch of cancelling that changes the book: `order`, the `k`th
      order of its level, found under `orderId` with `remainingQuantity`
      left, which `size` is below. A positive size shrinks it in place; any
      other size removes it from its level, the level from its side when
      emptied, and `orderId` from the index. One Cancel is sent.
     */
    method CancelFound(orderId: string, order: Order, remainingQuantity: int, size: int, ghost k: nat)
      requires HeapOk()
      requires order.level.price in LevelMap(order.level.side)
      requires LevelMap(order.level.side)[order.level.price] == order.level
      requires k < |order.level.orders| && order.level.orders[k] == order
      requires order.id == orderId && order.remainingQuantity == remainingQuantity
      modifies this, order, order.level, listener
      ensures HeapOk() && Repr == old(Repr)
      ensures var side, p := order.level.side, order.level.price;
              var q := old(LevelsView(side)[p]);
              var rest := q[..k] + q[k + 1..];
              LevelsView(side) == if size > 0 then old(LevelsView(side))[p := q[k := Resting(orderId, size)]]
                                  else if rest == [] then old(LevelsView(side)) - {p}
                                  else old(LevelsView(side))[p := rest]
      ensures LevelsView(Opposite(order.level.side)) == old(LevelsView(Opposite(order.level.side)))
      ensures orders == if size > 0 then old(orders) else old(orders) - {orderId}
      ensures Index() == if size > 0 then old(Index()) else old(Index()) - {orderId}
      ensures listener.events == old(listener.events)
                + [Event.Cancel(orderId, order.level.price, remainingQuantity - size, size, order.level.side)]
    {
      if size > 0 {
        ResizeOrder(order, size, k);
      } else {
        RemoveOrder(order, k);
      }
      label Changed:
      listener.Cancel(orderId, order.level.price, remainingQuantity - size, size, order.level.side);
      BookKept@Changed();
    }
  }

  /**
    The book after the sweep, `mid`, holds the swept opposite side; the
    book after resting, `b1`, is `mid` when nothing is left and otherwise
    `mid` with the remainder rested and indexed: that is entering the order.
   */
  lemma EnterOutcome(b0: Book, id: string, side: Side, price: int, size: int, mid: Book, b1: Book, evs: seq<Event>)
    requires id !in b0.index
    requires var s := Sweep(LevelsOf(b0, Opposite(side)), id, side, price, size);
             && LevelsOf(mid, Opposite(side)) == s.levels
             && LevelsOf(mid, side) == LevelsOf(b0, side)
             && mid.index == b0.index
             && (s.remaining > 0 ==>
                   && LevelsOf(b1, side) == Rest(LevelsOf(mid, side), price, id, s.remaining)
                   && LevelsOf(b1, Opposite(side)) == LevelsOf(mid, Opposite(side))
                   && b1.index == mid.index[id := Loc(side, price)]
                   && evs == s.events + [Event.Add(id, side, price, s.remaining)])
             && (s.remaining <= 0 ==> b1 == mid && evs == s.events)
    ensures Enter(b0, id, side, price, size) == Outcome(b1, evs)
  {
  }

  /** The first order of `level` with identifier `id`, scanning its list from the head; null when there is none. */
  method FindOrder(level: PriceLevel, id: string) returns (rs: Order?)
    ensures var k := FindIn(level.Queue(), id);
            && (rs == null <==> k == |level.orders|)
            && (rs != null ==> k < |level.orders| && rs == level.orders[k])
  {
    var i := 0;
    while i < |level.orders|
      invariant 0 <= i <= |level.orders|
      invariant forall j :: 0 <= j < i ==> level.orders[j].id != id
    {
      if level.orders[i].id == id {
        FindInIsFirst(level.Queue(), id, i);
        return level.orders[i];
      }
      i := i + 1;
    }
    FindInIsFirst(level.Queue(), id, i);
    return null;
  }

  /** Cancelling an unknown identifier, or to a size not below the order's remaining quantity, changes nothing. */
  lemma CancelIgnored(b: Book, id: string, size: int)
    requires id !in b.index || (Lookup(b, b.index[id], id).Some? && size >= Lookup(b, b.index[id], id).value.quantity)
    ensures BookModel.Cancel(b, id, size) == Outcome(b, [])
  {
  }

  /** Cancelling an indexed order its level no longer holds only drops its index entry. */
  lemma CancelStale(b: Book, id: string, size: int)
    requires id in b.index && Lookup(b, b.index[id], id).None?
    ensures BookModel.Cancel(b, id, size) == Outcome(b.(index := b.index - {id}), [])
  {
  }

  /**
    Cancelling the order `id`, indexed at `side` and `p` and found there as
    the `k`th order with `quantity` left, to a `size` below that quantity:
    `b1`, the level with the order shrunk in place, or with the order
    removed, the level dropped when emptied and the index entry dropped, is
    the book `Cancel` leaves, with one Cancel notification.
   */
  lemma CancelFoundOutcome(b0: Book, id: string, size: int, b1: Book, side: Side, p: int, k: nat, quantity: int)
    requires id in b0.index && b0.index[id] == Loc(side, p)
    requires p in LevelsOf(b0, side)
    requires k == FindIn(LevelsOf(b0, side)[p], id) && k < |LevelsOf(b0, side)[p]|
    requires LevelsOf(b0, side)[p][k] == Resting(id, quantity) && size < quantity
    requires LevelsOf(b1, Opposite(side)) == LevelsOf(b0, Opposite(side))
    requires var levels := LevelsOf(b0, side);
             var q := levels[p];
             var rest := q[..k] + q[k + 1..];
             LevelsOf(b1, side) == if size > 0 then levels[p := q[k := Resting(id, size)]]
                                   else if rest == [] then levels - {p}
                                   else levels[p := rest]
    requires b1.index == if size > 0 then b0.index else b0.index - {id}
    ensures BookModel.Cancel(b0, id, size) == Outcome(b1, [Event.Cancel(id, p, quantity - size, size, side)])
  {
  }
}
