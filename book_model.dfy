/**
  The order book stated on values: each side is a map from price to the
  queue resting at that price, and the index maps every known order
  identifier to the side and price of the level it was entered at. The
  classes of `OrderBooks` are proved to behave as the functions here say.
 */
module BookModel {
  import opened Events
  import opened Matching

  /** One side of the book: price to the queue resting at that price. */
  type Levels = map<int, seq<Resting>>

  /** The level an indexed order was placed in. */
  datatype Loc = Loc(side: Side, price: int)

  datatype Option<T> = None | Some(value: T)

  datatype Book = Book(bids: Levels, asks: Levels, index: map<string, Loc>)

  /** The book after an operation and the notifications it sent, in order. */
  datatype Outcome = Outcome(book: Book, events: seq<Event>)

  /** A side after an incoming order swept it, what is left of the order, and the notifications. */
  datatype SweepResult = SweepResult(levels: Levels, remaining: int, events: seq<Event>)

  function LevelsOf(b: Book, side: Side): Levels
  {
    if side == Buy then b.bids else b.asks
  }

  function WithLevels(b: Book, side: Side, m: Levels): (r: Book)
    ensures LevelsOf(r, side) == m
    ensures LevelsOf(r, Opposite(side)) == LevelsOf(b, Opposite(side))
    ensures r.index == b.index
  {
    if side == Buy then b.(bids := m) else b.(asks := m)
  }

  /** `p` is the best price among `keys` on `side`: the highest bid or the lowest ask. */
  predicate IsBest(p: int, keys: set<int>, side: Side)
  {
    p in keys && forall k :: k in keys ==> AtLeastAsGood(side, p, k)
  }

  /** `a` is at least as good a price as `b` on `side`. */
  predicate AtLeastAsGood(side: Side, a: int, b: int)
  {
    if side == Buy then a >= b else a <= b
  }

  /** Every non-empty side has a best price. */
  lemma {:induction false} BestExists(keys: set<int>, side: Side)
    requires keys != {}
    ensures exists p :: IsBest(p, keys, side)
    decreases keys
  {
    if forall y :: y !in keys {
      assert false;
    }
    var x :| x in keys;
    if keys == {x} {
      assert IsBest(x, keys, side);
    } else {
      BestExists(keys - {x}, side);
      var p :| IsBest(p, keys - {x}, side);
      if AtLeastAsGood(side, x, p) {
        forall k | k in keys
          ensures AtLeastAsGood(side, x, k)
        {
          if k != x {
            assert k in keys - {x};
          }
        }
        assert IsBest(x, keys, side);
      } else {
        assert IsBest(p, keys, side);
      }
    }
  }

  /** At most one price of a side is the best. */
  lemma BestIsUnique(keys: set<int>, side: Side)
    ensures forall p, p' :: IsBest(p, keys, side) && IsBest(p', keys, side) ==> p == p'
  {
    forall p, p' | IsBest(p, keys, side) && IsBest(p', keys, side)
      ensures p == p'
    {
      assert AtLeastAsGood(side, p, p') && AtLeastAsGood(side, p', p);
    }
  }

  ghost function BestPrice(keys: set<int>, side: Side): (p: int)
    requires keys != {}
    ensures IsBest(p, keys, side)
  {
    BestExists(keys, side);
    var p :| IsBest(p, keys, side);
    p
  }

  /** An incoming order on `incoming` with limit `limit` trades with a level at `levelPrice`. */
  predicate Crosses(incoming: Side, levelPrice: int, limit: int)
  {
    if incoming == Buy then levelPrice <= limit else levelPrice >= limit
  }

  /**
    An incoming order sweeping the opposite side `levels`: while quantity is
    left and the best level crosses the limit, that level is matched; a level
    matching empties is removed and the next best is tried.
   */
  ghost function Sweep(levels: Levels, incomingId: string, incoming: Side, limit: int, quantity: int): (s: SweepResult)
    ensures s.levels.Keys <= levels.Keys
    decreases levels.Keys
  {
    if quantity <= 0 || levels == map[] then SweepResult(levels, quantity, [])
    else
      var best := BestPrice(levels.Keys, Opposite(incoming));
      if !Crosses(incoming, best, limit) then SweepResult(levels, quantity, [])
      else
        var f := MatchQueue(levels[best], incomingId, incoming, best, quantity);
        if f.queue == [] then
          var s := Sweep(levels - {best}, incomingId, incoming, limit, f.remaining);
          SweepResult(s.levels, s.remaining, f.events + s.events)
        else
          SweepResult(levels[best := f.queue], f.remaining, f.events)
  }

  /** `levels` with an order of `quantity` appended at the tail of the level at `price`, created if absent. */
  function Rest(levels: Levels, price: int, id: string, quantity: int): Levels
  {
    levels[price := (if price in levels then levels[price] else []) + [Resting(id, quantity)]]
  }

  /**
    Resting appends at the tail: the level at `price` exists afterwards and
    ends with the new order behind its old queue (empty if it was absent);
    every other level is untouched.
   */
  lemma RestAppends(levels: Levels, price: int, id: string, quantity: int)
    ensures var r := Rest(levels, price, id, quantity);
            && r.Keys == levels.Keys + {price}
            && (forall p :: p in levels && p != price ==> r[p] == levels[p])
            && |r[price]| > 0 && r[price][|r[price]| - 1] == Resting(id, quantity)
            && r[price][..|r[price]| - 1] == if price in levels then levels[price] else []
  {
    var old_q := if price in levels then levels[price] else [];
    assert (old_q + [Resting(id, quantity)])[..|old_q|] == old_q;
  }

  /**
    Entering an order: a known identifier changes nothing; otherwise the
    order sweeps the opposite side and what is left of it rests on its own
    side at its limit price, with one Add notification.
   */
  ghost function Enter(b: Book, id: string, side: Side, price: int, size: int): (o: Outcome)
    ensures id in b.index ==> o == Outcome(b, [])
    ensures o.book.index == b.index || (id !in b.index && o.book.index == b.index[id := Loc(side, price)])
  {
    if id in b.index then Outcome(b, [])
    else
      var s := Sweep(LevelsOf(b, Opposite(side)), id, side, price, size);
      var swept := WithLevels(b, Opposite(side), s.levels);
      if s.remaining > 0 then
        Outcome(WithLevels(swept, side, Rest(LevelsOf(b, side), price, id, s.remaining))
                  .(index := b.index[id := Loc(side, price)]),
                s.events + [Event.Add(id, side, price, s.remaining)])
      else
        Outcome(swept, s.events)
  }

  /** Position of the first order with identifier `id` in `q`, or `|q|` when there is none. */
  function FindIn(q: seq<Resting>, id: string): (i: nat)
    ensures i <= |q|
    ensures i < |q| ==> q[i].id == id
    ensures forall j :: 0 <= j < i ==> q[j].id != id
  {
    if q == [] then 0
    else if q[0].id == id then 0
    else 1 + FindIn(q[1..], id)
  }

  /** `FindIn` is the first position holding `id`. */
  lemma FindInIsFirst(q: seq<Resting>, id: string, k: nat)
    requires k <= |q|
    requires k < |q| ==> q[k].id == id
    requires forall j :: 0 <= j < k ==> q[j].id != id
    ensures FindIn(q, id) == k
  {
  }

  /** The order `id` as the queue at `price` of `levels` holds it, if that queue exists and holds it. */
  function LookupIn(levels: Levels, price: int, id: string): (r: Option<Resting>)
    ensures r.Some? <==> price in levels && exists i :: 0 <= i < |levels[price]| && levels[price][i].id == id
    ensures r.Some? ==> r.value.id == id && r.value in levels[price]
    ensures r.Some? ==> r.value == levels[price][FindIn(levels[price], id)]
  {
    if price !in levels then None
    else
      var i := FindIn(levels[price], id);
      if i < |levels[price]| then Some(levels[price][i]) else None
  }

  /** The order `id` as the level at `loc` holds it, if that level exists and holds it. */
  function Lookup(b: Book, loc: Loc, id: string): Option<Resting>
  {
    LookupIn(LevelsOf(b, loc.side), loc.price, id)
  }

  /**
    Cancelling down to `size`. An unknown identifier changes nothing. An
    indexed order no longer in its level (it was filled) only loses its
    index entry. A size not below the remaining quantity changes nothing.
    A positive size shrinks the order where it stands; otherwise the order
    leaves its queue and the index, and an emptied level leaves its side.
   */
  ghost function Cancel(b: Book, id: string, size: int): (o: Outcome)
    ensures id !in b.index ==> o == Outcome(b, [])
    ensures o.book.index == b.index || (id in b.index && o.book.index == b.index - {id})
    ensures |o.events| <= 1
  {
    if id !in b.index then Outcome(b, [])
    else
      var loc := b.index[id];
      match Lookup(b, loc, id)
      case None => Outcome(b.(index := b.index - {id}), [])
      case Some(r) =>
        if size >= r.quantity then Outcome(b, [])
        else
          var levels: Levels := LevelsOf(b, loc.side);
          var q := levels[loc.price];
          var i := FindIn(q, id);
          var ev := [Event.Cancel(id, loc.price, r.quantity - size, size, loc.side)];
          if size > 0 then
            Outcome(WithLevels(b, loc.side, levels[loc.price := q[i := Resting(id, size)]]), ev)
          else
            var rest := q[..i] + q[i + 1..];
            var levels': Levels := if rest == [] then levels - {loc.price} else levels[loc.price := rest];
            Outcome(WithLevels(b, loc.side, levels').(index := b.index - {id}), ev)
  }

  // ---------------------------------------------------------------------
  // The book's invariant

  /** Every queue of a side is non-empty, holds positive quantities and distinct identifiers, all indexed at this level. */
  ghost predicate SideOk(levels: Levels, side: Side, index: map<string, Loc>)
  {
    forall p :: p in levels ==> QueueOk(levels[p], Loc(side, p), index)
  }

  ghost predicate QueueOk(q: seq<Resting>, loc: Loc, index: map<string, Loc>)
  {
    && q != []
    && (forall i :: 0 <= i < |q| ==> q[i].quantity > 0 && q[i].id in index && index[q[i].id] == loc)
    && (forall i, j :: 0 <= i < j < |q| ==> q[i].id != q[j].id)
  }

  /** Every bid is strictly below every ask. */
  ghost predicate NotCrossed(bids: Levels, asks: Levels)
  {
    forall bp, ap :: bp in bids && ap in asks ==> bp < ap
  }

  ghost predicate Inv(b: Book)
  {
    SideOk(b.bids, Buy, b.index) && SideOk(b.asks, Sell, b.index) && NotCrossed(b.bids, b.asks)
  }

  // ---------------------------------------------------------------------
  // Sweeping the opposite side

  /** A queue that matching leaves non-empty keeps its queue invariant. */
  lemma MatchKeepsQueueOk(q: seq<Resting>, loc: Loc, index: map<string, Loc>,
                          incomingId: string, incoming: Side, price: int, quantity: int)
    requires QueueOk(q, loc, index)
    requires MatchQueue(q, incomingId, incoming, price, quantity).queue != []
    ensures QueueOk(MatchQueue(q, incomingId, incoming, price, quantity).queue, loc, index)
  {
    var f := MatchQueue(q, incomingId, incoming, price, quantity);
    MatchIsFifo(q, incomingId, incoming, price, quantity);
    var r, k := f.queue, |q| - |f.queue|;
    forall i | 0 <= i < |r|
      ensures r[i].id == q[k + i].id && r[i].quantity > 0
    {
      if r != q[k..] && i > 0 {
        assert r[i] == q[k + 1..][i - 1];
      }
    }
    forall i, j | 0 <= i < j < |r|
      ensures r[i].id != r[j].id
    {
      assert r[i].id == q[k + i].id && r[j].id == q[k + j].id;
    }
  }

  /** What is left of the incoming order is between 0 and its size, when every resting quantity is positive. */
  lemma {:induction false} SweepBounds(levels: Levels, side: Side, index: map<string, Loc>,
                                       incomingId: string, limit: int, quantity: int)
    requires SideOk(levels, side, index)
    requires quantity >= 0
    ensures var s := Sweep(levels, incomingId, Opposite(side), limit, quantity);
            0 <= s.remaining <= quantity
    decreases levels.Keys
  {
    var incoming := Opposite(side);
    if quantity > 0 && levels != map[] {
      var best := BestPrice(levels.Keys, Opposite(incoming));
      if Crosses(incoming, best, limit) {
        MatchBounds(levels[best], incomingId, incoming, best, quantity);
        var f := MatchQueue(levels[best], incomingId, incoming, best, quantity);
        if f.queue == [] {
          SweepBounds(levels - {best}, side, index, incomingId, limit, f.remaining);
        }
      }
    }
  }

  /** A sweep keeps the invariant of the side it sweeps. */
  lemma {:induction false} SweepKeepsSideOk(levels: Levels, side: Side, index: map<string, Loc>,
                                            incomingId: string, limit: int, quantity: int)
    requires SideOk(levels, side, index)
    ensures SideOk(Sweep(levels, incomingId, Opposite(side), limit, quantity).levels, side, index)
    decreases levels.Keys
  {
    var incoming := Opposite(side);
    if quantity > 0 && levels != map[] {
      var best := BestPrice(levels.Keys, Opposite(incoming));
      if Crosses(incoming, best, limit) {
        var f := MatchQueue(levels[best], incomingId, incoming, best, quantity);
        if f.queue == [] {
          SweepKeepsSideOk(levels - {best}, side, index, incomingId, limit, f.remaining);
        } else {
          MatchKeepsQueueOk(levels[best], Loc(side, best), index, incomingId, incoming, best, quantity);
        }
      }
    }
  }

  /**
    When the incoming order is not used up, no level left on the swept side
    crosses its limit: the order can rest without crossing the book.
   */
  lemma {:induction false} SweepStopsAtLimit(levels: Levels, incomingId: string, incoming: Side, limit: int, quantity: int)
    ensures var s := Sweep(levels, incomingId, incoming, limit, quantity);
            s.remaining > 0 ==> forall p :: p in s.levels ==> !Crosses(incoming, p, limit)
    decreases levels.Keys
  {
    if quantity > 0 && levels != map[] {
      var best := BestPrice(levels.Keys, Opposite(incoming));
      if Crosses(incoming, best, limit) {
        var f := MatchQueue(levels[best], incomingId, incoming, best, quantity);
        if f.queue == [] {
          SweepStopsAtLimit(levels - {best}, incomingId, incoming, limit, f.remaining);
        }
      }
    }
  }

  /** Price priority: a sweep trades as `BestFirst` says. */
  lemma {:induction false} SweepIsBestFirst(levels: Levels, incomingId: string, incoming: Side, limit: int, quantity: int)
    ensures BestFirst(levels, incomingId, incoming, limit, Sweep(levels, incomingId, incoming, limit, quantity))
    decreases levels.Keys
  {
    if quantity > 0 && levels != map[] {
      var best := BestPrice(levels.Keys, Opposite(incoming));
      if Crosses(incoming, best, limit) {
        var f := MatchQueue(levels[best], incomingId, incoming, best, quantity);
        assert forall i :: 0 <= i < |f.events| ==> f.events[i] in f.events;
        if f.queue == [] {
          SweepIsBestFirst(levels - {best}, incomingId, incoming, limit, f.remaining);
          var r := Sweep(levels - {best}, incomingId, incoming, limit, f.remaining);
          var evs := f.events + r.events;
          var n := |f.events|;
          assert forall i :: n <= i < |evs| ==> evs[i] == r.events[i - n];
          assert forall i :: 0 <= i < n ==> evs[i] == f.events[i];
          forall i | 0 <= i < |evs|
            ensures && evs[i].Match? && evs[i].incomingOrderId == incomingId
                    && evs[i].incomingSide == incoming
                    && evs[i].price in levels && Crosses(incoming, evs[i].price, limit)
                    && AtLeastAsGood(Opposite(incoming), best, evs[i].price)
          {
            if i < n {
              assert evs[i] == f.events[i] && f.events[i] in f.events;
            } else {
              assert evs[i] == r.events[i - n];
              assert evs[i].price in levels.Keys;
            }
          }
          forall i, j | 0 <= i < j < |evs|
            ensures AtLeastAsGood(Opposite(incoming), evs[i].price, evs[j].price)
          {
            if j >= n && i >= n {
              assert evs[i] == r.events[i - n] && evs[j] == r.events[j - n];
            } else if i < n && j < n {
              assert evs[i] == f.events[i] && f.events[i] in f.events;
              assert evs[j] == f.events[j] && f.events[j] in f.events;
            } else {
              assert evs[i] == f.events[i] && f.events[i] in f.events;
            }
          }
          forall i, p | 0 <= i < |evs| && p in r.levels
            ensures AtLeastAsGood(Opposite(incoming), evs[i].price, p)
          {
            if i >= n {
              assert evs[i] == r.events[i - n];
            }
          }
        }
      }
    }
  }

  /**
    Every notification of a sweep is a Match of the incoming order at the
    price of a level that crosses its limit; the prices come best first; and
    no level left behind is strictly better than any price traded.
   */
  ghost predicate BestFirst(levels: Levels, incomingId: string, incoming: Side, limit: int, s: SweepResult)
  {
    && (forall i :: 0 <= i < |s.events| ==>
          && s.events[i].Match? && s.events[i].incomingOrderId == incomingId
          && s.events[i].incomingSide == incoming
          && s.events[i].price in levels && Crosses(incoming, s.events[i].price, limit))
    && (forall i, j :: 0 <= i < j < |s.events| ==>
          AtLeastAsGood(Opposite(incoming), s.events[i].price, s.events[j].price))
    && (forall i, p :: 0 <= i < |s.events| && p in s.levels ==>
          AtLeastAsGood(Opposite(incoming), s.events[i].price, p))
  }

  /** Sum of the remaining quantities resting on a side, taken level by level from the highest price. */
  ghost function SideTotal(levels: Levels): int
    decreases levels.Keys
  {
    if levels == map[] then 0
    else
      var p := BestPrice(levels.Keys, Buy);
      Total(levels[p]) + SideTotal(levels - {p})
  }

  /** A side's total is any one of its levels' totals plus the total of the others. */
  lemma {:induction false} SideTotalSplit(levels: Levels, k: int)
    requires k in levels
    ensures SideTotal(levels) == Total(levels[k]) + SideTotal(levels - {k})
    decreases levels.Keys
  {
    var p := BestPrice(levels.Keys, Buy);
    if p != k {
      SideTotalSplit(levels - {p}, k);
      SideTotalSplit(levels - {k}, p);
      assert levels - {p} - {k} == levels - {k} - {p};
      assert (levels - {p})[k] == levels[k] && (levels - {k})[p] == levels[p];
    }
  }

  /**
    Quantity conservation for a sweep: what the incoming order lost is what
    the notifications report as executed, and is what the swept side lost.
   */
  lemma {:induction false} SweepConserves(levels: Levels, incomingId: string, incoming: Side, limit: int, quantity: int)
    ensures var s := Sweep(levels, incomingId, incoming, limit, quantity);
            quantity - s.remaining == Executed(s.events)
    ensures var s := Sweep(levels, incomingId, incoming, limit, quantity);
            SideTotal(levels) - SideTotal(s.levels) == Executed(s.events)
    decreases levels.Keys
  {
    if quantity > 0 && levels != map[] {
      var best := BestPrice(levels.Keys, Opposite(incoming));
      if Crosses(incoming, best, limit) {
        MatchConserves(levels[best], incomingId, incoming, best, quantity);
        var f := MatchQueue(levels[best], incomingId, incoming, best, quantity);
        SideTotalSplit(levels, best);
        if f.queue == [] {
          SweepConserves(levels - {best}, incomingId, incoming, limit, f.remaining);
          ExecutedAppend(f.events, Sweep(levels - {best}, incomingId, incoming, limit, f.remaining).events);
        } else {
          var levels' := levels[best := f.queue];
          SideTotalSplit(levels', best);
          assert levels' - {best} == levels - {best};
        }
      }
    }
  }

  // ---------------------------------------------------------------------
  // Entering an order

  /** Indexing an identifier that no queue holds leaves a side's invariant intact. */
  lemma SideOkFreshId(levels: Levels, side: Side, index: map<string, Loc>, id: string, loc: Loc)
    requires SideOk(levels, side, index)
    requires id !in index
    ensures SideOk(levels, side, index[id := loc])
  {
    forall p | p in levels
      ensures QueueOk(levels[p], Loc(side, p), index[id := loc])
    {
      assert QueueOk(levels[p], Loc(side, p), index);
    }
  }

  /** Resting a positive quantity under a fresh identifier keeps the side's invariant. */
  lemma RestKeepsSideOk(levels: Levels, side: Side, index: map<string, Loc>, price: int, id: string, quantity: int)
    requires SideOk(levels, side, index)
    requires id !in index
    requires quantity > 0
    ensures SideOk(Rest(levels, price, id, quantity), side, index[id := Loc(side, price)])
  {
    var index' := index[id := Loc(side, price)];
    SideOkFreshId(levels, side, index, id, Loc(side, price));
    var old_q := if price in levels then levels[price] else [];
    var q := old_q + [Resting(id, quantity)];
    assert forall i :: 0 <= i < |old_q| ==> q[i] == old_q[i];
    if price in levels {
      assert QueueOk(old_q, Loc(side, price), index);
    }
    assert QueueOk(q, Loc(side, price), index');
  }

  /** Entering an order keeps the book's invariant, in particular the book is never crossed. */
  lemma EnterKeepsInv(b: Book, id: string, side: Side, price: int, size: int)
    requires Inv(b)
    ensures Inv(Enter(b, id, side, price, size).book)
  {
    if id !in b.index {
      var opp := Opposite(side);
      var s := Sweep(LevelsOf(b, opp), id, side, price, size);
      assert Opposite(opp) == side;
      SweepKeepsSideOk(LevelsOf(b, opp), opp, b.index, id, price, size);
      SweepStopsAtLimit(LevelsOf(b, opp), id, side, price, size);
      if s.remaining > 0 {
        RestKeepsSideOk(LevelsOf(b, side), side, b.index, price, id, s.remaining);
        SideOkFreshId(s.levels, opp, b.index, id, Loc(side, price));
      }
    }
  }

  /**
    Quantity conservation on entry: for a new identifier and a non-negative
    size, the quantity executed plus the quantity that came to rest is the
    size entered.
   */
  lemma EnterConserves(b: Book, id: string, side: Side, price: int, size: int)
    requires Inv(b)
    requires id !in b.index
    requires size >= 0
    ensures var o := Enter(b, id, side, price, size);
            Executed(o.events) + Added(o.events) == size
  {
    var opp := Opposite(side);
    var s := Sweep(LevelsOf(b, opp), id, side, price, size);
    assert Opposite(opp) == side;
    SweepConserves(LevelsOf(b, opp), id, side, price, size);
    SweepBounds(LevelsOf(b, opp), opp, b.index, id, price, size);
    SweepIsBestFirst(LevelsOf(b, opp), id, side, price, size);
    AddedOfMatches(s.events);
    if s.remaining > 0 {
      var add := [Event.Add(id, side, price, s.remaining)];
      ExecutedAppend(s.events, add);
      AddedAppend(s.events, add);
    }
  }

  /**
    The remainder of a new order rests exactly when an Add is sent: at most
    one Add, always the last notification, carrying a positive quantity, for
    this order at its limit on its own side; the order is then indexed and
    sits at the tail of that level, which holds the orders it held before.
   */
  lemma EnterRestsRemainder(b: Book, id: string, side: Side, price: int, size: int)
    requires id !in b.index
    ensures var o := Enter(b, id, side, price, size);
            RestsAtTail(b, o, id, side, price)
  {
    var opp := Opposite(side);
    var s := Sweep(LevelsOf(b, opp), id, side, price, size);
    SweepIsBestFirst(LevelsOf(b, opp), id, side, price, size);
    var o := Enter(b, id, side, price, size);
    if s.remaining > 0 {
      assert forall i :: 0 <= i < |s.events| ==> o.events[i] == s.events[i];
    }
  }

  ghost predicate RestsAtTail(b: Book, o: Outcome, id: string, side: Side, price: int)
  {
    var n := |o.events|;
    && (forall i :: 0 <= i < n && o.events[i].Add? ==> i == n - 1)
    && (id in o.book.index <==> (n > 0 && o.events[n - 1].Add?))
    && (n > 0 && o.events[n - 1].Add? ==>
          var size := o.events[n - 1].size;
          && o.events[n - 1] == Event.Add(id, side, price, size)
          && size > 0
          && o.book.index[id] == Loc(side, price)
          && price in LevelsOf(o.book, side)
          && LevelsOf(o.book, side)[price]
             == (if price in LevelsOf(b, side) then LevelsOf(b, side)[price] else []) + [Resting(id, size)])
  }

  // ---------------------------------------------------------------------
  // Cancelling an order

  /** No queue of `levels` holds an order with identifier `id`. */
  ghost predicate NoneHolds(levels: Levels, id: string)
  {
    forall p, i :: p in levels && 0 <= i < |levels[p]| ==> levels[p][i].id != id
  }

  /** Dropping an identifier that no queue of the side holds keeps the side's invariant. */
  lemma SideOkDropId(levels: Levels, side: Side, index: map<string, Loc>, id: string)
    requires SideOk(levels, side, index)
    requires NoneHolds(levels, id)
    ensures SideOk(levels, side, index - {id})
  {
    forall p | p in levels
      ensures QueueOk(levels[p], Loc(side, p), index - {id})
    {
      assert QueueOk(levels[p], Loc(side, p), index);
    }
  }

  /** Under a side's invariant, an identifier only rests in the level its index entry names. */
  lemma NotElsewhere(levels: Levels, side: Side, index: map<string, Loc>, id: string)
    requires SideOk(levels, side, index)
    requires id in index
    ensures index[id].side != side ==> NoneHolds(levels, id)
    ensures NoneHolds(levels - {index[id].price}, id)
  {
    forall p, i | p in levels && 0 <= i < |levels[p]| && levels[p][i].id == id
      ensures index[id] == Loc(side, p)
    {
      assert QueueOk(levels[p], Loc(side, p), index);
    }
  }

  /** The stale-entry branch of Cancel: the level no longer holds the order. */
  lemma CancelStaleKeepsSideOk(levels: Levels, side: Side, index: map<string, Loc>, id: string, price: int)
    requires SideOk(levels, side, index)
    requires NoneHolds(levels - {price}, id)
    requires price !in levels || FindIn(levels[price], id) == |levels[price]|
    ensures SideOk(levels, side, index - {id})
  {
    forall p, i | p in levels && 0 <= i < |levels[p]|
      ensures levels[p][i].id != id
    {
      if p != price {
        assert p in levels - {price} && (levels - {price})[p] == levels[p];
      } else {
        var q := levels[p];
        var k := FindIn(q, id);
        assert k == |q| && i < k;
      }
    }
    SideOkDropId(levels, side, index, id);
  }

  /** The shrinking branch of Cancel keeps the side's invariant. */
  lemma CancelShrinkKeepsSideOk(levels: Levels, side: Side, index: map<string, Loc>, id: string, price: int, size: int)
    requires SideOk(levels, side, index)
    requires price in levels && FindIn(levels[price], id) < |levels[price]|
    requires size > 0
    ensures var q := levels[price];
            SideOk(levels[price := q[FindIn(q, id) := Resting(id, size)]], side, index)
  {
    var q := levels[price];
    var i := FindIn(q, id);
    assert QueueOk(q, Loc(side, price), index);
    assert QueueOk(q[i := Resting(id, size)], Loc(side, price), index);
  }

  /** The removing branch of Cancel keeps the side's invariant. */
  lemma CancelRemoveKeepsSideOk(levels: Levels, side: Side, index: map<string, Loc>, id: string, price: int)
    requires SideOk(levels, side, index)
    requires NoneHolds(levels - {price}, id)
    requires price in levels && FindIn(levels[price], id) < |levels[price]|
    ensures var q := levels[price];
            var i := FindIn(q, id);
            var rest := q[..i] + q[i + 1..];
            SideOk(if rest == [] then levels - {price} else levels[price := rest], side, index - {id})
  {
    var q := levels[price];
    var i := FindIn(q, id);
    var rest := q[..i] + q[i + 1..];
    var levels': Levels := if rest == [] then levels - {price} else levels[price := rest];
    assert QueueOk(q, Loc(side, price), index);
    assert forall j :: 0 <= j < |rest| ==> rest[j] == (if j < i then q[j] else q[j + 1]);
    forall p, j | p in levels' && 0 <= j < |levels'[p]|
      ensures levels'[p][j].id != id
    {
      if p != price {
        assert p in levels - {price} && (levels - {price})[p] == levels[p];
      }
    }
    if rest != [] {
      assert QueueOk(rest, Loc(side, price), index);
    }
    SideOkDropId(levels', side, index, id);
  }

  /** Cancelling keeps the book's invariant. */
  lemma CancelKeepsInv(b: Book, id: string, size: int)
    requires Inv(b)
    ensures Inv(Cancel(b, id, size).book)
  {
    if id in b.index {
      var loc := b.index[id];
      var levels: Levels := LevelsOf(b, loc.side);
      var other: Levels := LevelsOf(b, Opposite(loc.side));
      NotElsewhere(levels, loc.side, b.index, id);
      NotElsewhere(other, Opposite(loc.side), b.index, id);
      SideOkDropId(other, Opposite(loc.side), b.index, id);
      if Lookup(b, loc, id).None? {
        CancelStaleKeepsSideOk(levels, loc.side, b.index, id, loc.price);
      } else if size >= Lookup(b, loc, id).value.quantity {
      } else if size > 0 {
        CancelShrinkKeepsSideOk(levels, loc.side, b.index, id, loc.price, size);
      } else {
        CancelRemoveKeepsSideOk(levels, loc.side, b.index, id, loc.price);
      }
    }
  }

  // ---------------------------------------------------------------------
  // Where an order is found after entering and cancelling

  /** A fresh order whose remainder rested is found at its level with the quantity the Add reported. */
  lemma LookupAfterEnter(b: Book, id: string, side: Side, price: int, size: int)
    requires Inv(b)
    requires id !in b.index
    ensures var o := Enter(b, id, side, price, size);
            id in o.book.index ==>
              && o.book.index[id] == Loc(side, price)
              && Lookup(o.book, Loc(side, price), id) == Some(Resting(id, o.events[|o.events| - 1].size))
  {
    var o := Enter(b, id, side, price, size);
    EnterRestsRemainder(b, id, side, price, size);
    if id in o.book.index {
      var old_q := if price in LevelsOf(b, side) then LevelsOf(b, side)[price] else [];
      var sz := o.events[|o.events| - 1].size;
      var q := LevelsOf(o.book, side)[price];
      assert q == old_q + [Resting(id, sz)];
      if price in LevelsOf(b, side) {
        assert QueueOk(old_q, Loc(side, price), b.index);
      }
      assert forall j :: 0 <= j < |old_q| ==> q[j].id != id;
      FindInIsFirst(q, id, |old_q|);
    }
  }

  /**
    Cancelling below the remaining quantity of an order found at its level
    sends one Cancel carrying the quantity taken away and the new size; a
    positive size leaves the order at its level with that size, otherwise
    the order is no longer indexed nor found.
   */
  lemma CancelLeaves(b: Book, id: string, size: int)
    requires Inv(b)
    requires id in b.index && Lookup(b, b.index[id], id).Some?
    requires size < Lookup(b, b.index[id], id).value.quantity
    ensures var loc := b.index[id];
            var o := Cancel(b, id, size);
            && o.events == [Event.Cancel(id, loc.price, Lookup(b, loc, id).value.quantity - size, size, loc.side)]
            && (size > 0 ==> o.book.index == b.index && Lookup(o.book, loc, id) == Some(Resting(id, size)))
            && (size <= 0 ==> id !in o.book.index && Lookup(o.book, loc, id).None?)
  {
    var loc := b.index[id];
    var levels := LevelsOf(b, loc.side);
    var q := levels[loc.price];
    var i := FindIn(q, id);
    var o := Cancel(b, id, size);
    if size > 0 {
      var q' := q[i := Resting(id, size)];
      assert LevelsOf(o.book, loc.side)[loc.price] == q';
      FindInIsFirst(q', id, i);
    } else {
      assert QueueOk(q, loc, b.index);
      var rest := q[..i] + q[i + 1..];
      assert forall j :: 0 <= j < |rest| ==> rest[j] == (if j < i then q[j] else q[j + 1]);
      assert forall j :: 0 <= j < |rest| ==> rest[j].id != id;
    }
  }

  /**
    A fully filled resting order keeps its index entry: after a sell of 10
    at 100 is entirely taken by a buy of 10 at 101, both sides are empty
    but the seller's identifier is still indexed at its level, where it is
    no longer found. Entering that identifier again is then ignored, and
    cancelling it only drops the index entry, sending nothing.
   */
  lemma FilledOrderStaysIndexed(side: Side, price: int, size: int, newSize: int)
    ensures var b := Enter(Enter(Book(map[], map[], map[]), "S1", Sell, 100, 10).book, "B2", Buy, 101, 10).book;
            && b.bids == map[] && b.asks == map[]
            && "S1" in b.index && Lookup(b, b.index["S1"], "S1").None?
            && Enter(b, "S1", side, price, size) == Outcome(b, [])
            && Cancel(b, "S1", newSize) == Outcome(b.(index := b.index - {"S1"}), [])
  {
    var empty := Book(map[], map[], map[]);
    var q := [Resting("S1", 10)];
    assert [] + q == q;
    var b1 := Enter(empty, "S1", Sell, 100, 10).book;
    assert b1 == Book(map[], map[100 := q], map["S1" := Loc(Sell, 100)]);
    BestIsUnique({100}, Sell);
    assert IsBest(100, {100}, Sell);
    assert BestPrice({100}, Sell) == 100;
    assert MatchQueue(q, "B2", Buy, 100, 10).queue == [];
    var b := Enter(b1, "B2", Buy, 101, 10).book;
    assert b == Book(map[], map[], map["S1" := Loc(Sell, 100)]);
  }
}
