/**
 * The size of each trade `matchOrder` produces (engine/OrderBook.java): the
 * smaller of what the resting order has left and what the incoming order
 * still has left at that point of the walk.
 */
module TradeQuantities {

  import opened Orders
  import opened Trades
  import opened OrderSeqs
  import opened OrderBook
  import opened BookProperties
  import opened MatchingProperties
  import opened MatchOrderProperties

  /** A level never overfills the incoming order. */
  lemma {:induction false} MatchLevelNonNegative(orders: seq<Order>, price: Price, index: map<OrderId, Order>, incoming: Order, symbol: Symbol)
    requires Remaining(incoming) >= 0
    ensures Remaining(MatchLevel(orders, price, index, incoming, symbol).incoming) >= 0
    decreases |orders|
  {
    if |orders| > 0 && Remaining(incoming) > 0 {
      var q := MatchQuantity(incoming, orders[0]);
      MatchLevelNonNegative(orders[1..], price, IndexAfterFill(index, orders[0], q), Fill(incoming, q), symbol);
    }
  }

  /** The walk never overfills the incoming order. */
  lemma {:induction false} MatchLadderNonNegative(ladder: seq<Level>, index: map<OrderId, Order>, incoming: Order, symbol: Symbol)
    requires Remaining(incoming) >= 0
    ensures Remaining(MatchLadder(ladder, index, incoming, symbol).incoming) >= 0
    decreases |ladder|
  {
    if |ladder| > 0 && Remaining(incoming) > 0 && Crosses(incoming, ladder[0].price) {
      var level := ladder[0];
      var lf := MatchLevel(level.orders, level.price, index, incoming, symbol);
      MatchLevelNonNegative(level.orders, level.price, index, incoming, symbol);
      MatchLadderNonNegative(ladder[1..], lf.index, lf.incoming, symbol);
    }
  }

  /**
   * When the last trade leaves its resting order partly filled, that order
   * heads the opposite ladder at a crossing price, so the walk stopped
   * because the incoming order had nothing left.
   */
  lemma LastTradePartialExhausts(b: Book, o: Order)
    requires Wf(b) && o.symbol == b.symbol
    ensures var m := MatchOrder(b, o).value;
      var os := LadderOrders(Ladder(b, Opposite(o.side)));
      var n := |m.trades|;
      0 < n <= |os| && m.trades[n - 1].quantity < Remaining(os[n - 1]) ==> Remaining(m.incoming) <= 0
  {
    var m := MatchOrder(b, o).value;
    var opp := Opposite(o.side);
    var os := LadderOrders(Ladder(b, opp));
    var n := |m.trades|;
    MatchOrderRests(b, o);
    MatchOrderSweeps(b, o);
    MatchOrderStops(b, o);
    WalkedWf(b, o);
    if 0 < n <= |os| && m.trades[n - 1].quantity < Remaining(os[n - 1]) {
      var rest := Ladder(m.book, opp);
      var t := m.trades[n - 1];
      assert rest != [] && rest[0].price == t.price by {
        assert LadderWf(rest, opp);
        assert LadderOrders(rest) == [Fill(os[n - 1], t.quantity)] + os[n..];
        assert rest != [];
        assert LevelWf(rest[0], opp);
        assert LadderOrders(rest) == rest[0].orders + LadderOrders(rest[1..]);
        assert LadderOrders(rest)[0] in rest[0].orders;
        assert rest[0].price == os[n - 1].price;
      }
      assert t in m.trades;
      assert Crosses(o, rest[0].price);
    }
  }

  lemma VolumeSplitAt(ts: seq<Trade>, i: nat)
    requires i < |ts|
    ensures Volume(ts) == Volume(ts[..i]) + ts[i].quantity + Volume(ts[i + 1..])
  {
    var front, mid, back := ts[..i], [ts[i]], ts[i + 1..];
    assert ts == (front + mid) + back;
    VolumeConcat(front + mid, back);
    VolumeConcat(front, mid);
    assert Volume(mid) == ts[i].quantity by {
      assert mid[1..] == [];
    }
  }

  lemma {:induction false} VolumeNonNegative(ts: seq<Trade>)
    requires forall t :: t in ts ==> t.quantity > 0
    ensures Volume(ts) >= 0
    decreases |ts|
  {
    if |ts| > 0 {
      assert forall t :: t in ts[1..] ==> t in ts;
      VolumeNonNegative(ts[1..]);
    }
  }

  /**
   * Trade i is for a positive quantity: the smaller of the remainder of
   * resting order i and what is left of `r0` after the trades before it.
   */
  ghost predicate SizedAsMin(os: seq<Order>, ts: seq<Trade>, r0: int)
  {
    |ts| <= |os| && forall i :: 0 <= i < |ts| ==> 0 < ts[i].quantity == Min(Remaining(os[i]), r0 - Volume(ts[..i]))
  }

  /**
   * The arithmetic behind the trade sizes: trades that sweep `os` in order,
   * each but the last taking its whole resting remainder, the last one
   * partial only when the incoming remainder `r0` ran out, and never more in
   * total than `r0`.
   */
  lemma {:induction false} SweepQuantities(os: seq<Order>, ts: seq<Trade>, os': seq<Order>, side: Side, r0: int)
    requires Sweep(os, ts, os', side)
    requires Volume(ts) <= r0
    requires |ts| > 0 && ts[|ts| - 1].quantity < Remaining(os[|ts| - 1]) ==> Volume(ts) == r0
    ensures SizedAsMin(os, ts, r0)
  {
    var n := |ts|;
    assert forall t :: t in ts ==> t.quantity > 0 by {
      forall t | t in ts ensures t.quantity > 0 {
        var i :| 0 <= i < n && ts[i] == t;
        assert Pairs(ts[i], os[i], side);
      }
    }
    forall i | 0 <= i < n
      ensures 0 < ts[i].quantity == Min(Remaining(os[i]), r0 - Volume(ts[..i]))
    {
      assert Pairs(ts[i], os[i], side);
      TradeIsMin(os, ts, r0, i);
    }
  }

  /** One trade of a sweep: the smaller of its resting remainder and what the trades before it left of `r0`. */
  lemma {:induction false} TradeIsMin(os: seq<Order>, ts: seq<Trade>, r0: int, i: nat)
    requires i < |ts| <= |os| && 0 < ts[i].quantity <= Remaining(os[i])
    requires forall t :: t in ts ==> t.quantity > 0
    requires i < |ts| - 1 ==> ts[i].quantity == Remaining(os[i])
    requires Volume(ts) <= r0
    requires ts[|ts| - 1].quantity < Remaining(os[|ts| - 1]) ==> Volume(ts) == r0
    ensures ts[i].quantity == Min(Remaining(os[i]), r0 - Volume(ts[..i]))
  {
    VolumeSplitAt(ts, i);
    assert Volume(ts[i + 1..]) >= 0 by {
      assert forall t :: t in ts[i + 1..] ==> t in ts;
      VolumeNonNegative(ts[i + 1..]);
    }
    if i == |ts| - 1 {
      assert ts[i + 1..] == [];
    }
  }

  /**
   * Every trade of `matchOrder` is for a positive quantity equal to the
   * smaller of the i-th resting order's remainder and the incoming order's
   * remainder after the trades before it.
   */
  lemma MatchOrderTradeQuantities(b: Book, o: Order)
    requires Wf(b) && o.symbol == b.symbol
    ensures var m := MatchOrder(b, o).value;
      var os := LadderOrders(Ladder(b, Opposite(o.side)));
      SizedAsMin(os, m.trades, Remaining(o))
  {
    var m := MatchOrder(b, o).value;
    var opp := Opposite(o.side);
    var os := LadderOrders(Ladder(b, opp));
    var w := WalkOf(b, o);
    MatchOrderRests(b, o);
    MatchOrderSweeps(b, o);
    LastTradePartialExhausts(b, o);
    var ts, r0 := m.trades, Remaining(o);
    if |ts| > 0 {
      assert r0 > 0 by {
        assert w.trades != [];
      }
      MatchLadderNonNegative(Ladder(b, opp), b.index, o, b.symbol);
      assert Remaining(m.incoming) == r0 - Volume(ts) >= 0 by {
        assert m.incoming == w.incoming == Fill(o, Volume(ts));
      }
      SweepQuantities(os, ts, LadderOrders(Ladder(m.book, opp)), o.side, r0);
    }
  }
}
