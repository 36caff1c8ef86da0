/**
 * What one walk of `matchOrder` does to the opposite ladder, stated over the
 * ladder's orders in priority order (best level first, oldest first within a
 * level): the trades consume a prefix of that sequence, one trade per resting
 * order, each earlier order completely; only the last one may be left
 * partially filled; everything after it is untouched.
 */
module MatchingProperties {

  import opened Orders
  import opened Trades
  import opened OrderSeqs
  import opened OrderBook
  import opened BookProperties

  /** The incoming order after executing `trades`: one fill of their total volume, if any. */
  function FillBy(o: Order, trades: seq<Trade>): Order
  {
    if |trades| == 0 then o else Fill(o, Volume(trades))
  }

  /**
   * What remains of `os` after the trades consumed its first |trades| orders:
   * the last one consumed stays, filled, when its trade took less than its remainder.
   */
  ghost function Leftover(os: seq<Order>, trades: seq<Trade>): seq<Order>
    requires |trades| <= |os|
  {
    var m := |trades|;
    if m > 0 && trades[m - 1].quantity < Remaining(os[m - 1]) then [Fill(os[m - 1], trades[m - 1].quantity)] + os[m..]
    else os[m..]
  }

  /**
   * `trades` sweep `os` in order, by an aggressor on `side`, leaving `os'`:
   * trade i is against os[i] at os[i]'s price for a positive quantity no
   * larger than its remainder, and every trade but the last takes the whole
   * remainder of its resting order.
   */
  ghost predicate Sweep(os: seq<Order>, trades: seq<Trade>, os': seq<Order>, side: Side)
  {
    && |trades| <= |os|
    && (forall i :: 0 <= i < |trades| ==> Pairs(trades[i], os[i], side))
    && (forall i :: 0 <= i < |trades| - 1 ==> trades[i].quantity == Remaining(os[i]))
    && os' == Leftover(os, trades)
  }

  /** Trade `t` is against resting order `o`, at its price, for a positive part of its remainder. */
  predicate Pairs(t: Trade, o: Order, side: Side)
  {
    Counterparty(t, side) == o.id && t.price == o.price && 0 < t.quantity <= Remaining(o)
  }

  /** Every trade names the incoming order as aggressor, carries the book's symbol and respects the limit. */
  ghost predicate TradesOf(trades: seq<Trade>, incoming: Order, symbol: Symbol)
  {
    forall t :: t in trades ==>
      AggressorId(t, incoming.side) == incoming.id && t.symbol == symbol && Crosses(incoming, t.price)
  }

  /** The resting orders of a ladder each sit at their level's price with quantity left. */
  ghost predicate Priced(ladder: seq<Level>)
  {
    forall i :: 0 <= i < |ladder| ==> forall o :: o in ladder[i].orders ==> o.price == ladder[i].price && Remaining(o) > 0
  }

  // ---------------------------------------------------------------------------
  // Sweep algebra
  // ---------------------------------------------------------------------------

  lemma SweepNone(os: seq<Order>, side: Side)
    ensures Sweep(os, [], os, side)
  {
    assert os[0..] == os;
  }

  lemma SweepPartial(os: seq<Order>, t: Trade, side: Side)
    requires |os| > 0
    requires Pairs(t, os[0], side) && t.quantity < Remaining(os[0])
    ensures Sweep(os, [t], [Fill(os[0], t.quantity)] + os[1..], side)
  {
  }

  lemma SweepConsFilled(os: seq<Order>, t: Trade, ts: seq<Trade>, os': seq<Order>, side: Side)
    requires |os| > 0
    requires Pairs(t, os[0], side) && t.quantity == Remaining(os[0])
    requires Sweep(os[1..], ts, os', side)
    ensures Sweep(os, [t] + ts, os', side)
  {
    var all := [t] + ts;
    var tail := os[1..];
    forall i | 0 <= i < |all|
      ensures Pairs(all[i], os[i], side)
      ensures i < |all| - 1 ==> all[i].quantity == Remaining(os[i])
    {
      if i > 0 {
        assert all[i] == ts[i - 1] && os[i] == tail[i - 1];
      }
    }
    LeftoverConsFilled(os, t, ts);
  }

  /** Consuming the first order completely, then leaving what `ts` leaves of the rest. */
  lemma LeftoverConsFilled(os: seq<Order>, t: Trade, ts: seq<Trade>)
    requires 0 < |os| && |ts| < |os| && t.quantity == Remaining(os[0])
    ensures Leftover(os, [t] + ts) == Leftover(os[1..], ts)
  {
    var all := [t] + ts;
    var tail := os[1..];
    var m := |ts|;
    if m == 0 {
      assert all == [t];
      assert os[1..] == tail[0..];
    } else {
      assert all[m] == ts[m - 1] && os[m] == tail[m - 1];
      assert os[m + 1..] == tail[m..];
    }
  }

  /** Orders after the swept region are carried along untouched. */
  lemma SweepAppend(a: seq<Order>, ts: seq<Trade>, a': seq<Order>, b: seq<Order>, side: Side)
    requires Sweep(a, ts, a', side)
    ensures Sweep(a + b, ts, a' + b, side)
  {
    var ab := a + b;
    forall i | 0 <= i < |ts|
      ensures Pairs(ts[i], ab[i], side)
      ensures i < |ts| - 1 ==> ts[i].quantity == Remaining(ab[i])
    {
      assert ab[i] == a[i];
    }
    LeftoverAppend(a, ts, b);
  }

  /** Orders after the consumed prefix carry through `Leftover`. */
  lemma LeftoverAppend(a: seq<Order>, ts: seq<Trade>, b: seq<Order>)
    requires |ts| <= |a|
    ensures Leftover(a + b, ts) == Leftover(a, ts) + b
  {
    var ab := a + b;
    var m := |ts|;
    assert ab[m..] == a[m..] + b;
    if m > 0 {
      assert ab[m - 1] == a[m - 1];
    }
  }

  /** A sweep that leaves nothing behind consumed every order, the last one completely. */
  lemma SweepEmptied(a: seq<Order>, ts: seq<Trade>, side: Side)
    requires Sweep(a, ts, [], side)
    ensures |ts| == |a|
    ensures |a| > 0 ==> ts[|a| - 1].quantity == Remaining(a[|a| - 1])
  {
  }

  /** A sweep that used up all of `a` continues into `b`. */
  lemma {:induction false} SweepChain(a: seq<Order>, ts1: seq<Trade>, b: seq<Order>, ts2: seq<Trade>, b': seq<Order>, side: Side)
    requires Sweep(a, ts1, [], side)
    requires Sweep(b, ts2, b', side)
    ensures Sweep(a + b, ts1 + ts2, b', side)
  {
    SweepEmptied(a, ts1, side);
    var ab := a + b;
    var ts := ts1 + ts2;
    var n := |a|;
    forall i | 0 <= i < |ts|
      ensures Pairs(ts[i], ab[i], side)
      ensures i < |ts| - 1 ==> ts[i].quantity == Remaining(ab[i])
    {
      if i < n {
        assert ts[i] == ts1[i] && ab[i] == a[i];
      } else {
        assert ts[i] == ts2[i - n] && ab[i] == b[i - n];
      }
    }
    LeftoverChain(a, ts1, b, ts2);
  }

  /** After a prefix that was consumed completely, `Leftover` continues into `b`. */
  lemma LeftoverChain(a: seq<Order>, ts1: seq<Trade>, b: seq<Order>, ts2: seq<Trade>)
    requires |ts1| == |a| && |ts2| <= |b|
    requires |a| > 0 ==> ts1[|a| - 1].quantity == Remaining(a[|a| - 1])
    ensures Leftover(a + b, ts1 + ts2) == Leftover(b, ts2)
  {
    var ab := a + b;
    var ts := ts1 + ts2;
    var n := |a|;
    var m := |ts|;
    assert ab[m..] == b[|ts2|..];
    if |ts2| == 0 {
      assert b[0..] == b;
      if n > 0 {
        assert ts[m - 1] == ts1[n - 1] && ab[m - 1] == a[n - 1];
      }
    } else {
      assert ts[m - 1] == ts2[|ts2| - 1] && ab[m - 1] == b[|ts2| - 1];
    }
  }

  /** Peeling the first of at least two trades. */
  lemma SweepTail(os: seq<Order>, ts: seq<Trade>, os': seq<Order>, side: Side)
    requires Sweep(os, ts, os', side) && |ts| >= 2
    ensures Sweep(os[1..], ts[1..], os', side)
    ensures ts[0].quantity == Remaining(os[0])
  {
    var m := |ts|;
    assert forall i :: 0 <= i < m - 1 ==> ts[1..][i] == ts[i + 1] && os[1..][i] == os[i + 1];
    assert os[1..][m - 1..] == os[m..];
  }

  /** Conservation: what the trades executed is exactly what left the swept orders. */
  lemma {:induction false} SweepConserves(os: seq<Order>, ts: seq<Trade>, os': seq<Order>, side: Side)
    requires Sweep(os, ts, os', side)
    ensures TotalRemaining(os') == TotalRemaining(os) - Volume(ts)
    decreases |ts|
  {
    if |ts| == 0 {
      assert os' == os[0..] == os;
    } else if |ts| == 1 {
      assert ts[1..] == [];
      if ts[0].quantity < Remaining(os[0]) {
        assert ([Fill(os[0], ts[0].quantity)] + os[1..])[1..] == os[1..];
      }
    } else {
      SweepTail(os, ts, os', side);
      SweepConserves(os[1..], ts[1..], os', side);
    }
  }

  /** The leftover holds no id that was not swept, and keeps ids distinct. */
  lemma LeftoverIds(os: seq<Order>, ts: seq<Trade>)
    requires |ts| <= |os|
    ensures IdSet(Leftover(os, ts)) <= IdSet(os)
    ensures Distinct(os) ==> Distinct(Leftover(os, ts))
  {
    var m := |ts|;
    if m > 0 && ts[m - 1].quantity < Remaining(os[m - 1]) {
      var f := Fill(os[m - 1], ts[m - 1].quantity);
      assert os[m - 1..] == [os[m - 1]] + os[m..];
      IdSetConcat([f], os[m..]);
      IdSetConcat([os[m - 1]], os[m..]);
      assert IdSet([f]) == IdSet([os[m - 1]]);
      if Distinct(os) {
        assert os == os[..m - 1] + os[m - 1..];
        DistinctConcat(os[..m - 1], os[m - 1..]);
        DistinctConcat([os[m - 1]], os[m..]);
        DistinctConcat([f], os[m..]);
      }
    } else {
      assert os == os[..m] + os[m..];
      IdSetConcat(os[..m], os[m..]);
      if Distinct(os) {
        DistinctConcat(os[..m], os[m..]);
      }
    }
  }

  /** Every order left behind still rests at the level: a partially filled one is still active with quantity left. */
  lemma LeftoverResting(os: seq<Order>, ts: seq<Trade>, side: Side, price: Price)
    requires |ts| <= |os|
    requires |ts| > 0 ==> ts[|ts| - 1].quantity > 0
    requires forall o :: o in os ==> RestingAt(o, side, price)
    ensures forall o :: o in Leftover(os, ts) ==> RestingAt(o, side, price)
  {
    var m := |ts|;
    assert forall o :: o in os[m..] ==> o in os;
    if m > 0 {
      assert os[m - 1] in os;
    }
  }

  // ---------------------------------------------------------------------------
  // The inner loop
  // ---------------------------------------------------------------------------

  /** The inner loop sweeps the level's orders oldest first, and the incoming order absorbs every trade. */
  lemma {:induction false} MatchLevelSweep(orders: seq<Order>, price: Price, index: map<OrderId, Order>, incoming: Order, symbol: Symbol)
    requires forall o :: o in orders ==> o.price == price && Remaining(o) > 0
    ensures var r := MatchLevel(orders, price, index, incoming, symbol);
      Sweep(orders, r.trades, r.orders, incoming.side)
    decreases |orders|
  {
    var r := MatchLevel(orders, price, index, incoming, symbol);
    if |orders| == 0 || Remaining(incoming) <= 0 {
      SweepNone(orders, incoming.side);
    } else {
      var resting := orders[0];
      var q := MatchQuantity(incoming, resting);
      var t := TradeFor(incoming, resting, symbol, price, q);
      var incoming' := Fill(incoming, q);
      var rest := MatchLevel(orders[1..], price, IndexAfterFill(index, resting, q), incoming', symbol);
      assert r == LevelFill(Survivor(resting, q) + rest.orders, rest.index, rest.incoming, [t] + rest.trades);
      assert resting in orders;
      assert Pairs(t, resting, incoming.side);
      if q == Remaining(resting) {
        assert Survivor(resting, q) + rest.orders == rest.orders;
        assert forall o :: o in orders[1..] ==> o in orders;
        MatchLevelSweep(orders[1..], price, IndexAfterFill(index, resting, q), incoming', symbol);
        SweepConsFilled(orders, t, rest.trades, rest.orders, incoming.side);
      } else {
        assert Remaining(incoming') == 0;
        assert rest.trades == [] && rest.orders == orders[1..];
        assert [t] + rest.trades == [t];
        SweepPartial(orders, t, incoming.side);
      }
    }
  }

  /** Every trade at a level is at the level's price, names the incoming order as aggressor and carries the symbol. */
  lemma {:induction false} MatchLevelTrades(orders: seq<Order>, price: Price, index: map<OrderId, Order>, incoming: Order, symbol: Symbol)
    ensures var r := MatchLevel(orders, price, index, incoming, symbol);
      forall t :: t in r.trades ==> t.price == price && AggressorId(t, incoming.side) == incoming.id && t.symbol == symbol
    decreases |orders|
  {
    if |orders| > 0 && Remaining(incoming) > 0 {
      var resting := orders[0];
      var q := MatchQuantity(incoming, resting);
      MatchLevelTrades(orders[1..], price, IndexAfterFill(index, resting, q), Fill(incoming, q), symbol);
    }
  }

  /** The incoming order leaves a level filled by exactly the level's traded volume. */
  lemma {:induction false} MatchLevelIncoming(orders: seq<Order>, price: Price, index: map<OrderId, Order>, incoming: Order, symbol: Symbol)
    ensures var r := MatchLevel(orders, price, index, incoming, symbol);
      r.incoming == FillBy(incoming, r.trades)
    decreases |orders|
  {
    if |orders| > 0 && Remaining(incoming) > 0 {
      var resting := orders[0];
      var q := MatchQuantity(incoming, resting);
      var t := TradeFor(incoming, resting, symbol, price, q);
      var incoming' := Fill(incoming, q);
      var r := MatchLevel(orders, price, index, incoming, symbol);
      var rest := MatchLevel(orders[1..], price, IndexAfterFill(index, resting, q), incoming', symbol);
      assert r.trades == [t] + rest.trades && r.incoming == rest.incoming;
      MatchLevelIncoming(orders[1..], price, IndexAfterFill(index, resting, q), incoming', symbol);
      assert Volume([t] + rest.trades) == q + Volume(rest.trades) by {
        assert ([t] + rest.trades)[1..] == rest.trades;
      }
      if |rest.trades| > 0 {
        FillAdditive(incoming, q, Volume(rest.trades));
      } else {
        assert [t] + rest.trades == [t];
      }
    }
  }

  /** The inner loop keeps ids distinct and introduces none. */
  lemma {:induction false} MatchLevelIds(orders: seq<Order>, price: Price, index: map<OrderId, Order>, incoming: Order, symbol: Symbol)
    requires Distinct(orders)
    ensures var r := MatchLevel(orders, price, index, incoming, symbol);
      IdSet(r.orders) <= IdSet(orders) && Distinct(r.orders)
    decreases |orders|
  {
    if |orders| > 0 && Remaining(incoming) > 0 {
      var resting := orders[0];
      var q := MatchQuantity(incoming, resting);
      var incoming' := Fill(incoming, q);
      var rest := MatchLevel(orders[1..], price, IndexAfterFill(index, resting, q), incoming', symbol);
      var sv := Survivor(resting, q);
      DistinctCons(orders);
      IdSetCons(orders);
      MatchLevelIds(orders[1..], price, IndexAfterFill(index, resting, q), incoming', symbol);
      IdSetConcat(sv, rest.orders);
      assert IdSet(sv) <= {resting.id};
      DistinctConcat(sv, rest.orders);
    }
  }

  /**
   * The inner loop's index: the level's old entries are replaced by the
   * entries of what is left of the level; every other entry is untouched.
   */
  lemma {:induction false} MatchLevelIndex(orders: seq<Order>, price: Price, index: map<OrderId, Order>, incoming: Order, symbol: Symbol)
    requires Distinct(orders)
    requires forall o :: o in orders ==> o.id in index && index[o.id] == o
    ensures var r := MatchLevel(orders, price, index, incoming, symbol);
      r.index == (index - IdSet(orders)) + IndexOf(r.orders)
    decreases |orders|
  {
    var r := MatchLevel(orders, price, index, incoming, symbol);
    if |orders| == 0 || Remaining(incoming) <= 0 {
      assert r.index == index && r.orders == orders;
      IndexRebuilt(orders, index);
    } else {
      var resting := orders[0];
      var q := MatchQuantity(incoming, resting);
      var incoming' := Fill(incoming, q);
      var index' := IndexAfterFill(index, resting, q);
      var rest := MatchLevel(orders[1..], price, index', incoming', symbol);
      assert r.index == rest.index && r.orders == Survivor(resting, q) + rest.orders;
      if q == Remaining(resting) {
        assert index' == index - {resting.id};
        assert r.orders == rest.orders;
        IndexFilledStep(orders, index);
        MatchLevelIndex(orders[1..], price, index', incoming', symbol);
      } else {
        assert Remaining(incoming') == 0;
        assert rest.orders == orders[1..] && rest.index == index';
        IndexPartialStep(orders, index, Fill(resting, q));
      }
    }
  }

  /** An index that agrees with a level is its other entries plus the level's own. */
  lemma IndexRebuilt(orders: seq<Order>, index: map<OrderId, Order>)
    requires forall o :: o in orders ==> o.id in index && index[o.id] == o
    ensures index == (index - IdSet(orders)) + IndexOf(orders)
  {
    IndexOfAgrees(orders, index);
    IndexOfKeys(orders);
  }

  /** Dropping a filled head from a level and from the index leaves the rest of the level indexed. */
  lemma IndexFilledStep(orders: seq<Order>, index: map<OrderId, Order>)
    requires |orders| > 0 && Distinct(orders)
    requires forall o :: o in orders ==> o.id in index && index[o.id] == o
    ensures var index' := index - {orders[0].id};
      && Distinct(orders[1..])
      && (forall o :: o in orders[1..] ==> o.id in index' && index'[o.id] == o)
      && index' - IdSet(orders[1..]) == index - IdSet(orders)
  {
    DistinctCons(orders);
    IdSetCons(orders);
    var tail := orders[1..];
    assert forall o :: o in tail ==> o in orders && o.id in IdSet(tail);
  }

  /** Replacing the head of a level by its partly filled copy, as seen in the index. */
  lemma {:induction false} IndexPartialStep(orders: seq<Order>, index: map<OrderId, Order>, head: Order)
    requires |orders| > 0 && head.id == orders[0].id
    requires forall o :: o in orders ==> o.id in index && index[o.id] == o
    ensures index[head.id := head] == (index - IdSet(orders)) + IndexOf([head] + orders[1..])
  {
    var tail := orders[1..];
    var t := IndexOf(tail);
    assert IndexOf([head] + tail) == t[head.id := head] by {
      assert ([head] + tail)[1..] == tail;
    }
    assert IdSet(orders) == {head.id} + t.Keys by {
      IdSetCons(orders);
      IndexOfKeys(tail);
    }
    assert forall k :: k in t ==> k in index && t[k] == index[k] by {
      assert forall o :: o in tail ==> o in orders;
      IndexOfAgrees(tail, index);
    }
    assert head.id in index;
    OverrideStep(index, head.id, head, t);
  }

  /** Setting one key of a map equals dropping it with the keys of `t`, then adding `t` with that key set, when `t` agrees with the map. */
  lemma OverrideStep<K, V>(m: map<K, V>, h: K, v: V, t: map<K, V>)
    requires h in m && forall k :: k in t ==> k in m && t[k] == m[k]
    ensures m[h := v] == (m - ({h} + t.Keys)) + t[h := v]
  {
  }

  // ---------------------------------------------------------------------------
  // The outer loop
  // ---------------------------------------------------------------------------

  lemma PricedTail(ladder: seq<Level>)
    requires Priced(ladder) && |ladder| > 0
    ensures Priced(ladder[1..])
    ensures forall o :: o in ladder[0].orders ==> o.price == ladder[0].price && Remaining(o) > 0
  {
    assert forall i :: 0 <= i < |ladder[1..]| ==> ladder[1..][i] == ladder[i + 1];
  }

  /** The walk sweeps the whole opposite ladder in priority order: best level first, oldest first within a level. */
  lemma {:induction false} MatchLadderSweep(ladder: seq<Level>, index: map<OrderId, Order>, incoming: Order, symbol: Symbol)
    requires Priced(ladder)
    ensures var r := MatchLadder(ladder, index, incoming, symbol);
      Sweep(LadderOrders(ladder), r.trades, LadderOrders(r.ladder), incoming.side)
    decreases |ladder|
  {
    var r := MatchLadder(ladder, index, incoming, symbol);
    if |ladder| == 0 || Remaining(incoming) <= 0 || !Crosses(incoming, ladder[0].price) {
      SweepNone(LadderOrders(ladder), incoming.side);
    } else {
      var level := ladder[0];
      var lf := MatchLevel(level.orders, level.price, index, incoming, symbol);
      var rest := MatchLadder(ladder[1..], lf.index, lf.incoming, symbol);
      var kept := if |lf.orders| == 0 then [] else [Level(level.price, lf.orders)];
      assert r == Walk(kept + rest.ladder, rest.index, rest.incoming, lf.trades + rest.trades);
      PricedTail(ladder);
      MatchLevelSweep(level.orders, level.price, index, incoming, symbol);
      MatchLadderSweep(ladder[1..], lf.index, lf.incoming, symbol);
      KeptOrders(level.price, lf.orders, rest.ladder);
      var rl := LadderOrders(ladder[1..]);
      if |lf.orders| == 0 {
        SweepChain(level.orders, lf.trades, rl, rest.trades, LadderOrders(rest.ladder), incoming.side);
      } else {
        assert rest.trades == [] && rest.ladder == ladder[1..];
        assert lf.trades + [] == lf.trades;
        SweepAppend(level.orders, lf.trades, lf.orders, rl, incoming.side);
      }
    }
  }

  /** Every trade of the walk names the incoming order as aggressor and is within its limit. */
  lemma {:induction false} MatchLadderTrades(ladder: seq<Level>, index: map<OrderId, Order>, incoming: Order, symbol: Symbol)
    requires Priced(ladder)
    ensures TradesOf(MatchLadder(ladder, index, incoming, symbol).trades, incoming, symbol)
    decreases |ladder|
  {
    var r := MatchLadder(ladder, index, incoming, symbol);
    if !(|ladder| == 0 || Remaining(incoming) <= 0 || !Crosses(incoming, ladder[0].price)) {
      var level := ladder[0];
      var lf := MatchLevel(level.orders, level.price, index, incoming, symbol);
      var rest := MatchLadder(ladder[1..], lf.index, lf.incoming, symbol);
      assert r.trades == lf.trades + rest.trades;
      PricedTail(ladder);
      MatchLevelTrades(level.orders, level.price, index, incoming, symbol);
      MatchLadderTrades(ladder[1..], lf.index, lf.incoming, symbol);
      forall t | t in r.trades ensures AggressorId(t, incoming.side) == incoming.id && t.symbol == symbol && Crosses(incoming, t.price) {
        if t !in lf.trades {
          assert t in rest.trades;
        }
      }
    }
  }

  /** Filling by two runs of trades in turn is filling by both at once. */
  lemma FillByAppend(o: Order, ts1: seq<Trade>, ts2: seq<Trade>)
    ensures FillBy(FillBy(o, ts1), ts2) == FillBy(o, ts1 + ts2)
  {
    if |ts1| == 0 {
      assert ts1 + ts2 == ts2;
    } else if |ts2| == 0 {
      assert ts1 + ts2 == ts1;
    } else {
      VolumeConcat(ts1, ts2);
      FillAdditive(o, Volume(ts1), Volume(ts2));
    }
  }

  /** The incoming order ends the walk filled by exactly the walk's traded volume. */
  lemma {:induction false} MatchLadderIncoming(ladder: seq<Level>, index: map<OrderId, Order>, incoming: Order, symbol: Symbol)
    ensures var r := MatchLadder(ladder, index, incoming, symbol);
      r.incoming == FillBy(incoming, r.trades)
    decreases |ladder|
  {
    var r := MatchLadder(ladder, index, incoming, symbol);
    if !(|ladder| == 0 || Remaining(incoming) <= 0 || !Crosses(incoming, ladder[0].price)) {
      var level := ladder[0];
      var lf := MatchLevel(level.orders, level.price, index, incoming, symbol);
      var rest := MatchLadder(ladder[1..], lf.index, lf.incoming, symbol);
      assert r.trades == lf.trades + rest.trades && r.incoming == rest.incoming;
      MatchLevelIncoming(level.orders, level.price, index, incoming, symbol);
      MatchLadderIncoming(ladder[1..], lf.index, lf.incoming, symbol);
      FillByAppend(incoming, lf.trades, rest.trades);
    }
  }

  /** The walk leaves no id that was not on the ladder, and keeps ids distinct. */
  lemma MatchLadderIds(ladder: seq<Level>, index: map<OrderId, Order>, incoming: Order, symbol: Symbol)
    requires Priced(ladder) && Distinct(LadderOrders(ladder))
    ensures var r := MatchLadder(ladder, index, incoming, symbol);
      IdSet(LadderOrders(r.ladder)) <= IdSet(LadderOrders(ladder)) && Distinct(LadderOrders(r.ladder))
  {
    var r := MatchLadder(ladder, index, incoming, symbol);
    MatchLadderSweep(ladder, index, incoming, symbol);
    LeftoverIds(LadderOrders(ladder), r.trades);
  }

  /** A level emptied by the walk loses all its entries. */
  lemma EmptiedLevelIndex(index: map<OrderId, Order>, level: seq<Order>, tail: seq<Order>)
    ensures (index - IdSet(level)) + IndexOf([]) - IdSet(tail) == index - IdSet(level + tail)
  {
    IdSetConcat(level, tail);
  }

  /** A level whose leftover stays keeps its own entries; the untouched rest of the ladder keeps theirs. */
  lemma KeptLevelIndex(index: map<OrderId, Order>, level: seq<Order>, kept: seq<Order>, tail: seq<Order>)
    requires IdSet(kept) <= IdSet(level) && IdSet(level) !! IdSet(tail)
    requires Distinct(tail)
    requires forall o :: o in tail ==> o.id in index && index[o.id] == o
    ensures (index - IdSet(level)) + IndexOf(kept) == (index - IdSet(level + tail)) + IndexOf(kept + tail)
  {
    IdSetConcat(level, tail);
    IndexOfConcat(kept, tail);
    assert IndexOf(kept).Keys <= IdSet(level) by {
      IndexOfKeys(kept);
    }
    assert IndexOf(tail).Keys == IdSet(tail) by {
      IndexOfKeys(tail);
    }
    IndexOfAgrees(tail, index);
    SwapEntries(index, IdSet(level), IdSet(tail), IndexOf(kept), IndexOf(tail));
  }

  /**
   * Dropping the keys `l` and adding `a` (within `l`) is the same as dropping
   * `l` and `t` and adding `b` then `a`, when `b` restores the keys `t` as they were.
   */
  lemma SwapEntries<K, V>(m: map<K, V>, l: set<K>, t: set<K>, a: map<K, V>, b: map<K, V>)
    requires a.Keys <= l && b.Keys == t && l !! t
    requires forall k :: k in b ==> k in m && b[k] == m[k]
    ensures (m - l) + a == (m - (l + t)) + (b + a)
  {
  }

  /** The first level's orders and the rest of the ladder's orders inherit distinctness and the index's agreement. */
  lemma LadderSplit(ladder: seq<Level>, index: map<OrderId, Order>)
    requires |ladder| > 0 && Distinct(LadderOrders(ladder))
    requires forall o :: o in LadderOrders(ladder) ==> o.id in index && index[o.id] == o
    ensures var tail := LadderOrders(ladder[1..]);
      && LadderOrders(ladder) == ladder[0].orders + tail
      && Distinct(ladder[0].orders) && Distinct(tail) && IdSet(ladder[0].orders) !! IdSet(tail)
      && (forall o :: o in ladder[0].orders ==> o.id in index && index[o.id] == o)
      && (forall o :: o in tail ==> o.id in index && index[o.id] == o)
  {
    var tail := LadderOrders(ladder[1..]);
    DistinctConcat(ladder[0].orders, tail);
    assert forall o :: o in ladder[0].orders ==> o in LadderOrders(ladder);
    assert forall o :: o in tail ==> o in LadderOrders(ladder);
  }

  /** Orders outside a level keep their entries when the level's entries are replaced. */
  lemma TailAgrees(index: map<OrderId, Order>, level: seq<Order>, kept: seq<Order>, tail: seq<Order>)
    requires IdSet(kept) <= IdSet(level) && IdSet(level) !! IdSet(tail)
    requires forall o :: o in tail ==> o.id in index && index[o.id] == o
    ensures var index' := (index - IdSet(level)) + IndexOf(kept);
      forall o :: o in tail ==> o.id in index' && index'[o.id] == o
  {
    IndexOfKeys(kept);
    assert forall o :: o in tail ==> o.id in IdSet(tail);
  }

  /**
   * The walk's index: the entries of the ladder's orders are replaced by the
   * entries of what is left of the ladder; every other entry is untouched.
   */
  lemma {:induction false} MatchLadderIndex(ladder: seq<Level>, index: map<OrderId, Order>, incoming: Order, symbol: Symbol)
    requires Priced(ladder) && Distinct(LadderOrders(ladder))
    requires forall o :: o in LadderOrders(ladder) ==> o.id in index && index[o.id] == o
    ensures var r := MatchLadder(ladder, index, incoming, symbol);
      r.index == (index - IdSet(LadderOrders(ladder))) + IndexOf(LadderOrders(r.ladder))
    decreases |ladder|
  {
    var r := MatchLadder(ladder, index, incoming, symbol);
    var all := LadderOrders(ladder);
    if |ladder| == 0 || Remaining(incoming) <= 0 || !Crosses(incoming, ladder[0].price) {
      IndexOfAgrees(all, index);
      IndexOfKeys(all);
      assert index == (index - IdSet(all)) + IndexOf(all);
    } else {
      var level := ladder[0];
      var lf := MatchLevel(level.orders, level.price, index, incoming, symbol);
      var rest := MatchLadder(ladder[1..], lf.index, lf.incoming, symbol);
      var kept := if |lf.orders| == 0 then [] else [Level(level.price, lf.orders)];
      assert r == Walk(kept + rest.ladder, rest.index, rest.incoming, lf.trades + rest.trades);
      var tail := LadderOrders(ladder[1..]);
      LadderSplit(ladder, index);
      MatchLevelIndex(level.orders, level.price, index, incoming, symbol);
      MatchLevelIds(level.orders, level.price, index, incoming, symbol);
      TailAgrees(index, level.orders, lf.orders, tail);
      PricedTail(ladder);
      MatchLadderIndex(ladder[1..], lf.index, lf.incoming, symbol);
      KeptOrders(level.price, lf.orders, rest.ladder);
      if |lf.orders| == 0 {
        assert lf.orders == [] && r.ladder == rest.ladder;
        EmptiedLevelIndex(index, level.orders, tail);
      } else {
        assert rest.ladder == ladder[1..] && rest.index == lf.index;
        KeptLevelIndex(index, level.orders, lf.orders, tail);
      }
    }
  }

  lemma WfPriced(ladder: seq<Level>, side: Side)
    requires LadderWf(ladder, side)
    ensures Priced(ladder)
  {
    forall i, o | 0 <= i < |ladder| && o in ladder[i].orders ensures o.price == ladder[i].price && Remaining(o) > 0 {
      assert LevelWf(ladder[i], side);
    }
  }

  /** A level rebuilt from what the inner loop left is well formed. */
  lemma KeptLevelWf(level: Level, side: Side, index: map<OrderId, Order>, incoming: Order, symbol: Symbol)
    requires LevelWf(level, side)
    ensures var lf := MatchLevel(level.orders, level.price, index, incoming, symbol);
      |lf.orders| > 0 ==> LevelWf(Level(level.price, lf.orders), side)
  {
    var lf := MatchLevel(level.orders, level.price, index, incoming, symbol);
    MatchLevelSweep(level.orders, level.price, index, incoming, symbol);
    if |lf.trades| > 0 {
      assert Pairs(lf.trades[|lf.trades| - 1], level.orders[|lf.trades| - 1], incoming.side);
    }
    LeftoverResting(level.orders, lf.trades, side, level.price);
  }

  /**
   * `rest` is `ladder` with a prefix dropped, except that its first level may
   * hold different orders at the same price.
   */
  ghost predicate SuffixShape(ladder: seq<Level>, rest: seq<Level>)
  {
    var d := |ladder| - |rest|;
    0 <= d && (|rest| > 0 ==> rest[0].price == ladder[d].price && rest[1..] == ladder[d + 1..])
  }

  lemma SuffixShapeCons(ladder: seq<Level>, rest: seq<Level>)
    requires |ladder| > 0 && SuffixShape(ladder[1..], rest)
    ensures SuffixShape(ladder, rest)
  {
    if |rest| > 0 {
      var d := |ladder| - |rest|;
      assert ladder[1..][d..] == ladder[d + 1..];
      assert ladder[1..][d - 1] == ladder[d];
    }
  }

  lemma SuffixShapeHead(ladder: seq<Level>, l: Level)
    requires |ladder| > 0 && l.price == ladder[0].price
    ensures SuffixShape(ladder, [l] + ladder[1..])
  {
    assert ([l] + ladder[1..])[1..] == ladder[1..];
  }

  /**
   * The walk only removes a prefix of the ladder: what is left is the old
   * ladder from some level on, with at most that first level's orders changed.
   */
  lemma {:induction false} MatchLadderSuffix(ladder: seq<Level>, index: map<OrderId, Order>, incoming: Order, symbol: Symbol)
    ensures SuffixShape(ladder, MatchLadder(ladder, index, incoming, symbol).ladder)
    decreases |ladder|
  {
    var r := MatchLadder(ladder, index, incoming, symbol);
    if !(|ladder| > 0 && Remaining(incoming) > 0 && Crosses(incoming, ladder[0].price)) {
      assert r.ladder == ladder;
    } else {
      var level := ladder[0];
      var lf := MatchLevel(level.orders, level.price, index, incoming, symbol);
      var rest := MatchLadder(ladder[1..], lf.index, lf.incoming, symbol);
      var kept := if |lf.orders| == 0 then [] else [Level(level.price, lf.orders)];
      assert r.ladder == kept + rest.ladder;
      if |lf.orders| == 0 {
        assert r.ladder == rest.ladder;
        MatchLadderSuffix(ladder[1..], lf.index, lf.incoming, symbol);
        SuffixShapeCons(ladder, rest.ladder);
      } else {
        assert rest.ladder == ladder[1..];
        SuffixShapeHead(ladder, Level(level.price, lf.orders));
      }
    }
  }

  /** The walk keeps the ladder well formed: no empty level, prices strictly in priority order. */
  lemma {:induction false} MatchLadderWf(ladder: seq<Level>, side: Side, index: map<OrderId, Order>, incoming: Order, symbol: Symbol)
    requires LadderWf(ladder, side)
    ensures LadderWf(MatchLadder(ladder, index, incoming, symbol).ladder, side)
    decreases |ladder|
  {
    var r := MatchLadder(ladder, index, incoming, symbol);
    if |ladder| > 0 && Remaining(incoming) > 0 && Crosses(incoming, ladder[0].price) {
      var level := ladder[0];
      var lf := MatchLevel(level.orders, level.price, index, incoming, symbol);
      var rest := MatchLadder(ladder[1..], lf.index, lf.incoming, symbol);
      var kept := if |lf.orders| == 0 then [] else [Level(level.price, lf.orders)];
      assert r.ladder == kept + rest.ladder;
      assert LevelWf(level, side);
      LadderWfTail(ladder, side);
      if |lf.orders| == 0 {
        MatchLadderWf(ladder[1..], side, lf.index, lf.incoming, symbol);
      } else {
        assert rest.ladder == ladder[1..];
        KeptLevelWf(level, side, index, incoming, symbol);
        ReplaceHeadWf(ladder, side, Level(level.price, lf.orders));
      }
    }
  }
}
