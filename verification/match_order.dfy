/**
 * What one call of `matchOrder` (engine/OrderBook.java) does to a well-formed
 * book: the trades sweep the opposite ladder in price-time priority within
 * the incoming order's limit, quantity is conserved, a limit remainder rests
 * and a market remainder is dropped, and the book stays well formed and
 * uncrossed.
 */
module MatchOrderProperties {

  import opened Wrappers
  import opened Orders
  import opened Trades
  import opened OrderSeqs
  import opened OrderBook
  import opened BookProperties
  import opened MatchingProperties

  /** The walk `matchOrder` performs on `b`. */
  function WalkOf(b: Book, o: Order): Walk
  {
    MatchLadder(Ladder(b, Opposite(o.side)), b.index, o, b.symbol)
  }

  // ---------------------------------------------------------------------------
  // Maps
  // ---------------------------------------------------------------------------

  lemma UnionCommutes<K, V>(m1: map<K, V>, m2: map<K, V>)
    requires m1.Keys !! m2.Keys
    ensures m1 + m2 == m2 + m1
  {
  }

  lemma MinusOwnKeys<K, V>(m1: map<K, V>, m2: map<K, V>, ks: set<K>)
    requires m2.Keys == ks && m1.Keys !! ks
    ensures (m1 + m2) - ks == m1 && (m2 + m1) - ks == m1
  {
  }

  // ---------------------------------------------------------------------------
  // Replacing one ladder
  // ---------------------------------------------------------------------------

  /**
   * Replacing the ladder of `side` by one whose orders are distinct and drawn
   * from the old ladder, and the old ladder's index entries by the new ones,
   * keeps ids distinct and the index matching the book.
   */
  lemma ReplaceLadderIndexed(b: Book, side: Side, ls: seq<Level>)
    requires Distinct(AllOrders(b)) && b.index == IndexOf(AllOrders(b))
    requires Distinct(LadderOrders(ls)) && IdSet(LadderOrders(ls)) <= IdSet(LadderOrders(Ladder(b, side)))
    ensures var b' := WithLadder(b, side, ls).(index := (b.index - IdSet(LadderOrders(Ladder(b, side)))) + IndexOf(LadderOrders(ls)));
      Distinct(AllOrders(b')) && b'.index == IndexOf(AllOrders(b'))
  {
    var s, t, s' := LadderOrders(Ladder(b, side)), LadderOrders(Ladder(b, Opposite(side))), LadderOrders(ls);
    IndexOfKeys(s);
    IndexOfKeys(t);
    IndexOfKeys(s');
    AllOrdersWith(b, side, ls);
    if side == Buy {
      assert AllOrders(b) == s + t;
      DistinctConcat(s, t);
      DistinctConcat(s', t);
      IndexOfConcat(s, t);
      IndexOfConcat(s', t);
      MinusOwnKeys(IndexOf(t), IndexOf(s), IdSet(s));
    } else {
      assert AllOrders(b) == t + s;
      DistinctConcat(t, s);
      DistinctConcat(t, s');
      IndexOfConcat(t, s);
      IndexOfConcat(t, s');
      MinusOwnKeys(IndexOf(t), IndexOf(s), IdSet(s));
      UnionCommutes(IndexOf(t), IndexOf(s'));
    }
  }

  // ---------------------------------------------------------------------------
  // The walk on a well-formed book
  // ---------------------------------------------------------------------------

  /** The book after the walk is well formed, and its index holds no id the book did not. */
  lemma WalkedWf(b: Book, o: Order)
    requires Wf(b)
    ensures var walked := AfterWalk(b, Opposite(o.side), WalkOf(b, o));
      Wf(walked) && walked.index.Keys <= b.index.Keys
  {
    var opp := Opposite(o.side);
    var ls := Ladder(b, opp);
    var w := WalkOf(b, o);
    var walked := AfterWalk(b, opp, w);
    assert LadderWf(ls, opp);
    WfPriced(ls, opp);
    MatchLadderWf(ls, opp, b.index, o, b.symbol);
    assert LadderWf(b.bids, Buy) && LadderWf(b.asks, Sell);
    assert LadderWf(walked.bids, Buy) && LadderWf(walked.asks, Sell);
    AllOrdersWith(b, opp, ls);
    DistinctConcat(LadderOrders(b.bids), LadderOrders(b.asks));
    MatchLadderIds(ls, b.index, o, b.symbol);
    forall x | x in LadderOrders(ls) ensures x.id in b.index && b.index[x.id] == x {
      WfIndexed(b, x);
    }
    MatchLadderIndex(ls, b.index, o, b.symbol);
    ReplaceLadderIndexed(b, opp, w.ladder);
    assert walked == WithLadder(b, opp, w.ladder).(index := w.index);
    IndexOfKeys(LadderOrders(w.ladder));
    IndexOfKeys(AllOrders(b));
    AllOrdersWith(b, opp, ls);
    assert IdSet(LadderOrders(ls)) <= IdSet(AllOrders(b)) by {
      IdSetConcat(LadderOrders(b.bids), LadderOrders(b.asks));
    }
  }

  /** Under the invariant, the walk executes as a priority sweep of the opposite ladder by the incoming order. */
  lemma WalkSweeps(b: Book, o: Order)
    requires Wf(b)
    ensures var w := WalkOf(b, o);
      && Sweep(LadderOrders(Ladder(b, Opposite(o.side))), w.trades, LadderOrders(w.ladder), o.side)
      && TradesOf(w.trades, o, b.symbol)
      && w.incoming == FillBy(o, w.trades)
  {
    var ls := Ladder(b, Opposite(o.side));
    assert LadderWf(ls, Opposite(o.side));
    WfPriced(ls, Opposite(o.side));
    MatchLadderSweep(ls, b.index, o, b.symbol);
    MatchLadderTrades(ls, b.index, o, b.symbol);
    MatchLadderIncoming(ls, b.index, o, b.symbol);
  }

  /** After the walk the incoming order is still one that can rest, if it has quantity left. */
  lemma WalkedIncomingRests(b: Book, o: Order)
    requires Wf(b) && Active(o)
    ensures var w := WalkOf(b, o);
      Remaining(w.incoming) > 0 ==> RestingAt(w.incoming, o.side, o.price)
  {
    WalkSweeps(b, o);
  }

  // ---------------------------------------------------------------------------
  // matchOrder
  // ---------------------------------------------------------------------------

  /**
   * `matchOrder` on a book of the order's own symbol succeeds; a limit
   * remainder is added to the order's own ladder through `addToLevel` and
   * indexed, while a market remainder, or a fully filled order, leaves the
   * order's own ladder untouched.
   */
  lemma MatchOrderRests(b: Book, o: Order)
    requires o.symbol == b.symbol
    ensures MatchOrder(b, o).Success?
    ensures var m := MatchOrder(b, o).value;
      var w := WalkOf(b, o);
      && m.trades == w.trades && m.incoming == w.incoming
      && Ladder(m.book, Opposite(o.side)) == w.ladder
      && (Remaining(m.incoming) > 0 && o.orderType == Limit ==>
            Ladder(m.book, o.side) == AddToLevel(Ladder(b, o.side), o.side, m.incoming)
            && m.book.index == w.index[o.id := m.incoming])
      && (Remaining(m.incoming) <= 0 || o.orderType == Market ==>
            Ladder(m.book, o.side) == Ladder(b, o.side) && m.book.index == w.index)
  {
  }

  /**
   * Price-time priority: the trades of `matchOrder` sweep the opposite
   * ladder's orders best level first and oldest first within a level, one
   * trade per resting order at that order's price, every trade but the last
   * taking the whole remainder of its order; the orders left on that ladder
   * are the ones not reached, plus a partly filled last one. Every trade
   * names the incoming order as aggressor and respects its limit, and the
   * incoming order comes back filled by the total traded.
   */
  lemma MatchOrderSweeps(b: Book, o: Order)
    requires Wf(b) && o.symbol == b.symbol
    ensures var m := MatchOrder(b, o).value;
      && Sweep(LadderOrders(Ladder(b, Opposite(o.side))), m.trades, LadderOrders(Ladder(m.book, Opposite(o.side))), o.side)
      && TradesOf(m.trades, o, b.symbol)
      && m.incoming == FillBy(o, m.trades)
  {
    MatchOrderRests(b, o);
    WalkSweeps(b, o);
  }

  /**
   * Conservation: the opposite ladder loses exactly the traded volume, and
   * the incoming order's filled quantity grows by exactly that volume.
   */
  lemma MatchOrderConserves(b: Book, o: Order)
    requires Wf(b) && o.symbol == b.symbol
    ensures var m := MatchOrder(b, o).value;
      && TotalRemaining(LadderOrders(Ladder(m.book, Opposite(o.side))))
         == TotalRemaining(LadderOrders(Ladder(b, Opposite(o.side)))) - Volume(m.trades)
      && m.incoming.filled == o.filled + Volume(m.trades)
  {
    var m := MatchOrder(b, o).value;
    MatchOrderSweeps(b, o);
    SweepConserves(LadderOrders(Ladder(b, Opposite(o.side))), m.trades, LadderOrders(Ladder(m.book, Opposite(o.side))), o.side);
  }

  /**
   * The walk stops only when it must: if the incoming order still has
   * quantity left, the opposite ladder is empty or its best level does not
   * cross; in particular a market order with quantity left has emptied it.
   */
  lemma MatchOrderStops(b: Book, o: Order)
    requires o.symbol == b.symbol
    ensures var m := MatchOrder(b, o).value;
      var rest := Ladder(m.book, Opposite(o.side));
      && (Remaining(m.incoming) > 0 ==> rest == [] || !Crosses(o, rest[0].price))
      && (Remaining(m.incoming) > 0 && o.orderType == Market ==> rest == [])
  {
    MatchOrderRests(b, o);
  }

  /**
   * `matchOrder` keeps the book well formed: for an active order whose id
   * is not yet in the book, the ladders stay sorted with no empty level, ids
   * stay distinct and the index holds exactly the resting orders.
   */
  lemma MatchOrderWf(b: Book, o: Order)
    requires Wf(b) && o.symbol == b.symbol && o.id !in b.index && Active(o)
    ensures Wf(MatchOrder(b, o).value.book)
  {
    var w := WalkOf(b, o);
    MatchOrderRests(b, o);
    WalkedWf(b, o);
    if Remaining(w.incoming) > 0 && o.orderType == Limit {
      WalkedIncomingRests(b, o);
      assert w.incoming.id == o.id && w.incoming.side == o.side && w.incoming.price == o.price;
      AddOrderWf(AfterWalk(b, Opposite(o.side), w), w.incoming);
    }
  }

  /** The incoming order is indexed after `matchOrder` exactly when its limit remainder rests. */
  lemma MatchOrderIndexesRemainder(b: Book, o: Order)
    requires Wf(b) && o.symbol == b.symbol && o.id !in b.index
    ensures var m := MatchOrder(b, o).value;
      o.id in m.book.index <==> Remaining(m.incoming) > 0 && o.orderType == Limit
  {
    MatchOrderRests(b, o);
    WalkedWf(b, o);
  }

  /** The first level left after the walk is no better than the ladder's old best level. */
  lemma WalkBestNoBetter(ls: seq<Level>, side: Side, index: map<OrderId, Order>, o: Order, symbol: Symbol)
    requires LadderWf(ls, side)
    ensures var w := MatchLadder(ls, index, o, symbol);
      |w.ladder| > 0 ==> |ls| > 0 && (w.ladder[0].price == ls[0].price || Ahead(side, ls[0].price, w.ladder[0].price))
  {
    MatchLadderSuffix(ls, index, o, symbol);
  }

  /** The first level of `addToLevel`'s result: the new order's price when it is better than the old best. */
  lemma AddToLevelBest(ls: seq<Level>, side: Side, o: Order)
    ensures AddToLevel(ls, side, o)[0].price == if |ls| == 0 || Ahead(side, o.price, ls[0].price) then o.price else ls[0].price
  {
  }

  /**
   * `matchOrder` keeps a well-formed book uncrossed: a limit remainder only
   * rests at a price the opposite side no longer crosses, and the walk never
   * makes the opposite best price better.
   */
  lemma MatchOrderUncrossed(b: Book, o: Order)
    requires Wf(b) && Uncrossed(b) && o.symbol == b.symbol
    ensures Uncrossed(MatchOrder(b, o).value.book)
  {
    var m := MatchOrder(b, o).value;
    var opp := Opposite(o.side);
    var w := WalkOf(b, o);
    MatchOrderRests(b, o);
    assert LadderWf(Ladder(b, opp), opp);
    WalkBestNoBetter(Ladder(b, opp), opp, b.index, o, b.symbol);
    if Remaining(m.incoming) > 0 && o.orderType == Limit {
      AddToLevelBest(Ladder(b, o.side), o.side, m.incoming);
    }
  }
}
