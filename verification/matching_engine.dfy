/**
 * The exchange front end (engine/MatchingEngine.java): one order book per
 * symbol, created on first use, the analytics fed with every match's trades,
 * cancellation, and the per-symbol market-data queries.
 *
 * The source runs each submitted order on a thread pool and publishes the
 * trades through a `Flow` publisher; here `ProcessOrder` is the body of one
 * such task, applied as one step, and the publisher is not modelled. Prices
 * are integer ticks where the source returns them as `double`s.
 */
module MatchingEngine {

  import opened Wrappers
  import opened Orders
  import opened Trades
  import opened OrderSeqs
  import opened OrderBook
  import opened BookProperties
  import opened MatchingProperties
  import opened MatchOrderProperties
  import opened Analytics

  datatype Engine = Engine(books: map<Symbol, Book>, analytics: Service)

  /** What one processed order leaves behind: the engine, the trades it published and the order's final state. */
  datatype Processed = Processed(engine: Engine, trades: seq<Trade>, incoming: Order)

  /** The outcome of `cancelOrder`: the engine, whether it cancelled, and the cancelled order. */
  datatype Cancellation = Cancellation(engine: Engine, cancelled: bool, order: Option<Order>)

  function NewEngine(): Engine
  {
    Engine(map[], map[])
  }

  /**
   * Every book is filed under its own symbol, well formed and uncrossed:
   * the state that processing orders and cancelling them keeps.
   */
  ghost predicate EngineWf(e: Engine)
  {
    forall s :: s in e.books ==> e.books[s].symbol == s && Wf(e.books[s]) && Uncrossed(e.books[s])
  }

  /** `addOrderBook`: an empty book for `symbol` unless it already has one. */
  function AddOrderBook(e: Engine, symbol: Symbol): (r: Engine)
    ensures r.books.Keys == e.books.Keys + {symbol} && r.analytics == e.analytics
    ensures forall s :: s in e.books ==> r.books[s] == e.books[s]
    ensures symbol !in e.books ==> r.books[symbol] == EmptyBook(symbol)
  {
    if symbol in e.books then e else e.(books := e.books[symbol := EmptyBook(symbol)])
  }

  /** The book an order of `symbol` is matched against: the existing one, or a new empty one. */
  function BookFor(e: Engine, symbol: Symbol): Book
  {
    if symbol in e.books then e.books[symbol] else EmptyBook(symbol)
  }

  /**
   * `processOrder`: matches the order in its symbol's book (created when
   * missing) and feeds the trades to the analytics. When the book throws,
   * the task ends there: the book keeps its walked state and no trades
   * reach the analytics.
   */
  function ProcessOrder(e: Engine, o: Order): (r: Processed)
    ensures r.engine.books.Keys == e.books.Keys + {o.symbol}
    ensures forall s :: s in e.books && s != o.symbol ==> r.engine.books[s] == e.books[s]
    ensures SameIdentity(o, r.incoming)
  {
    var b := BookFor(e, o.symbol);
    match MatchOrder(b, o)
    case Success(m) =>
      Processed(Engine(e.books[o.symbol := m.book], UpdateMetrics(e.analytics, m.trades)), m.trades, m.incoming)
    case Failure(a) =>
      Processed(e.(books := e.books[o.symbol := a.book]), [], a.incoming)
  }

  /** `getOrder`: the order resting under `id` in the symbol's book; nothing for an unknown symbol or id. */
  function LookupOrder(e: Engine, symbol: Symbol, id: OrderId): (r: Option<Order>)
    ensures r.Some? <==> symbol in e.books && id in e.books[symbol].index
    ensures r.Some? ==> r.value == e.books[symbol].index[id]
  {
    if symbol in e.books then GetOrder(e.books[symbol], id) else None
  }

  /**
   * `cancelOrder`: a known order that is not filled is marked cancelled and
   * removed from its book; anything else changes nothing and reports false.
   */
  function CancelOrder(e: Engine, symbol: Symbol, id: OrderId): (r: Cancellation)
    ensures r.cancelled <==> r.order.Some?
    ensures r.engine.analytics == e.analytics && r.engine.books.Keys == e.books.Keys
  {
    match LookupOrder(e, symbol, id)
    case Some(o) =>
      if o.status != Filled then
        Cancellation(e.(books := e.books[symbol := RemoveOrder(e.books[symbol], id)]), true, Some(SetStatus(o, Cancelled)))
      else Cancellation(e, false, None)
    case None => Cancellation(e, false, None)
  }

  /** `getBestBid`, 0 for a symbol with no book. */
  function SymbolBestBid(e: Engine, symbol: Symbol): Price
  {
    if symbol in e.books then BestBid(e.books[symbol]) else 0
  }

  /** `getBestAsk`, 0 for a symbol with no book. */
  function SymbolBestAsk(e: Engine, symbol: Symbol): Price
  {
    if symbol in e.books then BestAsk(e.books[symbol]) else 0
  }

  /** `getSpread`: best ask minus best bid when both are positive, else 0. */
  function Spread(e: Engine, symbol: Symbol): int
  {
    var ask := SymbolBestAsk(e, symbol);
    var bid := SymbolBestBid(e, symbol);
    if ask > 0 && bid > 0 then ask - bid else 0
  }

  /** `getAvailableSymbols`: the symbols that have a book. */
  function AvailableSymbols(e: Engine): (r: set<Symbol>)
    ensures forall s :: s in r <==> s in e.books
  {
    e.books.Keys
  }

  // ---------------------------------------------------------------------------
  // Market depth
  // ---------------------------------------------------------------------------

  /** The best price on `side`: the first level's, 0 when the side is empty. */
  function BestOn(b: Book, side: Side): Price
  {
    if side == Buy then BestBid(b) else BestAsk(b)
  }

  /**
   * `getMarketDepth` as the source computes it: the volume at the best price
   * added once per requested level, never stepping to the next level.
   */
  method MarketDepthAsWritten(e: Engine, symbol: Symbol, side: Side, levels: int) returns (depth: int)
    ensures depth == DepthAsWritten(e, symbol, side, levels)
  {
    if symbol !in e.books {
      return 0;
    }
    var b := e.books[symbol];
    var best := BestOn(b, side);
    depth := 0;
    var i := 0;
    while i < levels
      invariant levels <= 0 ==> i == 0
      invariant levels > 0 ==> 0 <= i <= levels
      invariant depth == i * VolumeAtPrice(b, side, best)
    {
      depth := depth + VolumeAtPrice(b, side, best);
      i := i + 1;
    }
  }

  /** The closed form of `MarketDepthAsWritten`. */
  function DepthAsWritten(e: Engine, symbol: Symbol, side: Side, levels: int): int
  {
    if symbol !in e.books || levels <= 0 then 0
    else levels * VolumeAtPrice(e.books[symbol], side, BestOn(e.books[symbol], side))
  }

  /** The remaining quantity of the first `n` levels of a ladder. */
  function TopLevelsDepth(ls: seq<Level>, n: int): int
  {
    if n <= 0 || |ls| == 0 then 0 else TotalRemaining(ls[0].orders) + TopLevelsDepth(ls[1..], n - 1)
  }

  /** Market depth as documented: the total volume of the top `levels` levels of `side`. */
  function MarketDepth(e: Engine, symbol: Symbol, side: Side, levels: int): int
  {
    if symbol in e.books then TopLevelsDepth(Ladder(e.books[symbol], side), levels) else 0
  }

  /** The depth of the top `n` levels is the remaining quantity of exactly the orders resting there. */
  lemma {:induction false} TopLevelsDepthIsSum(ls: seq<Level>, n: int)
    ensures n <= 0 ==> TopLevelsDepth(ls, n) == 0
    ensures n > 0 ==> TopLevelsDepth(ls, n) == TotalRemaining(LadderOrders(ls[..Min(n, |ls|)]))
    decreases |ls|
  {
    if n > 0 {
      if |ls| == 0 {
        assert ls[..0] == [];
      } else {
        var k := Min(n, |ls|);
        TopLevelsDepthIsSum(ls[1..], n - 1);
        var front := ls[..k];
        assert front[0] == ls[0];
        assert front[1..] == ls[1..][..k - 1];
        assert LadderOrders(front) == ls[0].orders + LadderOrders(ls[1..][..k - 1]);
        TotalRemainingConcat(ls[0].orders, LadderOrders(ls[1..][..k - 1]));
        if n - 1 == 0 {
          assert ls[1..][..0] == [];
        } else {
          assert Min(n - 1, |ls[1..]|) == k - 1;
        }
      }
    }
  }

  /** Asking for the whole ladder gives the remaining quantity of the whole side. */
  lemma MarketDepthWholeSide(e: Engine, symbol: Symbol, side: Side, levels: int)
    requires symbol in e.books && levels >= |Ladder(e.books[symbol], side)|
    ensures MarketDepth(e, symbol, side, levels) == TotalRemaining(LadderOrders(Ladder(e.books[symbol], side)))
  {
    var ls := Ladder(e.books[symbol], side);
    TopLevelsDepthIsSum(ls, levels);
    if levels <= 0 {
      assert ls == [];
    } else {
      assert ls[..Min(levels, |ls|)] == ls;
    }
  }

  /** For at most one level the source's loop and the documented depth agree. */
  lemma DepthAgreesOnOneLevel(e: Engine, symbol: Symbol, side: Side, levels: int)
    requires levels <= 1
    ensures DepthAsWritten(e, symbol, side, levels) == MarketDepth(e, symbol, side, levels)
  {
    if symbol in e.books && levels == 1 {
      var b := e.books[symbol];
      var ls := Ladder(b, side);
      assert BestOn(b, side) == if |ls| == 0 then 0 else ls[0].price;
      if |ls| > 0 {
        assert TopLevelsDepth(ls, 1) == TotalRemaining(ls[0].orders);
        assert VolumeAtPrice(b, side, ls[0].price) == TotalRemaining(ls[0].orders);
      }
    }
  }

  /**
   * Two bid levels, 5 at 101 and 7 at 100, in a well-formed book: asked for
   * two levels, the source's loop counts the best level twice (10) where
   * the top two levels hold 12.
   */
  lemma DepthCountsBestLevelTwice()
    ensures var b := DepthExampleBook();
      var e := Engine(map["X" := b], map[]);
      && EngineWf(e)
      && DepthAsWritten(e, "X", Buy, 2) == 10
      && MarketDepth(e, "X", Buy, 2) == 12
  {
    var b := DepthExampleBook();
    var o1 := b.bids[0].orders[0];
    var o2 := b.bids[1].orders[0];
    assert LadderOrders(b.bids[2..]) == [];
    assert LadderOrders(b.bids[1..]) == [o2];
    assert AllOrders(b) == [o1, o2];
    assert [o1, o2][1..] == [o2];
    assert IndexOf([o2]) == map["b2" := o2];
    assert TotalRemaining([o1]) == 5 && TotalRemaining([o2]) == 7;
  }

  function DepthExampleBook(): Book
  {
    var o1 := Order("b1", "X", Buy, Limit, 101, 5, New, 0);
    var o2 := Order("b2", "X", Buy, Limit, 100, 7, New, 0);
    Book("X", [Level(101, [o1]), Level(100, [o2])], [], map["b1" := o1, "b2" := o2])
  }

  // ---------------------------------------------------------------------------
  // Processing orders
  // ---------------------------------------------------------------------------

  lemma EmptyBookWf(symbol: Symbol)
    ensures Wf(EmptyBook(symbol)) && Uncrossed(EmptyBook(symbol)) && AllOrders(EmptyBook(symbol)) == []
  {
    assert AllOrders(EmptyBook(symbol)) == [];
  }

  /** The book an order meets is filed under the order's symbol and well formed. */
  lemma BookForWf(e: Engine, symbol: Symbol)
    requires EngineWf(e)
    ensures var b := BookFor(e, symbol); b.symbol == symbol && Wf(b) && Uncrossed(b)
  {
    EmptyBookWf(symbol);
  }

  /**
   * Processing an active order with a fresh id keeps every book well formed
   * and uncrossed; the book never throws (it is filed under the order's
   * symbol), so the match's trades are exactly the ones the analytics
   * receive, and only the order's own book changes.
   */
  lemma ProcessOrderWf(e: Engine, o: Order)
    requires EngineWf(e) && o.id !in BookFor(e, o.symbol).index && Active(o)
    ensures MatchOrder(BookFor(e, o.symbol), o).Success?
    ensures var r := ProcessOrder(e, o);
      var m := MatchOrder(BookFor(e, o.symbol), o).value;
      && r.engine.books[o.symbol] == m.book && r.trades == m.trades && r.incoming == m.incoming
      && r.engine.analytics == UpdateMetrics(e.analytics, r.trades)
      && EngineWf(r.engine)
  {
    var b := BookFor(e, o.symbol);
    BookForWf(e, o.symbol);
    MatchOrderRests(b, o);
    var m := MatchOrder(b, o).value;
    var svc := UpdateMetrics(e.analytics, m.trades);
    assert ProcessOrder(e, o) == Processed(Engine(e.books[o.symbol := m.book], svc), m.trades, m.incoming);
    MatchOrderWf(b, o);
    MatchOrderUncrossed(b, o);
    EngineWfReplace(e, o.symbol, m.book, svc);
  }

  /** Filing a well-formed, uncrossed book under its own symbol keeps the engine well formed. */
  lemma EngineWfReplace(e: Engine, symbol: Symbol, b: Book, svc: Service)
    requires EngineWf(e) && b.symbol == symbol && Wf(b) && Uncrossed(b)
    ensures EngineWf(Engine(e.books[symbol := b], svc))
  {
  }

  /**
   * The analytics after processing: the order's symbol has its trades folded
   * in, in match order, and every other symbol's statistics are unchanged.
   */
  lemma ProcessOrderAnalytics(e: Engine, o: Order, other: Symbol)
    requires EngineWf(e)
    ensures var r := ProcessOrder(e, o);
      && (r.trades != [] ==> o.symbol in r.engine.analytics && r.engine.analytics[o.symbol] == Fold(Current(e.analytics, o.symbol), r.trades))
      && (r.trades == [] ==> r.engine.analytics == e.analytics)
      && (other != o.symbol ==> (other in r.engine.analytics <==> other in e.analytics))
      && (other != o.symbol && other in e.analytics ==> r.engine.analytics[other] == e.analytics[other])
  {
    var b := BookFor(e, o.symbol);
    BookForWf(e, o.symbol);
    MatchOrderRests(b, o);
    MatchOrderSweeps(b, o);
    var r := ProcessOrder(e, o);
    OfSymbolUniform(r.trades, o.symbol, other);
    UpdateMetricsPerSymbol(e.analytics, r.trades, o.symbol);
    UpdateMetricsPerSymbol(e.analytics, r.trades, other);
  }

  /**
   * An order for a symbol without a book meets a new empty book: nothing
   * trades, the analytics are untouched, and a limit order with quantity
   * left rests, unchanged, where `getOrder` finds it.
   */
  lemma ProcessOrderNewSymbol(e: Engine, o: Order)
    requires o.symbol !in e.books
    ensures var r := ProcessOrder(e, o);
      && r.trades == [] && r.engine.analytics == e.analytics && r.incoming == o
      && (o.orderType == Limit && Remaining(o) > 0 ==> LookupOrder(r.engine, o.symbol, o.id) == Some(o))
      && (o.orderType == Market || Remaining(o) <= 0 ==> LookupOrder(r.engine, o.symbol, o.id) == None)
  {
    var b := BookFor(e, o.symbol);
    MatchOrderRests(b, o);
    assert Ladder(b, Opposite(o.side)) == [];
  }

  // ---------------------------------------------------------------------------
  // Cancelling
  // ---------------------------------------------------------------------------

  /** Every order a well-formed book indexes is still active, so the filled check never refuses it. */
  lemma IndexedActive(b: Book, id: OrderId)
    requires Wf(b) && id in b.index
    ensures Active(b.index[id]) && b.index[id].status != Filled
  {
    IndexOfEntries(AllOrders(b));
    var x := b.index[id];
    var i := LadderOrdersMember(if x in LadderOrders(b.bids) then b.bids else b.asks, x);
    var ls := if x in LadderOrders(b.bids) then b.bids else b.asks;
    assert LevelWf(ls[i], if x in LadderOrders(b.bids) then Buy else Sell);
  }

  /** Removing an order never improves either best price. */
  lemma RemoveFromLevelBest(ls: seq<Level>, side: Side, o: Order)
    requires Sorted(ls, side)
    ensures var r := RemoveFromLevel(ls, o);
      |r| > 0 ==> |ls| > 0 && (r[0].price == ls[0].price || Ahead(side, ls[0].price, r[0].price))
  {
    var r := RemoveFromLevel(ls, o);
    if |r| > 0 && |ls| > 0 && ls[0].price == o.price && |FilterId(ls[0].orders, o.id)| == 0 {
      assert r == ls[1..];
      assert Ahead(side, ls[0].price, ls[1].price);
    }
  }

  lemma RemoveOrderUncrossed(b: Book, id: OrderId)
    requires Wf(b) && Uncrossed(b)
    ensures Uncrossed(RemoveOrder(b, id))
  {
    if id in b.index {
      var o := b.index[id];
      RemoveFromLevelBest(Ladder(b, o.side), o.side, o);
    }
  }

  /**
   * `cancelOrder` in a well-formed engine succeeds exactly when `getOrder`
   * finds the order; then it hands back the order marked cancelled, the
   * book holds every other resting order in the same order, and `getOrder`
   * no longer finds it. A refused cancel changes nothing. Every book stays
   * well formed and uncrossed.
   */
  lemma CancelOrderWf(e: Engine, symbol: Symbol, id: OrderId)
    requires EngineWf(e)
    ensures var r := CancelOrder(e, symbol, id);
      && (r.cancelled <==> LookupOrder(e, symbol, id).Some?)
      && (r.cancelled ==> r.order == Some(LookupOrder(e, symbol, id).value.(status := Cancelled)))
      && (r.cancelled ==> LookupOrder(r.engine, symbol, id) == None)
      && (r.cancelled ==> AllOrders(r.engine.books[symbol]) == FilterId(AllOrders(e.books[symbol]), id))
      && (r.cancelled ==> forall s :: s in e.books && s != symbol ==> r.engine.books[s] == e.books[s])
      && (!r.cancelled ==> r.engine == e)
      && EngineWf(r.engine)
  {
    if symbol in e.books && id in e.books[symbol].index {
      var b := e.books[symbol];
      var o := b.index[id];
      IndexedActive(b, id);
      assert LookupOrder(e, symbol, id) == Some(o);
      var b' := RemoveOrder(b, id);
      assert CancelOrder(e, symbol, id) == Cancellation(e.(books := e.books[symbol := b']), true, Some(SetStatus(o, Cancelled)));
      RemoveOrderWf(b, id);
      RemoveOrderUncrossed(b, id);
      EngineWfReplace(e, symbol, b', e.analytics);
    }
  }

  /** Cancelling the same order twice: the second call reports false and changes nothing. */
  lemma CancelTwice(e: Engine, symbol: Symbol, id: OrderId)
    requires EngineWf(e)
    ensures var r := CancelOrder(e, symbol, id);
      var r2 := CancelOrder(r.engine, symbol, id);
      !r2.cancelled && r2.engine == r.engine
  {
    CancelOrderWf(e, symbol, id);
  }

  // ---------------------------------------------------------------------------
  // Queries
  // ---------------------------------------------------------------------------

  /**
   * The best bid is the highest resting buy price and the best ask the
   * lowest resting sell price, 0 when that side is empty or there is no book.
   */
  lemma BestPricesAreExtremes(e: Engine, symbol: Symbol)
    requires EngineWf(e)
    ensures symbol in e.books ==> forall o :: o in LadderOrders(e.books[symbol].bids) ==> o.price <= SymbolBestBid(e, symbol)
    ensures symbol in e.books ==> forall o :: o in LadderOrders(e.books[symbol].asks) ==> SymbolBestAsk(e, symbol) <= o.price
    ensures symbol in e.books && e.books[symbol].bids != [] ==>
      exists o :: o in LadderOrders(e.books[symbol].bids) && o.price == SymbolBestBid(e, symbol)
    ensures symbol in e.books && e.books[symbol].asks != [] ==>
      exists o :: o in LadderOrders(e.books[symbol].asks) && o.price == SymbolBestAsk(e, symbol)
    ensures symbol !in e.books || e.books[symbol].bids == [] ==> SymbolBestBid(e, symbol) == 0
    ensures symbol !in e.books || e.books[symbol].asks == [] ==> SymbolBestAsk(e, symbol) == 0
  {
    if symbol in e.books {
      BestBidIsHighest(e.books[symbol]);
      BestAskIsLowest(e.books[symbol]);
    }
  }

  /**
   * The spread is never negative in a well-formed engine, and it is positive
   * exactly when both best prices are positive, when it is their difference.
   */
  lemma SpreadPositive(e: Engine, symbol: Symbol)
    requires EngineWf(e)
    ensures Spread(e, symbol) >= 0
    ensures Spread(e, symbol) > 0 <==> SymbolBestBid(e, symbol) > 0 && SymbolBestAsk(e, symbol) > 0
    ensures Spread(e, symbol) > 0 ==> Spread(e, symbol) == SymbolBestAsk(e, symbol) - SymbolBestBid(e, symbol)
  {
  }

  /** Adding a book twice is adding it once, and keeps the engine well formed. */
  lemma AddOrderBookIdempotent(e: Engine, symbol: Symbol)
    ensures AddOrderBook(AddOrderBook(e, symbol), symbol) == AddOrderBook(e, symbol)
    ensures EngineWf(e) ==> EngineWf(AddOrderBook(e, symbol))
    ensures symbol in AvailableSymbols(AddOrderBook(e, symbol))
  {
    EmptyBookWf(symbol);
  }

  /**
   * The available symbols only grow: processing an order adds its symbol,
   * adding a book adds that symbol, and cancelling changes none.
   */
  lemma AvailableSymbolsTrack(e: Engine, o: Order, symbol: Symbol, id: OrderId)
    ensures AvailableSymbols(ProcessOrder(e, o).engine) == AvailableSymbols(e) + {o.symbol}
    ensures AvailableSymbols(AddOrderBook(e, symbol)) == AvailableSymbols(e) + {symbol}
    ensures AvailableSymbols(CancelOrder(e, symbol, id).engine) == AvailableSymbols(e)
  {
  }
}
