/**
 * The per-symbol order book (engine/OrderBook.java): two price ladders, bids
 * best (highest) first and asks best (lowest) first, each level a first-in,
 * first-out list of resting orders, plus an id -> order index; and the
 * price-time priority matching of an incoming order against them.
 *
 * The source guards the book with a read-write lock; here every operation is
 * one sequential step on an immutable value. The source's orders are shared
 * mutable objects: an order filled in a level is the same object as the one in
 * the index. Here both copies are updated together.
 */
module OrderBook {

  import opened Wrappers
  import opened Orders
  import opened Trades
  import opened OrderSeqs

  /** One price level: its price and its resting orders, oldest first. */
  datatype Level = Level(price: Price, orders: seq<Order>)

  /** `bids` and `asks` are ladders of levels in matching priority order. */
  datatype Book = Book(symbol: Symbol, bids: seq<Level>, asks: seq<Level>, index: map<OrderId, Order>)

  /** The source's `IllegalArgumentException` from `addOrder`. */
  datatype BookError = SymbolMismatch

  function EmptyBook(symbol: Symbol): (b: Book)
    ensures b.symbol == symbol && b.bids == [] && b.asks == [] && b.index == map[]
  {
    Book(symbol, [], [], map[])
  }

  /** The ladder holding the resting orders of `side`. */
  function Ladder(b: Book, side: Side): seq<Level>
  {
    if side == Buy then b.bids else b.asks
  }

  /** Replaces the ladder of `side`, leaving the other ladder, the index and the symbol alone. */
  function WithLadder(b: Book, side: Side, ls: seq<Level>): (r: Book)
    ensures Ladder(r, side) == ls && Ladder(r, Opposite(side)) == Ladder(b, Opposite(side))
    ensures r.index == b.index && r.symbol == b.symbol
  {
    if side == Buy then b.(bids := ls) else b.(asks := ls)
  }

  /** On the ladder of `side`, a level at `p` comes before one at `q`: higher bids first, lower asks first. */
  predicate Ahead(side: Side, p: Price, q: Price)
  {
    if side == Buy then p > q else p < q
  }

  /** All resting orders of a ladder in priority order: best level first, oldest first within a level. */
  function LadderOrders(ls: seq<Level>): seq<Order>
  {
    if |ls| == 0 then [] else ls[0].orders + LadderOrders(ls[1..])
  }

  /** Every resting order of the book. */
  function AllOrders(b: Book): seq<Order>
  {
    LadderOrders(b.bids) + LadderOrders(b.asks)
  }

  // ---------------------------------------------------------------------------
  // The book's invariant
  // ---------------------------------------------------------------------------

  /** Level prices strictly in priority order (the skip list's comparator keeps one level per price). */
  ghost predicate Sorted(ls: seq<Level>, side: Side)
  {
    forall i, j :: 0 <= i < j < |ls| ==> Ahead(side, ls[i].price, ls[j].price)
  }

  /** An order that can rest at a level of `side` at `price`. */
  ghost predicate RestingAt(o: Order, side: Side, price: Price)
  {
    o.side == side && o.price == price && Remaining(o) > 0 && Active(o)
  }

  /** A level is never empty, and all its orders rest at its price. */
  ghost predicate LevelWf(l: Level, side: Side)
  {
    |l.orders| > 0 && forall o :: o in l.orders ==> RestingAt(o, side, l.price)
  }

  ghost predicate LadderWf(ls: seq<Level>, side: Side)
  {
    Sorted(ls, side) && forall i :: 0 <= i < |ls| ==> LevelWf(ls[i], side)
  }

  /**
   * Both ladders well formed, no order id twice in the book, and the index
   * holds exactly the resting orders, each under its id.
   */
  ghost predicate Wf(b: Book)
  {
    && LadderWf(b.bids, Buy)
    && LadderWf(b.asks, Sell)
    && Distinct(AllOrders(b))
    && b.index == IndexOf(AllOrders(b))
  }

  /** The best bid is below the best ask, or one side is empty. */
  ghost predicate Uncrossed(b: Book)
  {
    b.bids == [] || b.asks == [] || b.bids[0].price < b.asks[0].price
  }

  // ---------------------------------------------------------------------------
  // Adding, removing and looking up resting orders
  // ---------------------------------------------------------------------------

  /**
   * Appends `o` to the level at its price, or creates that level at its
   * priority position (`addToLevel` plus the skip list's sorted insertion).
   */
  function AddToLevel(ls: seq<Level>, side: Side, o: Order): (r: seq<Level>)
    ensures |r| == |ls| || |r| == |ls| + 1
    ensures |r| > 0
  {
    if |ls| == 0 then [Level(o.price, [o])]
    else if ls[0].price == o.price then [Level(ls[0].price, ls[0].orders + [o])] + ls[1..]
    else if Ahead(side, o.price, ls[0].price) then [Level(o.price, [o])] + ls
    else [ls[0]] + AddToLevel(ls[1..], side, o)
  }

  /** `addOrder`: indexes the order and adds it to its side; refuses an order of another symbol. */
  function AddOrder(b: Book, o: Order): (r: Result<Book, BookError>)
    ensures r.Failure? <==> o.symbol != b.symbol
    ensures r.Success? ==> r.value.index == b.index[o.id := o] && r.value.symbol == b.symbol
    ensures r.Success? ==> Ladder(r.value, Opposite(o.side)) == Ladder(b, Opposite(o.side))
    ensures r.Success? ==> |Ladder(r.value, o.side)| > 0
  {
    if o.symbol != b.symbol then Failure(SymbolMismatch)
    else
      var ls := AddToLevel(Ladder(b, o.side), o.side, o);
      Success(WithLadder(b, o.side, ls).(index := b.index[o.id := o]))
  }

  /**
   * `removeFromLevel`: at the first level priced exactly at the order's price,
   * drops every order with its id, and drops the level once it is empty.
   */
  function RemoveFromLevel(ls: seq<Level>, o: Order): (r: seq<Level>)
    ensures |r| <= |ls|
  {
    if |ls| == 0 then ls
    else if ls[0].price == o.price then
      var kept := FilterId(ls[0].orders, o.id);
      (if |kept| == 0 then [] else [Level(ls[0].price, kept)]) + ls[1..]
    else [ls[0]] + RemoveFromLevel(ls[1..], o)
  }

  /** `removeOrder`: an unknown id changes nothing; a known one leaves the index and its level. */
  function RemoveOrder(b: Book, id: OrderId): (r: Book)
    ensures r.index == b.index - {id} && r.symbol == b.symbol
    ensures id !in b.index ==> r == b
    ensures id in b.index ==> Ladder(r, Opposite(b.index[id].side)) == Ladder(b, Opposite(b.index[id].side))
  {
    if id !in b.index then b
    else
      var o := b.index[id];
      WithLadder(b, o.side, RemoveFromLevel(Ladder(b, o.side), o)).(index := b.index - {id})
  }

  /** `getOrder`: the indexed order, or nothing for an unknown id. */
  function GetOrder(b: Book, id: OrderId): (r: Option<Order>)
    ensures r.Some? <==> id in b.index
    ensures r.Some? ==> r.value == b.index[id]
  {
    if id in b.index then Some(b.index[id]) else None
  }

  /** `getBestBid`: the first bid level's price, 0 when there are no bids. */
  function BestBid(b: Book): Price
  {
    if |b.bids| == 0 then 0 else b.bids[0].price
  }

  /** `getBestAsk`: the first ask level's price, 0 when there are no asks. */
  function BestAsk(b: Book): Price
  {
    if |b.asks| == 0 then 0 else b.asks[0].price
  }

  /** `getTotalVolume` of the first level priced exactly at `p`, or 0 when there is none. */
  function LadderVolumeAt(ls: seq<Level>, p: Price): int
  {
    if |ls| == 0 then 0
    else if ls[0].price == p then TotalRemaining(ls[0].orders)
    else LadderVolumeAt(ls[1..], p)
  }

  /** `getVolumeAtPrice`. */
  function VolumeAtPrice(b: Book, side: Side, p: Price): int
  {
    LadderVolumeAt(Ladder(b, side), p)
  }

  // ---------------------------------------------------------------------------
  // Matching
  // ---------------------------------------------------------------------------

  /**
   * The crossing test of `matchOrder`: a market order takes any price; a limit
   * buy stops at a level above its limit, a limit sell at a level below it.
   */
  predicate Crosses(incoming: Order, p: Price)
  {
    incoming.orderType == Market || (if incoming.side == Buy then p <= incoming.price else p >= incoming.price)
  }

  /** The resting side's order id in a trade whose aggressor was on `incomingSide`. */
  function Counterparty(t: Trade, incomingSide: Side): OrderId
  {
    if incomingSide == Buy then t.sellOrderId else t.buyOrderId
  }

  /** The aggressor's order id in a trade whose aggressor was on `incomingSide`. */
  function AggressorId(t: Trade, incomingSide: Side): OrderId
  {
    if incomingSide == Buy then t.buyOrderId else t.sellOrderId
  }

  /** What the inner loop of `matchOrder` leaves behind at one level. */
  datatype LevelFill = LevelFill(orders: seq<Order>, index: map<OrderId, Order>, incoming: Order, trades: seq<Trade>)

  /** The quantity of one pairing: the smaller of the two remainders. */
  function MatchQuantity(incoming: Order, resting: Order): (q: int)
    ensures q <= Remaining(incoming) && q <= Remaining(resting)
    ensures q == Remaining(incoming) || q == Remaining(resting)
  {
    if Remaining(incoming) <= Remaining(resting) then Remaining(incoming) else Remaining(resting)
  }

  /**
   * The trade of one pairing, at the level's price: an incoming buy is the
   * trade's buying order, otherwise the resting order is.
   */
  function TradeFor(incoming: Order, resting: Order, symbol: Symbol, price: Price, q: int): (t: Trade)
    ensures AggressorId(t, incoming.side) == incoming.id && Counterparty(t, incoming.side) == resting.id
    ensures incoming.side == Buy ==> t.buyOrderId == incoming.id && t.sellOrderId == resting.id
    ensures incoming.side == Sell ==> t.buyOrderId == resting.id && t.sellOrderId == incoming.id
    ensures t.symbol == symbol && t.price == price && t.quantity == q
  {
    if incoming.side == Buy then NewTrade(incoming.id, resting.id, symbol, price, q)
    else NewTrade(resting.id, incoming.id, symbol, price, q)
  }

  /** The resting order after a pairing, unless it became FILLED and left the level. */
  function Survivor(resting: Order, q: int): (s: seq<Order>)
    ensures |s| <= 1
    ensures |s| == 1 <==> q < Remaining(resting)
    ensures |s| == 1 ==> s[0] == Fill(resting, q)
  {
    var r := Fill(resting, q);
    if r.status == Filled then [] else [r]
  }

  /** The index after a pairing: a FILLED resting order leaves it, otherwise its entry shows the fill. */
  function IndexAfterFill(index: map<OrderId, Order>, resting: Order, q: int): map<OrderId, Order>
  {
    var r := Fill(resting, q);
    if r.status == Filled then index - {resting.id}
    else if resting.id in index then index[resting.id := r]
    else index
  }

  /**
   * The inner loop of `matchOrder`: walks the level's orders oldest first
   * while the incoming order has quantity left. Each pairing trades
   * min(incoming remaining, resting remaining) at the level's price; a resting
   * order that becomes FILLED leaves the level and the index.
   */
  function MatchLevel(orders: seq<Order>, price: Price, index: map<OrderId, Order>, incoming: Order, symbol: Symbol): (r: LevelFill)
    ensures |r.trades| <= |orders| && |r.orders| <= |orders|
    ensures SameIdentity(incoming, r.incoming)
    ensures Remaining(incoming) <= 0 ==> r.incoming == incoming && r.trades == []
    ensures |r.orders| > 0 ==> Remaining(r.incoming) <= 0
    decreases |orders|
  {
    if |orders| == 0 || Remaining(incoming) <= 0 then LevelFill(orders, index, incoming, [])
    else
      var resting := orders[0];
      var q := MatchQuantity(incoming, resting);
      var t := TradeFor(incoming, resting, symbol, price, q);
      var rest := MatchLevel(orders[1..], price, IndexAfterFill(index, resting, q), Fill(incoming, q), symbol);
      LevelFill(Survivor(resting, q) + rest.orders, rest.index, rest.incoming, [t] + rest.trades)
  }

  /** What the outer loop of `matchOrder` leaves behind on the opposite ladder. */
  datatype Walk = Walk(ladder: seq<Level>, index: map<OrderId, Order>, incoming: Order, trades: seq<Trade>)

  /**
   * The outer loop of `matchOrder`: walks the opposite ladder best level
   * first, stopping when the incoming order is done or the next level does not
   * cross; a level left empty is removed.
   */
  function MatchLadder(ladder: seq<Level>, index: map<OrderId, Order>, incoming: Order, symbol: Symbol): (r: Walk)
    ensures |r.ladder| <= |ladder|
    ensures SameIdentity(incoming, r.incoming)
    ensures Remaining(r.incoming) > 0 ==> |r.ladder| == 0 || !Crosses(incoming, r.ladder[0].price)
    decreases |ladder|
  {
    if |ladder| == 0 || Remaining(incoming) <= 0 || !Crosses(incoming, ladder[0].price) then
      Walk(ladder, index, incoming, [])
    else
      var level := ladder[0];
      var lf := MatchLevel(level.orders, level.price, index, incoming, symbol);
      var rest := MatchLadder(ladder[1..], lf.index, lf.incoming, symbol);
      var kept := if |lf.orders| == 0 then [] else [Level(level.price, lf.orders)];
      Walk(kept + rest.ladder, rest.index, rest.incoming, lf.trades + rest.trades)
  }

  /** A completed match: the new book, the trades in execution order, and the incoming order's final state. */
  datatype Matched = Matched(book: Book, trades: seq<Trade>, incoming: Order)

  /**
   * A match whose limit remainder could not be added because the order's
   * symbol is not the book's: the source throws from `addOrder` after the
   * walk, so the walked book stays behind and the trades are never returned.
   */
  datatype Aborted = Aborted(error: BookError, book: Book, incoming: Order)

  /** The book after the walk: the opposite ladder and the index replaced. */
  function AfterWalk(b: Book, side: Side, w: Walk): (r: Book)
    ensures Ladder(r, side) == w.ladder && Ladder(r, Opposite(side)) == Ladder(b, Opposite(side))
    ensures r.index == w.index && r.symbol == b.symbol
  {
    WithLadder(b, side, w.ladder).(index := w.index)
  }

  /**
   * `matchOrder`: matches against the opposite ladder, then rests a limit
   * order's remainder in the book; a market order's remainder is dropped.
   */
  function MatchOrder(b: Book, o: Order): (r: Result<Matched, Aborted>)
    ensures r.Success? ==> r.value.book.symbol == b.symbol
    ensures r.Success? ==> SameIdentity(o, r.value.incoming)
    ensures r.Failure? ==> o.symbol != b.symbol && o.orderType == Limit
  {
    var opposite := Opposite(o.side);
    var w := MatchLadder(Ladder(b, opposite), b.index, o, b.symbol);
    var walked := AfterWalk(b, opposite, w);
    if Remaining(w.incoming) > 0 && o.orderType == Limit then
      match AddOrder(walked, w.incoming)
      case Success(b') => Success(Matched(b', w.trades, w.incoming))
      case Failure(e) => Failure(Aborted(e, walked, w.incoming))
    else Success(Matched(walked, w.trades, w.incoming))
  }
}
