/**
 * Orders of the exchange (model/Order.java): identity, side, type, limit price,
 * quantity, and the fill state machine NEW -> PARTIALLY_FILLED -> FILLED.
 *
 * Order ids are generated from random UUIDs in the source; here they are given
 * values, and callers that need distinct ids say so in their requires.
 * Timestamps play no part in matching (time priority is list position) and are
 * not modelled.
 */
module Orders {

  type OrderId = string
  type Symbol = string

  /** Prices are integer ticks: the book only compares prices and tests them for equality. */
  type Price = int

  datatype Side = Buy | Sell
  datatype OrderType = Market | Limit
  datatype OrderStatus = New | PartiallyFilled | Filled | Cancelled | Rejected

  /**
   * `quantity` and `filled` are Java `int`s that the source never validates,
   * so they are `int` here; the book's invariant is what keeps resting
   * quantities positive.
   */
  datatype Order = Order(
    id: OrderId,
    symbol: Symbol,
    side: Side,
    orderType: OrderType,
    price: Price,
    quantity: int,
    status: OrderStatus,
    filled: int)

  function Opposite(s: Side): (r: Side)
    ensures r != s
  {
    if s == Buy then Sell else Buy
  }

  /** The smaller of two quantities. */
  function Min(a: int, b: int): int
  {
    if a <= b then a else b
  }

  /**
   * The quantity still to be executed: the whole quantity before any fill,
   * and not positive exactly when the fill test (filled >= quantity) holds.
   */
  function Remaining(o: Order): (r: int)
    ensures o.filled == 0 ==> r == o.quantity
    ensures r <= 0 <==> o.filled >= o.quantity
  {
    o.quantity - o.filled
  }

  /** The fields the source declares `final` (id, symbol, side, type, quantity), plus the price. */
  predicate SameIdentity(a: Order, b: Order)
  {
    && a.id == b.id
    && a.symbol == b.symbol
    && a.side == b.side
    && a.orderType == b.orderType
    && a.price == b.price
    && a.quantity == b.quantity
  }

  /** An order that may still trade: not terminal. */
  predicate Active(o: Order)
  {
    o.status == New || o.status == PartiallyFilled
  }

  /** The limit-order constructor. */
  function NewLimitOrder(id: OrderId, symbol: Symbol, side: Side, price: Price, quantity: int): (o: Order)
    ensures o.id == id && o.symbol == symbol && o.side == side && o.quantity == quantity
    ensures o.orderType == Limit && o.price == price
    ensures o.status == New && o.filled == 0 && Remaining(o) == quantity
  {
    Order(id, symbol, side, Limit, price, quantity, New, 0)
  }

  /** The market-order constructor: no price limit, recorded as price 0. */
  function NewMarketOrder(id: OrderId, symbol: Symbol, side: Side, quantity: int): (o: Order)
    ensures o.id == id && o.symbol == symbol && o.side == side && o.quantity == quantity
    ensures o.orderType == Market && o.price == 0
    ensures o.status == New && o.filled == 0 && Remaining(o) == quantity
  {
    Order(id, symbol, side, Market, 0, quantity, New, 0)
  }

  /**
   * Executes `q` more units: the filled quantity grows by `q` and the status is
   * recomputed from the new filled quantity alone.
   */
  function Fill(o: Order, q: int): (r: Order)
    ensures SameIdentity(o, r)
    ensures r.filled == o.filled + q && Remaining(r) == Remaining(o) - q
    ensures r.status == Filled <==> Remaining(r) <= 0
    ensures r.status == Filled || r.status == PartiallyFilled
  {
    var f := o.filled + q;
    o.(filled := f, status := if f >= o.quantity then Filled else PartiallyFilled)
  }

  /** Overwrites the status; nothing else changes. */
  function SetStatus(o: Order, s: OrderStatus): (r: Order)
    ensures SameIdentity(o, r) && r.filled == o.filled && r.status == s
  {
    o.(status := s)
  }

  /** Fill touches only the filled quantity and the status. */
  lemma FillChangesOnlyFillState(o: Order, q: int)
    ensures Fill(o, q) == o.(filled := o.filled + q, status := Fill(o, q).status)
  {
  }

  /**
   * A fill of at most the remaining quantity never overfills the order, and
   * the status moves forward: it is never NEW again, and it is FILLED exactly
   * when the whole remainder was taken.
   */
  lemma FillWithinRemaining(o: Order, q: int)
    requires 0 < q <= Remaining(o)
    ensures Fill(o, q).filled <= o.quantity
    ensures Fill(o, q).filled > o.filled
    ensures Fill(o, q).status != New
    ensures Fill(o, q).status == Filled <==> q == Remaining(o)
    ensures Fill(o, q).status == PartiallyFilled <==> q < Remaining(o)
  {
  }

  /** Two successive fills are one fill of their sum. */
  lemma FillAdditive(o: Order, a: int, b: int)
    ensures Fill(Fill(o, a), b) == Fill(o, a + b)
  {
  }
}
