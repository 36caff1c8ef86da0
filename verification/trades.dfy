/**
 * Trades (model/Trade.java): an immutable record of one match. The trade id and
 * timestamp are random and clock values in the source and are not modelled.
 */
module Trades {

  import opened Orders

  datatype Trade = Trade(
    buyOrderId: OrderId,
    sellOrderId: OrderId,
    symbol: Symbol,
    price: Price,
    quantity: int)

  /** The constructor: the buying order's id first, then the selling order's. */
  function NewTrade(buyOrderId: OrderId, sellOrderId: OrderId, symbol: Symbol, price: Price, quantity: int): (t: Trade)
    ensures t.buyOrderId == buyOrderId && t.sellOrderId == sellOrderId
    ensures t.symbol == symbol && t.price == price && t.quantity == quantity
  {
    Trade(buyOrderId, sellOrderId, symbol, price, quantity)
  }

  /** Total executed quantity of a list of trades. */
  function Volume(ts: seq<Trade>): int
  {
    if |ts| == 0 then 0 else ts[0].quantity + Volume(ts[1..])
  }

  /** Total executed value (price times quantity) of a list of trades. */
  function Notional(ts: seq<Trade>): int
  {
    if |ts| == 0 then 0 else ts[0].price * ts[0].quantity + Notional(ts[1..])
  }

  lemma {:induction false} VolumeConcat(a: seq<Trade>, b: seq<Trade>)
    ensures Volume(a + b) == Volume(a) + Volume(b)
  {
    if |a| > 0 {
      assert (a + b)[1..] == a[1..] + b;
      VolumeConcat(a[1..], b);
    } else {
      assert a + b == b;
    }
  }

  lemma {:induction false} NotionalConcat(a: seq<Trade>, b: seq<Trade>)
    ensures Notional(a + b) == Notional(a) + Notional(b)
  {
    if |a| > 0 {
      assert (a + b)[1..] == a[1..] + b;
      NotionalConcat(a[1..], b);
    } else {
      assert a + b == b;
    }
  }
}
