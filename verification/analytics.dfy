/**
 * Per-symbol trade statistics (analytics/AnalyticsService.java): running
 * totals, last/high/low price and a window of the most recent trades, fed one
 * trade at a time, and the ratios read from them.
 *
 * The source keeps the totals in `double`s that only ever accumulate `int`
 * quantities and prices; here they are exact integers, and the ratios are
 * `real`s without IEEE rounding. The source initialises the high price to
 * `Double.MIN_VALUE`, which is positive, and reads 0 while it is unchanged; so
 * the value read is the largest trade price when some price is positive, and 0
 * otherwise, which is what `high` holds here from its start at 0. The low
 * price starts at the `Double.MAX_VALUE` sentinel, modelled as `None`.
 */
module Analytics {

  import opened Wrappers
  import opened Orders
  import opened Trades

  /** The source's `MAX_RECENT_TRADES`. */
  const MaxRecentTrades: nat := 1000

  datatype SymbolAnalytics = SymbolAnalytics(
    totalVolume: int,
    notional: int,
    tradeCount: nat,
    lastPrice: Price,
    high: Price,
    low: Option<Price>,
    recent: seq<Trade>)

  /** A fresh accumulator, as `computeIfAbsent` creates it. */
  function NewAnalytics(): (a: SymbolAnalytics)
    ensures a.totalVolume == 0 && a.notional == 0 && a.tradeCount == 0
    ensures a.lastPrice == 0 && a.high == 0 && a.low == None && a.recent == []
  {
    SymbolAnalytics(0, 0, 0, 0, 0, None, [])
  }

  /** The last `MaxRecentTrades` entries of `s` (all of them when there are fewer). */
  function Window(s: seq<Trade>): (w: seq<Trade>)
    ensures |w| <= MaxRecentTrades && |w| <= |s|
  {
    if |s| > MaxRecentTrades then s[|s| - MaxRecentTrades..] else s
  }

  /** `update`: one trade into the accumulator; the window drops its oldest entry once it holds more than 1000. */
  function Update(a: SymbolAnalytics, t: Trade): (r: SymbolAnalytics)
    ensures r.totalVolume == a.totalVolume + t.quantity && r.notional == a.notional + t.price * t.quantity
    ensures r.tradeCount == a.tradeCount + 1 && r.lastPrice == t.price
    ensures r.high >= a.high && r.high >= t.price && (r.high == a.high || r.high == t.price)
    ensures r.low.Some? && r.low.value <= t.price
    ensures a.low.Some? ==> r.low.value <= a.low.value && (r.low.value == a.low.value || r.low.value == t.price)
    ensures r.recent != [] && r.recent[|r.recent| - 1] == t
    ensures |a.recent| <= MaxRecentTrades ==> |r.recent| <= MaxRecentTrades
  {
    var recent := a.recent + [t];
    SymbolAnalytics(
      a.totalVolume + t.quantity,
      a.notional + t.price * t.quantity,
      a.tradeCount + 1,
      t.price,
      if t.price > a.high then t.price else a.high,
      Some(if a.low.Some? && a.low.value <= t.price then a.low.value else t.price),
      if |recent| > MaxRecentTrades then recent[1..] else recent)
  }

  /** Trades applied one after another, oldest first. */
  function Fold(a: SymbolAnalytics, ts: seq<Trade>): SymbolAnalytics
    decreases |ts|
  {
    if |ts| == 0 then a else Fold(Update(a, ts[0]), ts[1..])
  }

  // ---------------------------------------------------------------------------
  // Reading the accumulator
  // ---------------------------------------------------------------------------

  /** `getVWAP`: value over volume, 0 while the volume is not positive. */
  function Vwap(a: SymbolAnalytics): real
  {
    if a.totalVolume > 0 then a.notional as real / a.totalVolume as real else 0.0
  }

  /** `getAverageTradeSize`: volume over trade count, 0 before the first trade. */
  function AverageTradeSize(a: SymbolAnalytics): real
  {
    if a.tradeCount > 0 then a.totalVolume as real / a.tradeCount as real else 0.0
  }

  /** `getLowPrice`: 0 while no trade has been seen. */
  function LowPrice(a: SymbolAnalytics): Price
  {
    if a.low.Some? then a.low.value else 0
  }

  /**
   * `getPriceChange24h`: the percentage change from the oldest to the newest
   * trade of the window; 0 with fewer than two trades or a non-positive oldest price.
   */
  function PriceChange(a: SymbolAnalytics): real
  {
    if |a.recent| < 2 then 0.0 else PercentChange(a.recent[0].price, a.recent[|a.recent| - 1].price)
  }

  /** The change from `oldest` to `newest` in percent of `oldest`; 0 when `oldest` is not positive. */
  function PercentChange(oldest: Price, newest: Price): real
  {
    if oldest > 0 then ((newest - oldest) as real / oldest as real) * 100.0 else 0.0
  }

  // ---------------------------------------------------------------------------
  // The service: one accumulator per symbol
  // ---------------------------------------------------------------------------

  type Service = map<Symbol, SymbolAnalytics>

  /** The accumulator of `s`, or a fresh one when `s` has none yet. */
  function Current(svc: Service, s: Symbol): SymbolAnalytics
  {
    if s in svc then svc[s] else NewAnalytics()
  }

  /** `updateMetrics`: each trade, in list order, into its symbol's accumulator, created on first use. */
  function UpdateMetrics(svc: Service, ts: seq<Trade>): Service
    decreases |ts|
  {
    if |ts| == 0 then svc
    else
      var s := ts[0].symbol;
      UpdateMetrics(svc[s := Update(Current(svc, s), ts[0])], ts[1..])
  }

  /** The trades of one symbol, in their original order. */
  function OfSymbol(ts: seq<Trade>, s: Symbol): seq<Trade>
  {
    if |ts| == 0 then [] else (if ts[0].symbol == s then [ts[0]] else []) + OfSymbol(ts[1..], s)
  }

  function ServiceVwap(svc: Service, s: Symbol): real
  {
    if s in svc then Vwap(svc[s]) else 0.0
  }

  function ServiceTotalVolume(svc: Service, s: Symbol): int
  {
    if s in svc then svc[s].totalVolume else 0
  }

  function ServiceTradeCount(svc: Service, s: Symbol): nat
  {
    if s in svc then svc[s].tradeCount else 0
  }

  function ServiceLastPrice(svc: Service, s: Symbol): Price
  {
    if s in svc then svc[s].lastPrice else 0
  }

  function ServicePriceChange(svc: Service, s: Symbol): real
  {
    if s in svc then PriceChange(svc[s]) else 0.0
  }

  function ServiceHighPrice(svc: Service, s: Symbol): Price
  {
    if s in svc then svc[s].high else 0
  }

  function ServiceLowPrice(svc: Service, s: Symbol): Price
  {
    if s in svc then LowPrice(svc[s]) else 0
  }

  function ServiceAverageTradeSize(svc: Service, s: Symbol): real
  {
    if s in svc then AverageTradeSize(svc[s]) else 0.0
  }

  // ---------------------------------------------------------------------------
  // What the accumulator holds after a run of trades
  // ---------------------------------------------------------------------------

  /** The running totals are the totals of the trades folded in. */
  lemma {:induction false} FoldTotals(a: SymbolAnalytics, ts: seq<Trade>)
    ensures var r := Fold(a, ts);
      && r.totalVolume == a.totalVolume + Volume(ts)
      && r.notional == a.notional + Notional(ts)
      && r.tradeCount == a.tradeCount + |ts|
      && r.lastPrice == (if |ts| == 0 then a.lastPrice else ts[|ts| - 1].price)
    decreases |ts|
  {
    if |ts| > 0 {
      FoldTotals(Update(a, ts[0]), ts[1..]);
      if |ts| > 1 {
        assert ts[1..][|ts| - 2] == ts[|ts| - 1];
      }
    }
  }

  /** The high price is at least every price folded in and the old high, and is one of them. */
  lemma {:induction false} FoldHigh(a: SymbolAnalytics, ts: seq<Trade>)
    ensures var r := Fold(a, ts);
      && r.high >= a.high
      && (forall i :: 0 <= i < |ts| ==> ts[i].price <= r.high)
      && (r.high == a.high || exists i :: 0 <= i < |ts| && ts[i].price == r.high)
    decreases |ts|
  {
    if |ts| > 0 {
      var u := Update(a, ts[0]);
      FoldHigh(u, ts[1..]);
      var r := Fold(a, ts);
      assert forall i :: 1 <= i < |ts| ==> ts[i] == ts[1..][i - 1];
      if r.high != a.high && r.high != u.high {
        var j :| 0 <= j < |ts[1..]| && ts[1..][j].price == r.high;
        assert ts[j + 1].price == r.high;
      }
    }
  }

  /** The low price is at most every price folded in and the old low, and is one of them. */
  lemma {:induction false} FoldLow(a: SymbolAnalytics, ts: seq<Trade>)
    ensures var r := Fold(a, ts);
      && (r.low.Some? <==> a.low.Some? || |ts| > 0)
      && (a.low.Some? ==> r.low.value <= a.low.value)
      && (forall i :: 0 <= i < |ts| ==> r.low.Some? && r.low.value <= ts[i].price)
      && (r.low.Some? ==> r.low == a.low || exists i :: 0 <= i < |ts| && ts[i].price == r.low.value)
    decreases |ts|
  {
    if |ts| > 0 {
      var u := Update(a, ts[0]);
      FoldLow(u, ts[1..]);
      var r := Fold(a, ts);
      assert forall i :: 1 <= i < |ts| ==> ts[i] == ts[1..][i - 1];
      if r.low != a.low && r.low != u.low {
        var j :| 0 <= j < |ts[1..]| && ts[1..][j].price == r.low.value;
        assert ts[j + 1].price == r.low.value;
      }
    }
  }

  /** Windowing twice keeps the same recent entries as windowing once. */
  lemma WindowAppend(s: seq<Trade>, u: seq<Trade>)
    ensures Window(Window(s) + u) == Window(s + u)
  {
    var w := Window(s);
    if |s| > MaxRecentTrades && |w + u| > MaxRecentTrades {
      var n := |s| - MaxRecentTrades;
      assert w + u == (s + u)[n..];
      assert (w + u)[|w + u| - MaxRecentTrades..] == (s + u)[|s + u| - MaxRecentTrades..];
    }
  }

  /** The window after `update`. */
  lemma UpdateWindow(a: SymbolAnalytics, t: Trade)
    requires |a.recent| <= MaxRecentTrades
    ensures Update(a, t).recent == Window(a.recent + [t])
  {
  }

  /**
   * The recent-trade window: after folding in `ts` it holds the last 1000 of
   * the old window followed by `ts`, in arrival order; the oldest entries are
   * the ones evicted.
   */
  lemma {:induction false} FoldWindow(a: SymbolAnalytics, ts: seq<Trade>)
    requires |a.recent| <= MaxRecentTrades
    ensures Fold(a, ts).recent == Window(a.recent + ts)
    ensures |Fold(a, ts).recent| <= MaxRecentTrades
    decreases |ts|
  {
    if |ts| == 0 {
      assert a.recent + ts == a.recent;
    } else {
      var u := Update(a, ts[0]);
      FoldWindow(u, ts[1..]);
      calc {
        Fold(a, ts).recent;
        Fold(u, ts[1..]).recent;
        Window(u.recent + ts[1..]);
        { UpdateWindow(a, ts[0]); }
        Window(Window(a.recent + [ts[0]]) + ts[1..]);
        { WindowAppend(a.recent + [ts[0]], ts[1..]); }
        Window(a.recent + [ts[0]] + ts[1..]);
        { assert a.recent + [ts[0]] + ts[1..] == a.recent + ts; }
        Window(a.recent + ts);
      }
    }
  }

  // ---------------------------------------------------------------------------
  // The service
  // ---------------------------------------------------------------------------

  /**
   * `updateMetrics` per symbol: a symbol's accumulator afterwards is its
   * current one (a fresh one if it had none) with that symbol's trades folded
   * in, in list order; a symbol with no trades in the list keeps its state,
   * present or absent.
   */
  lemma {:induction false} UpdateMetricsPerSymbol(svc: Service, ts: seq<Trade>, s: Symbol)
    ensures var r := UpdateMetrics(svc, ts);
      && (s in r <==> s in svc || |OfSymbol(ts, s)| > 0)
      && (s in r ==> r[s] == Fold(Current(svc, s), OfSymbol(ts, s)))
    decreases |ts|
  {
    if |ts| > 0 {
      var t := ts[0];
      var svc' := svc[t.symbol := Update(Current(svc, t.symbol), t)];
      UpdateMetricsPerSymbol(svc', ts[1..], s);
      if t.symbol == s {
        assert OfSymbol(ts, s) == [t] + OfSymbol(ts[1..], s);
        assert ([t] + OfSymbol(ts[1..], s))[1..] == OfSymbol(ts[1..], s);
      } else {
        assert OfSymbol(ts, s) == OfSymbol(ts[1..], s);
      }
    }
  }

  /** Trades all of one symbol: they are all of that symbol's trades and none of any other's. */
  lemma {:induction false} OfSymbolUniform(ts: seq<Trade>, s: Symbol, other: Symbol)
    requires forall t :: t in ts ==> t.symbol == s
    ensures OfSymbol(ts, s) == ts
    ensures other != s ==> OfSymbol(ts, other) == []
    decreases |ts|
  {
    if |ts| > 0 {
      assert forall t :: t in ts[1..] ==> t in ts;
      OfSymbolUniform(ts[1..], s, other);
      assert [ts[0]] + ts[1..] == ts;
    }
  }

  /** Every service getter reads 0 for a symbol that has never traded. */
  lemma UnknownSymbolReadsZero(svc: Service, s: Symbol)
    requires s !in svc
    ensures ServiceVwap(svc, s) == 0.0 && ServiceTotalVolume(svc, s) == 0 && ServiceTradeCount(svc, s) == 0
    ensures ServiceLastPrice(svc, s) == 0 && ServicePriceChange(svc, s) == 0.0
    ensures ServiceHighPrice(svc, s) == 0 && ServiceLowPrice(svc, s) == 0 && ServiceAverageTradeSize(svc, s) == 0.0
  {
  }

  /**
   * From an empty service, each getter reads the statistic of that symbol's
   * trades: VWAP is their value over their volume, the average size their
   * volume over their count, and the price change compares the oldest and
   * newest of the last 1000 of them.
   */
  lemma ServiceReadsTrades(ts: seq<Trade>, s: Symbol)
    ensures var svc := UpdateMetrics(map[], ts);
      var f := OfSymbol(ts, s);
      && ServiceTotalVolume(svc, s) == Volume(f)
      && ServiceTradeCount(svc, s) == |f|
      && ServiceVwap(svc, s) == (if Volume(f) > 0 then Notional(f) as real / Volume(f) as real else 0.0)
      && ServiceAverageTradeSize(svc, s) == (if |f| > 0 then Volume(f) as real / |f| as real else 0.0)
      && ServiceLastPrice(svc, s) == (if |f| == 0 then 0 else f[|f| - 1].price)
      && ServicePriceChange(svc, s) == PriceChange(NewAnalytics().(recent := Window(f)))
  {
    var svc := UpdateMetrics(map[], ts);
    var f := OfSymbol(ts, s);
    UpdateMetricsPerSymbol(map[], ts, s);
    if s in svc {
      var a := Fold(NewAnalytics(), f);
      assert svc[s] == a;
      FoldTotals(NewAnalytics(), f);
      FoldWindow(NewAnalytics(), f);
      assert [] + f == f;
      assert a.totalVolume == Volume(f) && a.notional == Notional(f) && a.tradeCount == |f|;
      assert a.recent == Window(f);
    } else {
      assert f == [];
    }
  }

  // ---------------------------------------------------------------------------
  // Derived values
  // ---------------------------------------------------------------------------

  /**
   * The price change after a run of trades compares the newest trade with
   * the oldest of the last 1000: 0 with fewer than two trades or a
   * non-positive oldest price.
   */
  lemma PriceChangeOfWindow(ts: seq<Trade>)
    ensures var k := if |ts| > MaxRecentTrades then |ts| - MaxRecentTrades else 0;
      PriceChange(Fold(NewAnalytics(), ts)) == if |ts| < 2 then 0.0 else PercentChange(ts[k].price, ts[|ts| - 1].price)
  {
    var r := Fold(NewAnalytics(), ts);
    FoldWindow(NewAnalytics(), ts);
    assert r.recent == Window(ts) by {
      assert [] + ts == ts;
    }
    if |ts| > 0 {
      WindowEnds(ts);
    }
  }

  /** The window's oldest entry is the 1000th from the end, and its newest the last. */
  lemma WindowEnds(ts: seq<Trade>)
    requires |ts| > 0
    ensures var k := if |ts| > MaxRecentTrades then |ts| - MaxRecentTrades else 0;
      var w := Window(ts);
      |w| == |ts| - k && w[0] == ts[k] && w[|w| - 1] == ts[|ts| - 1]
  {
  }

  /** Value is bounded by the extreme prices times the volume when every quantity is positive. */
  lemma {:induction false} NotionalBounds(ts: seq<Trade>, lo: Price, hi: Price)
    requires forall i :: 0 <= i < |ts| ==> ts[i].quantity > 0 && lo <= ts[i].price <= hi
    ensures lo * Volume(ts) <= Notional(ts) <= hi * Volume(ts)
    decreases |ts|
  {
    if |ts| > 0 {
      assert forall i :: 1 <= i < |ts| ==> ts[i] == ts[1..][i - 1];
      NotionalBounds(ts[1..], lo, hi);
      var q, p := ts[0].quantity, ts[0].price;
      var v := Volume(ts[1..]);
      ScaleBetween(lo, p, hi, q);
      assert lo * (q + v) == lo * q + lo * v;
      assert hi * (q + v) == hi * q + hi * v;
    }
  }

  lemma ScaleBetween(lo: int, p: int, hi: int, q: int)
    requires lo <= p <= hi && q > 0
    ensures lo * q <= p * q <= hi * q
  {
    assert (p - lo) * q >= 0 && (hi - p) * q >= 0;
  }

  lemma QuotientBetween(l: real, h: real, n: real, v: real)
    requires v > 0.0 && l * v <= n <= h * v
    ensures l <= n / v <= h
  {
    assert n / v * v == n;
  }

  lemma RealBounds(lo: int, hi: int, n: int, v: int)
    requires v > 0 && lo * v <= n <= hi * v
    ensures lo as real <= n as real / v as real <= hi as real
  {
    assert (lo * v) as real == lo as real * v as real;
    assert (hi * v) as real == hi as real * v as real;
    QuotientBetween(lo as real, hi as real, n as real, v as real);
  }

  /** With positive quantities, VWAP lies between the lowest and the highest price traded. */
  lemma VwapBetweenLowAndHigh(ts: seq<Trade>)
    requires |ts| > 0 && forall i :: 0 <= i < |ts| ==> ts[i].quantity > 0
    ensures var r := Fold(NewAnalytics(), ts);
      LowPrice(r) as real <= Vwap(r) <= r.high as real
  {
    var r := Fold(NewAnalytics(), ts);
    FoldTotals(NewAnalytics(), ts);
    FoldHigh(NewAnalytics(), ts);
    FoldLow(NewAnalytics(), ts);
    PositiveVolume(ts);
    var lo, hi := r.low.value, r.high;
    NotionalBounds(ts, lo, hi);
    var v, n := Volume(ts), Notional(ts);
    assert r.totalVolume == v && r.notional == n;
    RealBounds(lo, hi, n, v);
  }

  lemma {:induction false} PositiveVolume(ts: seq<Trade>)
    requires |ts| > 0 && forall i :: 0 <= i < |ts| ==> ts[i].quantity > 0
    ensures Volume(ts) > 0
    decreases |ts|
  {
    if |ts| > 1 {
      assert forall i :: 1 <= i < |ts| ==> ts[i] == ts[1..][i - 1];
      PositiveVolume(ts[1..]);
    }
  }

  /** Trades at price 10 for 60 and at price 20 for 40 give a VWAP of 14 and an average size of 50. */
  lemma VwapExample(a: Trade, b: Trade)
    requires a.price == 10 && a.quantity == 60 && b.price == 20 && b.quantity == 40
    ensures Vwap(Fold(NewAnalytics(), [a, b])) == 14.0
    ensures AverageTradeSize(Fold(NewAnalytics(), [a, b])) == 50.0
  {
    FoldTotals(NewAnalytics(), [a, b]);
    assert [a, b][1..] == [b];
    assert [b][1..] == [];
    assert Volume([b]) == 40 && Notional([b]) == 800;
    assert Volume([a, b]) == 100 && Notional([a, b]) == 1400;
  }
}
