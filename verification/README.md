# Order matching and trade analytics, modelled in Dafny

This project models the core of a small equity exchange: orders, trades, a
per-symbol limit order book with price-time priority matching, the engine
that routes orders to books and cancels them, and the per-symbol trade
statistics fed by every match. The model is purely functional: every
operation is a function from an immutable state to a new state, and the
properties are proved as postconditions and lemmas.

Modules, in dependency order:

- `Wrappers` (wrappers.dfy): `Option` for a Java `null` result and `Result` for a thrown exception.
- `Orders` (orders.dfy): the `Order` record, its constructors, `Remaining`, `Fill` and `SetStatus`.
- `Trades` (trades.dfy): the `Trade` record, plus the total volume and notional of a list of trades.
- `OrderSeqs` (order_seqs.dfy): sequences of orders, meaning id sets, distinct ids, the id index a sequence induces, filtering by id and by price, and remaining totals.
- `OrderBook` (order_book.dfy): the book with bids and asks as sorted ladders of first-in, first-out levels plus an id index. It defines the book invariant `Wf`, `Uncrossed`, adding, removing, lookup, best prices, volume at a price, and `MatchOrder` (`MatchLevel` is the inner loop over one level's orders; `MatchLadder` is the outer loop over levels).
- `BookProperties` (book_properties.dfy): adding and removing keep the invariant, where an added order lands in priority order, best prices and volume at a price.
- `MatchingProperties` (matching_properties.dfy): a `Sweep` is the specification of one walk. The trades consume a prefix of the opposite side's orders in priority order, all but the last completely; the rest is untouched. The two loops are proved to perform a sweep, keep the index exact and keep the ladder well formed.
- `MatchOrderProperties` (match_order.dfy): the whole `matchOrder`, meaning conservation, resting of the remainder, the stopping rule, the book invariant and uncrossedness.
- `TradeQuantities` (trade_quantities.dfy): each trade's quantity is the minimum of the two remainders.
- `Analytics` (analytics.dfy): the per-symbol accumulator, the window of the last 1000 trades, the derived ratios and the per-symbol service.
- `MatchingEngine` (matching_engine.dfy): the symbol-to-book registry, order processing, cancellation, quotes and market depth.

Prices are integer ticks: the book only compares prices and tests them for
exact equality. Quantities are unbounded integers. VWAP, average trade size
and price change are `real`s.

## Model

| member | source | states |
|---|---|---|
| Orders.NewLimitOrder | model/Order.java:30-40 | A limit order starts NEW with nothing filled: remaining equals quantity, type LIMIT, and the given price. |
| Orders.NewMarketOrder | model/Order.java:43-53 | A market order starts NEW with nothing filled, type MARKET and price 0. |
| Orders.Remaining | model/Order.java:65 | Before any fill the remainder is the whole quantity, and it is not positive exactly when filled is at least quantity, the test that marks an order FILLED. |
| Orders.Fill | model/Order.java:71-78 | A fill adds exactly q to filled and lowers the remainder by q. The status is FILLED exactly when nothing remains, otherwise PARTIALLY_FILLED. Identity, symbol, side, type, price and quantity are unchanged. |
| Orders.SetStatus | model/Order.java:68 | Only the status changes. |
| Orders.FillWithinRemaining | model/Order.java:71-78 | A fill of 0 < q <= remaining never overfills and never returns the order to NEW. It gives FILLED iff q is the whole remainder, and PARTIALLY_FILLED iff less. |
| Orders.FillAdditive | model/Order.java:71-78 | Two successive fills equal one fill of their sum. |
| Orders.FillChangesOnlyFillState | model/Order.java:71-78 | A fill touches only the filled quantity and the status. |
| Trades.NewTrade | model/Trade.java:15-23 | Buyer id, seller id, symbol, price and quantity are stored as passed, buyer first. |
| OrderBook.EmptyBook | engine/OrderBook.java:18-26 | A new book has the given symbol, no levels and an empty index. |
| OrderBook.AddOrder | engine/OrderBook.java:30-43 | An order of another symbol is refused. Otherwise the order is indexed under its id, the opposite ladder is untouched, and its own side is non-empty. |
| OrderBook.RemoveOrder | engine/OrderBook.java:45-56 | The id leaves the index. An unknown id changes nothing. The opposite ladder is untouched. |
| OrderBook.GetOrder | engine/OrderBook.java:58-65 | Returns the indexed order, or nothing exactly when the id is unknown. |
| OrderBook.MatchQuantity | engine/OrderBook.java:97 | The pairing quantity is the smaller of the two remainders. |
| OrderBook.TradeFor | engine/OrderBook.java:99-108 | The trade is at the level price for the pairing quantity. An incoming buy is the buyer and the resting order the seller; an incoming sell is the reverse. |
| OrderBook.Survivor | engine/OrderBook.java:111-119 | A resting order stays in its level, filled, exactly when the pairing took less than its remainder. |
| OrderBook.MatchLevel | engine/OrderBook.java:92-120 | The inner loop never produces more trades or survivors than there were orders. It does nothing when the incoming order has no quantity left. If resting orders survive, the incoming order is exhausted. |
| OrderBook.MatchLadder | engine/OrderBook.java:77-126 | The outer loop stops with quantity left only when the ladder is empty or its best level does not cross. |
| OrderBook.MatchOrder | engine/OrderBook.java:67-137 | Matching keeps the book's symbol and the order's identity. It fails only when a limit remainder of another symbol is re-added. |
| BookProperties.AddToLevelPrices | engine/OrderBook.java:143-155 | Adding an order adds its price to the ladder's set of level prices and nothing else. |
| BookProperties.AddToLevelWf | engine/OrderBook.java:143-155 | Adding a restable order keeps the ladder strictly sorted with no empty level. |
| BookProperties.AddToLevelInsert | engine/OrderBook.java:143-155 | The new order appears in the priority sequence after every order at a better or equal price and before every order at a worse one. It goes behind the older orders at its price, and no other order moves. |
| BookProperties.InsertPosPriority | engine/OrderBook.java:20-23 | The insertion point lies after the levels at better or equal prices and before every worse level. |
| BookProperties.AddOrderOrders | engine/OrderBook.java:30-43 | After addOrder the book's orders are the old ones with exactly the new order inserted. |
| BookProperties.AddOrderWf | engine/OrderBook.java:30-43 | Adding an order with a fresh id keeps the book invariant: sorted ladders, no empty level, distinct ids, and an index that holds exactly the resting orders. |
| BookProperties.RemoveFromLevelOrders | engine/OrderBook.java:157-167 | Removing takes exactly the order with that id out of the priority sequence. |
| BookProperties.RemoveFromLevelWf | engine/OrderBook.java:157-167 | Removing keeps the ladder sorted and drops a level left empty. |
| BookProperties.RemoveOrderWf | engine/OrderBook.java:45-56 | removeOrder takes exactly that id out of the book and keeps the book invariant. |
| BookProperties.BestBidIsHighest | engine/OrderBook.java:169-176 | The best bid is at least every resting buy price and is attained by one of them. It is 0 when there are no bids. |
| BookProperties.BestAskIsLowest | engine/OrderBook.java:178-185 | The best ask is at most every resting sell price and is attained by one of them. It is 0 when there are no asks. |
| BookProperties.LadderVolumeIsSum | engine/OrderBook.java:187-199 | The volume at price p is the total remainder of the orders priced at p, and 0 when there are none. |
| BookProperties.VolumeAtPriceIsSum | engine/OrderBook.java:187-199 | The same, on either side of a well-formed book. |
| BookProperties.AddToLevelVolume | engine/OrderBook.java:143-155 | Adding an order raises the volume at its own price by its remainder and leaves every other price unchanged. |
| BookProperties.AddOrderVolume | engine/OrderBook.java:30-43 | The same for addOrder, with both sides of the book considered. |
| MatchingProperties.SweepConserves | engine/OrderBook.java:111-113 | A sweep lowers the resting total by exactly the traded volume. |
| MatchingProperties.SweepChain | engine/OrderBook.java:77-126 | Sweeping one level completely and then sweeping the rest of the ladder is one sweep of the whole sequence. |
| MatchingProperties.MatchLevelSweep | engine/OrderBook.java:92-120 | The inner loop sweeps its level's orders oldest first. Trade i is against order i at its price, for a positive part of its remainder. Every trade but the last empties its order. The survivors are the untouched suffix plus possibly one partly filled order. |
| MatchingProperties.MatchLevelTrades | engine/OrderBook.java:97-108 | Every trade of the inner loop is at the level's price, for the book's symbol, with the incoming order as aggressor. |
| MatchingProperties.MatchLevelIncoming | engine/OrderBook.java:111-113 | The incoming order ends filled by exactly the volume of the trades. |
| MatchingProperties.MatchLevelIds | engine/OrderBook.java:115-119 | The surviving orders are a subset of the level's orders, with ids still distinct. |
| MatchingProperties.MatchLevelIndex | engine/OrderBook.java:115-119 | After the inner loop, the index holds the untouched entries, drops every filled order and shows the partly filled one updated. |
| MatchingProperties.FillByAppend | engine/OrderBook.java:111-113 | Filling by two batches of trades one after the other equals filling by their concatenation. |
| MatchingProperties.MatchLadderSweep | engine/OrderBook.java:77-126 | The outer loop sweeps the opposite ladder's orders in priority order: best level first, oldest first within a level. |
| MatchingProperties.MatchLadderTrades | engine/OrderBook.java:81-108 | Every trade names the incoming order as aggressor, carries the book's symbol and respects the incoming limit. |
| MatchingProperties.MatchLadderIncoming | engine/OrderBook.java:74-113 | The incoming order ends filled by exactly the total traded volume. |
| MatchingProperties.MatchLadderIds | engine/OrderBook.java:115-125 | The ladder's orders after the walk keep distinct ids drawn from the original ones. |
| MatchingProperties.MatchLadderIndex | engine/OrderBook.java:115-125 | After the walk, the index holds the entries outside the ladder unchanged, plus exactly the ladder's remaining orders. |
| MatchingProperties.KeptLevelWf | engine/OrderBook.java:115-125 | A level that keeps some orders after the inner loop is still a well-formed level at its price. |
| MatchingProperties.MatchLadderSuffix | engine/OrderBook.java:122-126 | After the walk the ladder is a suffix of the old one, except that its first level may be the partly consumed level at its old price. |
| MatchingProperties.MatchLadderWf | engine/OrderBook.java:77-126 | The walk keeps the opposite ladder sorted with no empty level. |
| MatchOrderProperties.WalkedWf | engine/OrderBook.java:77-126 | The book after the walk satisfies the invariant, and its index only loses ids. |
| MatchOrderProperties.WalkSweeps | engine/OrderBook.java:67-126 | The walk is a sweep of the opposite side's orders, its trades belong to the incoming order and respect its limit, and the incoming order is filled by their volume. |
| MatchOrderProperties.WalkedIncomingRests | engine/OrderBook.java:128-131 | An active incoming order with quantity left can rest at its own side and limit price. |
| MatchOrderProperties.MatchOrderRests | engine/OrderBook.java:128-131 | For the book's symbol, matching succeeds. A limit remainder is added at its price and indexed; otherwise its own side and the walked index are untouched. |
| MatchOrderProperties.MatchOrderSweeps | engine/OrderBook.java:67-137 | matchOrder sweeps the opposite side in price-time priority, its trades are the incoming order's within its limit, and the incoming order is filled by their volume. |
| MatchOrderProperties.MatchOrderConserves | engine/OrderBook.java:74-113 | The opposite side loses exactly the traded volume, and the incoming filled quantity grows by exactly that volume. |
| MatchOrderProperties.MatchOrderStops | engine/OrderBook.java:78-89 | With quantity left, the best remaining opposite level does not cross, and a market order leaves the opposite side empty. |
| MatchOrderProperties.MatchOrderWf | engine/OrderBook.java:67-137 | For an active order with a fresh id, matchOrder keeps the book invariant: sorted ladders, no empty level, distinct ids, and an index holding exactly the resting orders. |
| MatchOrderProperties.MatchOrderIndexesRemainder | engine/OrderBook.java:128-131 | The incoming order is in the index afterwards iff it is a limit order with quantity left. |
| MatchOrderProperties.WalkBestNoBetter | engine/OrderBook.java:122-126 | The walk never makes the opposite best price better. |
| MatchOrderProperties.AddToLevelBest | engine/OrderBook.java:143-155 | After an add, the best price of the side is the new order's when it is better or the side was empty, else the old best. |
| MatchOrderProperties.MatchOrderUncrossed | engine/OrderBook.java:81-131 | Matching keeps a well-formed book uncrossed: best bid below best ask. |
| TradeQuantities.MatchLevelNonNegative | engine/OrderBook.java:97-113 | The inner loop never drives the incoming remainder below zero. |
| TradeQuantities.MatchLadderNonNegative | engine/OrderBook.java:78-113 | The outer loop never drives the incoming remainder below zero. |
| TradeQuantities.LastTradePartialExhausts | engine/OrderBook.java:95-97 | If the last trade took only part of its resting order, the incoming order is exhausted. |
| TradeQuantities.SweepQuantities | engine/OrderBook.java:97-113 | In a sweep within the incoming quantity, trade i is for min(remaining of resting order i, incoming quantity left before it), and that quantity is positive. |
| TradeQuantities.MatchOrderTradeQuantities | engine/OrderBook.java:74-113 | Every trade of matchOrder is for min(incoming remaining, resting remaining) at that point, and is positive. |
| MatchingEngine.AddOrderBook | engine/MatchingEngine.java:36-38 | An empty book is created for a new symbol. Existing books and the analytics are untouched. |
| MatchingEngine.AddOrderBookIdempotent | engine/MatchingEngine.java:36-38 | Adding a book twice equals adding it once. The invariant is kept, and the symbol becomes available. |
| MatchingEngine.EmptyBookWf | engine/OrderBook.java:18-26 | A fresh book is well formed, uncrossed and holds no orders. |
| MatchingEngine.BookForWf | engine/MatchingEngine.java:45-49 | The book an order is matched against, existing or new, has its symbol, is well formed and is uncrossed. |
| MatchingEngine.ProcessOrder | engine/MatchingEngine.java:44-60 | Processing files a book under the order's symbol, leaves every other symbol's book alone and keeps the order's identity. |
| MatchingEngine.ProcessOrderWf | engine/MatchingEngine.java:44-60 | With a fresh id, the order is matched in its symbol's book. The new book and the trades are the match's, the analytics receive those trades, and the engine invariant is kept. |
| MatchingEngine.ProcessOrderAnalytics | engine/MatchingEngine.java:57-59 | The symbol's accumulator folds the trades in generation order. With no trades the analytics are unchanged, and other symbols' accumulators are untouched. |
| MatchingEngine.ProcessOrderNewSymbol | engine/MatchingEngine.java:45-51 | For a symbol without a book, the order meets an empty book: no trades, and a limit order with quantity rests while a market order does not. |
| MatchingEngine.IndexedActive | engine/MatchingEngine.java:66 | Every indexed order of a well-formed book is active and not FILLED, so the FILLED test never refuses a resting order. |
| MatchingEngine.RemoveOrderUncrossed | engine/OrderBook.java:45-56 | Removing an order keeps a book uncrossed. |
| MatchingEngine.CancelOrder | engine/MatchingEngine.java:62-73 | Reports true exactly when it returns the cancelled order, and never touches the analytics or the set of books. |
| MatchingEngine.CancelOrderWf | engine/MatchingEngine.java:62-73 | Cancel succeeds iff the order is resting in the symbol's book. It returns the order with status CANCELLED and takes exactly that id out of the book, leaving other books alone. On failure nothing changes. The invariant is kept. |
| MatchingEngine.CancelTwice | engine/MatchingEngine.java:62-73 | Cancelling the same id twice: the second call reports false and changes nothing. |
| MatchingEngine.LookupOrder | engine/MatchingEngine.java:75-78 | An order is found exactly when the symbol has a book and the id is in that book's index, and the order found is the indexed one. |
| MatchingEngine.AvailableSymbols | engine/MatchingEngine.java:126-128 | A symbol is listed exactly when it has a book. |
| MatchingEngine.AvailableSymbolsTrack | engine/MatchingEngine.java:126-128 | Processing an order adds its symbol to the listed symbols, adding a book adds that symbol, and cancelling changes none. |
| MatchingEngine.BestPricesAreExtremes | engine/MatchingEngine.java:80-88 | The best bid is the highest resting buy price and the best ask the lowest resting sell price. Each is 0 for an empty side or an unknown symbol. |
| MatchingEngine.SpreadPositive | engine/MatchingEngine.java:90-97 | The spread is ask minus bid when both are positive, else 0. On an uncrossed book it is never negative. |
| MatchingEngine.MarketDepthAsWritten | engine/MatchingEngine.java:99-114 | Equals the as-written depth: 0 for an unknown symbol, else `levels` times the volume at the best price. That value agrees with the corrected depth for one level and counts the best level twice for two. |
| MatchingEngine.TopLevelsDepthIsSum | engine/MatchingEngine.java:100 | Corrected depth is the total remainder of exactly the orders on the first `levels` levels. |
| MatchingEngine.MarketDepthWholeSide | engine/MatchingEngine.java:100 | Asking for at least as many levels as the side has gives the whole side's remaining volume. |
| MatchingEngine.DepthAgreesOnOneLevel | engine/MatchingEngine.java:99-114 | For at most one level, the written and the corrected depth agree. |
| MatchingEngine.DepthCountsBestLevelTwice | engine/MatchingEngine.java:99-114 | A well-formed engine where two levels of bids give depth 10 as written and 12 corrected. |
| Analytics.NewAnalytics | analytics/AnalyticsService.java:121-132 | A fresh accumulator has zero totals and no trades. Its high reads 0, its low is unset and its window is empty. |
| Analytics.Window | analytics/AnalyticsService.java:127-128 | The window holds at most 1000 trades and never more than it was given. |
| Analytics.Update | analytics/AnalyticsService.java:134-146 | One trade adds its quantity to the volume, its price times quantity to the notional and 1 to the count, and sets the last price. High and low move only to the trade's price. The window ends with the trade, and stays within 1000 when the old window held at most 1000 trades. |
| Analytics.FoldTotals | analytics/AnalyticsService.java:134-138 | After a run of trades: volume grows by their total quantity, notional by their total price times quantity, and the count by their number. The last price is the last trade's. |
| Analytics.FoldHigh | analytics/AnalyticsService.java:139 | The high is at least every trade price, and is either the old high or one of the prices. |
| Analytics.FoldLow | analytics/AnalyticsService.java:140 | The low is set iff some trade was seen, is at most every trade price, and is either the old low or one of the prices. |
| Analytics.WindowAppend | analytics/AnalyticsService.java:142-145 | Trimming then appending and trimming equals appending and trimming once. |
| Analytics.UpdateWindow | analytics/AnalyticsService.java:142-145 | One update leaves the last 1000 trades of the old window plus the new trade. |
| Analytics.FoldWindow | analytics/AnalyticsService.java:142-145 | After a run of trades the window is the last 1000 of the old window followed by the trades, in arrival order. |
| Analytics.UpdateMetricsPerSymbol | analytics/AnalyticsService.java:58-64 | Each symbol's accumulator folds exactly that symbol's trades, in list order, from its old or a fresh accumulator. A symbol gains an accumulator iff it has a trade. |
| Analytics.UnknownSymbolReadsZero | analytics/AnalyticsService.java:66-104 | Every getter reads 0 for a symbol without an accumulator. |
| Analytics.ServiceReadsTrades | analytics/AnalyticsService.java:66-104 | From an empty service, the getters equal the statistics of the symbol's own trades: volume, count, VWAP, average size, last price, and price change over the window. |
| Analytics.PriceChangeOfWindow | analytics/AnalyticsService.java:164-173 | Price change is 0 with fewer than two trades. Otherwise it is the percent change from the oldest trade still in the window to the newest. |
| Analytics.VwapBetweenLowAndHigh | analytics/AnalyticsService.java:148-150 | With positive quantities, VWAP lies between the low and the high price. |
| Analytics.VwapExample | analytics/AnalyticsService.java:148-185 | Trades (10, 60) and (20, 40) give VWAP 14 and average trade size 50. |

## Left out

- Locks, `synchronized` and the concurrent containers: every operation is one sequential step on an immutable value.
- `submitOrder` and the thread pool: `processOrder` is applied synchronously in call order. Nothing is claimed about the order in which the pool runs tasks.
- The `Flow` publisher and subscriber (`subscribe`, `init`, `shutdown`, `onNext`, `onError`, `onComplete`, `cancel`): the analytics are fed only through `updateMetrics`, as `processOrder` does. Calling `init` as well would count every trade twice; that path is not modelled.
- Order and trade ids, and timestamps: ids are given values, and processing requires the order's id not to be resting in its book already. Time priority is list position.
- `setPrice` and the `REJECTED` status: nothing in the core calls the first or sets the second.
- `toString`, `getAllMetrics` and `getMarketSummary` only assemble strings and maps from getters that are modelled.
- The console front end and the random order generator are not part of this model.
- Orders.Fill: every Java `int` is an unbounded integer here, so no 32-bit wrap-around is modelled. That covers the filled and remaining quantities, the trade count `tradeCount` (a `nat`), and the `int` sums of `getVolumeAtPrice` and `getMarketDepth`.
- MatchingEngine.MarketDepthAsWritten: the product is not wrapped to 32 bits as the source's `int` sum would be.
- Analytics.FoldTotals: the totals are exact integers and the ratios exact reals, with no IEEE `double` rounding. The high price's `Double.MIN_VALUE` start is reproduced as read: the high starts at 0 and reads 0 for as long as no price so far is positive. Only the low price's `Double.MAX_VALUE` sentinel is simplified, to "unset" (read as 0) before the first trade.
- MatchingEngine.ProcessOrderWf: requires the incoming order to be active with an id not already resting in its book, as freshly constructed orders with random ids are.
- OrderBook.MatchOrder: the failure path, where the remainder's symbol differs from the book's, cannot arise through the engine (each order meets its own symbol's book). It is modelled but not otherwise characterised.

## Findings

| source | as written | input that shows it | evidently intended | confidence | as-written member | corrected member |
|---|---|---|---|---|---|---|
| engine/MatchingEngine.java:99-114 | adds the volume at the best price once per requested level, never stepping to the next level | bids of 5 at 101 and 7 at 100, two levels on the buy side: 10 | the documented total volume of the top N levels: 12 | not executed | MatchingEngine.MarketDepthAsWritten, MatchingEngine.DepthCountsBestLevelTwice | MatchingEngine.MarketDepth, MatchingEngine.TopLevelsDepthIsSum |
