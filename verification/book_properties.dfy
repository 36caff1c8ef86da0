/**
 * What the book's non-matching operations promise (engine/OrderBook.java):
 * `addOrder` puts an order behind every order of equal or better price and
 * ahead of every worse one, `removeOrder` takes exactly one id out, both keep
 * the book well formed, and the best-price and volume queries read what the
 * ladders hold.
 */
module BookProperties {

  import opened Wrappers
  import opened Orders
  import opened OrderSeqs
  import opened OrderBook

  /** The prices of a ladder's levels. */
  function Prices(ls: seq<Level>): set<Price>
  {
    set l | l in ls :: l.price
  }

  /** Any order with id `id` on the ladder sits at a level priced `p`. */
  ghost predicate OnlyAt(ls: seq<Level>, id: OrderId, p: Price)
  {
    forall i, x :: 0 <= i < |ls| && x in ls[i].orders && x.id == id ==> ls[i].price == p
  }

  // ---------------------------------------------------------------------------
  // Ladder algebra
  // ---------------------------------------------------------------------------

  lemma {:induction false} LadderOrdersConcat(a: seq<Level>, b: seq<Level>)
    ensures LadderOrders(a + b) == LadderOrders(a) + LadderOrders(b)
  {
    if |a| == 0 {
      assert a + b == b;
    } else {
      assert (a + b)[1..] == a[1..] + b;
      LadderOrdersConcat(a[1..], b);
    }
  }

  lemma LadderOrdersCons(l: Level, ls: seq<Level>)
    ensures LadderOrders([l] + ls) == l.orders + LadderOrders(ls)
  {
    assert ([l] + ls)[1..] == ls;
  }

  /** The ladder orders of a level kept in front of the rest of the ladder. */
  lemma KeptOrders(p: Price, orders: seq<Order>, rest: seq<Level>)
    ensures LadderOrders((if |orders| == 0 then [] else [Level(p, orders)]) + rest) == orders + LadderOrders(rest)
  {
    if |orders| > 0 {
      LadderOrdersCons(Level(p, orders), rest);
    } else {
      assert [] + rest == rest;
      assert orders + LadderOrders(rest) == LadderOrders(rest);
    }
  }

  /** The level an order of the ladder sits in. */
  lemma {:induction false} LadderOrdersMember(ls: seq<Level>, x: Order) returns (i: nat)
    requires x in LadderOrders(ls)
    ensures i < |ls| && x in ls[i].orders
  {
    if x in ls[0].orders {
      i := 0;
    } else {
      var j := LadderOrdersMember(ls[1..], x);
      i := j + 1;
    }
  }

  lemma PricesCons(l: Level, ls: seq<Level>)
    ensures Prices([l] + ls) == {l.price} + Prices(ls)
  {
    assert forall x :: x in [l] + ls <==> x == l || x in ls;
  }

  lemma LadderWfTail(ladder: seq<Level>, side: Side)
    requires LadderWf(ladder, side) && |ladder| > 0
    ensures LadderWf(ladder[1..], side)
  {
    assert forall i :: 0 <= i < |ladder[1..]| ==> ladder[1..][i] == ladder[i + 1];
  }

  /** A well-formed level ahead of every level of a well-formed ladder extends it. */
  lemma LadderWfCons(l: Level, ls: seq<Level>, side: Side)
    requires LevelWf(l, side) && LadderWf(ls, side)
    requires forall q :: q in Prices(ls) ==> Ahead(side, l.price, q)
    ensures LadderWf([l] + ls, side)
  {
    var r := [l] + ls;
    assert forall i :: 1 <= i < |r| ==> r[i] == ls[i - 1];
    forall i, j | 0 <= i < j < |r| ensures Ahead(side, r[i].price, r[j].price) {
      if i == 0 {
        assert ls[j - 1] in ls;
      }
    }
  }

  /** Replacing the first level by a well-formed level at the same price keeps the ladder well formed. */
  lemma ReplaceHeadWf(ladder: seq<Level>, side: Side, l: Level)
    requires LadderWf(ladder, side) && |ladder| > 0
    requires LevelWf(l, side) && l.price == ladder[0].price
    ensures LadderWf([l] + ladder[1..], side)
  {
    var r := [l] + ladder[1..];
    assert forall i :: 1 <= i < |r| ==> r[i] == ladder[i];
    assert forall i :: 0 <= i < |r| ==> r[i].price == ladder[i].price;
  }

  /** In a sorted ladder the first level is ahead of every other. */
  lemma SortedHead(ls: seq<Level>, side: Side)
    requires Sorted(ls, side) && |ls| > 0
    ensures forall q :: q in Prices(ls[1..]) ==> Ahead(side, ls[0].price, q)
  {
    forall q | q in Prices(ls[1..]) ensures Ahead(side, ls[0].price, q) {
      var l :| l in ls[1..] && l.price == q;
      var j :| 0 <= j < |ls[1..]| && ls[1..][j] == l;
      assert ls[j + 1] == l;
    }
  }

  // ---------------------------------------------------------------------------
  // addToLevel and addOrder
  // ---------------------------------------------------------------------------

  lemma {:induction false} AddToLevelPrices(ls: seq<Level>, side: Side, o: Order)
    ensures Prices(AddToLevel(ls, side, o)) == Prices(ls) + {o.price}
  {
    if |ls| > 0 {
      assert ls == [ls[0]] + ls[1..];
      PricesCons(ls[0], ls[1..]);
      if ls[0].price == o.price {
        PricesCons(Level(ls[0].price, ls[0].orders + [o]), ls[1..]);
      } else if Ahead(side, o.price, ls[0].price) {
        PricesCons(Level(o.price, [o]), ls);
      } else {
        AddToLevelPrices(ls[1..], side, o);
        PricesCons(ls[0], AddToLevel(ls[1..], side, o));
      }
    }
  }

  /** `addToLevel` keeps a ladder well formed when the order can rest on it. */
  lemma {:induction false} AddToLevelWf(ls: seq<Level>, side: Side, o: Order)
    requires LadderWf(ls, side) && RestingAt(o, side, o.price)
    ensures LadderWf(AddToLevel(ls, side, o), side)
  {
    if |ls| == 0 {
    } else if ls[0].price == o.price {
      var l := Level(ls[0].price, ls[0].orders + [o]);
      assert LevelWf(ls[0], side);
      assert LevelWf(l, side);
      ReplaceHeadWf(ls, side, l);
    } else if Ahead(side, o.price, ls[0].price) {
      SortedHead(ls, side);
      assert ls == [ls[0]] + ls[1..];
      PricesCons(ls[0], ls[1..]);
      LadderWfCons(Level(o.price, [o]), ls, side);
    } else {
      SortedHead(ls, side);
      LadderWfTail(ls, side);
      AddToLevelWf(ls[1..], side, o);
      AddToLevelPrices(ls[1..], side, o);
      LadderWfCons(ls[0], AddToLevel(ls[1..], side, o), side);
    }
  }

  /** How many levels of `ls` come before the new order once `addToLevel` has placed it. */
  function InsertPos(ls: seq<Level>, side: Side, p: Price): (k: nat)
    ensures k <= |ls|
  {
    if |ls| == 0 then 0
    else if ls[0].price == p then 1
    else if Ahead(side, p, ls[0].price) then 0
    else 1 + InsertPos(ls[1..], side, p)
  }

  /** `addToLevel` inserts the order into the ladder's priority sequence and moves nothing else. */
  lemma {:induction false} AddToLevelInsert(ls: seq<Level>, side: Side, o: Order)
    ensures var k := InsertPos(ls, side, o.price);
      LadderOrders(AddToLevel(ls, side, o)) == LadderOrders(ls[..k]) + [o] + LadderOrders(ls[k..])
  {
    var k := InsertPos(ls, side, o.price);
    var r := AddToLevel(ls, side, o);
    if |ls| == 0 {
      assert r == [Level(o.price, [o])] + [];
      LadderOrdersCons(Level(o.price, [o]), []);
    } else if ls[0].price == o.price {
      assert k == 1;
      assert r == [Level(ls[0].price, ls[0].orders + [o])] + ls[1..];
      AppendToHeadOrders(ls, o);
    } else if Ahead(side, o.price, ls[0].price) {
      assert k == 0;
      assert r == [Level(o.price, [o])] + ls;
      FrontLevelOrders(ls, o);
    } else {
      var k' := InsertPos(ls[1..], side, o.price);
      var rec := AddToLevel(ls[1..], side, o);
      assert k == k' + 1;
      assert r == [ls[0]] + rec;
      assert LadderOrders(rec) == LadderOrders(ls[1..][..k']) + [o] + LadderOrders(ls[1..][k'..]) by {
        AddToLevelInsert(ls[1..], side, o);
      }
      SkipHeadOrders(ls, k', rec, o);
    }
  }

  lemma FrontLevelOrders(ls: seq<Level>, o: Order)
    ensures LadderOrders([Level(o.price, [o])] + ls) == LadderOrders(ls[..0]) + [o] + LadderOrders(ls[0..])
  {
    LadderOrdersCons(Level(o.price, [o]), ls);
    assert ls[..0] == [] && ls[0..] == ls;
  }

  lemma AppendToHeadOrders(ls: seq<Level>, o: Order)
    requires |ls| > 0
    ensures LadderOrders([Level(ls[0].price, ls[0].orders + [o])] + ls[1..]) == LadderOrders(ls[..1]) + [o] + LadderOrders(ls[1..])
  {
    LadderOrdersCons(Level(ls[0].price, ls[0].orders + [o]), ls[1..]);
    assert ls[..1] == [ls[0]];
    LadderOrdersCons(ls[0], []);
  }

  lemma SkipHeadOrders(ls: seq<Level>, k': nat, rec: seq<Level>, o: Order)
    requires |ls| > 0 && k' <= |ls| - 1
    requires LadderOrders(rec) == LadderOrders(ls[1..][..k']) + [o] + LadderOrders(ls[1..][k'..])
    ensures LadderOrders([ls[0]] + rec) == LadderOrders(ls[..k' + 1]) + [o] + LadderOrders(ls[k' + 1..])
  {
    LadderOrdersCons(ls[0], rec);
    assert ls[..k' + 1] == [ls[0]] + ls[1..][..k'];
    LadderOrdersCons(ls[0], ls[1..][..k']);
    assert ls[k' + 1..] == ls[1..][k'..];
  }

  /**
   * Time priority of `addToLevel` on a sorted ladder: the levels before the
   * new order are at an equal or better price, those after it at a worse one.
   */
  lemma {:induction false} InsertPosPriority(ls: seq<Level>, side: Side, p: Price)
    requires Sorted(ls, side)
    ensures var k := InsertPos(ls, side, p);
      && (forall i :: 0 <= i < k ==> ls[i].price == p || Ahead(side, ls[i].price, p))
      && (forall i :: k <= i < |ls| ==> Ahead(side, p, ls[i].price))
  {
    if |ls| > 0 && ls[0].price != p && !Ahead(side, p, ls[0].price) {
      assert Sorted(ls[1..], side);
      InsertPosPriority(ls[1..], side, p);
      assert forall i :: 1 <= i < |ls| ==> ls[i] == ls[1..][i - 1];
    }
  }

  /** Splitting a ladder splits its orders. */
  lemma LadderOrdersSplit(ls: seq<Level>, k: nat)
    requires k <= |ls|
    ensures LadderOrders(ls) == LadderOrders(ls[..k]) + LadderOrders(ls[k..])
  {
    assert ls == ls[..k] + ls[k..];
    LadderOrdersConcat(ls[..k], ls[k..]);
  }

  /** The book's orders, with the ladder of `side` replaced by `ls`. */
  lemma AllOrdersWith(b: Book, side: Side, ls: seq<Level>)
    ensures side == Buy ==> AllOrders(WithLadder(b, side, ls)) == LadderOrders(ls) + LadderOrders(b.asks)
    ensures side == Sell ==> AllOrders(WithLadder(b, side, ls)) == LadderOrders(b.bids) + LadderOrders(ls)
  {
  }

  /** The book's orders before and after `addOrder`: the new order is inserted, nothing else moves. */
  lemma AddOrderOrders(b: Book, o: Order) returns (a: seq<Order>, c: seq<Order>)
    requires o.symbol == b.symbol
    ensures AllOrders(b) == a + c
    ensures AllOrders(AddOrder(b, o).value) == a + [o] + c
  {
    var ls := Ladder(b, o.side);
    var k := InsertPos(ls, o.side, o.price);
    var nls := AddToLevel(ls, o.side, o);
    var r := AddOrder(b, o).value;
    assert r == WithLadder(b, o.side, nls).(index := b.index[o.id := o]);
    var front, back := LadderOrders(ls[..k]), LadderOrders(ls[k..]);
    assert LadderOrders(nls) == front + [o] + back by {
      AddToLevelInsert(ls, o.side, o);
    }
    assert LadderOrders(ls) == front + back by {
      LadderOrdersSplit(ls, k);
    }
    assert AllOrders(r) == AllOrders(WithLadder(b, o.side, nls));
    AllOrdersWith(b, o.side, nls);
    if o.side == Buy {
      var y := LadderOrders(b.asks);
      assert AllOrders(b) == LadderOrders(ls) + y;
      assert AllOrders(r) == LadderOrders(nls) + y;
      a, c := front, back + y;
      RegroupRight(front, o, back, y);
    } else {
      var x := LadderOrders(b.bids);
      assert AllOrders(b) == x + LadderOrders(ls);
      assert AllOrders(r) == x + LadderOrders(nls);
      a, c := x + front, back;
      RegroupLeft(x, front, o, back);
    }
  }

  lemma RegroupRight(f: seq<Order>, o: Order, bk: seq<Order>, y: seq<Order>)
    ensures (f + [o] + bk) + y == f + [o] + (bk + y)
    ensures (f + bk) + y == f + (bk + y)
  {
  }

  lemma RegroupLeft(x: seq<Order>, f: seq<Order>, o: Order, bk: seq<Order>)
    ensures x + (f + [o] + bk) == (x + f) + [o] + bk
    ensures x + (f + bk) == (x + f) + bk
  {
  }

  /**
   * `addOrder` of an order with a fresh id that can rest on its side keeps
   * the book well formed: its level list stays sorted with no empty level,
   * ids stay distinct and the index matches the ladders.
   */
  lemma AddOrderWf(b: Book, o: Order)
    requires Wf(b) && o.symbol == b.symbol && o.id !in b.index
    requires RestingAt(o, o.side, o.price)
    ensures AddOrder(b, o).Success? && Wf(AddOrder(b, o).value)
  {
    var r := AddOrder(b, o).value;
    AddToLevelWf(Ladder(b, o.side), o.side, o);
    assert LadderWf(r.bids, Buy) && LadderWf(r.asks, Sell);
    var a, c := AddOrderOrders(b, o);
    IndexOfKeys(AllOrders(b));
    DistinctInsert(a, o, c);
    IndexOfInsert(a, o, c);
  }

  // ---------------------------------------------------------------------------
  // removeFromLevel and removeOrder
  // ---------------------------------------------------------------------------

  lemma FilterIdMembers(os: seq<Order>, id: OrderId)
    ensures forall x :: x in FilterId(os, id) ==> x in os
  {
    if |os| > 0 {
      FilterIdMembers(os[1..], id);
    }
  }

  /** No order of a level priced elsewhere carries the id. */
  lemma OnlyAtAbsent(ls: seq<Level>, id: OrderId, p: Price)
    requires OnlyAt(ls, id, p) && |ls| > 0 && ls[0].price != p
    ensures id !in IdSet(ls[0].orders)
  {
    forall x | x in ls[0].orders ensures x.id != id {
      assert 0 < |ls| && x in ls[0].orders;
    }
  }

  /** The id occurs on no level after the first when the first is the only one at its price. */
  lemma OnlyAtTail(ls: seq<Level>, side: Side, id: OrderId, p: Price)
    requires LadderWf(ls, side) && OnlyAt(ls, id, p) && |ls| > 0 && ls[0].price == p
    ensures id !in IdSet(LadderOrders(ls[1..]))
  {
    forall x | x in LadderOrders(ls[1..]) ensures x.id != id {
      var j := LadderOrdersMember(ls[1..], x);
      assert ls[1..][j] == ls[j + 1];
      assert Ahead(side, ls[0].price, ls[j + 1].price);
    }
  }

  /**
   * `removeFromLevel` on a well-formed ladder whose copies of the id all sit
   * at `o`'s price: exactly the orders with that id leave, in place.
   */
  lemma {:induction false} RemoveFromLevelOrders(ls: seq<Level>, side: Side, o: Order)
    requires LadderWf(ls, side) && OnlyAt(ls, o.id, o.price)
    ensures LadderOrders(RemoveFromLevel(ls, o)) == FilterId(LadderOrders(ls), o.id)
  {
    if |ls| > 0 {
      FilterIdConcat(ls[0].orders, LadderOrders(ls[1..]), o.id);
      if ls[0].price == o.price {
        var kept := FilterId(ls[0].orders, o.id);
        KeptOrders(ls[0].price, kept, ls[1..]);
        OnlyAtTail(ls, side, o.id, o.price);
        FilterIdAbsent(LadderOrders(ls[1..]), o.id);
      } else {
        OnlyAtAbsent(ls, o.id, o.price);
        FilterIdAbsent(ls[0].orders, o.id);
        LadderWfTail(ls, side);
        assert OnlyAt(ls[1..], o.id, o.price) by {
          assert forall i :: 0 <= i < |ls[1..]| ==> ls[1..][i] == ls[i + 1];
        }
        RemoveFromLevelOrders(ls[1..], side, o);
        LadderOrdersCons(ls[0], RemoveFromLevel(ls[1..], o));
      }
    }
  }

  lemma {:induction false} RemoveFromLevelPrices(ls: seq<Level>, o: Order)
    ensures Prices(RemoveFromLevel(ls, o)) <= Prices(ls)
  {
    if |ls| > 0 {
      assert ls == [ls[0]] + ls[1..];
      PricesCons(ls[0], ls[1..]);
      if ls[0].price == o.price {
        var kept := FilterId(ls[0].orders, o.id);
        if |kept| > 0 {
          PricesCons(Level(ls[0].price, kept), ls[1..]);
        } else {
          assert RemoveFromLevel(ls, o) == ls[1..];
        }
      } else {
        RemoveFromLevelPrices(ls[1..], o);
        PricesCons(ls[0], RemoveFromLevel(ls[1..], o));
      }
    }
  }

  /** `removeFromLevel` keeps a ladder well formed: a level it empties is dropped. */
  lemma {:induction false} RemoveFromLevelWf(ls: seq<Level>, side: Side, o: Order)
    requires LadderWf(ls, side)
    ensures LadderWf(RemoveFromLevel(ls, o), side)
  {
    if |ls| > 0 {
      LadderWfTail(ls, side);
      if ls[0].price == o.price {
        var kept := FilterId(ls[0].orders, o.id);
        if |kept| > 0 {
          FilterIdMembers(ls[0].orders, o.id);
          assert LevelWf(ls[0], side);
          ReplaceHeadWf(ls, side, Level(ls[0].price, kept));
        } else {
          assert RemoveFromLevel(ls, o) == ls[1..];
        }
      } else {
        SortedHead(ls, side);
        RemoveFromLevelWf(ls[1..], side, o);
        RemoveFromLevelPrices(ls[1..], o);
        LadderWfCons(ls[0], RemoveFromLevel(ls[1..], o), side);
      }
    }
  }

  /** An order of a level is an order of the ladder. */
  lemma {:induction false} InLadder(ls: seq<Level>, i: nat, x: Order)
    requires i < |ls| && x in ls[i].orders
    ensures x in LadderOrders(ls)
  {
    if i > 0 {
      InLadder(ls[1..], i - 1, x);
    }
  }

  /** In a well-formed book every resting order is the one its id indexes. */
  lemma WfIndexed(b: Book, x: Order)
    requires Wf(b) && x in AllOrders(b)
    ensures x.id in b.index && b.index[x.id] == x
  {
    IndexOfFinds(AllOrders(b));
  }

  /** In a well-formed book an indexed order rests only at its own price, on its own side. */
  lemma IndexedOnlyAt(b: Book, id: OrderId)
    requires Wf(b) && id in b.index
    ensures var o := b.index[id];
      && OnlyAt(Ladder(b, o.side), id, o.price)
      && id !in IdSet(LadderOrders(Ladder(b, Opposite(o.side))))
  {
    var o := b.index[id];
    var ls := Ladder(b, o.side);
    forall i, x | 0 <= i < |ls| && x in ls[i].orders && x.id == id ensures ls[i].price == o.price {
      InLadder(ls, i, x);
      WfIndexed(b, x);
      assert LevelWf(ls[i], o.side);
    }
    var other := Ladder(b, Opposite(o.side));
    forall x | x in LadderOrders(other) ensures x.id != id {
      var j := LadderOrdersMember(other, x);
      WfIndexed(b, x);
      assert LevelWf(other[j], Opposite(o.side));
    }
  }

  /**
   * `removeOrder` on a well-formed book takes exactly the orders with that id
   * out of the book, in place, and keeps the book well formed; an unknown id
   * changes nothing.
   */
  lemma RemoveOrderWf(b: Book, id: OrderId)
    requires Wf(b)
    ensures AllOrders(RemoveOrder(b, id)) == FilterId(AllOrders(b), id)
    ensures Wf(RemoveOrder(b, id))
  {
    var r := RemoveOrder(b, id);
    IndexOfKeys(AllOrders(b));
    if id !in b.index {
      FilterIdAbsent(AllOrders(b), id);
    } else {
      var o := b.index[id];
      var ls := Ladder(b, o.side);
      var other := Ladder(b, Opposite(o.side));
      IndexedOnlyAt(b, id);
      IndexOfEntries(AllOrders(b));
      assert LadderWf(ls, o.side) && LadderWf(other, Opposite(o.side));
      RemoveFromLevelOrders(ls, o.side, o);
      RemoveFromLevelWf(ls, o.side, o);
      AllOrdersWith(b, o.side, RemoveFromLevel(ls, o));
      FilterIdAbsent(LadderOrders(other), id);
      FilterIdConcat(LadderOrders(b.bids), LadderOrders(b.asks), id);
      FilterIdDistinct(AllOrders(b), id);
      FilterIdIndex(AllOrders(b), id);
    }
  }

  // ---------------------------------------------------------------------------
  // Queries
  // ---------------------------------------------------------------------------

  /** `getBestBid` reads the highest resting buy price, and 0 when there are no bids. */
  lemma BestBidIsHighest(b: Book)
    requires LadderWf(b.bids, Buy)
    ensures forall o :: o in LadderOrders(b.bids) ==> o.price <= BestBid(b)
    ensures |b.bids| > 0 ==> exists o :: o in LadderOrders(b.bids) && o.price == BestBid(b)
    ensures |b.bids| == 0 ==> BestBid(b) == 0 && LadderOrders(b.bids) == []
  {
    forall o | o in LadderOrders(b.bids) ensures o.price <= BestBid(b) {
      var i := LadderOrdersMember(b.bids, o);
      assert LevelWf(b.bids[i], Buy);
    }
    if |b.bids| > 0 {
      assert LevelWf(b.bids[0], Buy);
      assert b.bids[0].orders[0] in LadderOrders(b.bids);
    }
  }

  /** `getBestAsk` reads the lowest resting sell price, and 0 when there are no asks. */
  lemma BestAskIsLowest(b: Book)
    requires LadderWf(b.asks, Sell)
    ensures forall o :: o in LadderOrders(b.asks) ==> BestAsk(b) <= o.price
    ensures |b.asks| > 0 ==> exists o :: o in LadderOrders(b.asks) && o.price == BestAsk(b)
    ensures |b.asks| == 0 ==> BestAsk(b) == 0 && LadderOrders(b.asks) == []
  {
    forall o | o in LadderOrders(b.asks) ensures BestAsk(b) <= o.price {
      var i := LadderOrdersMember(b.asks, o);
      assert LevelWf(b.asks[i], Sell);
    }
    if |b.asks| > 0 {
      assert LevelWf(b.asks[0], Sell);
      assert b.asks[0].orders[0] in LadderOrders(b.asks);
    }
  }

  /** A price no level of a well-formed ladder has holds no order. */
  lemma {:induction false} PricedAtAbsent(ls: seq<Level>, side: Side, p: Price)
    requires LadderWf(ls, side) && p !in Prices(ls)
    ensures PricedAt(LadderOrders(ls), p) == []
  {
    if |ls| > 0 {
      assert LevelWf(ls[0], side);
      assert ls[0] in ls;
      PricedAtUniform(ls[0].orders, ls[0].price, p);
      PricedAtConcat(ls[0].orders, LadderOrders(ls[1..]), p);
      LadderWfTail(ls, side);
      assert forall l :: l in ls[1..] ==> l in ls;
      PricedAtAbsent(ls[1..], side, p);
    }
  }

  /**
   * The level volume `getVolumeAtPrice` reads is the sum of the remaining
   * quantities of every resting order priced exactly `p` on the ladder.
   */
  lemma {:induction false} LadderVolumeIsSum(ls: seq<Level>, side: Side, p: Price)
    requires LadderWf(ls, side)
    ensures LadderVolumeAt(ls, p) == TotalRemaining(PricedAt(LadderOrders(ls), p))
  {
    if |ls| > 0 {
      assert LevelWf(ls[0], side);
      PricedAtUniform(ls[0].orders, ls[0].price, p);
      PricedAtConcat(ls[0].orders, LadderOrders(ls[1..]), p);
      LadderWfTail(ls, side);
      if ls[0].price == p {
        SortedHead(ls, side);
        PricedAtAbsent(ls[1..], side, p);
        assert ls[0].orders + [] == ls[0].orders;
      } else {
        LadderVolumeIsSum(ls[1..], side, p);
        assert [] + PricedAt(LadderOrders(ls[1..]), p) == PricedAt(LadderOrders(ls[1..]), p);
      }
    }
  }

  /** `getVolumeAtPrice` of a well-formed book, against the sum over its resting orders. */
  lemma VolumeAtPriceIsSum(b: Book, side: Side, p: Price)
    requires Wf(b)
    ensures VolumeAtPrice(b, side, p) == TotalRemaining(PricedAt(LadderOrders(Ladder(b, side)), p))
  {
    LadderVolumeIsSum(Ladder(b, side), side, p);
  }

  /** Inserting one order adds its remaining quantity to the sum at its price only. */
  lemma InsertSum(a: seq<Order>, o: Order, c: seq<Order>, p: Price)
    ensures TotalRemaining(PricedAt(a + [o] + c, p)) == TotalRemaining(PricedAt(a + c, p)) + (if o.price == p then Remaining(o) else 0)
  {
    PricedAtConcat(a, c, p);
    PricedAtConcat(a + [o], c, p);
    PricedAtConcat(a, [o], p);
    assert [o][1..] == [];
    var pa, po, pc := PricedAt(a, p), PricedAt([o], p), PricedAt(c, p);
    TotalRemainingConcat(pa, pc);
    TotalRemainingConcat(pa + po, pc);
    TotalRemainingConcat(pa, po);
  }

  /** `addToLevel` adds the order's remaining quantity to the volume at its price and changes no other volume. */
  lemma AddToLevelVolume(ls: seq<Level>, side: Side, o: Order, p: Price)
    requires LadderWf(ls, side) && RestingAt(o, side, o.price)
    ensures LadderVolumeAt(AddToLevel(ls, side, o), p) == LadderVolumeAt(ls, p) + (if p == o.price then Remaining(o) else 0)
  {
    var k := InsertPos(ls, side, o.price);
    AddToLevelWf(ls, side, o);
    AddToLevelInsert(ls, side, o);
    LadderOrdersSplit(ls, k);
    LadderVolumeIsSum(ls, side, p);
    LadderVolumeIsSum(AddToLevel(ls, side, o), side, p);
    InsertSum(LadderOrders(ls[..k]), o, LadderOrders(ls[k..]), p);
  }

  /** `addOrder` adds the order's remaining quantity to the volume at its price on its side and changes no other volume. */
  lemma AddOrderVolume(b: Book, o: Order, side: Side, p: Price)
    requires Wf(b) && o.symbol == b.symbol
    requires RestingAt(o, o.side, o.price)
    ensures var r := AddOrder(b, o).value;
      VolumeAtPrice(r, side, p) == VolumeAtPrice(b, side, p) + (if side == o.side && p == o.price then Remaining(o) else 0)
  {
    if side == o.side {
      AddToLevelVolume(Ladder(b, side), side, o, p);
    } else {
      assert side == Opposite(o.side);
    }
  }
}
