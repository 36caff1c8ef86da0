/**
 * Sequences of orders as the book stores them, and the id -> order index that
 * mirrors them (the book's `orderMap` in engine/OrderBook.java).
 */
module OrderSeqs {

  import opened Orders

  /** The ids present in a sequence of orders. */
  function IdSet(os: seq<Order>): set<OrderId>
  {
    set o | o in os :: o.id
  }

  /** No id occurs twice. */
  ghost predicate Distinct(os: seq<Order>)
  {
    forall i, j :: 0 <= i < j < |os| ==> os[i].id != os[j].id
  }

  /** The index a sequence of orders induces: each id mapped to its order. */
  function IndexOf(os: seq<Order>): map<OrderId, Order>
  {
    if |os| == 0 then map[] else IndexOf(os[1..])[os[0].id := os[0]]
  }

  /** The orders whose id is not `id`, in their original order (Java's `removeIf`). */
  function FilterId(os: seq<Order>, id: OrderId): seq<Order>
  {
    if |os| == 0 then [] else (if os[0].id == id then [] else [os[0]]) + FilterId(os[1..], id)
  }

  /** The orders priced exactly at `p`, in their original order. */
  function PricedAt(os: seq<Order>, p: Price): seq<Order>
  {
    if |os| == 0 then [] else (if os[0].price == p then [os[0]] else []) + PricedAt(os[1..], p)
  }

  /** Sum of the remaining quantities. */
  function TotalRemaining(os: seq<Order>): int
  {
    if |os| == 0 then 0 else Remaining(os[0]) + TotalRemaining(os[1..])
  }

  lemma IdSetConcat(a: seq<Order>, b: seq<Order>)
    ensures IdSet(a + b) == IdSet(a) + IdSet(b)
  {
    assert forall o :: o in a + b <==> o in a || o in b;
  }

  lemma IdSetCons(os: seq<Order>)
    requires |os| > 0
    ensures IdSet(os) == {os[0].id} + IdSet(os[1..])
  {
    assert os == [os[0]] + os[1..];
    IdSetConcat([os[0]], os[1..]);
  }

  lemma DistinctConcat(a: seq<Order>, b: seq<Order>)
    ensures Distinct(a + b) <==> Distinct(a) && Distinct(b) && IdSet(a) !! IdSet(b)
  {
    var ab := a + b;
    if Distinct(ab) {
      forall i, j | 0 <= i < j < |a| ensures a[i].id != a[j].id {
        assert ab[i] == a[i] && ab[j] == a[j];
      }
      forall i, j | 0 <= i < j < |b| ensures b[i].id != b[j].id {
        assert ab[|a| + i] == b[i] && ab[|a| + j] == b[j];
      }
      forall i, j | 0 <= i < |a| && 0 <= j < |b| ensures a[i].id != b[j].id {
        assert ab[i] == a[i] && ab[|a| + j] == b[j];
      }
      forall x | x in IdSet(a) ensures x !in IdSet(b) {
        var i :| 0 <= i < |a| && a[i].id == x;
        assert forall j :: 0 <= j < |b| ==> b[j].id != x;
      }
    }
    if Distinct(a) && Distinct(b) && IdSet(a) !! IdSet(b) {
      forall i, j | 0 <= i < j < |ab| ensures ab[i].id != ab[j].id {
        if j < |a| {
          assert ab[i] == a[i] && ab[j] == a[j];
        } else if i >= |a| {
          assert ab[i] == b[i - |a|] && ab[j] == b[j - |a|];
        } else {
          assert ab[i] == a[i] && ab[j] == b[j - |a|];
          assert ab[i].id in IdSet(a) && ab[j].id in IdSet(b);
        }
      }
    }
  }

  lemma DistinctCons(os: seq<Order>)
    requires |os| > 0
    ensures Distinct(os) <==> os[0].id !in IdSet(os[1..]) && Distinct(os[1..])
  {
    assert os == [os[0]] + os[1..];
    DistinctConcat([os[0]], os[1..]);
  }

  lemma {:induction false} IndexOfKeys(os: seq<Order>)
    ensures IndexOf(os).Keys == IdSet(os)
  {
    if |os| > 0 {
      IndexOfKeys(os[1..]);
      IdSetCons(os);
    }
  }

  /** Every entry of the induced index is an order of the sequence, under its own id. */
  lemma {:induction false} IndexOfEntries(os: seq<Order>)
    ensures forall id :: id in IndexOf(os) ==> IndexOf(os)[id] in os && IndexOf(os)[id].id == id
  {
    if |os| > 0 {
      IndexOfEntries(os[1..]);
    }
  }

  /** With distinct ids, every order is found under its id. */
  lemma {:induction false} IndexOfFinds(os: seq<Order>)
    requires Distinct(os)
    ensures forall o :: o in os ==> o.id in IndexOf(os) && IndexOf(os)[o.id] == o
  {
    if |os| > 0 {
      DistinctCons(os);
      IndexOfFinds(os[1..]);
      forall o | o in os ensures o.id in IndexOf(os) && IndexOf(os)[o.id] == o {
        if o != os[0] {
          assert o in os[1..];
          assert o.id in IdSet(os[1..]);
        }
      }
    }
  }

  /** When an index holds each order of `os` under its id, the induced index agrees with it. */
  lemma {:induction false} IndexOfAgrees(os: seq<Order>, index: map<OrderId, Order>)
    requires forall o :: o in os ==> o.id in index && index[o.id] == o
    ensures forall id :: id in IndexOf(os) ==> id in index && IndexOf(os)[id] == index[id]
  {
    if |os| > 0 {
      IndexOfAgrees(os[1..], index);
    }
  }

  /** The first sequence's entries win over the second's. */
  lemma {:induction false} IndexOfConcat(a: seq<Order>, b: seq<Order>)
    ensures IndexOf(a + b) == IndexOf(b) + IndexOf(a)
  {
    if |a| == 0 {
      assert a + b == b;
    } else {
      assert (a + b)[1..] == a[1..] + b;
      IndexOfConcat(a[1..], b);
    }
  }

  /** With disjoint ids the union of two induced indexes does not depend on the order. */
  lemma IndexOfSwap(a: seq<Order>, b: seq<Order>)
    requires IdSet(a) !! IdSet(b)
    ensures IndexOf(a + b) == IndexOf(b + a)
  {
    IndexOfConcat(a, b);
    IndexOfConcat(b, a);
    IndexOfKeys(a);
    IndexOfKeys(b);
  }

  /** Inserting a fresh order anywhere adds exactly its entry to the induced index. */
  lemma IndexOfInsert(a: seq<Order>, o: Order, b: seq<Order>)
    requires o.id !in IdSet(a + b)
    ensures IndexOf(a + [o] + b) == IndexOf(a + b)[o.id := o]
  {
    IdSetConcat(a, b);
    IndexOfKeys(a);
    assert a + [o] + b == a + ([o] + b);
    IndexOfConcat(a, [o] + b);
    IndexOfConcat(a, b);
    assert ([o] + b)[1..] == b;
  }

  lemma {:induction false} FilterIdAbsent(os: seq<Order>, id: OrderId)
    requires id !in IdSet(os)
    ensures FilterId(os, id) == os
  {
    if |os| > 0 {
      IdSetCons(os);
      FilterIdAbsent(os[1..], id);
    }
  }

  lemma {:induction false} FilterIdConcat(a: seq<Order>, b: seq<Order>, id: OrderId)
    ensures FilterId(a + b, id) == FilterId(a, id) + FilterId(b, id)
  {
    if |a| == 0 {
      assert a + b == b;
    } else {
      assert (a + b)[1..] == a[1..] + b;
      FilterIdConcat(a[1..], b, id);
    }
  }

  /** Filtering out an id removes exactly that id. */
  lemma {:induction false} FilterIdIds(os: seq<Order>, id: OrderId)
    ensures IdSet(FilterId(os, id)) == IdSet(os) - {id}
  {
    if |os| > 0 {
      IdSetCons(os);
      FilterIdIds(os[1..], id);
      var head := if os[0].id == id then [] else [os[0]];
      IdSetConcat(head, FilterId(os[1..], id));
    }
  }

  /** Filtering keeps the ids distinct. */
  lemma {:induction false} FilterIdDistinct(os: seq<Order>, id: OrderId)
    requires Distinct(os)
    ensures Distinct(FilterId(os, id))
  {
    if |os| > 0 {
      DistinctCons(os);
      FilterIdDistinct(os[1..], id);
      FilterIdIds(os[1..], id);
      var rest := FilterId(os[1..], id);
      if os[0].id != id {
        assert ([os[0]] + rest)[1..] == rest;
        DistinctCons([os[0]] + rest);
      }
    }
  }

  /** Filtering out an id removes exactly its entry from the induced index. */
  lemma {:induction false} FilterIdIndex(os: seq<Order>, id: OrderId)
    requires Distinct(os)
    ensures IndexOf(FilterId(os, id)) == IndexOf(os) - {id}
  {
    if |os| > 0 {
      var h := os[0];
      var rest := FilterId(os[1..], id);
      var tail := IndexOf(os[1..]);
      assert IndexOf(os) == tail[h.id := h];
      DistinctCons(os);
      FilterIdIndex(os[1..], id);
      if h.id == id {
        assert FilterId(os, id) == rest;
        assert id !in tail by {
          IndexOfKeys(os[1..]);
        }
        SetThenRemove(tail, id, h);
      } else {
        assert FilterId(os, id) == [h] + rest;
        assert IndexOf([h] + rest) == IndexOf(rest)[h.id := h] by {
          assert ([h] + rest)[1..] == rest;
        }
        RemoveCommutes(tail, h.id, h, id);
      }
    }
  }

  /** Setting an absent key and removing it again gives the map back. */
  lemma SetThenRemove<K, V>(m: map<K, V>, k: K, v: V)
    requires k !in m
    ensures m[k := v] - {k} == m
  {
  }

  /** Setting one key commutes with removing another. */
  lemma RemoveCommutes<K, V>(m: map<K, V>, k: K, v: V, other: K)
    requires k != other
    ensures m[k := v] - {other} == (m - {other})[k := v]
  {
  }

  lemma {:induction false} TotalRemainingConcat(a: seq<Order>, b: seq<Order>)
    ensures TotalRemaining(a + b) == TotalRemaining(a) + TotalRemaining(b)
  {
    if |a| == 0 {
      assert a + b == b;
    } else {
      assert (a + b)[1..] == a[1..] + b;
      TotalRemainingConcat(a[1..], b);
    }
  }

  /** A fresh order inserted anywhere keeps the ids distinct. */
  lemma DistinctInsert(a: seq<Order>, o: Order, b: seq<Order>)
    requires Distinct(a + b) && o.id !in IdSet(a + b)
    ensures Distinct(a + [o] + b)
  {
    DistinctConcat(a, b);
    IdSetConcat(a, b);
    DistinctConcat([o], b);
    IdSetConcat([o], b);
    assert a + [o] + b == a + ([o] + b);
    DistinctConcat(a, [o] + b);
  }

  lemma {:induction false} PricedAtConcat(a: seq<Order>, b: seq<Order>, p: Price)
    ensures PricedAt(a + b, p) == PricedAt(a, p) + PricedAt(b, p)
  {
    if |a| == 0 {
      assert a + b == b;
    } else {
      var h: seq<Order> := if a[0].price == p then [a[0]] else [];
      assert PricedAt(a + b, p) == h + PricedAt(a[1..] + b, p) by {
        assert (a + b)[0] == a[0];
        assert (a + b)[1..] == a[1..] + b;
      }
      assert PricedAt(a, p) == h + PricedAt(a[1..], p);
      PricedAtConcat(a[1..], b, p);
      assert h + (PricedAt(a[1..], p) + PricedAt(b, p)) == (h + PricedAt(a[1..], p)) + PricedAt(b, p);
    }
  }

  /** Filtering by a price every order has keeps them all; by a price none has keeps none. */
  lemma {:induction false} PricedAtUniform(os: seq<Order>, q: Price, p: Price)
    requires forall o :: o in os ==> o.price == q
    ensures PricedAt(os, p) == if q == p then os else []
  {
    if |os| > 0 {
      assert forall o :: o in os[1..] ==> o in os;
      PricedAtUniform(os[1..], q, p);
      if q == p {
        assert os == [os[0]] + os[1..];
      }
    }
  }
}
