/** Positional order among siblings (sections of a course, lessons of a section).

    The items are the keys of `orders`, which gives each item's current `Order` (the getter
    closure of the source). Each operation returns the map after its `setOrder` calls and the
    items it stamped through `touch`, in the order it stamped them. The source visits the
    selected items sorted by their order, ascending or descending; so does the model. */
module OrderManager {

  /** The new order of an item whose order is `o`, when a new item takes position `newOrder`. */
  function InsertShift(o: int, newOrder: int): int {
    if o >= newOrder then o + 1 else o
  }

  /** The new order of a sibling whose order is `o`, when another item moves from
      `oldOrder` to `newOrder`. */
  function UpdateShift(o: int, oldOrder: int, newOrder: int): int {
    if newOrder > oldOrder then (if oldOrder < o <= newOrder then o - 1 else o)
    else if newOrder < oldOrder then (if newOrder <= o < oldOrder then o + 1 else o)
    else o
  }

  /** The new order of a sibling whose order is `o`, when the item at `deletedOrder` goes. */
  function DeleteShift(o: int, deletedOrder: int): int {
    if o > deletedOrder then o - 1 else o
  }

  /** Neither map reorders a pair of items that the other keeps apart. */
  ghost predicate SameRelativeOrder<T>(a: map<T, int>, b: map<T, int>) {
    a.Keys == b.Keys &&
    forall x, y :: x in a && y in a ==> (a[x] < a[y] <==> b[x] < b[y])
  }

  /** `b` never puts a pair of items in the opposite order from `a` (ties may appear). */
  ghost predicate KeepsOrder<T>(a: map<T, int>, b: map<T, int>) {
    a.Keys == b.Keys &&
    forall x, y :: x in a && y in a && a[x] <= a[y] ==> b[x] <= b[y]
  }

  function ShiftedForInsert<T>(orders: map<T, int>, newOrder: int): (r: map<T, int>)
    ensures r.Keys == orders.Keys
    ensures newOrder !in r.Values
    ensures SameRelativeOrder(orders, r)
  {
    map x | x in orders :: InsertShift(orders[x], newOrder)
  }

  function ShiftedForUpdate<T>(orders: map<T, int>, oldOrder: int, newOrder: int): (r: map<T, int>)
    ensures r.Keys == orders.Keys
    ensures KeepsOrder(orders, r)
    ensures oldOrder != newOrder && oldOrder !in orders.Values ==> newOrder !in r.Values
  {
    map x | x in orders :: UpdateShift(orders[x], oldOrder, newOrder)
  }

  function ShiftedForDelete<T>(orders: map<T, int>, deletedOrder: int): (r: map<T, int>)
    ensures r.Keys == orders.Keys
    ensures KeepsOrder(orders, r)
    ensures forall x :: x in orders && orders[x] != deletedOrder ==> (r[x] < deletedOrder <==> orders[x] < deletedOrder)
  {
    map x | x in orders :: DeleteShift(orders[x], deletedOrder)
  }

  // ---------------------------------------------------------------------------
  // What the `touch` callback sees

  /** `touched` names each item whose order differs between `a` and `b` exactly once, and
      nothing else. */
  ghost predicate TouchedExactlyChanged<T>(touched: seq<T>, a: map<T, int>, b: map<T, int>)
    requires a.Keys == b.Keys
  {
    (forall i, j :: 0 <= i < j < |touched| ==> touched[i] != touched[j]) &&
    (forall i :: 0 <= i < |touched| ==> touched[i] in a && a[touched[i]] != b[touched[i]]) &&
    (forall x :: x in a && a[x] != b[x] ==> x in touched)
  }

  /** The items of `s` appear in ascending (or, when `descending`, descending) order of `orders`. */
  ghost predicate SortedBy<T>(s: seq<T>, orders: map<T, int>, descending: bool) {
    (forall i :: 0 <= i < |s| ==> s[i] in orders) &&
    forall i, j :: 0 <= i < j < |s| ==>
      if descending then orders[s[j]] <= orders[s[i]] else orders[s[i]] <= orders[s[j]]
  }

  /** `x` may come first when `pending` is visited sorted by `orders`. */
  predicate FirstInSort<T>(x: T, pending: set<T>, orders: map<T, int>, descending: bool)
    requires pending <= orders.Keys
  {
    x in pending &&
    forall y :: y in pending ==> if descending then orders[y] <= orders[x] else orders[x] <= orders[y]
  }

  lemma {:induction false} FirstInSortExists<T>(pending: set<T>, orders: map<T, int>, descending: bool)
    requires pending != {} && pending <= orders.Keys
    ensures exists x :: FirstInSort(x, pending, orders, descending)
  {
    var z :| z in pending;
    if pending != {z} {
      FirstInSortExists(pending - {z}, orders, descending);
      var w :| FirstInSort(w, pending - {z}, orders, descending);
      if descending {
        if orders[w] <= orders[z] {
          assert FirstInSort(z, pending, orders, descending);
        } else {
          assert FirstInSort(w, pending, orders, descending);
        }
      } else {
        if orders[z] <= orders[w] {
          assert FirstInSort(z, pending, orders, descending);
        } else {
          assert FirstInSort(w, pending, orders, descending);
        }
      }
    } else {
      assert FirstInSort(z, pending, orders, descending);
    }
  }

  // ---------------------------------------------------------------------------
  // The three operations

  /** The `foreach` every operation runs: visits `selected` sorted by order (descending
      when `descending`), moving each visited item by `delta` and touching it. */
  method ShiftSelected<T>(orders: map<T, int>, selected: set<T>, delta: int, descending: bool)
    returns (shifted: map<T, int>, touched: seq<T>)
    requires selected <= orders.Keys && delta != 0
    ensures shifted.Keys == orders.Keys
    ensures forall x :: x in orders ==> shifted[x] == if x in selected then orders[x] + delta else orders[x]
    ensures forall x :: x in touched <==> x in selected
    ensures TouchedExactlyChanged(touched, orders, shifted)
    ensures SortedBy(touched, orders, descending)
  {
    shifted, touched := orders, [];
    var pending := selected;
    while pending != {}
      invariant pending <= selected && shifted.Keys == orders.Keys
      invariant forall x :: x in orders ==>
        shifted[x] == if x in selected && x !in pending then orders[x] + delta else orders[x]
      invariant forall x :: x in touched <==> x in selected && x !in pending
      invariant forall i, j :: 0 <= i < j < |touched| ==> touched[i] != touched[j]
      invariant SortedBy(touched, orders, descending)
      invariant forall i, y :: 0 <= i < |touched| && y in pending ==>
        if descending then orders[y] <= orders[touched[i]] else orders[touched[i]] <= orders[y]
      decreases pending
    {
      FirstInSortExists(pending, orders, descending);
      var item :| FirstInSort(item, pending, orders, descending);
      shifted := shifted[item := shifted[item] + delta];
      touched := touched + [item];
      pending := pending - {item};
    }
  }

  /** Makes room at `newOrder`: every item at `newOrder` or above moves up by one. */
  method ShiftOrderForInsert<T>(orders: map<T, int>, newOrder: int) returns (shifted: map<T, int>, touched: seq<T>)
    ensures shifted == ShiftedForInsert(orders, newOrder)
    ensures TouchedExactlyChanged(touched, orders, shifted)
    ensures forall x :: x in touched <==> x in orders && orders[x] >= newOrder
    ensures SortedBy(touched, orders, false)
  {
    shifted, touched := ShiftSelected(orders, set x | x in orders && orders[x] >= newOrder, 1, false);
  }

  /** Moves an item from `oldOrder` to `newOrder`, given its siblings (the item itself
      excluded): moving up closes the gap by moving the siblings in between down, moving
      down makes room by moving them up; staying put changes and touches nothing. */
  method ShiftOrderForUpdate<T>(orders: map<T, int>, oldOrder: int, newOrder: int) returns (shifted: map<T, int>, touched: seq<T>)
    ensures shifted == ShiftedForUpdate(orders, oldOrder, newOrder)
    ensures TouchedExactlyChanged(touched, orders, shifted)
    ensures SortedBy(touched, orders, newOrder > oldOrder)
    ensures newOrder == oldOrder ==> shifted == orders && touched == []
  {
    if newOrder > oldOrder {
      shifted, touched := ShiftSelected(orders, set x | x in orders && oldOrder < orders[x] <= newOrder, -1, true);
      UpdateShiftPointwise(orders, shifted, oldOrder, newOrder);
    } else if newOrder < oldOrder {
      shifted, touched := ShiftSelected(orders, set x | x in orders && newOrder <= orders[x] < oldOrder, 1, false);
      UpdateShiftPointwise(orders, shifted, oldOrder, newOrder);
    } else {
      shifted, touched := orders, [];
      UpdateShiftPointwise(orders, shifted, oldOrder, newOrder);
    }
  }

  /** A map that shifts each item as `UpdateShift` does is the update's result. */
  lemma UpdateShiftPointwise<T>(orders: map<T, int>, shifted: map<T, int>, oldOrder: int, newOrder: int)
    requires shifted.Keys == orders.Keys
    requires forall x :: x in orders ==> shifted[x] == UpdateShift(orders[x], oldOrder, newOrder)
    ensures shifted == ShiftedForUpdate(orders, oldOrder, newOrder)
  {
  }

  /** Closes the gap left at `deletedOrder`: every item above it moves down by one. */
  method ShiftOrderForDelete<T>(orders: map<T, int>, deletedOrder: int) returns (shifted: map<T, int>, touched: seq<T>)
    ensures shifted == ShiftedForDelete(orders, deletedOrder)
    ensures TouchedExactlyChanged(touched, orders, shifted)
    ensures forall x :: x in touched <==> x in orders && orders[x] > deletedOrder
    ensures SortedBy(touched, orders, false)
  {
    shifted, touched := ShiftSelected(orders, set x | x in orders && orders[x] > deletedOrder, -1, false);
  }

  // ---------------------------------------------------------------------------
  // Density: the orders of n siblings are exactly 0 .. n-1

  ghost predicate Distinct<T>(orders: map<T, int>) {
    forall x, y :: x in orders && y in orders && x != y ==> orders[x] != orders[y]
  }

  /** No duplicate and nothing outside 0 .. n-1 (so, by counting, every position is taken:
      see DenseIsRange). */
  ghost predicate Dense<T>(orders: map<T, int>) {
    Distinct(orders) && forall x :: x in orders ==> 0 <= orders[x] < |orders|
  }

  /** The positions 0 .. n-1. */
  ghost function Range(n: nat): (r: set<int>)
    ensures |r| == n
    ensures forall v :: v in r <==> 0 <= v < n
  {
    if n == 0 then {} else Range(n - 1) + {n - 1}
  }

  lemma {:induction false} DistinctValuesCount<T>(orders: map<T, int>)
    requires Distinct(orders)
    ensures |orders.Values| == |orders|
  {
    if orders != map[] {
      var x :| x in orders;
      var rest := orders - {x};
      assert rest.Values == orders.Values - {orders[x]} by {
        forall v | v in orders.Values - {orders[x]} ensures v in rest.Values {
          var y :| y in orders && orders[y] == v;
          assert y in rest;
        }
      }
      assert rest.Keys == orders.Keys - {x};
      DistinctValuesCount(rest);
    }
  }

  /** The siblings' orders are dense exactly when they are distinct and are the set 0 .. n-1. */
  lemma DenseIsRange<T>(orders: map<T, int>)
    ensures Dense(orders) <==> Distinct(orders) && orders.Values == Range(|orders|)
  {
    if Dense(orders) {
      DistinctValuesCount(orders);
      assert orders.Values <= Range(|orders|);
      SubsetCount(orders.Values, Range(|orders|));
    }
    if Distinct(orders) && orders.Values == Range(|orders|) {
      forall x | x in orders ensures 0 <= orders[x] < |orders| {
        assert orders[x] in orders.Values;
      }
    }
  }

  lemma {:induction false} SubsetCount<T>(a: set<T>, b: set<T>)
    requires a <= b
    ensures |a| <= |b|
    ensures a != b ==> |a| < |b|
  {
    if a != {} {
      var x :| x in a;
      SubsetCount(a - {x}, b - {x});
      assert a != b ==> a - {x} != b - {x} by {
        if a - {x} == b - {x} {
          assert a == (a - {x}) + {x} && b == (b - {x}) + {x};
        }
      }
    } else if a != b {
      var y :| y in b;
    }
  }

  /** The largest order among non-empty siblings. */
  function MaxOrder<T>(orders: map<T, int>): (m: int)
    requires orders != map[]
    ensures m in orders.Values && forall x :: x in orders ==> orders[x] <= m
  {
    MaxOrderExists(orders);
    var m :| m in orders.Values && forall x :: x in orders ==> orders[x] <= m; m
  }

  lemma MaxOrderExists<T>(orders: map<T, int>)
    requires orders != map[]
    ensures exists m :: m in orders.Values && forall x :: x in orders ==> orders[x] <= m
  {
    assert orders.Keys != {} by {
      var y :| y in orders;
    }
    FirstInSortExists(orders.Keys, orders, true);
    var top :| FirstInSort(top, orders.Keys, orders, true);
    assert orders[top] in orders.Values;
  }

  /** The order an appended item gets: one past the largest, or 0 among no siblings. */
  function NextOrder<T>(orders: map<T, int>): (r: int)
    ensures forall x :: x in orders ==> orders[x] < r
    ensures orders == map[] ==> r == 0
    ensures orders != map[] ==> r - 1 in orders.Values
  {
    if orders == map[] then 0 else MaxOrder(orders) + 1
  }

  /** Appending to dense siblings puts the new item at n and keeps them dense. */
  lemma AppendKeepsDense<T>(siblings: map<T, int>, item: T)
    requires item !in siblings && Dense(siblings)
    ensures NextOrder(siblings) == |siblings|
    ensures Dense(siblings[item := NextOrder(siblings)])
  {
    var n := |siblings|;
    if siblings != map[] {
      DenseIsRange(siblings);
      var m := MaxOrder(siblings);
      assert m < n by {
        var x :| x in siblings && siblings[x] == m;
      }
      assert n - 1 <= m by {
        assert n - 1 in Range(n);
        var y :| y in siblings && siblings[y] == n - 1;
      }
    }
    var all := siblings[item := n];
    assert |all| == n + 1;
    forall x, y | x in all && y in all && x != y ensures all[x] != all[y] {
      if x != item && y != item {
        assert all[x] == siblings[x] && all[y] == siblings[y];
      }
    }
  }

  /** Inserting at k: the shifted siblings and the new item at k have distinct orders. */
  lemma InsertKeepsDistinct<T>(siblings: map<T, int>, newOrder: int, item: T)
    requires item !in siblings && Distinct(siblings)
    ensures Distinct(ShiftedForInsert(siblings, newOrder)[item := newOrder])
  {
  }

  /** Inserting at k, with 0 <= k <= n, into dense siblings keeps them dense. */
  lemma InsertKeepsDense<T>(siblings: map<T, int>, newOrder: int, item: T)
    requires item !in siblings && Dense(siblings) && 0 <= newOrder <= |siblings|
    ensures Dense(ShiftedForInsert(siblings, newOrder)[item := newOrder])
  {
    InsertKeepsDistinct(siblings, newOrder, item);
  }

  /** Moving an item whose siblings are distinct and do not hold its old order: afterwards
      the siblings and its new order are distinct. */
  lemma UpdateKeepsDistinct<T>(siblings: map<T, int>, item: T, oldOrder: int, newOrder: int)
    requires item !in siblings && Distinct(siblings) && oldOrder !in siblings.Values
    ensures Distinct(ShiftedForUpdate(siblings, oldOrder, newOrder)[item := newOrder])
  {
    var r := ShiftedForUpdate(siblings, oldOrder, newOrder);
    forall x, y | x in siblings && y in siblings && x != y ensures r[x] != r[y] {
      assert siblings[x] != oldOrder && siblings[y] != oldOrder by {
        assert siblings[x] in siblings.Values && siblings[y] in siblings.Values;
      }
    }
  }

  /** Moving an item within dense siblings to a position 0 <= newOrder < n keeps them dense. */
  lemma UpdateKeepsDense<T>(siblings: map<T, int>, item: T, oldOrder: int, newOrder: int)
    requires item !in siblings && Dense(siblings[item := oldOrder]) && 0 <= newOrder <= |siblings|
    ensures Dense(ShiftedForUpdate(siblings, oldOrder, newOrder)[item := newOrder])
  {
    var all := siblings[item := oldOrder];
    assert Distinct(siblings) by {
      forall x, y | x in siblings && y in siblings && x != y ensures siblings[x] != siblings[y] {
        assert all[x] == siblings[x] && all[y] == siblings[y];
      }
    }
    assert |all| == |siblings| + 1;
    assert oldOrder !in siblings.Values by {
      forall x | x in siblings ensures siblings[x] != oldOrder {
        assert x in all && item in all && x != item;
        assert all[x] == siblings[x] && all[item] == oldOrder;
      }
    }
    UpdateKeepsDistinct(siblings, item, oldOrder, newOrder);
    var r := ShiftedForUpdate(siblings, oldOrder, newOrder);
    forall x | x in siblings ensures 0 <= r[x] <= |siblings| {
      assert x in all && all[x] == siblings[x];
    }
  }

  /** Deleting from dense siblings and closing the gap leaves the rest dense. */
  lemma DeleteKeepsDense<T>(siblings: map<T, int>, item: T, deletedOrder: int)
    requires item !in siblings && Dense(siblings[item := deletedOrder])
    ensures Dense(ShiftedForDelete(siblings, deletedOrder))
  {
    var all := siblings[item := deletedOrder];
    var r := ShiftedForDelete(siblings, deletedOrder);
    forall x | x in siblings ensures siblings[x] != deletedOrder && 0 <= r[x] < |siblings| {
      assert all[x] == siblings[x] && all[item] == deletedOrder;
    }
    forall x, y | x in siblings && y in siblings && x != y ensures r[x] != r[y] {
      assert all[x] == siblings[x] && all[y] == siblings[y] && all[item] == deletedOrder;
    }
  }

  /** Siblings that do not hold the moved item's old order keep their relative order. */
  lemma UpdateKeepsRelativeOrder<T>(siblings: map<T, int>, oldOrder: int, newOrder: int)
    requires oldOrder !in siblings.Values
    ensures SameRelativeOrder(siblings, ShiftedForUpdate(siblings, oldOrder, newOrder))
  {
    forall x | x in siblings ensures siblings[x] != oldOrder {
      assert siblings[x] in siblings.Values;
    }
  }

  /** Siblings that do not hold the deleted order keep their relative order. */
  lemma DeleteKeepsRelativeOrder<T>(siblings: map<T, int>, deletedOrder: int)
    requires deletedOrder !in siblings.Values
    ensures SameRelativeOrder(siblings, ShiftedForDelete(siblings, deletedOrder))
  {
    forall x | x in siblings ensures siblings[x] != deletedOrder {
      assert siblings[x] in siblings.Values;
    }
  }
}
