/** The sibling-shifting loops the NovillusPath section and lesson services write out
    inline (the same loops appear in both services, over sections and over lessons).
    Each works on the loaded children and returns them with the shifted orders, and the
    ids it stamped. Each visits the selected siblings sorted by their order as loaded,
    as the source's OrderBy does. The postconditions equate every loop with the order
    manager's operation on the sibling orders. */
module InlineOrdering {
  import opened Domain
  import opened Store
  import OrderManager

  /** The `foreach` each inline copy runs: visit the `selected` children sorted by their
      loaded order (`orders`), descending when `descending`, move each by `delta` and stamp it. */
  method ShiftEach(children: map<Id, Child>, orders: map<Id, int>, selected: set<Id>, delta: int, descending: bool)
    returns (shifted: map<Id, Child>, touched: set<Id>)
    requires selected <= orders.Keys <= children.Keys
    ensures ShiftedSoFar(shifted, children, selected, delta)
    ensures touched == selected
  {
    var pending := selected;
    shifted, touched := children, {};
    while pending != {}
      invariant pending <= selected
      invariant ShiftedSoFar(shifted, children, selected - pending, delta)
      invariant touched == selected - pending
      decreases pending
    {
      OrderManager.FirstInSortExists(pending, orders, descending);
      var child: Id :| OrderManager.FirstInSort(child, pending, orders, descending);
      shifted := shifted[child := shifted[child].(order := shifted[child].order + delta)];
      touched := touched + {child};
      pending := pending - {child};
    }
  }

  /** Make room at position `k`: every sibling at `k` or above moves up by one, visited
      ascending. */
  method ShiftUpFrom(children: map<Id, Child>, parent: Id, k: int) returns (shifted: map<Id, Child>, touched: set<Id>)
    ensures shifted == WithOrders(children, OrderManager.ShiftedForInsert(ChildOrders(children, parent), k))
    ensures touched == set id | id in ChildOrders(children, parent) && ChildOrders(children, parent)[id] >= k
  {
    var inParent := ChildOrders(children, parent);
    shifted, touched := ShiftEach(children, inParent, set id | id in inParent && inParent[id] >= k, 1, false);
    ShiftComplete(shifted, children, touched, 1, OrderManager.ShiftedForInsert(inParent, k));
  }

  /** Move the sibling `moved` from `originalOrder` to `newOrder`: towards the front, the
      siblings in [newOrder, originalOrder) move up by one, visited ascending; towards the
      back, those in (originalOrder, newOrder] move down by one, visited descending. */
  method MoveAmong(children: map<Id, Child>, parent: Id, moved: Id, originalOrder: int, newOrder: int)
    returns (shifted: map<Id, Child>, touched: set<Id>)
    requires newOrder != originalOrder
    ensures var siblings := ChildOrders(children - {moved}, parent);
      && shifted == WithOrders(children, OrderManager.ShiftedForUpdate(siblings, originalOrder, newOrder))
      && touched == set id | id in siblings && OrderManager.ShiftedForUpdate(siblings, originalOrder, newOrder)[id] != siblings[id]
  {
    var siblings := ChildOrders(children - {moved}, parent);
    ghost var orders := OrderManager.ShiftedForUpdate(siblings, originalOrder, newOrder);
    if newOrder < originalOrder {
      shifted, touched := ShiftEach(children, siblings, set id | id in siblings && newOrder <= siblings[id] < originalOrder, 1, false);
      ShiftComplete(shifted, children, touched, 1, orders);
    } else {
      shifted, touched := ShiftEach(children, siblings, set id | id in siblings && originalOrder < siblings[id] <= newOrder, -1, true);
      ShiftComplete(shifted, children, touched, -1, orders);
    }
  }

  /** Close the gap a removed child leaves at `deletedOrder`: every sibling above it moves
      down by one, visited ascending. */
  method CloseGap(children: map<Id, Child>, parent: Id, deletedOrder: int) returns (shifted: map<Id, Child>, touched: set<Id>)
    ensures shifted == WithOrders(children, OrderManager.ShiftedForDelete(ChildOrders(children, parent), deletedOrder))
    ensures touched == set id | id in ChildOrders(children, parent) && ChildOrders(children, parent)[id] > deletedOrder
  {
    var inParent := ChildOrders(children, parent);
    shifted, touched := ShiftEach(children, inParent, set id | id in inParent && inParent[id] > deletedOrder, -1, false);
    ShiftComplete(shifted, children, touched, -1, OrderManager.ShiftedForDelete(inParent, deletedOrder));
  }
}
