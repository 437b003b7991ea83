/** What creating, moving and deleting a child (a section of a course, a lesson of a
    section) does to the children of the store, stated once for every service that does
    it: the NovillusPath services with their inline loops and the SourceGuild lesson
    service through the order manager. */
module Siblings {
  import opened Domain
  import opened Store
  import OrderManager

  // ---------------------------------------------------------------------------
  // Create

  /** The order a new child gets: the requested one, or one past the largest sibling. */
  function NewOrder(siblings: map<Id, int>, order: Option<int>): int {
    if order.Some? then order.value else OrderManager.NextOrder(siblings)
  }

  /** The sibling orders after making room for a new child: shifted up from a requested
      position, untouched when it is appended. */
  function MakeRoom(siblings: map<Id, int>, order: Option<int>): (r: map<Id, int>)
    ensures r.Keys == siblings.Keys
  {
    if order.Some? then OrderManager.ShiftedForInsert(siblings, order.value) else siblings
  }

  /** The child a create request makes (a new section or lesson starts as Draft). */
  function Created(children: map<Id, Child>, parent: Id, title: string, order: Option<int>): Child {
    Child(parent, title, NewOrder(ChildOrders(children, parent), order), Draft)
  }

  function AfterCreate(children: map<Id, Child>, parent: Id, title: string, order: Option<int>, newId: Id): map<Id, Child> {
    WithOrders(children, MakeRoom(ChildOrders(children, parent), order))[newId := Created(children, parent, title, order)]
  }

  /** The siblings a create stamps: those it shifts. */
  function ShiftedByCreate(children: map<Id, Child>, parent: Id, order: Option<int>): set<Id> {
    if order.None? then {}
    else set id | id in ChildOrders(children, parent) && ChildOrders(children, parent)[id] >= order.value
  }

  /** A create gives the parent the shifted sibling orders plus the new child's order, leaves
      every other parent's children alone, changes nothing of an existing child but its order,
      and stamps exactly the children whose order it changes. */
  lemma CreateOrders(children: map<Id, Child>, parent: Id, title: string, order: Option<int>, newId: Id)
    requires newId !in children
    ensures var siblings := ChildOrders(children, parent);
      ChildOrders(AfterCreate(children, parent, title, order, newId), parent) ==
        MakeRoom(siblings, order)[newId := NewOrder(siblings, order)]
    ensures forall q :: q != parent ==>
      ChildOrders(AfterCreate(children, parent, title, order, newId), q) == ChildOrders(children, q)
    ensures forall id :: id in children ==>
      AfterCreate(children, parent, title, order, newId)[id].(order := children[id].order) == children[id]
    ensures forall id :: id in children ==>
      (id in ShiftedByCreate(children, parent, order) <==> AfterCreate(children, parent, title, order, newId)[id] != children[id])
  {
    var siblings := ChildOrders(children, parent);
    var child := Created(children, parent, title, order);
    WriteBackOrders(children, parent, MakeRoom(siblings, order));
    PlaceChild(children, MakeRoom(siblings, order), newId, child);
    AddChild(WithOrders(children, MakeRoom(siblings, order)), newId, child);
    forall id | id in children
      ensures id in ShiftedByCreate(children, parent, order) <==> AfterCreate(children, parent, title, order, newId)[id] != children[id]
    {
      if id in siblings && order.Some? && siblings[id] >= order.value {
        assert AfterCreate(children, parent, title, order, newId)[id].order == children[id].order + 1;
      }
    }
  }

  /** Creating at a position within 0..n, or appending, keeps dense siblings dense. */
  lemma CreateKeepsDense(children: map<Id, Child>, parent: Id, title: string, order: Option<int>, newId: Id)
    requires newId !in children && OrderManager.Dense(ChildOrders(children, parent))
    requires order.Some? ==> 0 <= order.value <= |ChildOrders(children, parent)|
    ensures OrderManager.Dense(ChildOrders(AfterCreate(children, parent, title, order, newId), parent))
  {
    var siblings := ChildOrders(children, parent);
    CreateOrders(children, parent, title, order, newId);
    if order.None? {
      OrderManager.AppendKeepsDense(siblings, newId);
    } else {
      OrderManager.InsertKeepsDense(siblings, order.value, newId);
    }
  }

  /** Creating keeps distinct sibling orders distinct, at any position. */
  lemma CreateKeepsDistinct(children: map<Id, Child>, parent: Id, title: string, order: Option<int>, newId: Id)
    requires newId !in children && OrderManager.Distinct(ChildOrders(children, parent))
    ensures OrderManager.Distinct(ChildOrders(AfterCreate(children, parent, title, order, newId), parent))
  {
    var siblings := ChildOrders(children, parent);
    CreateOrders(children, parent, title, order, newId);
    if order.Some? {
      OrderManager.InsertKeepsDistinct(siblings, order.value, newId);
    }
  }

  /** Only a negative order is refused, so a create at a position past the end of the
      siblings goes through and leaves a gap: the orders are no longer 0..n. */
  lemma CreatePastEndLeavesGap(children: map<Id, Child>, parent: Id, title: string, order: Option<int>, newId: Id)
    requires newId !in children && order.Some? && order.value > |ChildOrders(children, parent)|
    ensures !OrderManager.Dense(ChildOrders(AfterCreate(children, parent, title, order, newId), parent))
  {
    var siblings := ChildOrders(children, parent);
    var after := ChildOrders(AfterCreate(children, parent, title, order, newId), parent);
    CreateOrders(children, parent, title, order, newId);
    assert newId !in MakeRoom(siblings, order);
    assert |after| == |siblings| + 1;
    assert after[newId] == order.value;
  }

  // ---------------------------------------------------------------------------
  // Update (retitle and move)

  /** The order after an update: the requested one, or the current one when none is given. */
  function OrderAfter(current: int, order: Option<int>): int {
    if order.Some? then order.value else current
  }

  /** The title after an update that carries an optional title. */
  function TitleAfter(title: Option<string>, current: string): string {
    if title.Some? then title.value else current
  }

  /** The siblings of child `id`, the child itself excluded. */
  function SiblingsOf(children: map<Id, Child>, id: Id): map<Id, int>
    requires id in children
  {
    ChildOrders(children - {id}, children[id].parent)
  }

  function Updated(child: Child, title: Option<string>, order: Option<int>): Child {
    child.(title := TitleAfter(title, child.title), order := OrderAfter(child.order, order))
  }

  function AfterUpdate(children: map<Id, Child>, id: Id, title: Option<string>, order: Option<int>): map<Id, Child>
    requires id in children
  {
    var current := children[id];
    var moved := OrderManager.ShiftedForUpdate(SiblingsOf(children, id), current.order, OrderAfter(current.order, order));
    WithOrders(children, moved)[id := Updated(current, title, order)]
  }

  /** The siblings an update stamps besides the child itself: those whose order it changes. */
  function ShiftedByUpdate(children: map<Id, Child>, id: Id, order: Option<int>): set<Id>
    requires id in children
  {
    var siblings := SiblingsOf(children, id);
    var moved := OrderManager.ShiftedForUpdate(siblings, children[id].order, OrderAfter(children[id].order, order));
    set x | x in siblings && moved[x] != siblings[x]
  }

  /** An update gives the parent the moved sibling orders plus the child's new order. */
  lemma UpdateOrders(children: map<Id, Child>, id: Id, title: Option<string>, order: Option<int>)
    requires id in children
    ensures var current := children[id];
      var newOrder := OrderAfter(current.order, order);
      ChildOrders(AfterUpdate(children, id, title, order), current.parent) ==
        OrderManager.ShiftedForUpdate(SiblingsOf(children, id), current.order, newOrder)[id := newOrder]
  {
    var current := children[id];
    var moved := OrderManager.ShiftedForUpdate(SiblingsOf(children, id), current.order, OrderAfter(current.order, order));
    ReplaceChild(children, moved, id, Updated(current, title, order));
  }

  /** An update that keeps the child's order leaves every sibling order as it was. */
  lemma UpdateInPlaceKeepsOrders(children: map<Id, Child>, id: Id, title: Option<string>, order: Option<int>)
    requires id in children && OrderAfter(children[id].order, order) == children[id].order
    ensures ChildOrders(AfterUpdate(children, id, title, order), children[id].parent) == ChildOrders(children, children[id].parent)
  {
    var current := children[id];
    var siblings := SiblingsOf(children, id);
    assert OrderManager.ShiftedForUpdate(siblings, current.order, current.order) == siblings;
    UpdateOrders(children, id, title, order);
    SplitChild(children, id);
  }

  /** An update leaves the children of other parents alone and changes nothing of a
      sibling but its order. */
  lemma UpdateLeavesOthers(children: map<Id, Child>, id: Id, title: Option<string>, order: Option<int>)
    requires id in children
    ensures forall q :: q != children[id].parent ==>
      ChildOrders(AfterUpdate(children, id, title, order), q) == ChildOrders(children, q)
    ensures forall x :: x in children && x != id ==>
      AfterUpdate(children, id, title, order)[x].(order := children[x].order) == children[x]
  {
    var current := children[id];
    var updated := Updated(current, title, order);
    var moved := OrderManager.ShiftedForUpdate(SiblingsOf(children, id), current.order, OrderAfter(current.order, order));
    WriteBackOrders(children - {id}, current.parent, moved);
    assert AfterUpdate(children, id, title, order) == WithOrders(children - {id}, moved)[id := updated];
    AddChild(WithOrders(children - {id}, moved), id, updated);
    RemoveChild(children, id);
    forall q | q != current.parent
      ensures ChildOrders(children, q) - {id} == ChildOrders(children, q)
    {
      assert id !in ChildOrders(children, q);
    }
  }

  /** Moving a child to a position within 0..n-1 keeps dense siblings dense. */
  lemma UpdateKeepsDense(children: map<Id, Child>, id: Id, title: Option<string>, order: Option<int>)
    requires id in children && OrderManager.Dense(ChildOrders(children, children[id].parent))
    requires order.Some? ==> 0 <= order.value < |ChildOrders(children, children[id].parent)|
    ensures OrderManager.Dense(ChildOrders(AfterUpdate(children, id, title, order), children[id].parent))
  {
    var current := children[id];
    var all := ChildOrders(children, current.parent);
    UpdateOrders(children, id, title, order);
    SplitChild(children, id);
    assert current.order in all.Values by {
      assert all[id] == current.order;
    }
    OrderManager.UpdateKeepsDense(SiblingsOf(children, id), id, current.order, OrderAfter(current.order, order));
  }

  /** Moving a child keeps distinct sibling orders distinct, to any position. */
  lemma UpdateKeepsDistinct(children: map<Id, Child>, id: Id, title: Option<string>, order: Option<int>)
    requires id in children && OrderManager.Distinct(ChildOrders(children, children[id].parent))
    ensures OrderManager.Distinct(ChildOrders(AfterUpdate(children, id, title, order), children[id].parent))
  {
    var current := children[id];
    var all := ChildOrders(children, current.parent);
    var siblings := SiblingsOf(children, id);
    UpdateOrders(children, id, title, order);
    SplitChild(children, id);
    assert current.order !in siblings.Values by {
      forall x | x in siblings ensures siblings[x] != current.order {
        assert x in all && x != id && all[x] == siblings[x];
      }
    }
    assert OrderManager.Distinct(siblings) by {
      forall x, y | x in siblings && y in siblings && x != y ensures siblings[x] != siblings[y] {
        assert all[x] == siblings[x] && all[y] == siblings[y];
      }
    }
    OrderManager.UpdateKeepsDistinct(siblings, id, current.order, OrderAfter(current.order, order));
  }

  /** Only a negative order is refused, so a move to a position at or past the end of the
      siblings goes through and leaves a gap: the orders are no longer 0..n-1. */
  lemma UpdatePastEndLeavesGap(children: map<Id, Child>, id: Id, title: Option<string>, order: Option<int>)
    requires id in children && order.Some? && order.value >= |ChildOrders(children, children[id].parent)|
    ensures !OrderManager.Dense(ChildOrders(AfterUpdate(children, id, title, order), children[id].parent))
  {
    var current := children[id];
    var siblings := SiblingsOf(children, id);
    var after := ChildOrders(AfterUpdate(children, id, title, order), current.parent);
    UpdateOrders(children, id, title, order);
    SplitChild(children, id);
    assert id !in OrderManager.ShiftedForUpdate(siblings, current.order, order.value);
    assert |after| == |siblings| + 1;
    assert after[id] == order.value;
  }

  // ---------------------------------------------------------------------------
  // Delete

  function AfterDelete(children: map<Id, Child>, id: Id): map<Id, Child>
    requires id in children
  {
    WithOrders(children - {id}, OrderManager.ShiftedForDelete(SiblingsOf(children, id), children[id].order))
  }

  /** The siblings a delete stamps: those above the removed child. */
  function ShiftedByDelete(children: map<Id, Child>, id: Id): set<Id>
    requires id in children
  {
    set x | x in SiblingsOf(children, id) && SiblingsOf(children, id)[x] > children[id].order
  }

  /** A delete removes the child, closes the gap among its siblings, leaves other parents
      alone and changes nothing of a sibling but its order. */
  lemma DeleteOrders(children: map<Id, Child>, id: Id)
    requires id in children
    ensures AfterDelete(children, id).Keys == children.Keys - {id}
    ensures ChildOrders(AfterDelete(children, id), children[id].parent) ==
      OrderManager.ShiftedForDelete(SiblingsOf(children, id), children[id].order)
    ensures forall q :: q != children[id].parent ==> ChildOrders(AfterDelete(children, id), q) == ChildOrders(children, q)
    ensures forall x :: x in children && x != id ==>
      AfterDelete(children, id)[x].(order := children[x].order) == children[x]
  {
    var siblings := SiblingsOf(children, id);
    WriteBackOrders(children - {id}, children[id].parent, OrderManager.ShiftedForDelete(siblings, children[id].order));
    RemoveChild(children, id);
  }

  /** Deleting from dense siblings leaves the rest dense. */
  lemma DeleteKeepsDense(children: map<Id, Child>, id: Id)
    requires id in children && OrderManager.Dense(ChildOrders(children, children[id].parent))
    ensures OrderManager.Dense(ChildOrders(AfterDelete(children, id), children[id].parent))
  {
    DeleteOrders(children, id);
    SplitChild(children, id);
    OrderManager.DeleteKeepsDense(SiblingsOf(children, id), id, children[id].order);
  }
}
