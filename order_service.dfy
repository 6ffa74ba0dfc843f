/** The order rules of `OrderService`: creating an order, listing orders and changing an
    order's status. The service keeps its state in the stores it is given: the menu
    catalog (only which menu ids exist matters), the tables and the orders. */
module OrderServices {
  import opened Wrappers
  import opened Collections
  import opened Domain

  /** The menu id of each line item, in order. */
  function MenuIds(items: seq<OrderLineItem>): (ids: seq<int>)
    ensures |ids| == |items| && forall i :: 0 <= i < |items| ==> ids[i] == items[i].menuId
  {
    seq(|items|, i requires 0 <= i < |items| => items[i].menuId)
  }

  /** The creation guards, checked in this order: at least one line item; the catalog's
      count of the items' menu ids equals the number of items; the table exists; the table
      is not empty. `None` when all pass. Since the count is over distinct menu ids, the
      second guard passes exactly when no two items name the same menu and every named
      menu exists. */
  function CreateGuard(menus: set<int>, tables: map<int, OrderTable>, order: Order): (r: Option<Failure>)
    ensures r == Some(EmptyOrderLineItems) <==> order.lineItems == []
    ensures r == Some(MenuNotFound) <==>
      order.lineItems != [] &&
      !(Distinct(MenuIds(order.lineItems)) && forall i :: 0 <= i < |order.lineItems| ==> order.lineItems[i].menuId in menus)
    ensures r == Some(TableNotFound) <==>
      order.lineItems != [] &&
      Distinct(MenuIds(order.lineItems)) &&
      (forall i :: 0 <= i < |order.lineItems| ==> order.lineItems[i].menuId in menus) &&
      order.orderTableId !in tables
    ensures r == Some(EmptyTable) <==>
      order.lineItems != [] &&
      Distinct(MenuIds(order.lineItems)) &&
      (forall i :: 0 <= i < |order.lineItems| ==> order.lineItems[i].menuId in menus) &&
      order.orderTableId in tables && tables[order.orderTableId].empty
    ensures r == None <==>
      order.lineItems != [] &&
      Distinct(MenuIds(order.lineItems)) &&
      (forall i :: 0 <= i < |order.lineItems| ==> order.lineItems[i].menuId in menus) &&
      order.orderTableId in tables && !tables[order.orderTableId].empty
  {
    var ids := MenuIds(order.lineItems);
    assert (forall x :: x in ids ==> x in menus) <==>
      forall i :: 0 <= i < |order.lineItems| ==> order.lineItems[i].menuId in menus;
    if |order.lineItems| == 0 then Some(EmptyOrderLineItems)
    else if |order.lineItems| != CountIn(ids, menus) then Some(MenuNotFound)
    else if order.orderTableId !in tables then Some(TableNotFound)
    else if tables[order.orderTableId].empty then Some(EmptyTable)
    else None
  }

  /** The test set-up: one line item for an existing menu, at an existing occupied table,
      is accepted; each of the refusal tests changes one thing and is refused by its guard. */
  lemma CreateScenarios(menus: set<int>, tables: map<int, OrderTable>, order: Order)
    requires 1 in menus && 1 in tables && !tables[1].empty
    requires order.orderTableId == 1 && order.lineItems == [OrderLineItem(0, None, 1, 1)]
    ensures CreateGuard(menus, tables, order) == None
    ensures CreateGuard(menus, tables, order.(lineItems := [])) == Some(EmptyOrderLineItems)
    ensures CreateGuard({}, tables, order) == Some(MenuNotFound)
    ensures CreateGuard(menus, map[], order) == Some(TableNotFound)
    ensures CreateGuard(menus, tables[1 := tables[1].(empty := true)], order) == Some(EmptyTable)
  {
  }

  /** Two line items for the same menu make the creation fail, even though the menu exists:
      the catalog counts that menu once. */
  lemma RepeatedMenuRejected(menus: set<int>, tables: map<int, OrderTable>, order: Order, i: int, j: int)
    requires 0 <= i < j < |order.lineItems|
    requires order.lineItems[i].menuId == order.lineItems[j].menuId
    ensures CreateGuard(menus, tables, order) == Some(MenuNotFound)
  {
  }

  /** The order as saved: the new id, the table it was asked for, COOKING, and each line
      item attached to the new id. */
  function Placed(order: Order, id: int): (placed: Order)
    ensures placed.id == id && placed.orderTableId == order.orderTableId && placed.status == COOKING
    ensures |placed.lineItems| == |order.lineItems|
    ensures forall i :: 0 <= i < |order.lineItems| ==>
      placed.lineItems[i] == order.lineItems[i].(orderId := Some(id))
  {
    Order(id, order.orderTableId, COOKING,
      seq(|order.lineItems|, i requires 0 <= i < |order.lineItems| => order.lineItems[i].(orderId := Some(id))))
  }

  /** A status change on one order: refused when the order is already COMPLETION,
      otherwise the requested status overwrites the current one. */
  function ChangeStatus(order: Order, requested: Status): (r: Result<Order, Failure>)
    ensures r.Failure? <==> order.status == COMPLETION
    ensures r.Failure? ==> r.error == OrderAlreadyCompleted
    ensures r.Success? ==>
      r.value.status == requested && r.value.id == order.id &&
      r.value.orderTableId == order.orderTableId && r.value.lineItems == order.lineItems
  {
    if order.status == COMPLETION then Failure(OrderAlreadyCompleted)
    else Success(order.(status := requested))
  }

  /** The order after a series of status-change requests, each refused one leaving it as it was. */
  function Replay(order: Order, requests: seq<Status>): Order
    decreases requests
  {
    if requests == [] then order
    else
      match ChangeStatus(order, requests[0])
      case Success(next) => Replay(next, requests[1..])
      case Failure(_) => Replay(order, requests[1..])
  }

  /** COMPLETION is terminal: no request, in any number, changes a completed order. */
  lemma {:induction false} CompletedStaysCompleted(order: Order, requests: seq<Status>)
    requires order.status == COMPLETION
    ensures Replay(order, requests) == order
  {
    if requests != [] {
      CompletedStaysCompleted(order, requests[1..]);
    }
  }

  /** Once COMPLETION has been requested of a live order, the order ends completed,
      whatever is requested after it. */
  lemma {:induction false} CompletionAbsorbs(order: Order, requests: seq<Status>)
    requires COMPLETION in requests
    ensures Replay(order, requests).status == COMPLETION
    decreases requests
  {
    if requests[0] == COMPLETION {
      match ChangeStatus(order, requests[0])
      case Success(next) => CompletedStaysCompleted(next, requests[1..]);
      case Failure(_) => CompletedStaysCompleted(order, requests[1..]);
    } else {
      assert COMPLETION in requests[1..];
      match ChangeStatus(order, requests[0])
      case Success(next) => CompletionAbsorbs(next, requests[1..]);
      case Failure(_) => CompletionAbsorbs(order, requests[1..]);
    }
  }

  /** Any series of status-change requests, refused or not, leaves the order's id, table and
      line items as they were: only the status can differ. */
  lemma {:induction false} ReplayKeepsAllButStatus(order: Order, requests: seq<Status>)
    ensures Replay(order, requests) == order.(status := Replay(order, requests).status)
    decreases requests
  {
    if requests != [] {
      match ChangeStatus(order, requests[0])
      case Success(next) => ReplayKeepsAllButStatus(next, requests[1..]);
      case Failure(_) => ReplayKeepsAllButStatus(order, requests[1..]);
    }
  }

  /** For a live order and a series without COMPLETION, every request is accepted: the status
      ends as the last request, or the old status if there was none. */
  lemma {:induction false} ReplayOnlyStatus(order: Order, requests: seq<Status>)
    requires order.status != COMPLETION && COMPLETION !in requests
    ensures Replay(order, requests) == order.(status := if requests == [] then order.status else requests[|requests| - 1])
    decreases requests
  {
    if requests != [] {
      var next := order.(status := requests[0]);
      assert ChangeStatus(order, requests[0]) == Success(next);
      ReplayOnlyStatus(next, requests[1..]);
    }
  }

  /** The transitions need not follow COOKING, MEAL, COMPLETION in turn: a cooking order can
      be completed at once, and a meal can go back to cooking. */
  lemma NonSequentialTransitions(order: Order)
    ensures ChangeStatus(order.(status := COOKING), COMPLETION) == Success(order.(status := COMPLETION))
    ensures ChangeStatus(order.(status := MEAL), COOKING) == Success(order.(status := COOKING))
  {
  }

  class OrderService {
    /** The ids of the menus in the catalog. */
    var menus: set<int>
    var tables: map<int, OrderTable>
    var orders: map<int, Order>
    /** The id the order store gives the next saved order. */
    var nextOrderId: int

    /** Every stored order sits under its own id, below the next id to be handed out. */
    ghost predicate Valid()
      reads this
    {
      1 <= nextOrderId &&
      forall id :: id in orders ==> 1 <= id < nextOrderId && orders[id].id == id
    }

    constructor (menus: set<int>, tables: map<int, OrderTable>)
      ensures Valid()
      ensures this.menus == menus && this.tables == tables && orders == map[] && nextOrderId == 1
    {
      this.menus := menus;
      this.tables := tables;
      orders := map[];
      nextOrderId := 1;
    }

    /** `create`: runs the guards; on success saves the order as COOKING under a fresh id
        and saves each of its line items attached to that id. A refused order changes nothing. */
    method Create(order: Order) returns (r: Result<Order, Failure>)
      requires Valid()
      modifies this
      ensures Valid()
      ensures menus == old(menus) && tables == old(tables)
      ensures CreateGuard(menus, tables, order).Some? ==>
        r == Failure(CreateGuard(menus, tables, order).value) &&
        orders == old(orders) && nextOrderId == old(nextOrderId)
      ensures CreateGuard(menus, tables, order).None? ==>
        r == Success(Placed(order, old(nextOrderId))) &&
        old(nextOrderId) !in old(orders) &&
        orders == old(orders)[old(nextOrderId) := r.value] &&
        nextOrderId == old(nextOrderId) + 1
    {
      var guard := CreateGuard(menus, tables, order);
      if guard.Some? {
        return Failure(guard.value);
      }
      var id := nextOrderId;
      var saved := AttachLineItems(order.lineItems, id);
      var placed := Order(id, order.orderTableId, COOKING, saved);
      assert placed == Placed(order, id);
      orders := orders[id := placed];
      nextOrderId := nextOrderId + 1;
      r := Success(placed);
    }

    /** Saves each line item, one at a time, attached to the order id `id`. */
    static method AttachLineItems(items: seq<OrderLineItem>, id: int) returns (saved: seq<OrderLineItem>)
      ensures |saved| == |items|
      ensures forall i :: 0 <= i < |items| ==> saved[i] == items[i].(orderId := Some(id))
    {
      saved := [];
      for i := 0 to |items|
        invariant |saved| == i
        invariant forall j :: 0 <= j < i ==> saved[j] == items[j].(orderId := Some(id))
      {
        saved := saved + [items[i].(orderId := Some(id))];
      }
    }

    /** `list`: every stored order exactly once, in id order. */
    method List() returns (r: seq<Order>)
      requires Valid()
      ensures forall id :: id in orders ==> orders[id] in r
      ensures forall i :: 0 <= i < |r| ==> r[i].id in orders && orders[r[i].id] == r[i]
      ensures forall i, j :: 0 <= i < j < |r| ==> r[i].id < r[j].id
    {
      r := [];
      for id := 1 to nextOrderId
        invariant forall k :: k in orders && k < id ==> orders[k] in r
        invariant forall i :: 0 <= i < |r| ==> r[i].id in orders && orders[r[i].id] == r[i] && r[i].id < id
        invariant forall i, j :: 0 <= i < j < |r| ==> r[i].id < r[j].id
      {
        if id in orders {
          r := r + [orders[id]];
        }
      }
    }

    /** `changeOrderStatus`: refused for a missing order and for a completed one; otherwise
        the stored order gets exactly the requested status and nothing else changes. */
    method ChangeOrderStatus(orderId: int, requested: Status) returns (r: Result<Order, Failure>)
      requires Valid()
      modifies this
      ensures Valid()
      ensures menus == old(menus) && tables == old(tables) && nextOrderId == old(nextOrderId)
      ensures orderId !in old(orders) ==> r == Failure(OrderNotFound)
      ensures orderId in old(orders) && old(orders)[orderId].status == COMPLETION ==>
        r == Failure(OrderAlreadyCompleted)
      ensures orderId in old(orders) && old(orders)[orderId].status != COMPLETION ==>
        r == Success(old(orders)[orderId].(status := requested))
      ensures r.Failure? ==> orders == old(orders)
      ensures r.Success? ==> orders == old(orders)[orderId := r.value]
    {
      if orderId !in orders {
        return Failure(OrderNotFound);
      }
      r := ChangeStatus(orders[orderId], requested);
      if r.Success? {
        orders := orders[orderId := r.value];
      }
    }
  }
}
