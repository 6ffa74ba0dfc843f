/** The entities the order and table rules work on. Database ids are integers; a nullable
    id is an `Option`. Creation timestamps, menu prices and products are not modelled. */
module Domain {
  import opened Wrappers
  import opened Quantities

  /** `OrderStatus`. COOKING and MEAL are the active statuses; COMPLETION is final. */
  datatype Status = COOKING | MEAL | COMPLETION

  /** The statuses the table rules treat as unfinished business. */
  const ACTIVE_STATUSES: seq<Status> := [COOKING, MEAL]

  /** One menu selection of an order. `orderId` is null until the order is saved;
      the quantity is the raw `long` the line item carries. */
  datatype OrderLineItem = OrderLineItem(sequence: int, orderId: Option<int>, menuId: int, quantity: Long)

  /** An order: the table it was placed at, its status and the line items it owns. */
  datatype Order = Order(id: int, orderTableId: int, status: Status, lineItems: seq<OrderLineItem>)

  /** A seating unit: whether it is empty and the group it belongs to, if any. */
  datatype OrderTable = OrderTable(id: int, tableGroupId: Option<int>, numberOfGuests: int, empty: bool)

  /** A group of tables billed together, by the ids of its member tables. */
  datatype TableGroup = TableGroup(id: int, orderTableIds: seq<int>)

  /** Why an operation threw. The source throws `IllegalArgumentException` for every one of
      these; the kinds only say which guard fired. */
  datatype Failure =
    | EmptyOrderLineItems
    | MenuNotFound
    | TableNotFound
    | EmptyTable
    | OrderNotFound
    | OrderAlreadyCompleted
    | IncompleteOrders
    | InsufficientTables
    | TableNotGroupable
    | ActiveOrderExists
}
