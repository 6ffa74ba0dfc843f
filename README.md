# kitchenpos order and table rules, in Dafny

This project models the rules a restaurant point-of-sale applies to orders and tables:

- the `Quantity` value object of an order line item, a Java `long` that refuses negatives;
- the `Orders` collection, which answers whether any of its orders has a status from a given list
  and guards against "unfinished" orders;
- `OrderService`: creating an order (line items present, every menu known, table present and
  occupied), listing orders and changing an order's status (COMPLETION is final);
- `TableGroupService`: joining at least two empty, ungrouped tables into one group, and dissolving a
  group once no member table has a COOKING or MEAL order.

The two service models follow what the services' unit tests assert. The two services are classes whose fields are the stores they use: menu ids,
tables and orders for `OrderService`; tables, orders and groups for `TableGroupService`. Each method
runs every guard before it writes anything. A refused call changes nothing. An accepted one changes
exactly the entries its contract names. Three loops save things one at a time:
- `AttachLineItems` builds the new line-item sequence item by item. It is proved against the
  `Placed` order.
- `JoinGroup` saves the requested tables one by one into a local copy of the table store. It is
  proved against the map function `Grouped`.
- `LeaveGroup` does the same for the member tables and is proved against `Cleared`. The lemma
  `UngroupedIsClearedMembers` then turns that result into `Ungrouped`.

Files: `wrappers.dfy` (Option, Result, Outcome), `collections.dfy` (id lists and the batch count),
`quantity.dfy`, `domain.dfy` (statuses, orders, tables, groups, failure kinds), `orders.dfy`,
`order_service.dfy`, `table_group_service.dfy`.

Where the code departs from what its names, messages or test names suggest, the model follows the code and its tests:

- The menu check compares the catalog's count of the items' menu ids with the number of line items.
  It does not compare with the number of distinct ids. So two line items for the same menu are
  refused (`RepeatedMenuRejected`).
- `Orders.validateStatusNotCompletion` throws when some order is COMPLETION or MEAL. Its name and its
  message ("there are unfinished orders") say the opposite. The model keeps the code's behaviour and
  `ValidateStatusNotCompletionIsInverted` records it.
- The tests at `OrderServiceTest.java` lines 157-178 have their display names swapped. The one named
  "missing order" sets up a completed order, and the one named "completed order" sets up a missing
  one. The model follows what each test sets up.

Every refusal by the two services and by `Orders` is an `IllegalArgumentException`, so there the
`Failure` kinds only name the guard that fired. `Quantity.from` throws its own
`NegativeQuantityException`, modelled as `NegativeQuantity`.

## Model

| member | source | states |
|---|---|---|
| Quantities.From | src/main/java/kitchenpos/domain/Quantity.java:12-36 | fails with NegativeQuantity exactly when the input is below 0, so 0 is accepted; otherwise the quantity satisfies the class invariant (its type `ValidQuantity` carries it) and reads back the input unchanged |
| Quantities.Equals | src/main/java/kitchenpos/domain/Quantity.java:38-46 | two quantities are equal exactly when they hold the same value |
| Quantities.HashCode | src/main/java/kitchenpos/domain/Quantity.java:48-51 | `Objects.hash` of the long with 32-bit wrap-around; a non-negative quantity up to 2^31 - 32 hashes to itself plus 31 |
| Quantities.EqualsHashCode | src/main/java/kitchenpos/domain/Quantity.java:38-51 | equal quantities have equal hash codes |
| OrderCollection.HasStatusIn | kitchenpos-domain/src/main/java/kitchenpos/order/Orders.java:15 | an order matches a status list exactly when some entry of the list equals its status |
| OrderCollection.ContainsOrderStatuses | kitchenpos-domain/src/main/java/kitchenpos/order/Orders.java:13-17 | the any-match over the list is true exactly when some order's status is in the given list |
| OrderCollection.EmptyContainsNothing | kitchenpos-domain/src/main/java/kitchenpos/order/Orders.java:13-17 | an empty order list contains no status |
| OrderCollection.ContainsMonotone | kitchenpos-domain/src/main/java/kitchenpos/order/Orders.java:13-17 | asking about a superset of statuses keeps a true answer true |
| OrderCollection.ContainsPermutationInvariant | kitchenpos-domain/src/main/java/kitchenpos/order/Orders.java:14-15 | reordering the list does not change the answer |
| OrderCollection.ValidateStatusNotCompletion | kitchenpos-domain/src/main/java/kitchenpos/order/Orders.java:19-23 | fails exactly when some order is COMPLETION or MEAL |
| OrderCollection.CookingOnlyPasses | kitchenpos-domain/src/main/java/kitchenpos/order/Orders.java:19-23 | a list of COOKING orders passes the guard |
| OrderCollection.ValidateStatusNotCompletionIsInverted | kitchenpos-domain/src/main/java/kitchenpos/order/Orders.java:19-23 | a list of finished orders is rejected while a list of cooking orders passes: the opposite of the method's name |
| Collections.CountIn | src/test/java/kitchenpos/application/OrderServiceTest.java:89-98 | the batch existence count, taken one id at a time, equals the number of distinct known ids; it never exceeds the number of ids and equals it exactly when the ids are distinct and all exist |
| OrderServices.CreateGuard | src/test/java/kitchenpos/application/OrderServiceTest.java:78-123 | empty line items always fail first; the menu guard fails exactly when menu ids repeat or some menu is missing; with the menus accepted, TableNotFound exactly when the table is missing and EmptyTable exactly when it exists but is empty; creation passes exactly when items are present, their menus distinct and known, and the table exists and is occupied |
| OrderServices.CreateScenarios | src/test/java/kitchenpos/application/OrderServiceTest.java:50-123 | the test set-up is accepted, and each refusal test is refused by its own guard: no items, no menu, no table, empty table |
| OrderServices.RepeatedMenuRejected | src/test/java/kitchenpos/application/OrderServiceTest.java:89-98 | two line items for one menu fail the menu guard even when the menu exists |
| OrderServices.Placed | src/test/java/kitchenpos/application/OrderServiceTest.java:180-195 | the saved order has the new id, the requested table, status COOKING, and every line item kept and attached to the new id |
| OrderServices.OrderService.constructor | src/test/java/kitchenpos/application/OrderServiceTest.java:32-41 | the service starts with the given menus and tables and no orders |
| OrderServices.OrderService.Create | src/test/java/kitchenpos/application/OrderServiceTest.java:62-123 | a refused order fails with its guard's kind and changes nothing; an accepted one is stored under a fresh id as the `Placed` order and nothing else changes |
| OrderServices.OrderService.AttachLineItems | src/test/java/kitchenpos/application/OrderServiceTest.java:188-195 | each line item, in order, is saved attached to the new order id and otherwise unchanged |
| OrderServices.OrderService.List | src/test/java/kitchenpos/application/OrderServiceTest.java:125-137 | returns every stored order, only stored orders, each once, in id order |
| OrderServices.OrderService.ChangeOrderStatus | src/test/java/kitchenpos/application/OrderServiceTest.java:139-178 | fails on a missing order and on a COMPLETION order, changing nothing; otherwise the stored order gets exactly the requested status |
| OrderServices.ChangeStatus | src/test/java/kitchenpos/application/OrderServiceTest.java:139-167 | refused with OrderAlreadyCompleted exactly when the order is COMPLETION; otherwise the order takes the requested status and keeps its id, table and line items |
| OrderServices.CompletedStaysCompleted | src/test/java/kitchenpos/application/OrderServiceTest.java:157-167 | no sequence of status-change requests alters a completed order |
| OrderServices.CompletionAbsorbs | src/test/java/kitchenpos/application/OrderServiceTest.java:157-167 | once COMPLETION is requested of an order, it ends completed whatever follows |
| OrderServices.ReplayKeepsAllButStatus | src/test/java/kitchenpos/application/OrderServiceTest.java:139-167 | any series of status-change requests, refused or accepted, leaves the order's id, table and line items unchanged; only the status can differ |
| OrderServices.ReplayOnlyStatus | src/test/java/kitchenpos/application/OrderServiceTest.java:139-155 | for an order not yet COMPLETION and a series with no COMPLETION request, the order ends as it was except that its status is the last request (or unchanged for no request) |
| OrderServices.NonSequentialTransitions | src/test/java/kitchenpos/application/OrderServiceTest.java:139-155 | COOKING may go straight to COMPLETION and MEAL back to COOKING |
| TableGroupServices.GroupGuard | src/test/java/kitchenpos/application/TableGroupServiceTest.java:84-141 | a null or one-table list fails first; the lookup guard fails exactly when ids repeat or one is missing; with the lookup passed, TableNotGroupable exactly when some table is occupied or already grouped; a request passes exactly when it names at least two distinct tables that exist and are empty and ungrouped |
| TableGroupServices.UnavailableTableRejected | src/test/java/kitchenpos/application/TableGroupServiceTest.java:116-141 | a missing, occupied or already grouped table makes the request fail, whichever guard catches it |
| TableGroupServices.FixtureGroupable | src/test/java/kitchenpos/application/TableGroupServiceTest.java:49-82 | the two empty ungrouped fixture tables can be grouped; adding the occupied third fixture table fails |
| TableGroupServices.AcceptedTablesExist | src/test/java/kitchenpos/application/TableGroupServiceTest.java:116-128 | every table of an accepted request exists |
| TableGroupServices.Members | src/test/java/kitchenpos/application/TableGroupServiceTest.java:143-154 | the lookup by group id returns existing tables only, and exactly those that refer to the group |
| TableGroupServices.GroupedMembers | src/test/java/kitchenpos/application/TableGroupServiceTest.java:69-82 | after grouping under an unused id, the group's members are exactly the requested tables |
| TableGroupServices.UngroupedLeavesNoMember | src/test/java/kitchenpos/application/TableGroupServiceTest.java:143-154 | after ungrouping no table is in the group, and each table's other fields are unchanged |
| TableGroupServices.UngroupAfterGroup | src/test/java/kitchenpos/application/TableGroupServiceTest.java:143-154 | grouping then ungrouping restores every table except that the members stay occupied |
| TableGroupServices.HasActiveOrder | src/test/java/kitchenpos/application/TableGroupServiceTest.java:156-167 | the query for COOKING or MEAL orders at the given tables holds exactly when some order there is not COMPLETION |
| TableGroupServices.CompletedOrdersAllowUngroup | src/test/java/kitchenpos/application/TableGroupServiceTest.java:156-167 | when every order at the group's member tables is COMPLETION, or there is none, the active-order query is false, so nothing blocks ungrouping |
| TableGroupServices.TableGroupService.constructor | src/test/java/kitchenpos/application/TableGroupServiceTest.java:32-42 | the service starts with the given tables, each under its own id and in no group, the given orders and no groups |
| TableGroupServices.TableGroupService.Create | src/test/java/kitchenpos/application/TableGroupServiceTest.java:69-141 | a refused request fails with its guard's kind and changes nothing; an accepted one saves a group under a fresh id whose members are exactly the requested tables, now occupied |
| TableGroupServices.TableGroupService.JoinGroup | src/test/java/kitchenpos/application/TableGroupServiceTest.java:69-82 | saving the requested tables one by one yields the `Grouped` tables |
| TableGroupServices.TableGroupService.LeaveGroup | src/test/java/kitchenpos/application/TableGroupServiceTest.java:143-154 | saving the member tables one by one with the group cleared yields exactly those tables cleared |
| TableGroupServices.TableGroupService.Ungroup | src/test/java/kitchenpos/application/TableGroupServiceTest.java:143-167 | fails, changing nothing, while a member table has a COOKING or MEAL order; otherwise every member leaves the group with its emptiness kept |

## Left out

- Quantities.HashCode: its contract pins the hash only for quantities from 0 to 2^31 - 32. The body computes every other value too, but the contract does not state them.
- The `Quantity` datatype constructor can be called directly, while the Java constructor is private. `From` returns the subset type `ValidQuantity`, which carries the invariant, and line items carry the raw `long`.
- Java's `equals(Object)` against null or another class, and the protected no-argument constructor that JPA needs, are not modelled. Neither has domain behaviour.
- `changeOrderStatus` with a null or unknown status name is not modelled. The requested status is always one of the three values.
- Order ids come from a counter. The create test's stubbed `save` hands back the test's own order, so its id check only shows that the saved order is what is returned.
- The group returned by `create` lists the table ids in request order. The order of `findAllByIdIn` is not known.
- `OrderService.list` returns orders in id order. The order of the store's `findAll` is not known.
- The two services keep separate stores, as their tests do. A scenario that groups tables, orders on one of them and then ungroups is not modelled as one run.
- Table occupancy and guest-count changes (`TableService`) are not part of this model; that service's source is not among the files modelled.
- Creation timestamps, menu prices, products, the DTO mapping, the REST controller, the event handler and persistence mechanics are left out. Only the existence of menu ids matters to the rules.
- Transactions and concurrent requests are not modelled. Each operation runs alone.
