/** The `Orders` collection: a list of orders that answers status questions about itself. */
module OrderCollection {
  import opened Wrappers
  import opened Domain

  /** `Order.containsOrderStatus`: the order's status is one of `statuses`. */
  predicate HasStatusIn(order: Order, statuses: seq<Status>)
    ensures HasStatusIn(order, statuses) <==> exists i :: 0 <= i < |statuses| && statuses[i] == order.status
  {
    order.status in statuses
  }

  /** `containsOderStatuses`: some order of the list has a status in `statuses`
      (the stream's `anyMatch`, walked from the front). */
  function ContainsOrderStatuses(orders: seq<Order>, statuses: seq<Status>): (r: bool)
    ensures r <==> exists i :: 0 <= i < |orders| && HasStatusIn(orders[i], statuses)
  {
    if orders == [] then false
    else if HasStatusIn(orders[0], statuses) then true
    else
      var r := ContainsOrderStatuses(orders[1..], statuses);
      assert forall i :: 0 < i < |orders| ==> orders[i] == orders[1..][i - 1];
      r
  }

  /** An empty list contains no status at all. */
  lemma EmptyContainsNothing(statuses: seq<Status>)
    ensures !ContainsOrderStatuses([], statuses)
  {
  }

  /** Asking about more statuses can only turn a `false` into a `true`. */
  lemma ContainsMonotone(orders: seq<Order>, statuses: seq<Status>, more: seq<Status>)
    requires forall s :: s in statuses ==> s in more
    requires ContainsOrderStatuses(orders, statuses)
    ensures ContainsOrderStatuses(orders, more)
  {
  }

  /** The answer depends only on which orders are in the list, not on their order. */
  lemma ContainsPermutationInvariant(orders: seq<Order>, shuffled: seq<Order>, statuses: seq<Status>)
    requires multiset(orders) == multiset(shuffled)
    ensures ContainsOrderStatuses(orders, statuses) == ContainsOrderStatuses(shuffled, statuses)
  {
    if ContainsOrderStatuses(orders, statuses) {
      var i :| 0 <= i < |orders| && HasStatusIn(orders[i], statuses);
      assert orders[i] in multiset(shuffled);
      var j :| 0 <= j < |shuffled| && shuffled[j] == orders[i];
      assert HasStatusIn(shuffled[j], statuses);
    }
    if ContainsOrderStatuses(shuffled, statuses) {
      var j :| 0 <= j < |shuffled| && HasStatusIn(shuffled[j], statuses);
      assert shuffled[j] in multiset(orders);
      var i :| 0 <= i < |orders| && orders[i] == shuffled[j];
      assert HasStatusIn(orders[i], statuses);
    }
  }

  /** `validateStatusNotCompletion`, as written: it throws when some order is COMPLETION
      or MEAL, and passes when every order is COOKING. */
  function ValidateStatusNotCompletion(orders: seq<Order>): (r: Outcome<Failure>)
    ensures r.Fail? <==> exists i :: 0 <= i < |orders| && orders[i].status in {COMPLETION, MEAL}
    ensures r.Fail? ==> r.error == IncompleteOrders
  {
    if ContainsOrderStatuses(orders, [COMPLETION, MEAL]) then Fail(IncompleteOrders) else Pass
  }

  /** Every COOKING-only list, unfinished orders and all, passes the guard. */
  lemma CookingOnlyPasses(orders: seq<Order>)
    requires forall i :: 0 <= i < |orders| ==> orders[i].status == COOKING
    ensures ValidateStatusNotCompletion(orders) == Pass
  {
  }

  /** The guard does the opposite of what its name and its message ("there are unfinished
      orders") say: a list whose every order is finished is rejected, while a list of
      orders still cooking is let through. */
  lemma ValidateStatusNotCompletionIsInverted(finished: seq<Order>, cooking: seq<Order>)
    requires finished != [] && forall i :: 0 <= i < |finished| ==> finished[i].status == COMPLETION
    requires cooking != [] && forall i :: 0 <= i < |cooking| ==> cooking[i].status == COOKING
    ensures ValidateStatusNotCompletion(finished) == Fail(IncompleteOrders)
    ensures ValidateStatusNotCompletion(cooking) == Pass
  {
  }
}
