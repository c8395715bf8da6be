/** Orders as the account reconciler sees them, and the two selections it makes
    from a freshly fetched order list: the orders still open, and the orders
    whose closing it records in the history. */
module Orders {

  /** An order: its venue-assigned id (empty until the venue assigns one) and
      whether it is still resting. Side, price, quantity and executed amount are
      carried by the venue and play no part in the reconciliation. */
  datatype Order = Order(id: string, active: bool)

  /** An inactive order with an id that was open before the fetch: a transition
      the reconciler knows about and records. */
  predicate Closes(o: Order, prevOpenIds: seq<string>)
  {
    !o.active && |o.id| > 0 && o.id in prevOpenIds
  }

  /** The fetched orders that are still active, in fetch order. */
  function ActiveOrders(orders: seq<Order>): seq<Order>
  {
    if orders == [] then []
    else
      var o := orders[|orders| - 1];
      ActiveOrders(orders[..|orders| - 1]) + (if o.active then [o] else [])
  }

  /** The fetched orders whose closing is recorded, in fetch order. */
  function Transitions(orders: seq<Order>, prevOpenIds: seq<string>): seq<Order>
  {
    if orders == [] then []
    else
      var o := orders[|orders| - 1];
      Transitions(orders[..|orders| - 1], prevOpenIds) + (if Closes(o, prevOpenIds) then [o] else [])
  }

  lemma ActiveOrdersSnoc(orders: seq<Order>, o: Order)
    ensures ActiveOrders(orders + [o]) == ActiveOrders(orders) + (if o.active then [o] else [])
  {
    assert (orders + [o])[..|orders|] == orders;
  }

  lemma TransitionsSnoc(orders: seq<Order>, o: Order, prevOpenIds: seq<string>)
    ensures Transitions(orders + [o], prevOpenIds) ==
      Transitions(orders, prevOpenIds) + (if Closes(o, prevOpenIds) then [o] else [])
  {
    assert (orders + [o])[..|orders|] == orders;
  }

  /** Open set: the reconciled open orders are exactly the fetched active
      orders, each as often as it was fetched, and nothing else. */
  lemma {:induction false} ActiveOrdersExact(orders: seq<Order>)
    ensures forall o :: multiset(ActiveOrders(orders))[o] == if o.active then multiset(orders)[o] else 0
  {
    if orders != [] {
      var init, o := orders[..|orders| - 1], orders[|orders| - 1];
      assert orders == init + [o];
      ActiveOrdersExact(init);
    }
  }

  /** Reconciliation completeness and safety: the history gains exactly the
      fetched orders that are inactive, carry an id and were open before, each
      as often as it was fetched; an order with an empty id, with an id that was
      not open, or still active never enters it. */
  lemma {:induction false} TransitionsExact(orders: seq<Order>, prevOpenIds: seq<string>)
    ensures forall o ::
      multiset(Transitions(orders, prevOpenIds))[o] == (if Closes(o, prevOpenIds) then multiset(orders)[o] else 0)
    ensures forall o :: o in Transitions(orders, prevOpenIds) ==> !o.active && |o.id| > 0 && o.id in prevOpenIds
  {
    if orders != [] {
      var init, o := orders[..|orders| - 1], orders[|orders| - 1];
      assert orders == init + [o];
      TransitionsExact(init, prevOpenIds);
    }
    forall o | o in Transitions(orders, prevOpenIds) ensures Closes(o, prevOpenIds) {
      assert multiset(Transitions(orders, prevOpenIds))[o] > 0;
    }
  }

  /** The ids of `orders`, position by position. */
  function IdsOf(orders: seq<Order>): (r: seq<string>)
    ensures |r| == |orders|
  {
    seq(|orders|, i requires 0 <= i < |orders| => orders[i].id)
  }

  /** The previously open ids are exactly the ids of the previously open orders. */
  lemma IdsOfMembers(orders: seq<Order>)
    ensures forall o :: o in orders ==> o.id in IdsOf(orders)
    ensures forall id :: id in IdsOf(orders) ==> exists o :: o in orders && o.id == id
  {
    var r := IdsOf(orders);
    assert forall i :: 0 <= i < |orders| ==> r[i] == orders[i].id && r[i] in r && orders[i] in orders;
  }

  /** With no order open before, no fetched order can be a recorded transition. */
  lemma {:induction false} NothingClosesFromEmpty(orders: seq<Order>)
    ensures Transitions(orders, []) == []
  {
    if orders != [] {
      NothingClosesFromEmpty(orders[..|orders| - 1]);
    }
  }
}
