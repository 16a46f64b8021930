/**
 * The order store: an in-memory list of orders that `addOrder` appends to
 * and `cancelOrder` rewrites, with lookups by id. Ids come from the clock
 * and are not assumed distinct.
 */
module Orders {
  import opened Wrappers

  datatype Status = Pending | Processing | Completed | Cancelled

  /** One order. `price` is in integer cents; `orderDate` is a clock reading. */
  datatype OrderItem = OrderItem(
    id: int,
    name: string,
    price: int,
    quantity: int,
    status: Status,
    orderDate: int,
    deliveryAddress: string)

  /** What a caller of `addOrder` supplies: an order without id, status and date. */
  datatype OrderDraft = OrderDraft(name: string, price: int, quantity: int, deliveryAddress: string)

  /** The order `addOrder` builds from a draft, with the clock readings for id and date. */
  function Placed(d: OrderDraft, id: int, date: int): (o: OrderItem)
    ensures o.id == id && o.orderDate == date && o.status == Pending
    ensures o.name == d.name && o.price == d.price && o.quantity == d.quantity
    ensures o.deliveryAddress == d.deliveryAddress
  {
    OrderItem(id, d.name, d.price, d.quantity, Pending, date, d.deliveryAddress)
  }

  /** The `prev.map(...)` of `cancelOrder`: every order with the id becomes cancelled. */
  function CancelMatching(s: seq<OrderItem>, id: int): (r: seq<OrderItem>)
    ensures |r| == |s|
    ensures forall i :: 0 <= i < |s| && s[i].id == id ==> r[i] == s[i].(status := Cancelled)
    ensures forall i :: 0 <= i < |s| && s[i].id != id ==> r[i] == s[i]
  {
    if s == [] then []
    else
      var head := if s[0].id == id then s[0].(status := Cancelled) else s[0];
      [head] + CancelMatching(s[1..], id)
  }

  /** Index `i` holds the first order of `s` whose id is `id`. */
  predicate IsFirstWithId(s: seq<OrderItem>, id: int, i: int)
  {
    0 <= i < |s| && s[i].id == id && forall j :: 0 <= j < i ==> s[j].id != id
  }

  /** The `orders.find(...)` of `getOrderById`: the first order with the id, if any. */
  function FirstWithId(s: seq<OrderItem>, id: int): (r: Option<OrderItem>)
    ensures r.None? <==> forall i :: 0 <= i < |s| ==> s[i].id != id
    ensures r.Some? ==> exists i :: IsFirstWithId(s, id, i) && s[i] == r.value
  {
    if s == [] then None
    else if s[0].id == id then assert IsFirstWithId(s, id, 0); Some(s[0])
    else
      var r := FirstWithId(s[1..], id);
      assert forall i :: IsFirstWithId(s[1..], id, i) ==> IsFirstWithId(s, id, i + 1);
      r
  }

  /** Only the two statuses the store can produce. */
  predicate OnlyPendingOrCancelled(s: seq<OrderItem>)
  {
    forall i :: 0 <= i < |s| ==> s[i].status == Pending || s[i].status == Cancelled
  }

  /** Cancelling twice is cancelling once. */
  lemma CancelIdempotent(s: seq<OrderItem>, id: int)
    ensures CancelMatching(CancelMatching(s, id), id) == CancelMatching(s, id)
  {
  }

  /** Cancelling an id no order has changes nothing. */
  lemma CancelAbsentIsNoop(s: seq<OrderItem>, id: int)
    requires FirstWithId(s, id).None?
    ensures CancelMatching(s, id) == s
  {
  }

  /** After a cancellation, looking the id up finds nothing or a cancelled order. */
  lemma FindAfterCancel(s: seq<OrderItem>, id: int)
    ensures var r := FirstWithId(CancelMatching(s, id), id);
      (r.None? <==> FirstWithId(s, id).None?) && (r.Some? ==> r.value.status == Cancelled)
  {
  }

  /** Appending with an id already in use leaves lookups finding the older order. */
  lemma {:induction false} FindAfterAdd(s: seq<OrderItem>, o: OrderItem)
    ensures FirstWithId(s, o.id).Some? ==> FirstWithId(s + [o], o.id) == FirstWithId(s, o.id)
    ensures FirstWithId(s, o.id).None? ==> FirstWithId(s + [o], o.id) == Some(o)
  {
    if s != [] {
      assert (s + [o])[1..] == s[1..] + [o];
      if s[0].id != o.id {
        FindAfterAdd(s[1..], o);
      }
    }
  }

  /** One store operation with the clock readings it uses. */
  datatype Op = Add(draft: OrderDraft, id: int, date: int) | Cancel(orderId: int)

  function Step(s: seq<OrderItem>, op: Op): seq<OrderItem>
  {
    match op
    case Add(d, id, date) => s + [Placed(d, id, date)]
    case Cancel(id) => CancelMatching(s, id)
  }

  /** The list after running the operations, in order, from the empty store. */
  function Replay(ops: seq<Op>): seq<OrderItem>
  {
    if ops == [] then [] else Step(Replay(ops[..|ops| - 1]), ops[|ops| - 1])
  }

  /** Each operation keeps the store free of `processing` and `completed` orders. */
  lemma StepKeepsStatuses(s: seq<OrderItem>, op: Op)
    requires OnlyPendingOrCancelled(s)
    ensures OnlyPendingOrCancelled(Step(s, op))
  {
  }

  /** No sequence of operations ever produces a `processing` or `completed` order. */
  lemma {:induction false} ReachableStatuses(ops: seq<Op>)
    ensures OnlyPendingOrCancelled(Replay(ops))
  {
    if ops != [] {
      ReachableStatuses(ops[..|ops| - 1]);
      StepKeepsStatuses(Replay(ops[..|ops| - 1]), ops[|ops| - 1]);
    }
  }

  /** The provider's state: the `orders` list, replaced by each operation. */
  class OrderStore {
    var orders: seq<OrderItem>

    constructor ()
      ensures orders == []
    {
      orders := [];
    }

    /** `addOrder`: append a pending order built from the draft and the clock readings. */
    method AddOrder(d: OrderDraft, id: int, date: int)
      modifies this
      ensures |orders| == |old(orders)| + 1 && orders[..|old(orders)|] == old(orders)
      ensures orders[|orders| - 1] == OrderItem(id, d.name, d.price, d.quantity, Pending, date, d.deliveryAddress)
      ensures orders == Step(old(orders), Add(d, id, date))
      ensures OnlyPendingOrCancelled(old(orders)) ==> OnlyPendingOrCancelled(orders)
    {
      orders := orders + [Placed(d, id, date)];
    }

    /** `cancelOrder`: every order with the id becomes cancelled, whatever its status. */
    method CancelOrder(id: int)
      modifies this
      ensures |orders| == |old(orders)|
      ensures forall i :: 0 <= i < |orders| ==>
        orders[i] == if old(orders)[i].id == id then old(orders)[i].(status := Cancelled) else old(orders)[i]
      ensures orders == Step(old(orders), Cancel(id))
      ensures OnlyPendingOrCancelled(old(orders)) ==> OnlyPendingOrCancelled(orders)
    {
      orders := CancelMatching(orders, id);
    }

    /** `getOrderById`: the first order with the id, or nothing when no order has it. */
    function GetOrderById(id: int): (r: Option<OrderItem>)
      reads this
      ensures r.None? <==> forall i :: 0 <= i < |orders| ==> orders[i].id != id
      ensures r.Some? ==> exists i :: IsFirstWithId(orders, id, i) && orders[i] == r.value
    {
      FirstWithId(orders, id)
    }

    /** `getAllOrders`: the whole list, in insertion order. */
    function GetAllOrders(): (r: seq<OrderItem>)
      reads this
      ensures r == orders
    {
      orders
    }
  }
}
