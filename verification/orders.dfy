/** The `Order` record: who asked for a taxi, where to, whether the client is
    a VIP, and whether a driver has already served the order. */
module Orders {

  datatype Order = Order(clientName: string, destination: string, isVip: bool, isAssigned: bool)

  /** The `Order` constructor: the caller's three fields, and not yet assigned.
      (The C# constructor defaults `isVip` to false; here it is always passed.) */
  function NewOrder(clientName: string, destination: string, isVip: bool): (o: Order)
    ensures o.clientName == clientName && o.destination == destination && o.isVip == isVip
    ensures !o.isAssigned
  {
    Order(clientName, destination, isVip, false)
  }

  predicate IsVip(o: Order) { o.isVip }

  predicate IsRegular(o: Order) { !o.isVip }

  predicate IsPending(o: Order) { !o.isAssigned }

  /** Every order of `q` still waits for a driver. */
  predicate AllPending(q: seq<Order>) {
    forall k :: 0 <= k < |q| ==> !q[k].isAssigned
  }

  /** The order at position `i` with its assigned flag raised and nothing else changed. */
  function MarkAssigned(q: seq<Order>, i: nat): (r: seq<Order>)
    requires i < |q|
    ensures |r| == |q| && r[i].isAssigned
    ensures r[i] == q[i].(isAssigned := true)
    ensures forall k :: 0 <= k < |q| && k != i ==> r[k] == q[k]
  {
    q[i := q[i].(isAssigned := true)]
  }
}
