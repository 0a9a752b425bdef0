/**
 * An order for one medication. The medication is named by its position in
 * the system's medication list (the list only grows, so the position is a
 * stable reference). Quantity and total cost are fixed when the order is
 * made; only the delivery address and the one-way cancel flag change later.
 */
module Orders {
  import opened JavaInt
  import opened Medications

  datatype Order = Order(medication: nat, quantity: Int32, totalCost: real, address: string, isCanceled: bool)
  {
    /** Stores the delivery address and touches nothing else. */
    function SetAddress(a: string): (o: Order)
      ensures o.address == a
      ensures o.medication == medication && o.quantity == quantity
      ensures o.totalCost == totalCost && o.isCanceled == isCanceled
    {
      this.(address := a)
    }

    /** The order's own half of cancelling: the flag is set, and it is never cleared again. */
    function Cancel(): (o: Order)
      ensures o.isCanceled
      ensures o.medication == medication && o.quantity == quantity
      ensures o.totalCost == totalCost && o.address == address
    {
      this.(isCanceled := true)
    }
  }

  /**
   * A new order of `quantity` units of `med`, which sits at position
   * `medication`: the cost is the medication's current price times the
   * quantity, the address is empty and the order is live.
   */
  function NewOrder(medication: nat, med: Medication, quantity: Int32): (o: Order)
    ensures o.medication == medication && o.quantity == quantity
    ensures o.totalCost == med.price * quantity as real
    ensures o.address == "" && !o.isCanceled
  {
    Order(medication, quantity, med.price * quantity as real, "", false)
  }
}
