/**
 * The pharmacy's front object: the medication list and the order list,
 * updated in place by its operations. Each method scans the lists with a
 * loop, as the system does, and is proved to leave exactly the state the
 * matching function of the Inventory module describes, while keeping the
 * system well formed and its stock accounted for.
 */
module Pharmacy {
  import opened JavaInt
  import opened Medications
  import opened Orders
  import opened Inventory
  import opened InventoryProperties
  import opened Conservation

  class PharmacyManagementSystem {
    var medications: seq<Medication>
    var orders: seq<Order>
    /** Per medication, the stock the seller has put in: initial stock plus every adjustment. */
    ghost var baseline: seq<int>

    /** Both lists, as a value. */
    ghost function Contents(): State
      reads this
    {
      State(medications, orders)
    }

    /**
     * Every order refers to a medication that a lookup reaches, and every
     * stock equals what was put in less what live orders hold.
     */
    ghost predicate Valid()
      reads this
    {
      WellFormed(Contents()) && Conserved(Contents(), baseline)
    }

    /** A new system holds the three seeded medications and no orders. */
    constructor()
      ensures Valid()
      ensures Contents() == State(Seed(), [])
      ensures forall j :: 0 <= j < |medications| ==> !medications[j].IsRated()
    {
      medications := [];
      medications := medications + [NewMedication("Paracetamol", "M101", 25.0, 100)];
      medications := medications + [NewMedication("Ibuprofen", "M102", 35.0, 80)];
      medications := medications + [NewMedication("Cough Syrup", "M103", 45.0, 50)];
      orders := [];
      baseline := [100, 80, 50];
      SeedConserved();
    }

    /** Appends a medication; an existing id is not checked for. */
    method AddMedication(name: string, id: string, price: real, stock: Int32)
      requires Valid()
      modifies this
      ensures Valid()
      ensures Contents() == Inventory.AddMedication(old(Contents()), name, id, price, stock)
      ensures baseline == old(baseline) + [stock]
    {
      AddMedicationWellFormed(Contents(), name, id, price, stock);
      AddMedicationConserves(Contents(), baseline, name, id, price, stock);
      medications := medications + [NewMedication(name, id, price, stock)];
      baseline := baseline + [stock];
    }

    /**
     * Scans for the first medication with the id and adds `amount` to its
     * stock; reports whether one was found.
     */
    method UpdateStock(id: string, amount: Int32) returns (found: bool)
      requires Valid()
      modifies this
      ensures Valid()
      ensures Step(Contents(), found) == AdjustStock(old(Contents()), id, amount)
      ensures baseline == AdjustBaseline(old(Contents()), old(baseline), id, amount)
    {
      AdjustStockWellFormed(Contents(), id, amount);
      AdjustStockConserves(Contents(), baseline, id, amount);
      var i := 0;
      while i < |medications|
        invariant i <= |medications|
        invariant forall j :: 0 <= j < i ==> medications[j].id != id
      {
        if medications[i].id == id {
          assert FirstWithId(medications, i, id);
          medications := medications[i := medications[i].UpdateStock(amount)];
          baseline := baseline[i := baseline[i] + amount];
          return true;
        }
        i := i + 1;
      }
      return false;
    }

    /**
     * Scans for the first medication with the id. If its stock covers the
     * quantity: takes the quantity off the stock, appends an order for it,
     * stores the address on that order, and stores the rating when it lies
     * in [1, 5]. Otherwise nothing changes.
     */
    method OrderMedication(id: string, quantity: Int32, address: string, rating: real)
      returns (outcome: OrderOutcome)
      requires Valid()
      modifies this
      ensures Valid()
      ensures Step(Contents(), outcome) == PlaceOrder(old(Contents()), id, quantity, address, rating)
      ensures baseline == old(baseline)
    {
      ghost var s := Contents();
      PlaceOrderWellFormed(s, id, quantity, address, rating);
      PlaceOrderConserves(s, baseline, id, quantity, address, rating);
      var i := 0;
      while i < |medications|
        invariant i <= |medications|
        invariant forall j :: 0 <= j < i ==> medications[j].id != id
      {
        if medications[i].id == id {
          assert FirstWithId(medications, i, id);
          if medications[i].stock >= quantity {
            AddNeg(medications[i].stock, quantity);
            medications := medications[i := medications[i].UpdateStock(Neg(quantity))];
            orders := orders + [NewOrder(i, medications[i], quantity)];
            orders := orders[|orders| - 1 := orders[|orders| - 1].SetAddress(address)];
            var accepted := 1.0 <= rating <= 5.0;
            if accepted {
              medications := medications[i := medications[i].SetRating(rating)];
            }
            assert Contents() == TakeOrder(s, i, quantity, address, rating);
            return Placed(accepted);
          }
          return InsufficientStock;
        }
        i := i + 1;
      }
      return MedicationNotFound;
    }

    /** Positions of the orders not yet cancelled, collected in insertion order. */
    method ActiveOrderIndices() returns (active: seq<nat>)
      ensures active == ActiveOrders(orders)
    {
      active := [];
      var i := 0;
      while i < |orders|
        invariant i <= |orders|
        invariant active == ActiveOrders(orders[..i])
      {
        assert orders[..i + 1][..i] == orders[..i];
        if !orders[i].isCanceled {
          active := active + [i];
        }
        i := i + 1;
      }
      assert orders[..i] == orders;
    }

    /**
     * Lists the live orders and cancels the `num`-th of them (from 1):
     * sets its flag and gives its quantity back to its medication. No live
     * order, or a number out of range, changes nothing.
     */
    method CancelOrder(num: Int32) returns (outcome: CancelOutcome)
      requires Valid()
      modifies this
      ensures Valid()
      ensures Step(Contents(), outcome) == Inventory.CancelOrder(old(Contents()), num)
      ensures baseline == old(baseline)
    {
      CancelOrderWellFormed(Contents(), num);
      CancelOrderConserves(Contents(), baseline, num);
      ActiveOrdersComplete(orders);
      var active := ActiveOrderIndices();
      if |active| == 0 {
        return NoActiveOrders;
      }
      if 1 <= num <= |active| {
        var k := active[num - 1];
        var o := orders[k];
        assert Unshadowed(medications, o.medication);
        orders := orders[k := o.Cancel()];
        medications := medications[o.medication := medications[o.medication].UpdateStock(o.quantity)];
        return Cancelled;
      }
      return InvalidOrderNumber;
    }
  }
}
