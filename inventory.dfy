/**
 * The inventory and order rules of the pharmacy, as functions on the
 * system's state: the medication list, the order list, and what each
 * operation does to them. The class in pharmacy_system.dfy runs these
 * operations in place and is proved to agree with them.
 */
module Inventory {
  import opened Wrappers
  import opened JavaInt
  import opened Medications
  import opened Orders

  /** Everything the system holds: both lists, in insertion order. */
  datatype State = State(medications: seq<Medication>, orders: seq<Order>)

  /** What placing an order reports back. */
  datatype OrderOutcome = Placed(ratingAccepted: bool) | InsufficientStock | MedicationNotFound

  /** What a cancellation request reports back. */
  datatype CancelOutcome = Cancelled | NoActiveOrders | InvalidOrderNumber

  /** The state after an operation, with what the operation reported. */
  datatype Step<O> = Step(after: State, outcome: O)

  // ---------------------------------------------------------------- lookup

  /** Position `i` holds the first medication, in list order, whose id is `id`. */
  predicate FirstWithId(meds: seq<Medication>, i: nat, id: string) {
    i < |meds| && meds[i].id == id && forall j :: 0 <= j < i ==> meds[j].id != id
  }

  /** Lookup by id: a linear scan that stops at the first equal id. */
  function FindMedication(meds: seq<Medication>, id: string): (r: Option<nat>)
    ensures r.Some? ==> FirstWithId(meds, r.value, id)
    ensures forall i: nat :: FirstWithId(meds, i, id) ==> r == Some(i)
    ensures r.None? <==> forall j :: 0 <= j < |meds| ==> meds[j].id != id
  {
    if meds == [] then None
    else if meds[0].id == id then Some(0)
    else match FindMedication(meds[1..], id)
      case None => None
      case Some(k) => Some(k + 1)
  }

  /** Two medication lists of the same length whose ids agree position by position. */
  predicate SameIds(a: seq<Medication>, b: seq<Medication>) {
    |a| == |b| && forall j :: 0 <= j < |a| ==> a[j].id == b[j].id
  }

  /** No earlier medication shares the id of the one at position `i`, so lookups can reach it. */
  predicate Unshadowed(meds: seq<Medication>, i: nat) {
    i < |meds| && FirstWithId(meds, i, meds[i].id)
  }

  /**
   * Every order refers to a medication in the list, and to one that a
   * lookup by its id finds (orders are only ever placed through a lookup).
   */
  predicate WellFormed(s: State) {
    forall k :: 0 <= k < |s.orders| ==> Unshadowed(s.medications, s.orders[k].medication)
  }

  // ---------------------------------------------------------------- orders

  /** Positions of the orders not yet cancelled, in insertion order. */
  function ActiveOrders(orders: seq<Order>): (r: seq<nat>)
    ensures forall m :: 0 <= m < |r| ==> r[m] < |orders| && !orders[r[m]].isCanceled
    decreases |orders|
  {
    if orders == [] then []
    else
      var n := |orders| - 1;
      ActiveOrders(orders[..n]) + (if orders[n].isCanceled then [] else [n])
  }

  /** The live list keeps insertion order: its positions strictly increase. */
  lemma {:induction false} ActiveOrdersIncreasing(orders: seq<Order>)
    ensures forall i, j :: 0 <= i < j < |ActiveOrders(orders)| ==> ActiveOrders(orders)[i] < ActiveOrders(orders)[j]
    decreases |orders|
  {
    if orders != [] {
      var n := |orders| - 1;
      var front := ActiveOrders(orders[..n]);
      ActiveOrdersIncreasing(orders[..n]);
      var r := ActiveOrders(orders);
      assert r == front + (if orders[n].isCanceled then [] else [n]);
      forall i, j | 0 <= i < j < |r| ensures r[i] < r[j] {
        assert r[i] == front[i] < n;
        if j < |front| {
          assert r[j] == front[j];
          assert front[i] < front[j];
        } else {
          assert r[j] == n;
        }
      }
    }
  }

  /** Every order not yet cancelled is on the live list. */
  lemma {:induction false} ActiveOrdersComplete(orders: seq<Order>)
    ensures forall k :: 0 <= k < |orders| && !orders[k].isCanceled ==> k in ActiveOrders(orders)
    decreases |orders|
  {
    if orders != [] {
      ActiveOrdersComplete(orders[..|orders| - 1]);
    }
  }

  /**
   * Orders only ever gain orders at the end, and an existing order keeps
   * its medication, quantity, cost and address; its cancel flag can be set
   * but never cleared.
   */
  predicate OrdersEvolve(before: seq<Order>, after: seq<Order>) {
    |before| <= |after| &&
    forall k :: 0 <= k < |before| ==>
      && after[k].medication == before[k].medication
      && after[k].quantity == before[k].quantity
      && after[k].totalCost == before[k].totalCost
      && after[k].address == before[k].address
      && (before[k].isCanceled ==> after[k].isCanceled)
  }

  // ------------------------------------------------------------ operations

  /** The three medications every system starts with. */
  function Seed(): (meds: seq<Medication>)
    ensures |meds| == 3
    ensures forall j :: 0 <= j < |meds| ==> !meds[j].IsRated() && 0 <= meds[j].stock
  {
    [ NewMedication("Paracetamol", "M101", 25.0, 100),
      NewMedication("Ibuprofen", "M102", 35.0, 80),
      NewMedication("Cough Syrup", "M103", 45.0, 50) ]
  }

  /** Appends a new, unrated medication; no check that its id is new. */
  function AddMedication(s: State, name: string, id: string, price: real, stock: Int32): (r: State)
    ensures |r.medications| == |s.medications| + 1 && r.medications[..|s.medications|] == s.medications
    ensures var m := r.medications[|s.medications|];
      m.name == name && m.id == id && m.price == price && m.stock == stock && !m.IsRated()
    ensures r.orders == s.orders
  {
    State(s.medications + [NewMedication(name, id, price, stock)], s.orders)
  }

  /**
   * Administrative stock adjustment: the first medication with the id gets
   * `stock += amount`, with no lower bound; the outcome says whether any
   * medication had the id.
   */
  function AdjustStock(s: State, id: string, amount: Int32): (r: Step<bool>)
    ensures r.outcome <==> exists j :: 0 <= j < |s.medications| && s.medications[j].id == id
    ensures !r.outcome ==> r.after == s
    ensures r.after.orders == s.orders
    ensures |r.after.medications| == |s.medications|
    ensures forall j {:trigger r.after.medications[j]} :: 0 <= j < |s.medications| ==>
      r.after.medications[j] ==
        if FirstWithId(s.medications, j, id) then s.medications[j].UpdateStock(amount) else s.medications[j]
  {
    match FindMedication(s.medications, id)
    case None => Step(s, false)
    case Some(i) => Step(State(s.medications[i := s.medications[i].UpdateStock(amount)], s.orders), true)
  }

  /**
   * The state after a successful order of `quantity` units of the
   * medication at `i`: its stock is down by `quantity` (Java int
   * arithmetic), its rating is `rating` when that lies in [1, 5], nothing
   * else about any medication changed, and exactly one live order for it,
   * costed at its price, carrying `address`, was appended.
   */
  predicate OrderTaken(before: State, after: State, i: nat, quantity: Int32, address: string, rating: real)
    requires i < |before.medications|
  {
    var med := before.medications[i];
    && |after.medications| == |before.medications|
    && (forall j :: 0 <= j < |before.medications| && j != i ==> after.medications[j] == before.medications[j])
    && after.medications[i].name == med.name
    && after.medications[i].id == med.id
    && after.medications[i].price == med.price
    && after.medications[i].stock == Wrap(med.stock - quantity)
    && after.medications[i].rating == (if 1.0 <= rating <= 5.0 then rating else med.rating)
    && |after.orders| == |before.orders| + 1
    && after.orders[..|before.orders|] == before.orders
    && after.orders[|before.orders|] == Order(i, quantity, med.price * quantity as real, address, false)
  }

  /**
   * The successful branch of an order for the medication at `i`: the
   * quantity leaves its stock, the order is built against it, appended,
   * and given its address, and the rating is stored when it lies in [1, 5].
   */
  function TakeOrder(s: State, i: nat, quantity: Int32, address: string, rating: real): (r: State)
    requires i < |s.medications|
    ensures OrderTaken(s, r, i, quantity, address, rating)
    ensures 0 <= quantity <= s.medications[i].stock ==>
      0 <= r.medications[i].stock == s.medications[i].stock - quantity
    ensures OrdersEvolve(s.orders, r.orders)
  {
    var med := s.medications[i];
    AddNeg(med.stock, quantity);
    var taken := med.UpdateStock(Neg(quantity));
    var order := NewOrder(i, taken, quantity).SetAddress(address);
    var rated := if 1.0 <= rating <= 5.0 then taken.SetRating(rating) else taken;
    var after := State(s.medications[i := rated], s.orders + [order]);
    assert after.orders[..|s.orders|] == s.orders;
    after
  }

  /**
   * Placing an order: look the id up; if its stock covers the quantity,
   * take the order (see TakeOrder), otherwise change nothing. There is no
   * check that the quantity is positive.
   */
  function PlaceOrder(s: State, id: string, quantity: Int32, address: string, rating: real): (r: Step<OrderOutcome>)
    ensures r.outcome == MedicationNotFound <==> forall j :: 0 <= j < |s.medications| ==> s.medications[j].id != id
    ensures r.outcome == InsufficientStock <==>
      exists i: nat :: FirstWithId(s.medications, i, id) && s.medications[i].stock < quantity
    ensures r.outcome.Placed? ==> r.outcome.ratingAccepted == (1.0 <= rating <= 5.0)
    ensures !r.outcome.Placed? ==> r.after == s
    ensures forall i: nat :: FirstWithId(s.medications, i, id) && quantity <= s.medications[i].stock ==>
      r.outcome.Placed? && r.after == TakeOrder(s, i, quantity, address, rating)
    ensures OrdersEvolve(s.orders, r.after.orders)
  {
    match FindMedication(s.medications, id)
    case None => Step(s, MedicationNotFound)
    case Some(i) =>
      if s.medications[i].stock >= quantity then
        Step(TakeOrder(s, i, quantity, address, rating), Placed(1.0 <= rating <= 5.0))
      else
        Step(s, InsufficientStock)
  }

  /**
   * Cancelling the order at position `k`: its flag is set and its quantity
   * is added back to the stock of the medication it refers to. There is no
   * guard here against an order that is already cancelled.
   */
  function CancelAt(s: State, k: nat): (r: State)
    requires WellFormed(s) && k < |s.orders|
    ensures var m := s.orders[k].medication;
      && SameIds(s.medications, r.medications)
      && (forall j :: 0 <= j < |s.medications| && j != m ==> r.medications[j] == s.medications[j])
      && r.medications[m] == s.medications[m].UpdateStock(s.orders[k].quantity)
    ensures |r.orders| == |s.orders| && r.orders[k].isCanceled
    ensures forall j :: 0 <= j < |s.orders| && j != k ==> r.orders[j] == s.orders[j]
    ensures OrdersEvolve(s.orders, r.orders)
  {
    var o := s.orders[k];
    State(s.medications[o.medication := s.medications[o.medication].UpdateStock(o.quantity)],
          s.orders[k := o.Cancel()])
  }

  /**
   * A cancellation request: the live orders are listed in insertion order
   * and `num` picks one of them, counting from 1. An empty list or a
   * number outside 1..|list| changes nothing.
   */
  function CancelOrder(s: State, num: int): (r: Step<CancelOutcome>)
    requires WellFormed(s)
    ensures r.outcome == NoActiveOrders <==> forall k :: 0 <= k < |s.orders| ==> s.orders[k].isCanceled
    ensures r.outcome == Cancelled <==> 1 <= num <= |ActiveOrders(s.orders)|
    ensures !r.outcome.Cancelled? ==> r.after == s
    ensures r.outcome.Cancelled? ==>
      var k := ActiveOrders(s.orders)[num - 1];
      !s.orders[k].isCanceled && r.after == CancelAt(s, k)
  {
    ActiveOrdersComplete(s.orders);
    var active := ActiveOrders(s.orders);
    if |active| == 0 then
      Step(s, NoActiveOrders)
    else
      assert !s.orders[active[0]].isCanceled;
      if 1 <= num <= |active| then
        Step(CancelAt(s, active[num - 1]), Cancelled)
      else
        Step(s, InvalidOrderNumber)
  }
}
