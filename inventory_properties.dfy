/**
 * Properties that relate several operations of the inventory: lookups are
 * stable, orders only ever refer to medications that a lookup finds, a
 * shadowed duplicate is never touched, cancelling re-indexes the live
 * orders, and an order followed by its cancellation gives the stock back.
 */
module InventoryProperties {
  import opened Wrappers
  import opened JavaInt
  import opened Medications
  import opened Orders
  import opened Inventory

  // ---------------------------------------------------------------- lookup

  /** Lookups depend only on the ids, position by position. */
  lemma {:induction false} FindDependsOnlyOnIds(a: seq<Medication>, b: seq<Medication>, id: string)
    requires SameIds(a, b)
    ensures FindMedication(a, id) == FindMedication(b, id)
  {
    match FindMedication(a, id)
    case None =>
    case Some(i) => assert FirstWithId(b, i, id);
  }

  /**
   * Adding a medication never changes what an existing id finds: a
   * duplicate id appended later is shadowed, and only a new id finds the
   * new entry.
   */
  lemma AddMedicationKeepsLookups(s: State, name: string, id: string, price: real, stock: Int32, x: string)
    ensures var r := FindMedication(AddMedication(s, name, id, price, stock).medications, x);
      r == (if FindMedication(s.medications, x).Some? then FindMedication(s.medications, x)
            else if id == x then Some(|s.medications|) else None)
  {
    var meds := AddMedication(s, name, id, price, stock).medications;
    match FindMedication(s.medications, x)
    case Some(i) => assert FirstWithId(meds, i, x);
    case None => if id == x { assert FirstWithId(meds, |s.medications|, x); }
  }

  /** Entries that keep their ids keep being found, or not found, alike. */
  lemma UnshadowedKept(a: seq<Medication>, b: seq<Medication>, i: nat)
    requires SameIds(a, b) && Unshadowed(a, i)
    ensures Unshadowed(b, i)
  {
  }

  // ------------------------------------------------------ well-formedness

  lemma AddMedicationWellFormed(s: State, name: string, id: string, price: real, stock: Int32)
    requires WellFormed(s)
    ensures WellFormed(AddMedication(s, name, id, price, stock))
  {
    var r := AddMedication(s, name, id, price, stock);
    forall k | 0 <= k < |r.orders| ensures Unshadowed(r.medications, r.orders[k].medication) {
      assert Unshadowed(s.medications, s.orders[k].medication);
    }
  }

  lemma AdjustStockWellFormed(s: State, id: string, amount: Int32)
    requires WellFormed(s)
    ensures WellFormed(AdjustStock(s, id, amount).after)
  {
    var r := AdjustStock(s, id, amount).after;
    assert SameIds(s.medications, r.medications);
  }

  lemma PlaceOrderWellFormed(s: State, id: string, quantity: Int32, address: string, rating: real)
    requires WellFormed(s)
    ensures WellFormed(PlaceOrder(s, id, quantity, address, rating).after)
  {
    var step := PlaceOrder(s, id, quantity, address, rating);
    match FindMedication(s.medications, id)
    case None =>
    case Some(i) =>
      if quantity <= s.medications[i].stock {
        var r := step.after;
        assert SameIds(s.medications, r.medications);
        forall k | 0 <= k < |r.orders| ensures Unshadowed(r.medications, r.orders[k].medication) {
          if k < |s.orders| {
            assert r.orders[k] == s.orders[k];
          } else {
            assert r.orders[k].medication == i;
          }
        }
      }
  }

  lemma CancelOrderWellFormed(s: State, num: int)
    requires WellFormed(s)
    ensures WellFormed(CancelOrder(s, num).after)
  {
  }

  /**
   * A medication that an earlier entry with the same id shadows is never
   * modified: not by a stock adjustment, not by an order, not by a
   * cancellation, whatever their arguments.
   */
  lemma ShadowedNeverModified(s: State, j: nat, id: string, amount: Int32, quantity: Int32,
                              address: string, rating: real, num: int)
    requires WellFormed(s) && j < |s.medications| && !Unshadowed(s.medications, j)
    ensures AdjustStock(s, id, amount).after.medications[j] == s.medications[j]
    ensures PlaceOrder(s, id, quantity, address, rating).after.medications[j] == s.medications[j]
    ensures CancelOrder(s, num).after.medications[j] == s.medications[j]
  {
    var step := CancelOrder(s, num);
    if step.outcome.Cancelled? {
      var k := ActiveOrders(s.orders)[num - 1];
      assert Unshadowed(s.medications, s.orders[k].medication);
    }
  }

  // ------------------------------------------------------- live orders

  /** A placed order joins the end of the live list. */
  lemma ActiveAfterPlace(s: State, id: string, quantity: Int32, address: string, rating: real)
    requires PlaceOrder(s, id, quantity, address, rating).outcome.Placed?
    ensures ActiveOrders(PlaceOrder(s, id, quantity, address, rating).after.orders)
         == ActiveOrders(s.orders) + [|s.orders|]
  {
    var r := PlaceOrder(s, id, quantity, address, rating).after;
    var i := FindMedication(s.medications, id).value;
    assert OrderTaken(s, r, i, quantity, address, rating);
    assert r.orders[..|s.orders|] == s.orders;
  }

  /** One step of the live-order filter: the last order joins the list when it is live. */
  lemma ActiveUnfold(orders: seq<Order>)
    requires orders != []
    ensures var n := |orders| - 1;
      ActiveOrders(orders) == ActiveOrders(orders[..n]) + (if orders[n].isCanceled then [] else [n])
  {
  }

  /** Removing an entry that lies within the first part of a concatenation. */
  lemma RemoveWithinFirst(a: seq<nat>, b: seq<nat>, i: nat)
    requires i < |a|
    ensures (a[..i] + a[i + 1..]) + b == (a + b)[..i] + (a + b)[i + 1..]
  {
    assert (a + b)[..i] == a[..i];
    assert (a + b)[i + 1..] == a[i + 1..] + b;
  }

  /** Cancelling the live order at position `m` of the live list removes exactly that entry. */
  lemma {:induction false} ActiveAfterCancel(orders: seq<Order>, m: nat)
    requires m < |ActiveOrders(orders)|
    ensures var act := ActiveOrders(orders);
      ActiveOrders(orders[act[m] := orders[act[m]].Cancel()]) == act[..m] + act[m + 1..]
    decreases |orders|, 1
  {
    var n := |orders| - 1;
    if ActiveOrders(orders)[m] == n {
      ActiveAfterCancelLast(orders, m);
    } else {
      ActiveAfterCancelEarlier(orders, m);
    }
  }

  /** The case where the cancelled order is the last one placed. */
  lemma ActiveAfterCancelLast(orders: seq<Order>, m: nat)
    requires m < |ActiveOrders(orders)| && ActiveOrders(orders)[m] == |orders| - 1
    ensures var act := ActiveOrders(orders);
      ActiveOrders(orders[act[m] := orders[act[m]].Cancel()]) == act[..m] + act[m + 1..]
  {
    var act := ActiveOrders(orders);
    var n := |orders| - 1;
    var after := orders[n := orders[n].Cancel()];
    var front := ActiveOrders(orders[..n]);
    ActiveUnfold(orders);
    ActiveOrdersIncreasing(orders);
    assert act == front + [n];
    assert act[|front|] == n;
    ActiveUnfold(after);
    assert after[..n] == orders[..n];
  }

  /** The case where a later order exists: the filter of the earlier orders does the work. */
  lemma {:induction false} ActiveAfterCancelEarlier(orders: seq<Order>, m: nat)
    requires m < |ActiveOrders(orders)| && ActiveOrders(orders)[m] != |orders| - 1
    ensures var act := ActiveOrders(orders);
      ActiveOrders(orders[act[m] := orders[act[m]].Cancel()]) == act[..m] + act[m + 1..]
    decreases |orders|, 0
  {
    var act := ActiveOrders(orders);
    var k := act[m];
    var after := orders[k := orders[k].Cancel()];
    var n := |orders| - 1;
    var front := ActiveOrders(orders[..n]);
    var tail: seq<nat> := if orders[n].isCanceled then [] else [n];
    ActiveUnfold(orders);
    assert act == front + tail;
    assert |front| < |act| ==> act[|front|] == n;
    assert m < |front|;
    assert front[m] == k;
    calc {
      ActiveOrders(after);
      { ActiveUnfold(after); assert after[n] == orders[n]; }
      ActiveOrders(after[..n]) + tail;
      { assert after[..n] == orders[..n][k := orders[k].Cancel()]; }
      ActiveOrders(orders[..n][k := orders[k].Cancel()]) + tail;
      { ActiveAfterCancel(orders[..n], m); }
      (front[..m] + front[m + 1..]) + tail;
      { RemoveWithinFirst(front, tail, m); }
      act[..m] + act[m + 1..];
    }
  }

  /**
   * After the `num`-th live order is cancelled it is never offered again:
   * the live list loses exactly that entry, so asking for the same number
   * once more picks the next live order, if there is one, and otherwise
   * is refused. No order is restored to stock twice.
   */
  lemma CancelReindexes(s: State, num: int)
    requires WellFormed(s) && CancelOrder(s, num).outcome.Cancelled?
    ensures var act := ActiveOrders(s.orders);
      var again := CancelOrder(CancelOrder(s, num).after, num);
      && ActiveOrders(CancelOrder(s, num).after.orders) == act[..num - 1] + act[num..]
      && act[num - 1] !in ActiveOrders(CancelOrder(s, num).after.orders)
      && (num < |act| ==> again.outcome.Cancelled? && again.after == CancelAt(CancelOrder(s, num).after, act[num]))
      && (num == |act| ==> !again.outcome.Cancelled? && again.after == CancelOrder(s, num).after)
  {
    var act := ActiveOrders(s.orders);
    ActiveAfterCancel(s.orders, num - 1);
    var s1 := CancelOrder(s, num).after;
    var act1 := ActiveOrders(s1.orders);
    assert act1 == act[..num - 1] + act[num..];
    if num < |act| {
      assert act1[num - 1] == act[num];
    }
  }

  /**
   * The round trip: an order placed and then cancelled (it is the last
   * live order, so its number is the length of the live list) gives every
   * medication back its stock, and leaves the order on record, cancelled.
   */
  lemma PlaceThenCancelRestoresStock(s: State, id: string, quantity: Int32, address: string, rating: real)
    requires WellFormed(s)
    requires PlaceOrder(s, id, quantity, address, rating).outcome.Placed?
    ensures var s1 := PlaceOrder(s, id, quantity, address, rating).after;
      WellFormed(s1) &&
      var back := CancelOrder(s1, |ActiveOrders(s1.orders)|);
      && back.outcome == Cancelled
      && |back.after.medications| == |s.medications|
      && (forall j :: 0 <= j < |s.medications| ==>
            back.after.medications[j].stock == s.medications[j].stock
            && back.after.medications[j].id == s.medications[j].id
            && back.after.medications[j].price == s.medications[j].price)
      && |back.after.orders| == |s.orders| + 1
      && back.after.orders[..|s.orders|] == s.orders
      && back.after.orders[|s.orders|].isCanceled
  {
    var s1 := PlaceOrder(s, id, quantity, address, rating).after;
    var i := FindMedication(s.medications, id).value;
    assert OrderTaken(s, s1, i, quantity, address, rating);
    PlaceOrderWellFormed(s, id, quantity, address, rating);
    ActiveAfterPlace(s, id, quantity, address, rating);
    var n := |ActiveOrders(s1.orders)|;
    assert ActiveOrders(s1.orders)[n - 1] == |s.orders|;
    var s2 := CancelOrder(s1, n).after;
    assert s2 == CancelAt(s1, |s.orders|);
    AddNeg(s.medications[i].stock, quantity);
    AddNegThenAdd(s.medications[i].stock, quantity);
    assert s2.medications[i].stock == s.medications[i].stock;
    assert s2.orders[..|s.orders|] == s1.orders[..|s.orders|];
  }

  // ------------------------------------------------------ stock bounds

  /**
   * Stock is not kept non-negative: an administrative adjustment can take
   * it below zero (here Paracetamol, seeded with 100, adjusted by -101).
   */
  lemma AdjustStockCanGoNegative()
    ensures AdjustStock(State(Seed(), []), "M101", -101).after.medications[0].stock == -1
  {
    assert FirstWithId(Seed(), 0, "M101");
  }

  /**
   * Nor does an order refuse a negative quantity: it is covered by any
   * non-negative stock and raises the stock by its magnitude.
   */
  lemma NegativeOrderRaisesStock(s: State, id: string, quantity: Int32, address: string, rating: real, i: nat)
    requires FirstWithId(s.medications, i, id) && 0 <= s.medications[i].stock && quantity < 0
    ensures var r := PlaceOrder(s, id, quantity, address, rating);
      r.outcome.Placed? && r.after.medications[i].stock == Wrap(s.medications[i].stock - quantity)
      && (s.medications[i].stock - quantity <= MAX_VALUE ==> r.after.medications[i].stock > s.medications[i].stock)
  {
    assert OrderTaken(s, PlaceOrder(s, id, quantity, address, rating).after, i, quantity, address, rating);
  }

  /** Orders of non-negative quantities keep every stock that was non-negative so. */
  lemma PlaceOrderKeepsStockNonNegative(s: State, id: string, quantity: Int32, address: string, rating: real)
    requires 0 <= quantity
    requires forall j :: 0 <= j < |s.medications| ==> 0 <= s.medications[j].stock
    ensures var r := PlaceOrder(s, id, quantity, address, rating).after;
      forall j :: 0 <= j < |r.medications| ==> 0 <= r.medications[j].stock
  {
    var r := PlaceOrder(s, id, quantity, address, rating);
    if r.outcome.Placed? {
      var i := FindMedication(s.medications, id).value;
      assert OrderTaken(s, r.after, i, quantity, address, rating);
    }
  }

  // --------------------------------------------------------------- scenario

  /**
   * The seeded catalogue: ordering 10 Paracetamol (M101, 25.0 each, stock
   * 100) leaves 90 and costs 250.0. A rating of 6 is refused, so the
   * medication stays unrated.
   */
  lemma SeedOrderScenario()
    ensures var placed := PlaceOrder(State(Seed(), []), "M101", 10, "123 St", 6.0);
      && placed.outcome == Placed(false)
      && placed.after.medications[0].stock == 90
      && placed.after.orders == [Order(0, 10, 250.0, "123 St", false)]
      && !placed.after.medications[0].IsRated()
  {
    var s0 := State(Seed(), []);
    assert FirstWithId(Seed(), 0, "M101");
    var placed := PlaceOrder(s0, "M101", 10, "123 St", 6.0);
    assert OrderTaken(s0, placed.after, 0, 10, "123 St", 6.0);
  }

  /** The same order with a rating of 4 stores the rating. */
  lemma SeedRatingScenario()
    ensures var placed := PlaceOrder(State(Seed(), []), "M101", 10, "123 St", 4.0);
      placed.outcome == Placed(true) && placed.after.medications[0].rating == 4.0
  {
    var s0 := State(Seed(), []);
    assert FirstWithId(Seed(), 0, "M101");
    assert OrderTaken(s0, PlaceOrder(s0, "M101", 10, "123 St", 4.0).after, 0, 10, "123 St", 4.0);
  }

  /**
   * Cancelling order 1 after the order above brings the Paracetamol stock
   * back to 100 and leaves no live order.
   */
  lemma SeedCancelScenario()
    ensures var placed := PlaceOrder(State(Seed(), []), "M101", 10, "123 St", 6.0);
      var cancelled := CancelOrder(placed.after, 1);
      && cancelled.outcome == Cancelled
      && cancelled.after.medications[0].stock == 100
      && cancelled.after.orders[0].isCanceled
      && ActiveOrders(cancelled.after.orders) == []
  {
    SeedOrderScenario();
    var placed := PlaceOrder(State(Seed(), []), "M101", 10, "123 St", 6.0);
    assert ActiveOrders(placed.after.orders) == [0];
  }

  /** An unknown id is reported and changes nothing. */
  lemma SeedUnknownScenario()
    ensures PlaceOrder(State(Seed(), []), "M999", 1, "addr", 4.0) == Step(State(Seed(), []), MedicationNotFound)
  {
    assert forall j :: 0 <= j < 3 ==> Seed()[j].id != "M999";
  }
}
