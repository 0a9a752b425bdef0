/**
 * The consistency rule that ties stock to orders: for every medication,
 * the stock equals what the seller has put in (its initial stock plus
 * every administrative adjustment) less the quantity held by its live
 * orders, computed in Java int arithmetic. Every operation keeps it.
 */
module Conservation {
  import opened Wrappers
  import opened JavaInt
  import opened Medications
  import opened Orders
  import opened Inventory
  import opened InventoryProperties

  /** Units of the medication at position `i` held by orders not yet cancelled. */
  function Outstanding(orders: seq<Order>, i: nat): int
    decreases |orders|
  {
    if orders == [] then 0
    else
      var last := orders[|orders| - 1];
      Outstanding(orders[..|orders| - 1], i) + (if !last.isCanceled && last.medication == i then last.quantity else 0)
  }

  /** With no live order on a medication, nothing of it is outstanding. */
  lemma {:induction false} OutstandingNone(orders: seq<Order>, i: nat)
    requires forall k :: 0 <= k < |orders| ==> orders[k].isCanceled || orders[k].medication != i
    ensures Outstanding(orders, i) == 0
    decreases |orders|
  {
    if orders != [] {
      OutstandingNone(orders[..|orders| - 1], i);
    }
  }

  /** A new order adds its quantity to its own medication's outstanding total and to no other. */
  lemma OutstandingAppend(orders: seq<Order>, o: Order, i: nat)
    ensures Outstanding(orders + [o], i)
         == Outstanding(orders, i) + (if !o.isCanceled && o.medication == i then o.quantity else 0)
  {
    assert (orders + [o])[..|orders|] == orders;
  }

  /** Cancelling a live order takes its quantity off its own medication's outstanding total. */
  lemma {:induction false} OutstandingCancel(orders: seq<Order>, k: nat, i: nat)
    requires k < |orders| && !orders[k].isCanceled
    ensures Outstanding(orders[k := orders[k].Cancel()], i)
         == Outstanding(orders, i) - (if orders[k].medication == i then orders[k].quantity else 0)
    decreases |orders|
  {
    var n := |orders| - 1;
    var after := orders[k := orders[k].Cancel()];
    if k == n {
      assert after[..n] == orders[..n];
    } else {
      assert after[..n] == orders[..n][k := orders[k].Cancel()];
      OutstandingCancel(orders[..n], k, i);
    }
  }

  /**
   * `baseline[i]` is the stock the seller has put into medication `i`:
   * its initial stock plus all adjustments, as an unbounded integer.
   */
  ghost predicate Conserved(s: State, baseline: seq<int>) {
    |baseline| == |s.medications| &&
    forall i {:trigger baseline[i]} :: 0 <= i < |s.medications| ==>
      s.medications[i].stock == Wrap(baseline[i] - Outstanding(s.orders, i))
  }

  /** The seller's total after an adjustment: it moves for the medication the adjustment hits. */
  function AdjustBaseline(s: State, baseline: seq<int>, id: string, amount: Int32): (b: seq<int>)
    requires |baseline| == |s.medications|
    ensures |b| == |baseline|
    ensures forall j {:trigger b[j]} :: 0 <= j < |baseline| ==>
      b[j] == if FirstWithId(s.medications, j, id) then baseline[j] + amount else baseline[j]
  {
    match FindMedication(s.medications, id)
    case None => baseline
    case Some(i) => baseline[i := baseline[i] + amount]
  }

  /** Moving the stock by `d` is the same as moving the outstanding total by `-d`. */
  lemma StockShift(stock: Int32, b: int, a: int, d: int)
    requires stock == Wrap(b - a)
    ensures Wrap(stock + d) == Wrap(b - (a - d))
  {
    WrapAbsorbs(b - a, d);
  }

  /** The seeded system holds exactly its initial stock. */
  lemma SeedConserved()
    ensures Conserved(State(Seed(), []), [100, 80, 50])
  {
  }

  lemma AddMedicationConserves(s: State, baseline: seq<int>, name: string, id: string, price: real, stock: Int32)
    requires WellFormed(s) && Conserved(s, baseline)
    ensures Conserved(AddMedication(s, name, id, price, stock), baseline + [stock])
  {
    var r := AddMedication(s, name, id, price, stock);
    forall k | 0 <= k < |s.orders| ensures s.orders[k].medication != |s.medications| {
      assert Unshadowed(s.medications, s.orders[k].medication);
    }
    OutstandingNone(s.orders, |s.medications|);
  }

  lemma AdjustStockConserves(s: State, baseline: seq<int>, id: string, amount: Int32)
    requires Conserved(s, baseline)
    ensures Conserved(AdjustStock(s, id, amount).after, AdjustBaseline(s, baseline, id, amount))
  {
    var r := AdjustStock(s, id, amount).after;
    var b := AdjustBaseline(s, baseline, id, amount);
    forall j | 0 <= j < |s.medications| ensures r.medications[j].stock == Wrap(b[j] - Outstanding(r.orders, j)) {
      AdjustStockConservesAt(s, baseline[j], b[j], id, amount, j);
    }
  }

  lemma AdjustStockConservesAt(s: State, put: int, put': int, id: string, amount: Int32, j: nat)
    requires j < |s.medications|
    requires s.medications[j].stock == Wrap(put - Outstanding(s.orders, j))
    requires put' == if FirstWithId(s.medications, j, id) then put + amount else put
    ensures var r := AdjustStock(s, id, amount).after;
      r.medications[j].stock == Wrap(put' - Outstanding(r.orders, j))
  {
    if FirstWithId(s.medications, j, id) {
      StockShift(s.medications[j].stock, put, Outstanding(s.orders, j), amount);
    }
  }

  /** Taking an order moves its quantity from the stock to the outstanding total. */
  lemma TakeOrderConserves(s: State, baseline: seq<int>, i: nat, quantity: Int32, address: string, rating: real)
    requires Conserved(s, baseline) && i < |s.medications|
    ensures Conserved(TakeOrder(s, i, quantity, address, rating), baseline)
  {
    var r := TakeOrder(s, i, quantity, address, rating);
    forall j | 0 <= j < |s.medications|
      ensures r.medications[j].stock == Wrap(baseline[j] - Outstanding(r.orders, j))
    {
      TakeOrderConservesAt(s, baseline[j], i, quantity, address, rating, j);
    }
  }

  lemma TakeOrderConservesAt(s: State, put: int, i: nat, quantity: Int32, address: string, rating: real, j: nat)
    requires i < |s.medications| && j < |s.medications|
    requires s.medications[j].stock == Wrap(put - Outstanding(s.orders, j))
    ensures var r := TakeOrder(s, i, quantity, address, rating);
      r.medications[j].stock == Wrap(put - Outstanding(r.orders, j))
  {
    var r := TakeOrder(s, i, quantity, address, rating);
    var held := Outstanding(s.orders, j);
    assert r.orders[..|s.orders|] == s.orders;
    if j == i {
      assert Outstanding(r.orders, j) == held + quantity;
      assert r.medications[j].stock == Wrap(s.medications[j].stock - quantity);
      StockShift(s.medications[j].stock, put, held, -(quantity as int));
    } else {
      assert Outstanding(r.orders, j) == held;
      assert r.medications[j] == s.medications[j];
    }
  }

  lemma PlaceOrderConserves(s: State, baseline: seq<int>, id: string, quantity: Int32, address: string, rating: real)
    requires Conserved(s, baseline)
    ensures Conserved(PlaceOrder(s, id, quantity, address, rating).after, baseline)
  {
    var r := PlaceOrder(s, id, quantity, address, rating);
    if r.outcome.Placed? {
      var i := FindMedication(s.medications, id).value;
      TakeOrderConserves(s, baseline, i, quantity, address, rating);
    }
  }

  /** Cancelling a live order moves its quantity from the outstanding total back to the stock. */
  lemma CancelAtConserves(s: State, baseline: seq<int>, k: nat)
    requires WellFormed(s) && Conserved(s, baseline) && k < |s.orders| && !s.orders[k].isCanceled
    ensures Conserved(CancelAt(s, k), baseline)
  {
    var r := CancelAt(s, k);
    assert |r.medications| == |s.medications|;
    forall j | 0 <= j < |s.medications|
      ensures r.medications[j].stock == Wrap(baseline[j] - Outstanding(r.orders, j))
    {
      assert s.medications[j].stock == Wrap(baseline[j] - Outstanding(s.orders, j));
      CancelAtConservesAt(s, baseline[j], k, j);
    }
  }

  lemma CancelAtConservesAt(s: State, put: int, k: nat, j: nat)
    requires WellFormed(s) && k < |s.orders| && !s.orders[k].isCanceled && j < |s.medications|
    requires s.medications[j].stock == Wrap(put - Outstanding(s.orders, j))
    ensures var r := CancelAt(s, k);
      r.medications[j].stock == Wrap(put - Outstanding(r.orders, j))
  {
    var r := CancelAt(s, k);
    var o := s.orders[k];
    var held := Outstanding(s.orders, j);
    assert r.orders == s.orders[k := o.Cancel()];
    OutstandingCancel(s.orders, k, j);
    if j == o.medication {
      assert Outstanding(r.orders, j) == held - o.quantity;
      assert r.medications[j].stock == Wrap(s.medications[j].stock + o.quantity);
      StockShift(s.medications[j].stock, put, held, o.quantity);
    } else {
      assert Outstanding(r.orders, j) == held;
      assert r.medications[j].stock == s.medications[j].stock;
    }
  }

  lemma CancelOrderConserves(s: State, baseline: seq<int>, num: int)
    requires WellFormed(s) && Conserved(s, baseline)
    ensures Conserved(CancelOrder(s, num).after, baseline)
  {
    var r := CancelOrder(s, num);
    if r.outcome.Cancelled? {
      CancelAtConserves(s, baseline, ActiveOrders(s.orders)[num - 1]);
    }
  }

  /**
   * Once no live order is left for a medication (all of them cancelled, or
   * none placed), its stock is exactly what the seller has put in, wrapped
   * to an int.
   */
  lemma SettledStock(s: State, baseline: seq<int>, i: nat)
    requires Conserved(s, baseline) && i < |s.medications|
    requires forall k :: 0 <= k < |s.orders| ==> s.orders[k].isCanceled || s.orders[k].medication != i
    ensures s.medications[i].stock == Wrap(baseline[i])
  {
    OutstandingNone(s.orders, i);
  }
}
