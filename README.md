# Pharmacy inventory and order engine, in Dafny

This project models the inventory and order core of the console pharmacy
tool `PharmacyManagement.java`: the medication catalogue, the orders placed
against it, and the system object that ties them together.

- A `Medication` is keyed by a string id. It has a price, a Java `int`
  stock counter that administrative adjustments, orders and cancellations
  move by signed amounts, and a rating that starts at the sentinel -1.
- An `Order` is made against one medication. Its cost (price × quantity)
  is fixed when it is made. It carries a delivery address and a one-way
  cancel flag.
- `PharmacyManagementSystem` starts with three seeded medications. It can:
  - append medications;
  - adjust a medication's stock;
  - place an order: look up the medication, check the stock, take the
    quantity, append the order, store the address, and store the rating
    when it lies in [1, 5];
  - cancel the n-th live order, which gives the quantity back to the
    medication.

Layout:

- `java_int.dfy` (`JavaInt`): Java's 32-bit `int`, with `+` and unary `-`
  that wrap around.
- `medication.dfy` (`Medications`) and `order.dfy` (`Orders`): the two
  entities as values, with their constructors and setters.
- `inventory.dfy` (`Inventory`): the system's state (both lists) and each
  operation as a function from state to state plus outcome. Printed
  messages are outcome values: `Placed`, `InsufficientStock`,
  `MedicationNotFound`; `Cancelled`, `NoActiveOrders`,
  `InvalidOrderNumber`; found / not found.
- `inventory_properties.dfy` (`InventoryProperties`): properties that
  relate operations:
  - lookups hit the first equal id;
  - a shadowed duplicate is never touched;
  - every order refers to a reachable medication;
  - cancelling re-indexes the live orders;
  - placing and then cancelling an order gives the stock back;
  - stock can go negative;
  - a scenario on the seeded catalogue.
- `conservation.dfy` (`Conservation`): stock accounting. A ghost baseline
  per medication records the initial stock plus every adjustment. Every
  operation keeps the medication's stock equal to that baseline minus the
  quantity held by its live orders, in `int` arithmetic.
- `pharmacy_system.dfy` (`Pharmacy`): the class
  `PharmacyManagementSystem`, whose `medications` and `orders` fields its
  methods update in place.
  - Each method scans the lists with a loop, as the Java does.
  - Each method is proved to leave exactly the state the matching
    `Inventory` function gives.
  - Each method keeps `Valid()`: well-formedness plus the stock accounting.

Where the code and the system's design description disagree, the model
follows the code:

- The description says stock never goes negative. The code has no such
  check:
  - `updateStock` takes any signed amount (lines 34-35 and 113-116);
  - `orderMedication` only compares `stock >= quantity` (line 133), so a
    negative quantity passes and raises the stock.

  `AdjustStockCanGoNegative` and `NegativeOrderRaisesStock` state this.
  `PlaceOrderKeepsStockNonNegative` states what does hold.
- The description calls ids unique. `addMedication` does not check this
  (line 109). Lookups stop at the first equal id, so a later duplicate is
  shadowed and never modified (`ShadowedNeverModified`).

## Model

| member | source | states |
|---|---|---|
| JavaInt.Wrap | PharmacyManagement.java:35 | an int result that equals the mathematical value whenever that value is in the int range |
| JavaInt.Add | PharmacyManagement.java:35 | Java `a + b`: the exact sum when it fits in an int, otherwise wrapped |
| JavaInt.Neg | PharmacyManagement.java:134 | Java `-a`: the exact negation, except that `-MIN_VALUE` is `MIN_VALUE` |
| JavaInt.AddNeg | PharmacyManagement.java:134 | `stock + (-quantity)` is the wrapped difference `stock - quantity`, including for `quantity == MIN_VALUE` |
| JavaInt.AddNegThenAdd | PharmacyManagement.java:83 | adding back `q` after adding `-q` restores every int, overflow or not |
| Medications.NewMedication | PharmacyManagement.java:10-16 | a new medication has the given name, id, price and stock, and is unrated (rating -1) |
| Medications.Medication.UpdateStock | PharmacyManagement.java:34-36 | only the stock moves, by exactly `amount` when no overflow occurs (int addition otherwise); name, id, price and rating are unchanged |
| Medications.Medication.SetRating | PharmacyManagement.java:42-44 | the rating becomes the given value unconditionally; nothing else changes |
| Medications.UpdateStockUndo | PharmacyManagement.java:34-36 | `updateStock(-q)` followed by `updateStock(q)` gives back the same medication |
| Orders.NewOrder | PharmacyManagement.java:65-71 | a new order refers to its medication, has cost price × quantity, an empty address, and is not cancelled |
| Orders.Order.SetAddress | PharmacyManagement.java:73-75 | the address is stored; medication, quantity, cost and flag are unchanged |
| Orders.Order.Cancel | PharmacyManagement.java:81-84 | the flag is set; medication, quantity, cost and address are unchanged (the stock half is in CancelAt) |
| Inventory.FindMedication | PharmacyManagement.java:114-118 | lookup returns the position of the first medication with the id, and returns nothing exactly when no medication has it |
| Inventory.ActiveOrders | PharmacyManagement.java:175-179 | the live-order list holds only positions of orders that are not cancelled |
| Inventory.ActiveOrdersIncreasing | PharmacyManagement.java:175-179 | the live-order list is in insertion order (strictly increasing positions) |
| Inventory.ActiveOrdersComplete | PharmacyManagement.java:176-178 | every order that is not cancelled is on the live-order list |
| Inventory.Seed | PharmacyManagement.java:102-106 | the system starts with three medications, all unrated and with non-negative stock |
| Inventory.AddMedication | PharmacyManagement.java:108-111 | one medication with the given fields and no rating is appended; earlier medications and all orders are unchanged |
| Inventory.AdjustStock | PharmacyManagement.java:113-122 | found iff some medication has the id; the first such medication gets `stock += amount`; every other medication and all orders are unchanged; an unknown id changes nothing |
| Inventory.TakeOrder | PharmacyManagement.java:133-152 | the chosen medication loses `quantity` of stock, keeps name, id and price, and takes the rating only when it lies in [1, 5]; one live order with its quantity, cost price × quantity and the address is appended; earlier orders are unchanged |
| Inventory.PlaceOrder | PharmacyManagement.java:130-160 | not found iff no medication has the id; insufficient iff the first match has less stock than the quantity; otherwise the order is taken on the first match, and a stock `s >= q >= 0` ends at exactly `s - q >= 0`; whether the rating was accepted is reported; refusals change nothing |
| Inventory.CancelAt | PharmacyManagement.java:193-194 | the chosen order is flagged cancelled and its quantity is added back to its own medication; every other order and medication is unchanged, ids included |
| Inventory.CancelOrder | PharmacyManagement.java:174-199 | no-active iff every order is cancelled; cancelled iff num lies between 1 and the length of the live list, and then exactly the `num`-th live order (which was not cancelled) is cancelled; otherwise nothing changes |
| InventoryProperties.FindDependsOnlyOnIds | PharmacyManagement.java:114-118 | lookups give the same answer on two lists whose ids agree position by position |
| InventoryProperties.AddMedicationKeepsLookups | PharmacyManagement.java:108-109 | after an append, an id found before is found at the same place; only an id not present before can find the new entry |
| InventoryProperties.AddMedicationWellFormed | PharmacyManagement.java:108-109 | appending keeps every order pointing at a medication that a lookup reaches |
| InventoryProperties.AdjustStockWellFormed | PharmacyManagement.java:113-116 | a stock adjustment keeps every order pointing at a reachable medication |
| InventoryProperties.PlaceOrderWellFormed | PharmacyManagement.java:131-136 | a new order points at the medication its lookup found, and the older orders still point at reachable medications |
| InventoryProperties.CancelOrderWellFormed | PharmacyManagement.java:193-194 | a cancellation keeps every order pointing at a reachable medication |
| InventoryProperties.ShadowedNeverModified | PharmacyManagement.java:114-118 | a medication shadowed by an earlier one with the same id is left unchanged by adjustment, ordering and cancelling, whatever the arguments |
| InventoryProperties.ActiveAfterPlace | PharmacyManagement.java:136 | a placed order joins the end of the live-order list |
| InventoryProperties.ActiveAfterCancel | PharmacyManagement.java:175-179 | cancelling the m-th live order removes exactly that entry from the live-order list |
| InventoryProperties.CancelReindexes | PharmacyManagement.java:193-197 | the cancelled order leaves the live list, so it is never cancelled twice; the same number then picks the next live order, or is refused if there is none |
| InventoryProperties.PlaceThenCancelRestoresStock | PharmacyManagement.java:81-84 | placing an order and then cancelling it (it is the last live order) gives every medication back its stock, id and price, and leaves the order on record, cancelled |
| InventoryProperties.AdjustStockCanGoNegative | PharmacyManagement.java:34-35 | an adjustment of -101 to the seeded Paracetamol (100) leaves stock -1 |
| InventoryProperties.NegativeOrderRaisesStock | PharmacyManagement.java:133-134 | an order with a negative quantity is accepted by any non-negative stock and raises it |
| InventoryProperties.PlaceOrderKeepsStockNonNegative | PharmacyManagement.java:133-134 | orders of non-negative quantities keep non-negative stocks non-negative |
| InventoryProperties.SeedOrderScenario | PharmacyManagement.java:133-138 | ordering 10 M101 from the seeded system leaves 90 in stock and records one order costing 250.0; rating 6 is refused and the medication stays unrated |
| InventoryProperties.SeedRatingScenario | PharmacyManagement.java:146-152 | the same order with rating 4 stores rating 4 |
| InventoryProperties.SeedCancelScenario | PharmacyManagement.java:193-194 | cancelling order 1 afterwards brings the stock back to 100 and leaves no live order |
| InventoryProperties.SeedUnknownScenario | PharmacyManagement.java:159 | ordering the unknown id M999 reports not found and changes nothing |
| Conservation.AdjustBaseline | PharmacyManagement.java:113-116 | the seller's running total moves by the amount for exactly the medication the adjustment hits |
| Conservation.SeedConserved | PharmacyManagement.java:102-106 | the seeded system holds exactly its initial stock |
| Conservation.AddMedicationConserves | PharmacyManagement.java:108-109 | a new medication's stock is its own baseline, with nothing outstanding |
| Conservation.AdjustStockConserves | PharmacyManagement.java:113-116 | an adjustment moves the stock and the baseline together |
| Conservation.TakeOrderConserves | PharmacyManagement.java:133-136 | taking an order moves its quantity from stock to outstanding |
| Conservation.PlaceOrderConserves | PharmacyManagement.java:130-160 | every outcome of placing an order keeps stock = baseline - outstanding |
| Conservation.CancelAtConserves | PharmacyManagement.java:81-84 | cancelling a live order moves its quantity from outstanding back to stock |
| Conservation.CancelOrderConserves | PharmacyManagement.java:193-194 | every outcome of a cancellation request keeps stock = baseline - outstanding |
| Conservation.SettledStock | PharmacyManagement.java:81-84 | once no live order is left for a medication, its stock is exactly what was put in, wrapped to an int |
| Pharmacy.PharmacyManagementSystem.constructor | PharmacyManagement.java:102-106 | the new system holds the seeded medications and no orders, and is valid |
| Pharmacy.PharmacyManagementSystem.AddMedication | PharmacyManagement.java:108-111 | the loop-free append leaves exactly the AddMedication state and keeps the system valid |
| Pharmacy.PharmacyManagementSystem.UpdateStock | PharmacyManagement.java:113-122 | the early-return scan leaves exactly the AdjustStock state and reports found/not found as it does; the system stays valid |
| Pharmacy.PharmacyManagementSystem.OrderMedication | PharmacyManagement.java:130-160 | the early-return scan with in-place decrement, append, address and rating leaves exactly the PlaceOrder state and outcome; the system stays valid |
| Pharmacy.PharmacyManagementSystem.ActiveOrderIndices | PharmacyManagement.java:175-179 | the loop collects exactly the live-order list (non-cancelled orders in insertion order) |
| Pharmacy.PharmacyManagementSystem.CancelOrder | PharmacyManagement.java:174-199 | building the live list and cancelling the chosen entry in place leaves exactly the CancelOrder state and outcome; the system stays valid |

## Left out

- `User`, login, registration, the static user state and the `main` menu loop (lines 202-362) are not modelled. They are a console credential check with no state rules.
- Console output is not modelled: `toString`, `displayMedications` and the printing in `displayOrders` (lines 46-55, 86-95, 124-128, 162-172). Each printed message becomes an outcome value. The live-order filter `displayOrders` uses is `Inventory.ActiveOrders`.
- `Scanner` input is not modelled (lines 140-146, 190-192). The delivery address, the rating and the cancel number are parameters. Input parsing, `InputMismatchException` and the `nextLine` calls that skip the rest of a line are left out.
- `double` is modelled as exact `real`. IEEE rounding of `price * quantity` and NaN ratings are not modelled.
- The getters (lines 18-32, 38-40, 77-79) are the datatypes' field reads.
- `Medication` and `Order` objects are modelled as values. The system's methods replace them inside its lists rather than mutating shared objects. An order's reference to its `Medication` object is modelled as the medication's position in the list. The list only grows, so that position always denotes the same entry. Heap aliasing itself is not modelled.
- `Order.cancel` is split in two. The flag is set in `Orders.Order.Cancel`. Adding the quantity back to the referenced medication, which Java does through the shared reference, is in `Inventory.CancelAt`.
- The per-medication baseline behind the stock accounting (see `Conservation.AdjustBaseline`) is ghost bookkeeping. It has no counterpart in the Java code.
