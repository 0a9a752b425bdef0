/**
 * A catalogue entry: a medication keyed by its string id, with a price, a
 * stock counter that Java `int` arithmetic adjusts by signed amounts, and a
 * rating that stays at the sentinel -1 until somebody rates it.
 */
module Medications {
  import opened JavaInt

  /** The rating a medication carries before anybody has rated it. */
  const UNRATED: real := -1.0

  datatype Medication = Medication(name: string, id: string, price: real, stock: Int32, rating: real)
  {
    /** True once a rating has been set. */
    predicate IsRated() {
      rating != UNRATED
    }

    /** `stock += amount` in int arithmetic: only the stock moves. */
    function UpdateStock(amount: Int32): (m: Medication)
      ensures m.name == name && m.id == id && m.price == price && m.rating == rating
      ensures MIN_VALUE <= stock + amount <= MAX_VALUE ==> m.stock == stock + amount
      ensures m.stock == Add(stock, amount)
    {
      this.(stock := Add(stock, amount))
    }

    /** Unconditional setter: any value is stored; the range check belongs to the caller. */
    function SetRating(r: real): (m: Medication)
      ensures m.rating == r
      ensures m.name == name && m.id == id && m.price == price && m.stock == stock
    {
      this.(rating := r)
    }
  }

  /** A new medication: the given name, id, price and stock, and no rating yet. */
  function NewMedication(name: string, id: string, price: real, stock: Int32): (m: Medication)
    ensures m.name == name && m.id == id && m.price == price && m.stock == stock
    ensures !m.IsRated()
  {
    Medication(name, id, price, stock, UNRATED)
  }

  /** Taking `q` out of stock and putting `q` back gives the medication it was. */
  lemma {:induction false} UpdateStockUndo(m: Medication, q: Int32)
    ensures m.UpdateStock(Neg(q)).UpdateStock(q) == m
  {
    AddNegThenAdd(m.stock, q);
  }
}
