/** The one stock rule shared by the dashboard, the table browser and the
    command palette: a quantity below 20 is low. */
module Inventory {
  import opened JsValue

  /** Quantities strictly below this are low. */
  const LowStockThreshold: real := 20.0

  /** `quantite < 20` by JavaScript's `<`: the value is converted to a number
      first, so `null` counts as 0 (low) and `undefined` or text that is not
      a number never compares (not low). */
  predicate LowQuantity(v: Value) {
    LessThan(v, LowStockThreshold)
  }

  /** On numbers the rule is the plain comparison: 19 is low and 20 is not. */
  lemma LowQuantityOfNumber(n: real)
    ensures LowQuantity(Num(n)) <==> n < 20.0
    ensures LowQuantity(Num(19.0)) && !LowQuantity(Num(20.0))
    ensures LowQuantity(Null) && !LowQuantity(Undefined)
  {
  }
}
