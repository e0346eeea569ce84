/** Amounts, in cents. */
module Money {

  const MAX_AMOUNT: int := 999_999_999_99

  /** `_validate_amount`, with the two decimal places of cents. */
  predicate ValidAmount(amount: int) { 0 < amount <= MAX_AMOUNT }
}
