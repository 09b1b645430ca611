/** What the models share. */
module Common {

  datatype Option<+T> = None | Some(value: T)

  datatype Result<+T, +E> = Ok(value: T) | Err(error: E)

  /** How a leaf is spoken to. */
  datatype Transport = HttpPost | StreamableHttp

  /** What is known of a leaf's health. */
  datatype Health = Unknown | Healthy | Unhealthy

  /** The number that decimal digits stand for. */
  function Number(digits: string): nat
    requires forall i :: 0 <= i < |digits| ==> '0' <= digits[i] <= '9'
  {
    if digits == "" then 0 else 10 * Number(digits[..|digits| - 1]) + (digits[|digits| - 1] as int - '0' as int)
  }
}
