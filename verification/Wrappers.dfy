module Wrappers {
  datatype Option<+T> = None | Some(value: T)

  datatype Result<+T, +E> = Ok(value: T) | Err(error: E)

  // Math.sign on integers.
  function Sign(n: int): (s: int)
    ensures -1 <= s <= 1
    ensures s < 0 <==> n < 0
    ensures s > 0 <==> n > 0
  {
    if n < 0 then -1 else if n > 0 then 1 else 0
  }
}
