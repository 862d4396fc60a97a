/** Results and the errors of the exported functions. */
module Errors {

  datatype Option<+T> = None | Some(value: T)

  datatype Result<+T, +E> = Ok(value: T) | Err(error: E)

  datatype ProveError = InvalidInput | Witness | Prover | Cancelled | Panic

  datatype VerifyError = InvalidInput | Rejected | Setup | Panic
}
