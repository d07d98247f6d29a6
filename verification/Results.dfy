/** Success and failure values shared by the modules of the model. */
module Results {

  datatype Option<+T> = None | Some(value: T)

  /** `std::expected`, and the exceptions the parsers throw; failure-compatible, so `:-` passes an error on. */
  datatype Result<+T, +E> = Ok(value: T) | Err(error: E) {
    predicate IsFailure() {
      Err?
    }

    function PropagateFailure<U>(): Result<U, E>
      requires Err?
    {
      Err(error)
    }

    function Extract(): T
      requires Ok?
    {
      value
    }
  }

  /** The error codes of `enum class DnsError`. */
  datatype DnsError =
    | NX_DOMAIN | RETRY | NODATA | PARSE | CONNECTION | CONFIG | CANCELLED | SERVER_REFUSED | UNKNOWN
}
