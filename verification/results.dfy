/** Success-or-error values for the host code's fatal checks (failed asserts and thrown
    exceptions), so that the error paths are modelled rather than excluded by preconditions. */
module Results {

  datatype Result<+T, +E> = Success(value: T) | Failure(error: E)
}
