/**
 * Error results shared by both heaps. The C++ heaps report misuse by throwing
 * `std::logic_error` (empty heap) or `std::invalid_argument` (bad handle, key
 * that cannot be decreased); here each throw becomes an `Err` value and the
 * operation leaves the heap as it was.
 */
module Results {

  /** The reasons the C++ code throws. */
  datatype Error =
    | EmptyHeap       // getMin / extractMin on a heap without elements
    | EmptyHandle     // a default-constructed ManipulationPointer
    | DeletedElement  // the handle's element has already been removed
    | KeyIncrease     // Fibonacci decreaseKey with a larger key
    | Undefined       // behaviour C++ leaves undefined: a nullptr dereference, a cascade that does not stop,
                      // or consolidate indexing past its degree table

  /** The outcome of an operation that returns a value or throws. */
  datatype Result<T> = Ok(value: T) | Err(error: Error)

  /** The outcome of an operation that returns nothing or throws. */
  datatype Outcome = Pass | Fail(error: Error)
}
