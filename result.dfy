/** The outcome of an operation that the C++ code ends by throwing
    `std::runtime_error` or `std::invalid_argument` on bad input. */
module Results {

  datatype Result<T> = Success(value: T) | Failure(error: string)
}
