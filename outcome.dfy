/** Results of operations that can throw in the source (`std::out_of_range` from
    `std::vector::at` and `std::array::at`, JavaScript's `TypeError`), and optional values. */
module Outcome {

  datatype Exception = OutOfRange | TypeError

  datatype Result<+T> = Ok(value: T) | Thrown(error: Exception)

  datatype Option<+T> = None | Some(value: T)
}
