/** Results of the checked accessors: a value, or the `std::out_of_range`
    exception the containers throw, with the message they throw it with. */
module Outcomes {

  datatype Result<+T> = Ok(value: T) | OutOfRange(what: string)

  /** The outcome of an operation that returns nothing but may throw. */
  datatype Status = Done | Failed(what: string)
}
