/** Option and Result, the two failure-carrying types the layer returns, and
    Fueled, the answer of a search that is bounded by fuel. */
module Wrappers {
  datatype Option<+T> = None | Some(value: T)

  datatype Result<+T, +E> = Ok(value: T) | Err(error: E)

  /** A search either runs to completion with an answer, or runs out of fuel
      before it can tell. */
  datatype Fueled<+T> = Done(value: T) | OutOfFuel
}
