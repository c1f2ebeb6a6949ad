/** Shared result types: the ways a run of either script ends early. */
module Common {

  datatype Option<T> = None | Some(value: T)

  /** Each failure but the last is a point where the Python script aborts. */
  datatype Failure =
    | IncompleteRange   // only one of the two range bounds was supplied
    | InvertedRange     // numpy's ValueError for a range whose minimum exceeds its maximum
    | ZeroTotalWeight   // `leftsum /= wsum` on Python floats with wsum == 0 (no weight file)
    | SingleBin         // `bin_mid[1]` on a one-bin histogram
    | ZeroBinWidth      // `leftsum/binsize` or `rightsum/binsize` on Python floats with binsize == 0
    | UndefinedUnit     // `exit("Undefined unit!")`
    | NonFiniteValues   // not an abort: a weighted run divides numpy floats by zero and goes on
                        // with infinite bin values, which this model does not represent

  datatype Result<T> = Ok(value: T) | Err(error: Failure)
}
