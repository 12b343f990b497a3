/** Failure-compatible result types shared by the scene-building model.
    The source signals failure by raising Python exceptions; each exception the
    modelled code can raise becomes one constructor of `Error`. */
module Wrappers {

  datatype Option<+T> = None | Some(value: T)

  /** Why an operation of the source would raise. */
  datatype Error =
    | FormatError      // a shot id without a parseable `_<int>` ordinal (ValueError / IndexError)
    | EmptyRegistry    // `max()` over the keys of an empty cluster map (ValueError)
    | EmptyAggregate   // `Counter([]).most_common(1)[0]` on a cluster without eligible shots (IndexError)
    | MissingNeighbour // a list index one past the end (IndexError)
    | MissingKey       // a dict lookup of a key the dict does not hold (KeyError)

  datatype Result<+T> = Success(value: T) | Failure(error: Error) {
    predicate IsFailure() {
      Failure?
    }

    function PropagateFailure<U>(): Result<U>
      requires Failure?
    {
      Failure(error)
    }

    function Extract(): T
      requires Success?
    {
      value
    }
  }
}
