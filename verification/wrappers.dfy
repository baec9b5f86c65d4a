/** The optional value used wherever the modelled code passes a possibly-null
    pointer (`ServerPublisherInfoPtr`, `PublisherBannerPtr`, a missing
    response) or reports an operation that may fail with no further detail. */
module Wrappers {

  datatype Option<+T> = None | Some(value: T) {

    /** A missing value stops a `:-` chain. */
    predicate IsFailure() {
      None?
    }

    /** Carries the absence on to an option of another element type. */
    function PropagateFailure<U>(): Option<U>
      requires None?
    {
      None
    }

    /** The present value, taken by a successful `:-`. */
    function Extract(): T
      requires Some?
    {
      value
    }

    /** The present value, or `default` when there is none. */
    function GetOr(default: T): T {
      match this
      case Some(v) => v
      case None() => default
    }
  }
}
