/** Optional values and failing computations, shared by every module of the model. */
module Wrappers {

  /** `undefined` in the source becomes `None`. */
  datatype Option<+T> = None | Some(value: T)

  /** Why an operation of the source throws instead of returning. */
  datatype Failure =
    | ItemWithoutParent   // getItemIndex on an item whose `parent` is unset
    | UndefinedItem       // a property read on `children[-1]`, which is `undefined`
    | NoHighlights        // `highlights[highlights.length - 1].to` on an empty array

  /** The outcome of an operation that may throw. */
  datatype Result<+T> = Ok(value: T) | Err(failure: Failure)
}
