/** Runs of a step relation. */
module Runs {

  /** Where a sequence of actions leads: to a state, or nowhere, when one of them was not enabled in its turn. */
  datatype Run<S> = Blocked | Reached(state: S)
}
