/** The optional-value datatype the rest of the model uses for JavaScript's
    `null`/`undefined`/`NaN` results. */
module Wrappers {

  datatype Option<+T> = None | Some(value: T)
}
