/** The optional-value datatype used throughout the model: `None` stands for
    JavaScript's `undefined`/`NaN`/"the schema rejected the input", depending
    on where it is used. */
module Wrappers {

  datatype Option<+T> = None | Some(value: T) {

    /** The value, or `default` when absent. */
    function GetOr(default: T): T {
      match this
      case Some(v) => v
      case None => default
    }
  }
}
