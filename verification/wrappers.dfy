/** The optional-value wrapper used for the `ApiResponse | null` result of a fetch. */
module Wrappers {

  /** `None` stands for the JavaScript `null` a failed fetch yields. */
  datatype Option<+T> = None | Some(value: T)
}
