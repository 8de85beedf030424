/** An optional value: None stands for an absent option, a failed parse or a crash. */
module Wrappers {

  /** Either no value (an absent option, a failed parse, a crash) or some value. */
  datatype Option<+T> = None | Some(value: T)
}
