/** The optional value of the component's nullable state (`number | null`, `EditingInput | null`). */
module Wrappers {
  datatype Option<+T> = None | Some(value: T)
}
