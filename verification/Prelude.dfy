/** Names shared by the kernel models. */
module Prelude {
  datatype Option<+T> = None | Some(value: T)

  /** A struct thread, known by its address. */
  type Tid = nat
}
