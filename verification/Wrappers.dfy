// The option and outcome types shared by the modules.
module Wrappers {
  datatype Option<+T> = None | Some(value: T)

  // A call that can also panic.
  datatype Attempt<+T> = Done(value: T) | Error | Panic
}
