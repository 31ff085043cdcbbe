/** Option stands for the C# values that may be null (the declared list, the active-mod list). */
module Wrappers {
  datatype Option<+T> = None | Some(value: T)
}
