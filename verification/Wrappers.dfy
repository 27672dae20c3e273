/** The result of a compile-time computation: None stands for a failing static_assert. */
module Wrappers {
  datatype Option<+T> = None | Some(value: T)
}

/** The 32-bit unsigned integers of the target. */
module Words {
  const WORD: nat := 0x1_0000_0000

  type Word = x: nat | x < WORD
}
