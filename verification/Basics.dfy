/** What every part of the library uses. */
module Basics {
  datatype Option<T> = None | Some(value: T)

  const INT_MAX := 0x7fff_ffff
  const INT_MIN := -0x8000_0000

  function One(b: bool): nat { if b then 1 else 0 }
}
