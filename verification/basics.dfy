/** Small shared definitions: the nullable column / optional option value. */
module Basics {

  /** A SQL column that may hold NULL, or a chat option the user may omit. */
  datatype Option<+T> = None | Some(value: T)

  function Min(a: int, b: int): (r: int)
  {
    if a <= b then a else b
  }
}
