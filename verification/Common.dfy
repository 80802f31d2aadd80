/** What several components share. */
module Common {
  datatype Option<T> = None | Some(value: T)

  const PI: real := 3.14159265358979323846
}
