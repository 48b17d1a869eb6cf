module Options {
  datatype Option<+T> = None | Some(value: T)

  function Prepend<T>(x: T, s: Option<seq<T>>): Option<seq<T>> {
    if s.Some? then Some([x] + s.value) else None
  }
}
