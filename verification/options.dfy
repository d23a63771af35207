/**
 Optional values, shaped like Rust's `Option`: the record's timestamp is one,
 and so is the result of looking a name up in a field or tag map.
 */
module Options {

  datatype Option<T> = None | Some(value: T) {

    /** Keeps a present value; falls back to `fallback` when there is none. */
    function OrElse(fallback: Option<T>): (r: Option<T>)
      ensures Some? ==> r == this
      ensures None? ==> r == fallback
    {
      match this
      case Some(_) => this
      case None => fallback
    }
  }

  /** Looks `name` up in `m`: present exactly when `m` holds it, with its value. */
  function Lookup<V>(m: map<string, V>, name: string): (r: Option<V>)
    ensures r.Some? <==> name in m
    ensures r.Some? ==> r.value == m[name]
  {
    match name in m
    case true => Some(m[name])
    case false => None
  }
}
