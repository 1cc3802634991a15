/** An optional value: a JavaScript property that is `undefined` or `null`,
    a Python keyword argument that was not passed. */
module Maybe {
  datatype Option<T> = None | Some(value: T) {
    function GetOr(default: T): T {
      match this
      case Some(v) => v
      case None => default
    }
  }
}
