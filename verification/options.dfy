/** The optional values Swift writes as `T?`. */
module Options {

  datatype Option<T> = None | Some(value: T) {

    /** `self ?? default` */
    function GetOr(default: T): T {
      if Some? then value else default
    }

    /** `self.map(f)` */
    function Map<U>(f: T -> U): Option<U> {
      if Some? then Some(f(value)) else None
    }
  }
}
