/** An optional value, standing for a request or session field that may be absent. */
module Optional {

  datatype Option<+T> = None | Some(value: T) {

    /** PHP's `??`: the field when it is present, otherwise the fallback. */
    function GetOr(fallback: T): T {
      if Some? then value else fallback
    }
  }
}
