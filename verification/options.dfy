/** Optional values, shared by the other modules. */
module Options {

  /** A value that may be absent: Go's nil pointers, nil readers and "no match" results. */
  datatype Option<T> = None | Some(value: T) {

    /** The value, or fallback when absent (Go's zero value after an ignored `ok`). */
    function ValueOr(fallback: T): (v: T)
      ensures Some? ==> v == value
      ensures None? ==> v == fallback
    {
      if Some? then value else fallback
    }
  }
}
