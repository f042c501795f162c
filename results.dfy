/** Ruby exceptions that the converters can raise, and the option and result types that carry nil and them. */
module Results {

  /** The exceptions that escape the three textify pipelines. */
  datatype Exception =
    | ArgumentError   // Kernel#URI given nil (an anchor without href)
    | NoMethodError   // a method called on nil (nil + String, nil + 2)
    | TypeError       // String + nil
    | IndexError      // Array#transpose over rows of different lengths

  /** A Ruby value that may be nil. */
  datatype Option<+T> = None | Some(value: T)

  /** `"#{v}"` for a String that may be nil: nil interpolates as the empty string. */
  function Interpolated(v: Option<string>): (r: string)
    ensures v.None? ==> r == []
    ensures v.Some? ==> r == v.value
  {
    if v.Some? then v.value else ""
  }

  datatype Result<+T> = Ok(value: T) | Raised(error: Exception)
}
