/** The optional value used wherever the C# code returns or receives `null`. */
module Wrappers {

  datatype Option<+T> = None | Some(value: T) {

    /** C#'s null-coalescing `x ?? fallback`. */
    function Coalesce(fallback: T): (r: T)
      ensures Some? ==> r == value
      ensures None? ==> r == fallback
    {
      if Some? then value else fallback
    }
  }
}
