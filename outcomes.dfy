/** Option and Result values, and the Python exceptions the modelled code can raise. */
module Outcomes {

  datatype Option<+T> = None | Some(value: T) {
    function GetOr(default: T): T {
      match this
      case Some(v) => v
      case None => default
    }
  }

  /** The exceptions that escape the modelled functions. */
  datatype Error =
    | IndexError               // indexing an empty list (`char_list[0]` of an empty string)
    | ValueError               // `str.split` with an empty separator
    | TypeError                // `', '.join` over a list holding None, or iterating None
    | KeyError(message: string)                            // raised by `ntr`
    | DictKeyError(language: Option<string>, fallback: seq<string>)  // raised by `dtr`'s translator

  datatype Result<+T> = Ok(value: T) | Err(error: Error)
}
