/** Optional values, results, and the ways a highlighting pass can abort. */
module Wrappers {

  datatype Option<+T> = None | Some(value: T)

  /** `Ok` carries a value; `Err` carries the reason a computation panicked. */
  datatype Result<+T, +E> = Ok(value: T) | Err(error: E)

  /** Each constructor names one `assert!`, `panic!` or `unwrap()` of the
      modelled code that can fail; a run that hits one aborts. */
  datatype Fault =
    | BadCommentText        // kind_by_prefix found no known comment prefix
    | MacroCallMismatch     // leaving a macro call that is not the current one
    | ExpandedIsNotToken    // a raw string expanded to a node, not a token
    | RangeOutsideContents  // map_range_up was given a range it does not contain
    | InvertedRange         // TextRange::new was given an end before its start
}
