/** Optional values: `None` stands for a JavaScript operation that yields no
    match (a regular expression that does not match, `indexOf` returning -1)
    or throws (a `JSON.parse` that rejects its input). */
module Wrappers {

  datatype Option<+T> = None | Some(value: T)
}
