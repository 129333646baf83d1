/** The optional result of a partial directive (PHP's implicit `null` return). */
module Wrappers {

  datatype Option<+T> = None | Some(value: T)
}
