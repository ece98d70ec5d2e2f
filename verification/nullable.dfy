/** JavaScript's `string | null`, as the scrapers return it. */
module Nullable {

  /** A value that may be JavaScript `null`. */
  datatype Nullable<+T> = Null | Value(v: T)
}
