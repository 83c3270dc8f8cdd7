/** Option, for values that may be absent: the result of parsing a level's
    price or size, and the row of a price when the price range is zero. */
module Wrappers {

  datatype Option<+T> = None | Some(value: T)
}
