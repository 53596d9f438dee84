/** Types that several components share: optional values and the side of an order or a book. */
module Wrappers {

  datatype Option<T> = None | Some(value: T)

  datatype Side = Bid | Ask
}
