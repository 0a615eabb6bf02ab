/** Types that several components use. */
module Basics {

  datatype Option<T> = None | Some(value: T)

  type Bytes = seq<bv8>
}
