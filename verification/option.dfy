/** The "no match" result shared by every extractor. */
module Opt {
  datatype Option<+T> = None | Some(value: T)
}
