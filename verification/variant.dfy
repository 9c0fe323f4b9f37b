/** Where a routine of the source differs from what its authors evidently
    intended, the operations built on it take the reading to follow: the
    routine as written, or as intended. */
module Variants {

  datatype Variant = AsWritten | Intended
}
