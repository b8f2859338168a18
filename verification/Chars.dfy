/** Character classes of the C library. */
module Chars {
  predicate IsSpace(c: char) { c == ' ' || '\t' <= c <= '\r' }
}
