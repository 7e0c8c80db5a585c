/** Character classes that texts and sources share. */
module Chars {
  predicate IsDigit(c: char) { '0' <= c <= '9' }
}
