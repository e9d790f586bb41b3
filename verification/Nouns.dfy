/** Nouns: atoms and pairs. */
module Nouns {
  datatype Noun = Atom(value: nat) | Cell(head: Noun, tail: Noun)
}
