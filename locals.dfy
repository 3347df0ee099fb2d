/** The codes the game imports from its `locals` module, which is not part of
    this model. Their values are an assumption: the directions are the four
    orientations 0..3 in clockwise order (the orientation of the level and the
    direction of a sprite are compared with one another), and the two rotation
    senses are +1 and -1. The proofs rely only on the codes being distinct. */
module Locals {
  const RIGHT: int := 0
  const DOWN: int := 1
  const LEFT: int := 2
  const UP: int := 3

  const CLOCKWISE: int := 1
  const COUNTER_CLOCKWISE: int := -1
}
