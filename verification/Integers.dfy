/** The int of the source, 64 bits wide. */
module Integers {
  const MAX_INT: int := 0x7FFF_FFFF_FFFF_FFFF
}
