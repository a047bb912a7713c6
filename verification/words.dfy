/** Machine types shared by every part of the ISAAC binding model. */
module Words {

  /** An unsigned char of the seed or of a produced byte string. */
  type Byte = bv8

  /** A ub4: the unsigned 32-bit word ISAAC works in. */
  type Word = bv32

  /** RANDSIZ from rand.h (1 << RANDSIZL with RANDSIZL = 8): words per output block. */
  const RANDSIZ: nat := 256

  /** Seed bytes that fit into one block of words; later seed bytes are never read. */
  const SEEDBYTES: nat := 4 * RANDSIZ

  /** The output array randrsl, which also carries the packed seed into randinit. */
  type Block = b: seq<Word> | |b| == RANDSIZ witness seq(RANDSIZ, _ => 0 as Word)

  /** randcnt: how many words of randrsl are still unread, counting down from the top. */
  type Cursor = n: nat | n <= RANDSIZ
}
