/**
 Tape cells are `usize` in `src/main.rs`, so increment and decrement
 wrap modulo 2^64; only printing truncates a cell to its low byte.
 */
module Cells {

  const WORD_MODULUS: int := 0x1_0000_0000_0000_0000
  const WORD_MAX: int := WORD_MODULUS - 1

  /** A 64-bit unsigned cell value. */
  newtype Word = x: int | 0 <= x < 0x1_0000_0000_0000_0000

  /** `wrapping_add(1)`: one more, except that the largest value wraps to zero. */
  function WrappingInc(x: Word): (r: Word)
    ensures x as int < WORD_MAX ==> r as int == x as int + 1
    ensures x as int == WORD_MAX ==> r == 0
  {
    ((x as int + 1) % WORD_MODULUS) as Word
  }

  /** `wrapping_sub(1)`: one less, except that zero wraps to the largest value. */
  function WrappingDec(x: Word): (r: Word)
    ensures 0 < x ==> r as int == x as int - 1
    ensures x == 0 ==> r as int == WORD_MAX
  {
    ((x as int - 1) % WORD_MODULUS) as Word
  }

  /** An unsigned 8-bit value. */
  newtype Byte = x: int | 0 <= x < 256

  /** `x as u8`: the low eight bits of the cell. */
  function LowByte(x: Word): (b: Byte)
    ensures x as int < 256 ==> b as int == x as int
    ensures (x as int - b as int) % 256 == 0
  {
    (x as int % 256) as Byte
  }

  /** Decrement undoes increment, across the wrap boundary too. */
  lemma DecUndoesInc(x: Word)
    ensures WrappingDec(WrappingInc(x)) == x
  {}

  /** Increment undoes decrement, across the wrap boundary too. */
  lemma IncUndoesDec(x: Word)
    ensures WrappingInc(WrappingDec(x)) == x
  {}
}
