/** Machine-level notions shared by the runtime's OS layer: the Lisp word
    (`lispobj`) of a 64-bit target, the C conversions applied to it, and an
    Option type standing for a pointer or weak symbol that may be absent. */
module Machine {

  /** Number of distinct values of a 64-bit `lispobj`. */
  const WORD_MODULUS: int := 0x1_0000_0000_0000_0000

  /** `sizeof(lispobj)` on a 64-bit target: the scale of `lispobj *` arithmetic. */
  const N_WORD_BYTES: nat := 8

  /** A `lispobj`: an unsigned machine word. */
  type Word = w: int | 0 <= w < WORD_MODULUS

  /** `(lispobj)-1`: the word with every bit set. */
  const ALL_ONES: Word := WORD_MODULUS - 1

  const INT_MODULUS: int := 0x1_0000_0000
  const INT_MAX: int := 0x7FFF_FFFF

  /** The value a C `int` (32-bit, two's complement) receives when a word is
      assigned to it: the low 32 bits, read as a signed number. */
  function ToCInt(w: Word): (r: int)
    ensures -INT_MAX - 1 <= r <= INT_MAX
    ensures (w - r) % INT_MODULUS == 0
    ensures w <= INT_MAX ==> r == w
  {
    var low := w % INT_MODULUS;
    if low <= INT_MAX then low else low - INT_MODULUS
  }

  datatype Option<T> = None | Some(value: T)
}
