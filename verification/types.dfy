/** The three scalar types of the emulated machine. */
module Types {

  /** An 8-bit unsigned value (`byte_t`). Kept as a bit-vector because the
      flags and the bus combine bytes with bitwise operators. */
  type Byte = bv8

  /** A 16-bit unsigned value (`word_t`). */
  type Word = x: int | 0 <= x < 0x1_0000

  /** An address (`address_t`), the same domain as a word. */
  type Address = Word

  /** Truncation of an integer to `address_t`: every `pc + k` and
      `address + offset` of the machine is taken modulo 65536. */
  function Wrap(x: int): (a: Address)
    ensures a as int % 0x1_0000 == x % 0x1_0000
  {
    x % 0x1_0000
  }

  /** Truncating an intermediate sum does not change the truncated total. */
  lemma WrapAbsorbs(x: int, n: int)
    ensures Wrap(Wrap(x) + n) == Wrap(x + n)
  {
    var q := x / 0x1_0000;
    assert x == q * 0x1_0000 + Wrap(x);
    assert x + n == (Wrap(x) + n) + q * 0x1_0000;
  }

  /** The byte with numeric value `x`, built by counting up from 0 so that
      no integer-to-bit-vector conversion is needed. */
  function ToByte(x: int): (b: Byte)
    requires 0 <= x < 256
    ensures b as int == x
    decreases x
  {
    if x == 0 then 0 else ToByte(x - 1) + 1
  }

  /** Bit `k` of `x` is set. */
  predicate BitSet(x: Byte, k: Byte)
    requires k < 8
  {
    x & ((1 as Byte) << k) != 0
  }

  /** A byte is determined by its eight bits. */
  lemma BitsDetermineByte(x: Byte, y: Byte)
    requires forall k: Byte | k < 8 :: BitSet(x, k) == BitSet(y, k)
    ensures x == y
  {
    assert BitSet(x, 0) == BitSet(y, 0) && BitSet(x, 1) == BitSet(y, 1);
    assert BitSet(x, 2) == BitSet(y, 2) && BitSet(x, 3) == BitSet(y, 3);
    assert BitSet(x, 4) == BitSet(y, 4) && BitSet(x, 5) == BitSet(y, 5);
    assert BitSet(x, 6) == BitSet(y, 6) && BitSet(x, 7) == BitSet(y, 7);
  }

  /** A bit of `x | y` is set exactly when it is set in `x` or in `y`; no
      bit of 0 is set. */
  lemma OrBits(x: Byte, y: Byte)
    ensures forall k: Byte | k < 8 :: BitSet(x | y, k) <==> BitSet(x, k) || BitSet(y, k)
    ensures forall k: Byte | k < 8 :: !BitSet(0, k)
  {
  }
}
