/** Register selectors and the layout of one register cell. */
module Registers {
  import opened Types

  /** The ten byte registers, named by their high and low halves. */
  datatype ByteRegister = A | F | B | C | D | E | H | L | I | R

  /** The thirteen word registers; the trailing underscore marks the
      alternate (shadow) set. */
  datatype WordRegister = AF | BC | DE | HL | AF_ | BC_ | DE_ | HL_ | IR | IX | IY | SP | PC

  /** Every byte register, in declaration order. */
  const AllByteRegisters: seq<ByteRegister> := [A, F, B, C, D, E, H, L, I, R]

  /** Every word register, in declaration order. */
  const AllWordRegisters: seq<WordRegister> := [AF, BC, DE, HL, AF_, BC_, DE_, HL_, IR, IX, IY, SP, PC]

  /** One register cell. `word` is the 16-bit storage; `half` is the single
      byte that the high and the low byte name both denote, because the two
      byte names are members of one anonymous union. Neither field is
      derived from the other. */
  datatype Register = Register(word: Word, half: Byte)

  /** A freshly constructed register: both storages are zero. */
  const Fresh: Register := Register(0, 0)

  /** The cell holding a byte register: A and F live in AF, and so on. */
  function CellOf(b: ByteRegister): (w: WordRegister)
    ensures w in {AF, BC, DE, HL, IR}
  {
    match b
    case A => AF
    case F => AF
    case B => BC
    case C => BC
    case D => DE
    case E => DE
    case H => HL
    case L => HL
    case I => IR
    case R => IR
  }

  /** The other byte name of the same cell (A for F, F for A, ...). */
  function Partner(b: ByteRegister): (p: ByteRegister)
    ensures p != b && CellOf(p) == CellOf(b)
  {
    match b
    case A => F
    case F => A
    case B => C
    case C => B
    case D => E
    case E => D
    case H => L
    case L => H
    case I => R
    case R => I
  }

  /** The position of a word register in declaration order. */
  function WordIndex(w: WordRegister): (i: nat)
    ensures i < |AllWordRegisters| && AllWordRegisters[i] == w
  {
    match w
    case AF => 0
    case BC => 1
    case DE => 2
    case HL => 3
    case AF_ => 4
    case BC_ => 5
    case DE_ => 6
    case HL_ => 7
    case IR => 8
    case IX => 9
    case IY => 10
    case SP => 11
    case PC => 12
  }

  /** The selectors are closed sets: 10 distinct byte registers and 13
      distinct word registers, and every value of either type is listed.
      Exactly the five cells AF, BC, DE, HL and IR carry byte names, two each. */
  lemma SelectorsClosed()
    ensures |AllByteRegisters| == 10 && |AllWordRegisters| == 13
    ensures forall b: ByteRegister :: b in AllByteRegisters
    ensures forall w: WordRegister :: w in AllWordRegisters
    ensures forall i, j :: 0 <= i < j < |AllByteRegisters| ==> AllByteRegisters[i] != AllByteRegisters[j]
    ensures forall i, j :: 0 <= i < j < |AllWordRegisters| ==> AllWordRegisters[i] != AllWordRegisters[j]
    ensures forall b, b' :: CellOf(b) == CellOf(b') <==> b == b' || b' == Partner(b)
  {
    forall b: ByteRegister ensures b in AllByteRegisters {
      match b
      case A => assert AllByteRegisters[0] == b;
      case F => assert AllByteRegisters[1] == b;
      case B => assert AllByteRegisters[2] == b;
      case C => assert AllByteRegisters[3] == b;
      case D => assert AllByteRegisters[4] == b;
      case E => assert AllByteRegisters[5] == b;
      case H => assert AllByteRegisters[6] == b;
      case L => assert AllByteRegisters[7] == b;
      case I => assert AllByteRegisters[8] == b;
      case R => assert AllByteRegisters[9] == b;
    }
    forall w: WordRegister ensures w in AllWordRegisters {
      match w
      case AF => assert AllWordRegisters[0] == w;
      case BC => assert AllWordRegisters[1] == w;
      case DE => assert AllWordRegisters[2] == w;
      case HL => assert AllWordRegisters[3] == w;
      case AF_ => assert AllWordRegisters[4] == w;
      case BC_ => assert AllWordRegisters[5] == w;
      case DE_ => assert AllWordRegisters[6] == w;
      case HL_ => assert AllWordRegisters[7] == w;
      case IR => assert AllWordRegisters[8] == w;
      case IX => assert AllWordRegisters[9] == w;
      case IY => assert AllWordRegisters[10] == w;
      case SP => assert AllWordRegisters[11] == w;
      case PC => assert AllWordRegisters[12] == w;
    }
  }
}
