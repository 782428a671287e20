/** The Z80 register file, the flags held in F, program-counter stepping and
    the two interrupt flip-flops. */
module Cpu {
  import opened Types
  import opened Registers

  /** The six named flags of F. */
  datatype Flag = S | Z | H | PV | N | C {

    /** The bit of F that the flag occupies. */
    function Position(): (p: Byte)
      ensures p < 8
    {
      match this
      case S => 7
      case Z => 6
      case H => 4
      case PV => 2
      case N => 1
      case C => 0
    }
  }

  /** The CPU state: thirteen independent register cells and the two
      interrupt-enable flip-flops. */
  datatype CPU = CPU(
    af: Register, bc: Register, de: Register, hl: Register,
    altAf: Register, altBc: Register, altDe: Register, altHl: Register,
    ir: Register,
    ix: Register, iy: Register,
    sp: Register, pc: Register,
    iff1: bool, iff2: bool)

  /** A CPU whose cells are all freshly constructed. The flip-flops are not
      initialised by the machine, so they are parameters here. */
  function PowerOn(iff1: bool, iff2: bool): (c: CPU)
    ensures forall w :: ReadWord(c, w) == 0
    ensures forall b :: ReadByte(c, b) == 0
    ensures c.iff1 == iff1 && c.iff2 == iff2
  {
    CPU(Fresh, Fresh, Fresh, Fresh, Fresh, Fresh, Fresh, Fresh, Fresh, Fresh, Fresh, Fresh, Fresh, iff1, iff2)
  }

  /** The cell a word register selects. */
  function Cell(c: CPU, w: WordRegister): Register
  {
    match w
    case AF => c.af
    case BC => c.bc
    case DE => c.de
    case HL => c.hl
    case AF_ => c.altAf
    case BC_ => c.altBc
    case DE_ => c.altDe
    case HL_ => c.altHl
    case IR => c.ir
    case IX => c.ix
    case IY => c.iy
    case SP => c.sp
    case PC => c.pc
  }

  /** Replaces the cell a word register selects. No two selectors share a
      cell, so every other cell and both flip-flops are kept. */
  function WithCell(c: CPU, w: WordRegister, x: Register): (c': CPU)
    ensures forall q :: Cell(c', q) == if q == w then x else Cell(c, q)
    ensures c'.iff1 == c.iff1 && c'.iff2 == c.iff2
  {
    match w
    case AF => c.(af := x)
    case BC => c.(bc := x)
    case DE => c.(de := x)
    case HL => c.(hl := x)
    case AF_ => c.(altAf := x)
    case BC_ => c.(altBc := x)
    case DE_ => c.(altDe := x)
    case HL_ => c.(altHl := x)
    case IR => c.(ir := x)
    case IX => c.(ix := x)
    case IY => c.(iy := x)
    case SP => c.(sp := x)
    case PC => c.(pc := x)
  }

  /** `read(WordRegister)`: the word storage of the selected cell. */
  function ReadWord(c: CPU, w: WordRegister): Word
  {
    Cell(c, w).word
  }

  /** `read(ByteRegister)`: the shared byte of the cell holding `b`. The high
      and the low name of a cell read the same storage. */
  function ReadByte(c: CPU, b: ByteRegister): Byte
  {
    Cell(c, CellOf(b)).half
  }

  /** The thirteen cells as an array indexed in declaration order, the
      data-driven counterpart of the accessors' switches. */
  function Cells(c: CPU): seq<Register>
  {
    [c.af, c.bc, c.de, c.hl, c.altAf, c.altBc, c.altDe, c.altHl, c.ir, c.ix, c.iy, c.sp, c.pc]
  }

  /** Every word register outside `except` reads the same in `c'` as in `c`. */
  predicate WordsAgree(c: CPU, c': CPU, except: set<WordRegister>)
  {
    forall w :: w !in except ==> ReadWord(c', w) == ReadWord(c, w)
  }

  /** Every byte register whose cell is outside `except` reads the same in
      `c'` as in `c`. */
  predicate BytesAgree(c: CPU, c': CPU, except: set<WordRegister>)
  {
    forall b :: CellOf(b) !in except ==> ReadByte(c', b) == ReadByte(c, b)
  }

  /** Both interrupt flip-flops are the same in `c'` as in `c`. */
  predicate FlipFlopsAgree(c: CPU, c': CPU)
  {
    c'.iff1 == c.iff1 && c'.iff2 == c.iff2
  }

  /** `write(WordRegister, word)`: only the word storage of the selected cell
      changes; no byte read and no flip-flop is affected. */
  function WriteWord(c: CPU, w: WordRegister, v: Word): (c': CPU)
    ensures ReadWord(c', w) == v
    ensures WordsAgree(c, c', {w})
    ensures BytesAgree(c, c', {})
    ensures FlipFlopsAgree(c, c')
  {
    WithCell(c, w, Cell(c, w).(word := v))
  }

  /** `write(ByteRegister, byte)`: the shared byte of the cell holding `b`
      becomes `v`, so both names of that cell read `v`; no word read, no
      other cell and no flip-flop is affected. */
  function WriteByte(c: CPU, b: ByteRegister, v: Byte): (c': CPU)
    ensures forall b' :: CellOf(b') == CellOf(b) ==> ReadByte(c', b') == v
    ensures BytesAgree(c, c', {CellOf(b)})
    ensures WordsAgree(c, c', {})
    ensures FlipFlopsAgree(c, c')
  {
    var w := CellOf(b);
    WithCell(c, w, Cell(c, w).(half := v))
  }

  /** `step(offset)`: advances PC by `offset` modulo 65536 and returns the PC
      it had before. The source's default offset is 1. */
  function Step(c: CPU, offset: Word := 1): (res: (CPU, Address))
    ensures res.1 == ReadWord(c, PC)
    ensures ReadWord(res.0, PC) == (ReadWord(c, PC) + offset) % 0x1_0000
    ensures WordsAgree(c, res.0, {PC})
    ensures BytesAgree(c, res.0, {})
    ensures FlipFlopsAgree(c, res.0)
  {
    var pc := ReadWord(c, PC);
    (WriteWord(c, PC, Wrap(pc + offset)), pc)
  }

  /** The mask `1 << flag`. */
  function Mask(f: Flag): Byte
  {
    (1 as Byte) << f.Position()
  }

  /** `get(flag)`: the flag's bit of F. */
  predicate Get(c: CPU, f: Flag)
  {
    ReadByte(c, F) & Mask(f) != 0
  }

  /** Only the AF cell's shared byte may differ: every word read, every byte
      read outside AF and both flip-flops are kept. */
  predicate OnlyFlagByteChanged(c: CPU, c': CPU)
  {
    WordsAgree(c, c', {}) && BytesAgree(c, c', {AF}) && FlipFlopsAgree(c, c')
  }

  /** Every bit of F other than the bit of `f` is the same in `c'` as in
      `c`. */
  predicate OtherFlagBitsAgree(c: CPU, c': CPU, f: Flag)
  {
    ReadByte(c', F) & !Mask(f) == ReadByte(c, F) & !Mask(f)
  }

  /** `enable(flag)`: sets the flag's bit and no other. */
  function Enable(c: CPU, f: Flag): (c': CPU)
    ensures Get(c', f)
    ensures OtherFlagBitsAgree(c, c', f)
    ensures OnlyFlagByteChanged(c, c')
  {
    WriteByte(c, F, ReadByte(c, F) | Mask(f))
  }

  /** `disable(flag)`: clears the flag's bit and no other. */
  function Disable(c: CPU, f: Flag): (c': CPU)
    ensures !Get(c', f)
    ensures OtherFlagBitsAgree(c, c', f)
    ensures OnlyFlagByteChanged(c, c')
  {
    WriteByte(c, F, ReadByte(c, F) & !Mask(f))
  }

  /** `clearFlags()`: F becomes zero, so no flag is set. */
  function ClearFlags(c: CPU): (c': CPU)
    ensures ReadByte(c', F) == 0
    ensures forall f :: !Get(c', f)
    ensures OnlyFlagByteChanged(c, c')
  {
    WriteByte(c, F, 0)
  }

  /** `set(flag, value)` as written: a true value disables the flag and a
      false value enables it, so afterwards the flag reads `!value`. */
  function Set(c: CPU, f: Flag, value: bool): (c': CPU)
    ensures Get(c', f) == !value
    ensures OtherFlagBitsAgree(c, c', f)
    ensures OnlyFlagByteChanged(c, c')
  {
    if value then Disable(c, f) else Enable(c, f)
  }

  /** The writable `iff1()` accessor: only the first flip-flop changes. */
  function WithIff1(c: CPU, v: bool): (c': CPU)
    ensures c'.iff1 == v && c'.iff2 == c.iff2
    ensures WordsAgree(c, c', {}) && BytesAgree(c, c', {})
  {
    c.(iff1 := v)
  }

  /** The writable `iff2()` accessor: only the second flip-flop changes. */
  function WithIff2(c: CPU, v: bool): (c': CPU)
    ensures c'.iff2 == v && c'.iff1 == c.iff1
    ensures WordsAgree(c, c', {}) && BytesAgree(c, c', {})
  {
    c.(iff2 := v)
  }

  /** The flag positions are pairwise distinct. */
  lemma FlagPositionsDistinct(f: Flag, g: Flag)
    ensures f.Position() == g.Position() <==> f == g
  {
  }

  /** `get` after `set`, for every flag and value: the flag reads the
      opposite of the value passed, and a second `set` with the same
      arguments changes nothing further. */
  lemma SetIsInverted(c: CPU, f: Flag, v: bool)
    ensures Get(Set(c, f, v), f) == !v
    ensures Set(Set(c, f, v), f, v) == Set(c, f, v)
  {
  }

  /** The two byte names of one cell always read the same storage. */
  lemma ByteNamesShareStorage(c: CPU, b: ByteRegister)
    ensures ReadByte(c, b) == ReadByte(c, Partner(b))
  {
  }

  /** Because flags live in the AF cell's shared byte, writing A rewrites
      every flag: after `write(A, v)`, F reads `v` and each flag reads the
      corresponding bit of `v`. */
  lemma WritingARewritesFlags(c: CPU, v: Byte, f: Flag)
    ensures ReadByte(WriteByte(c, A, v), F) == v
    ensures Get(WriteByte(c, A, v), f) == BitSet(v, f.Position())
  {
  }

  /** The word of a cell is not made of its byte halves: after a byte write
      the word still reads its old value, so a register can hold word 0 and
      bytes 1. */
  lemma WordIsNotHighTimes256PlusLow(iff1: bool, iff2: bool)
    ensures var c := WriteByte(PowerOn(iff1, iff2), A, 1);
      ReadWord(c, AF) == 0 && ReadByte(c, A) as int * 256 + ReadByte(c, F) as int == 257
  {
  }

  /** Two steps are one step by the wrapped sum of their offsets. */
  lemma StepsCompose(c: CPU, m: Word, n: Word)
    ensures Step(Step(c, m).0, n).0 == Step(c, Wrap(m + n)).0
    ensures Step(Step(c, m).0, n).1 == Wrap(ReadWord(c, PC) + m)
  {
    var p := ReadWord(c, PC);
    var c1 := Step(c, m).0;
    StepReplacesPc(c, m);
    StepReplacesPc(c1, n);
    StepReplacesPc(c, Wrap(m + n));
    WrapAbsorbs(p + m, n);
    WrapAbsorbs(m + n, p);
  }

  /** Stepping replaces PC's word and keeps the rest of the CPU, PC's
      shared byte included. */
  lemma StepReplacesPc(c: CPU, k: Word)
    ensures Step(c, k).0 == c.(pc := Register(Wrap(ReadWord(c, PC) + k), c.pc.half))
  {
  }

  /** Enabling a clear flag and disabling it again restores the CPU; so does
      disabling a set flag and enabling it again. */
  lemma EnableDisableUndo(c: CPU, f: Flag)
    ensures !Get(c, f) ==> Disable(Enable(c, f), f) == c
    ensures Get(c, f) ==> Enable(Disable(c, f), f) == c
  {
  }

  /** Writing a byte register with the value it already holds gives back the
      very same CPU. */
  lemma WriteByteOwnValue(c: CPU, b: ByteRegister)
    ensures WriteByte(c, b, ReadByte(c, b)) == c
  {
    match CellOf(b)
    case AF => assert c.(af := c.af.(half := c.af.half)) == c;
    case BC => assert c.(bc := c.bc.(half := c.bc.half)) == c;
    case DE => assert c.(de := c.de.(half := c.de.half)) == c;
    case HL => assert c.(hl := c.hl.(half := c.hl.half)) == c;
    case IR => assert c.(ir := c.ir.(half := c.ir.half)) == c;
  }

  /** `read(WordRegister)` reads the word of the cell in the selector's
      declaration slot, and writing that word back changes nothing. */
  lemma ReadWordLaws(c: CPU, w: WordRegister)
    ensures ReadWord(c, w) == Cells(c)[WordIndex(w)].word
    ensures WriteWord(c, w, ReadWord(c, w)) == c
  {
    match w
    case AF => assert c.(af := c.af.(word := c.af.word)) == c;
    case BC => assert c.(bc := c.bc.(word := c.bc.word)) == c;
    case DE => assert c.(de := c.de.(word := c.de.word)) == c;
    case HL => assert c.(hl := c.hl.(word := c.hl.word)) == c;
    case AF_ => assert c.(altAf := c.altAf.(word := c.altAf.word)) == c;
    case BC_ => assert c.(altBc := c.altBc.(word := c.altBc.word)) == c;
    case DE_ => assert c.(altDe := c.altDe.(word := c.altDe.word)) == c;
    case HL_ => assert c.(altHl := c.altHl.(word := c.altHl.word)) == c;
    case IR => assert c.(ir := c.ir.(word := c.ir.word)) == c;
    case IX => assert c.(ix := c.ix.(word := c.ix.word)) == c;
    case IY => assert c.(iy := c.iy.(word := c.iy.word)) == c;
    case SP => assert c.(sp := c.sp.(word := c.sp.word)) == c;
    case PC => assert c.(pc := c.pc.(word := c.pc.word)) == c;
  }

  /** `read(ByteRegister)` reads the shared byte of the cell in the slot of
      the register's cell. The second clause is a corollary of `WriteWord`'s
      frame, restated here from the reader's side: no word write reaches
      that byte. */
  lemma ReadByteLaws(c: CPU, b: ByteRegister, w: WordRegister, v: Word)
    ensures ReadByte(c, b) == Cells(c)[WordIndex(CellOf(b))].half
    ensures ReadByte(WriteWord(c, w, v), b) == ReadByte(c, b)
  {
  }

  /** A flag is set exactly when enabling it changes nothing, and clear
      exactly when disabling it changes nothing. The first clause is a
      corollary of the definition of `get`, restated with `BitSet`: the
      flag is its bit of F. */
  lemma GetLaws(c: CPU, f: Flag)
    ensures Get(c, f) == BitSet(ReadByte(c, F), f.Position())
    ensures Get(c, f) <==> Enable(c, f) == c
    ensures !Get(c, f) <==> Disable(c, f) == c
  {
    MaskAbsorbs(ReadByte(c, F), f);
    WriteByteOwnValue(c, F);
  }

  /** Setting a bit that is already set, or clearing one that is already
      clear, leaves a byte as it is. */
  lemma MaskAbsorbs(x: Byte, f: Flag)
    ensures x & Mask(f) != 0 ==> x | Mask(f) == x
    ensures x & Mask(f) == 0 ==> x & !Mask(f) == x
  {
    match f
    case S => assert Mask(f) == 0x80;
    case Z => assert Mask(f) == 0x40;
    case H => assert Mask(f) == 0x10;
    case PV => assert Mask(f) == 0x04;
    case N => assert Mask(f) == 0x02;
    case C => assert Mask(f) == 0x01;
  }
}
