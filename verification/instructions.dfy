/** The load-instruction families. Each is a pure function of the CPU and the
    bus to the new CPU, the new bus and the cycle count it reports; the
    registers and the cycle count are parameters, as the template arguments
    are in the machine. */
module Instructions {
  import opened Types
  import opened Registers
  import opened Cpu
  import Bus

  /** What executing one instruction produces. */
  datatype Outcome = Outcome(cpu: CPU, bus: seq<Bus.Component>, cycles: nat)

  /** The PC at the start of the instruction plus `k`, wrapped. */
  function PcPlus(c: CPU, k: nat): Address
  {
    Wrap(ReadWord(c, PC) + k)
  }

  /** The value word register `w` holds once PC has been stepped by `len`:
      the stepped PC when `w` is PC itself, its old value otherwise. */
  function AfterStep(c: CPU, w: WordRegister, len: Word): Word
  {
    if w == PC then PcPlus(c, len) else ReadWord(c, w)
  }

  /** `c'` is `c` with PC advanced by `len` and nothing else changed. */
  predicate Advanced(c: CPU, c': CPU, len: nat)
  {
    && ReadWord(c', PC) == PcPlus(c, len)
    && WordsAgree(c, c', {PC})
    && BytesAgree(c, c', {})
    && FlipFlopsAgree(c, c')
  }

  /** `c'` is `c` with PC advanced by `len` and byte register `r` (and so the
      other name of its cell) loaded with `n`; nothing else changed. */
  predicate Loaded(c: CPU, c': CPU, len: nat, r: ByteRegister, n: Byte)
  {
    && ReadWord(c', PC) == PcPlus(c, len)
    && WordsAgree(c, c', {PC})
    && (forall b | CellOf(b) == CellOf(r) :: ReadByte(c', b) == n)
    && BytesAgree(c, c', {CellOf(r)})
    && FlipFlopsAgree(c, c')
  }

  /** What a load leaves in the loaded register and in PC. */
  lemma LoadedReads(c: CPU, c': CPU, len: nat, r: ByteRegister, n: Byte)
    requires Loaded(c, c', len, r, n)
    ensures ReadByte(c', r) == n && ReadWord(c', PC) == PcPlus(c, len)
  {
  }

  /** What stepping PC by `len` leaves for the instruction to read: the word
      registers as `AfterStep` says, every byte register and flip-flop as
      before. */
  lemma StepFacts(cpu: CPU, len: Word)
    ensures Step(cpu, len).1 == ReadWord(cpu, PC)
    ensures Advanced(cpu, Step(cpu, len).0, len)
  {
  }

  /** After stepping PC by `len`, word register `w` reads `AfterStep`. */
  lemma StepThenRead(cpu: CPU, len: Word, w: WordRegister)
    ensures ReadWord(Step(cpu, len).0, w) == AfterStep(cpu, w, len)
  {
  }

  /** Stepping PC by `len` and then writing `n` to `r` is a load of `r`. */
  lemma StepThenLoad(cpu: CPU, len: Word, r: ByteRegister, n: Byte)
    ensures Loaded(cpu, WriteByte(Step(cpu, len).0, r, n), len, r, n)
  {
    StepFacts(cpu, len);
  }

  /** `ld r, r'`: one opcode byte; `r` takes the value of `src`. The bus is
      not touched. Default cost 1. */
  function LdRR(r: ByteRegister, src: ByteRegister, cpu: CPU, bus: seq<Bus.Component>, cycles: nat := 1): (o: Outcome)
    ensures Loaded(cpu, o.cpu, 1, r, ReadByte(cpu, src))
    ensures o.bus == bus && o.cycles == cycles
  {
    var (c1, _) := Step(cpu, 1);
    StepFacts(cpu, 1);
    StepThenLoad(cpu, 1, r, ReadByte(c1, src));
    Outcome(WriteByte(c1, r, ReadByte(c1, src)), bus, cycles)
  }

  /** `ld r, n`: two bytes; `r` takes the immediate byte that follows the
      opcode. Default cost 2. */
  function LdRN(r: ByteRegister, cpu: CPU, bus: seq<Bus.Component>, cycles: nat := 2): (o: Outcome)
    requires Bus.ValidBus(bus)
    ensures Loaded(cpu, o.cpu, 2, r, Bus.ReadByte(bus, PcPlus(cpu, 1)))
    ensures o.bus == bus && o.cycles == cycles
  {
    var (c1, pc) := Step(cpu, 2);
    var n := Bus.ReadByte(bus, Wrap(pc + 1));
    StepFacts(cpu, 2);
    StepThenLoad(cpu, 2, r, n);
    Outcome(WriteByte(c1, r, n), bus, cycles)
  }

  /** `ld r, (rr)`: one byte; `r` takes the byte addressed by `rr`, read
      after PC has been stepped. Default cost 2. */
  function LdRAtRR(r: ByteRegister, rr: WordRegister, cpu: CPU, bus: seq<Bus.Component>, cycles: nat := 2): (o: Outcome)
    requires Bus.ValidBus(bus)
    ensures Loaded(cpu, o.cpu, 1, r, Bus.ReadByte(bus, AfterStep(cpu, rr, 1)))
    ensures o.bus == bus && o.cycles == cycles
  {
    var (c1, _) := Step(cpu);
    var n := Bus.ReadByte(bus, ReadWord(c1, rr));
    StepThenRead(cpu, 1, rr);
    StepThenLoad(cpu, 1, r, n);
    Outcome(WriteByte(c1, r, n), bus, cycles)
  }

  /** The indexed address `ii + d`: the displacement `d`, the byte two past
      the opcode, is added as an unsigned value and the sum wraps. */
  function Indexed(cpu: CPU, bus: seq<Bus.Component>, ii: WordRegister): Address
    requires Bus.ValidBus(bus)
  {
    Wrap(AfterStep(cpu, ii, 3) + Bus.ReadByte(bus, PcPlus(cpu, 2)) as int)
  }

  /** `ld r, (ii + d)`: three bytes; `r` takes the byte at the indexed
      address. Default cost 5. */
  function LdRAtIIPlusD(r: ByteRegister, ii: WordRegister, cpu: CPU, bus: seq<Bus.Component>, cycles: nat := 5): (o: Outcome)
    requires Bus.ValidBus(bus)
    ensures Loaded(cpu, o.cpu, 3, r, Bus.ReadByte(bus, Indexed(cpu, bus, ii)))
    ensures o.bus == bus && o.cycles == cycles
  {
    var (c1, pc) := Step(cpu, 3);
    var address := ReadWord(c1, ii);
    var offset := Bus.ReadByte(bus, Wrap(pc + 2));
    StepThenRead(cpu, 3, ii);
    assert Wrap(address + offset as int) == Indexed(cpu, bus, ii);
    var n := Bus.ReadByte(bus, Wrap(address + offset as int));
    StepThenLoad(cpu, 3, r, n);
    Outcome(WriteByte(c1, r, n), bus, cycles)
  }

  /** `ld (rr), r`: one byte; the value of `r` is written at the address in
      `rr`, read after PC has been stepped. Default cost 2. */
  function LdAtRRR(rr: WordRegister, r: ByteRegister, cpu: CPU, bus: seq<Bus.Component>, cycles: nat := 2): (o: Outcome)
    requires Bus.ValidBus(bus)
    ensures Advanced(cpu, o.cpu, 1)
    ensures o.bus == Bus.WriteByte(bus, AfterStep(cpu, rr, 1), ReadByte(cpu, r))
    ensures o.cycles == cycles
  {
    var (c1, _) := Step(cpu);
    var n := ReadByte(c1, r);
    StepFacts(cpu, 1);
    StepThenRead(cpu, 1, rr);
    Outcome(c1, Bus.WriteByte(bus, ReadWord(c1, rr), n), cycles)
  }

  /** `ld (rr), n`: two bytes; the immediate byte is written at the address
      in `rr`. Default cost 3. */
  function LdAtRRN(rr: WordRegister, cpu: CPU, bus: seq<Bus.Component>, cycles: nat := 3): (o: Outcome)
    requires Bus.ValidBus(bus)
    ensures Advanced(cpu, o.cpu, 2)
    ensures o.bus == Bus.WriteByte(bus, AfterStep(cpu, rr, 2), Bus.ReadByte(bus, PcPlus(cpu, 1)))
    ensures o.cycles == cycles
  {
    var (c1, pc) := Step(cpu, 2);
    var n := Bus.ReadByte(bus, Wrap(pc + 1));
    StepFacts(cpu, 2);
    StepThenRead(cpu, 2, rr);
    Outcome(c1, Bus.WriteByte(bus, ReadWord(c1, rr), n), cycles)
  }

  /** `ld (rr + d), n`: PC is stepped by 3 although the instruction spans
      four bytes; the byte three past the opcode is written at `rr + d`, with
      the unsigned displacement two past the opcode. Default cost 5. */
  function LdAtRRPlusDN(rr: WordRegister, cpu: CPU, bus: seq<Bus.Component>, cycles: nat := 5): (o: Outcome)
    requires Bus.ValidBus(bus)
    ensures Advanced(cpu, o.cpu, 3)
    ensures o.bus == Bus.WriteByte(bus, Indexed(cpu, bus, rr), Bus.ReadByte(bus, PcPlus(cpu, 3)))
    ensures o.cycles == cycles
  {
    var (c1, pc) := Step(cpu, 3);
    var n := Bus.ReadByte(bus, Wrap(pc + 3));
    var address := ReadWord(c1, rr);
    var offset := Bus.ReadByte(bus, Wrap(pc + 2));
    StepFacts(cpu, 3);
    StepThenRead(cpu, 3, rr);
    assert Wrap(address + offset as int) == Indexed(cpu, bus, rr);
    Outcome(c1, Bus.WriteByte(bus, Wrap(address + offset as int), n), cycles)
  }

  /** The direct address `nn`: the little-endian word after the opcode. */
  function Direct(cpu: CPU, bus: seq<Bus.Component>): (nn: Address)
    requires Bus.ValidBus(bus)
    ensures nn == Bus.ReadByte(bus, PcPlus(cpu, 2)) as int * 256 + Bus.ReadByte(bus, PcPlus(cpu, 1)) as int
  {
    assert Wrap(PcPlus(cpu, 1) + 1) == PcPlus(cpu, 2);
    Bus.ReadWord(bus, PcPlus(cpu, 1))
  }

  /** `ld r, (nn)`: three bytes; `r` takes the byte at the direct address.
      Default cost 4. */
  function LdRAtNN(r: ByteRegister, cpu: CPU, bus: seq<Bus.Component>, cycles: nat := 4): (o: Outcome)
    requires Bus.ValidBus(bus)
    ensures Loaded(cpu, o.cpu, 3, r, Bus.ReadByte(bus, Direct(cpu, bus)))
    ensures o.bus == bus && o.cycles == cycles
  {
    var (c1, pc) := Step(cpu, 3);
    var nn := Bus.ReadWord(bus, Wrap(pc + 1));
    StepFacts(cpu, 3);
    assert nn == Direct(cpu, bus);
    StepThenLoad(cpu, 3, r, Bus.ReadByte(bus, nn));
    Outcome(WriteByte(c1, r, Bus.ReadByte(bus, nn)), bus, cycles)
  }

  /** `ld (nn), r`: three bytes; the value of `r` is written at the direct
      address. Default cost 4. */
  function LdAtNNR(r: ByteRegister, cpu: CPU, bus: seq<Bus.Component>, cycles: nat := 4): (o: Outcome)
    requires Bus.ValidBus(bus)
    ensures Advanced(cpu, o.cpu, 3)
    ensures o.bus == Bus.WriteByte(bus, Direct(cpu, bus), ReadByte(cpu, r))
    ensures o.cycles == cycles
  {
    var (c1, pc) := Step(cpu, 3);
    var nn := Bus.ReadWord(bus, Wrap(pc + 1));
    StepFacts(cpu, 3);
    assert nn == Direct(cpu, bus);
    Outcome(c1, Bus.WriteByte(bus, nn, ReadByte(c1, r)), cycles)
  }

  /** The F value `ld r, i` / `ld r, r` starts its flag updates from: the
      loaded value when `r` is A or F (they share F's storage), the old F
      otherwise. */
  function FlagBase(cpu: CPU, r: ByteRegister, n: Byte): Byte
  {
    if CellOf(r) == AF then n else ReadByte(cpu, F)
  }

  /** The F byte after the flag updates of `ld r, i` / `ld r, r`, applied in
      the machine's order to `f0`: enable S if bit 7 of `n` is set, enable Z
      if `n` is 0, disable H, `set(PV, iff2)`, disable N. */
  function IrFlagByte(f0: Byte, n: Byte, iff2: bool): Byte
  {
    var f3 := if n & 0x80 != 0 then f0 | Mask(Flag.S) else f0;
    var f4 := if n == 0 then f3 | Mask(Flag.Z) else f3;
    var f5 := f4 & !Mask(Flag.H);
    var f6 := if iff2 then f5 & !Mask(Flag.PV) else f5 | Mask(Flag.PV);
    f6 & !Mask(Flag.N)
  }

  /** The flags `ld r, i` / `ld r, r` leaves in the F byte `f`, given the F
      value `f0` it starts from, the loaded value `n` and iff2: S is set if
      bit 7 of `n` is or was already set, Z is set if `n` is 0 or was
      already set, H and N are clear, PV is the negation of iff2, and C and
      the unnamed bits 5 and 3 are those of `f0`. */
  predicate IrFlags(f: Byte, f0: Byte, n: Byte, iff2: bool)
  {
    && BitSet(f, Flag.S.Position()) == (BitSet(n, 7) || BitSet(f0, Flag.S.Position()))
    && BitSet(f, Flag.Z.Position()) == (n == 0 || BitSet(f0, Flag.Z.Position()))
    && !BitSet(f, Flag.H.Position()) && !BitSet(f, Flag.N.Position())
    && BitSet(f, Flag.PV.Position()) == !iff2
    && BitSet(f, Flag.C.Position()) == BitSet(f0, Flag.C.Position())
    && BitSet(f, 5) == BitSet(f0, 5)
    && BitSet(f, 3) == BitSet(f0, 3)
  }

  /** The machine's sequence of flag updates yields exactly those flags. */
  lemma IrFlagByteBits(f0: Byte, n: Byte, iff2: bool)
    ensures IrFlags(IrFlagByte(f0, n, iff2), f0, n, iff2)
  {
    IrFlagByteSetBits(f0, n, iff2);
    IrFlagByteKeptBits(f0, n, iff2);
  }

  /** S and Z of `IrFlagByte` follow the loaded value; H, N and PV are
      forced. */
  lemma IrFlagByteSetBits(f0: Byte, n: Byte, iff2: bool)
    ensures var f := IrFlagByte(f0, n, iff2);
      && BitSet(f, Flag.S.Position()) == (BitSet(n, 7) || BitSet(f0, Flag.S.Position()))
      && BitSet(f, Flag.Z.Position()) == (n == 0 || BitSet(f0, Flag.Z.Position()))
      && !BitSet(f, Flag.H.Position()) && !BitSet(f, Flag.N.Position())
      && BitSet(f, Flag.PV.Position()) == !iff2
  {
  }

  /** C and the unnamed bits 5 and 3 of `IrFlagByte` are those of `f0`. */
  lemma IrFlagByteKeptBits(f0: Byte, n: Byte, iff2: bool)
    ensures var f := IrFlagByte(f0, n, iff2);
      && BitSet(f, Flag.C.Position()) == BitSet(f0, Flag.C.Position())
      && BitSet(f, 5) == BitSet(f0, 5)
      && BitSet(f, 3) == BitSet(f0, 3)
  {
  }

  /** The flag calls `ld r, i` / `ld r, r` makes once the value `n` is
      loaded, in the machine's order. Only F's storage changes, and it ends
      as `IrFlagByte` of its value before. */
  function IrFlagUpdates(c2: CPU, n: Byte): (c7: CPU)
    ensures ReadByte(c7, F) == IrFlagByte(ReadByte(c2, F), n, c2.iff2)
    ensures OnlyFlagByteChanged(c2, c7)
  {
    var c3 := if n & 0x80 != 0 then Enable(c2, Flag.S) else c2;
    var c4 := if n == 0 then Enable(c3, Flag.Z) else c3;
    var c5 := Disable(c4, Flag.H);
    var c6 := Set(c5, Flag.PV, c5.iff2);
    Disable(c6, Flag.N)
  }

  /** `ld r, i` and `ld r, r`: two bytes; `r` takes the value `n` of the
      interrupt-vector or refresh register `ir`, and F then holds `IrFlags`
      starting from `FlagBase` (PV is the negation of iff2 because `set` is
      inverted). When `r` is A or F, the loaded register reads the final F.
      Default cost 2. */
  function LdRIR(r: ByteRegister, ir: ByteRegister, cpu: CPU, bus: seq<Bus.Component>, cycles: nat := 2): (o: Outcome)
    ensures ReadWord(o.cpu, PC) == PcPlus(cpu, 2)
    ensures WordsAgree(cpu, o.cpu, {PC}) && FlipFlopsAgree(cpu, o.cpu)
    ensures BytesAgree(cpu, o.cpu, {CellOf(r), AF})
    ensures forall b | CellOf(b) == CellOf(r) ::
      ReadByte(o.cpu, b) == if CellOf(r) == AF then ReadByte(o.cpu, F) else ReadByte(cpu, ir)
    ensures IrFlags(ReadByte(o.cpu, F), FlagBase(cpu, r, ReadByte(cpu, ir)), ReadByte(cpu, ir), cpu.iff2)
    ensures ReadByte(o.cpu, F) == IrFlagByte(FlagBase(cpu, r, ReadByte(cpu, ir)), ReadByte(cpu, ir), cpu.iff2)
    ensures o.bus == bus && o.cycles == cycles
  {
    var (c1, _) := Step(cpu, 2);
    var n := ReadByte(c1, ir);
    var c2 := WriteByte(c1, r, n);
    StepFacts(cpu, 2);
    StepThenLoad(cpu, 2, r, n);
    var c7 := IrFlagUpdates(c2, n);
    FlagsAfterLoad(cpu, c2, c7, r, n);
    IrFlagByteBits(ReadByte(c2, F), n, cpu.iff2);
    Outcome(c7, bus, cycles)
  }

  /** A load of `r` followed by changes to F's storage only: the frame
      `ld r, i` / `ld r, r` promises, and the F value the flag updates start
      from. */
  lemma FlagsAfterLoad(cpu: CPU, c2: CPU, c7: CPU, r: ByteRegister, n: Byte)
    requires Loaded(cpu, c2, 2, r, n) && OnlyFlagByteChanged(c2, c7)
    ensures ReadWord(c7, PC) == PcPlus(cpu, 2)
    ensures WordsAgree(cpu, c7, {PC}) && FlipFlopsAgree(cpu, c7)
    ensures BytesAgree(cpu, c7, {CellOf(r), AF})
    ensures forall b | CellOf(b) == CellOf(r) ::
      ReadByte(c7, b) == if CellOf(r) == AF then ReadByte(c7, F) else n
    ensures ReadByte(c2, F) == FlagBase(cpu, r, n)
  {
  }

  /** `ld r, r` with the same register on both sides only advances PC. */
  lemma LdRRSelfOnlySteps(r: ByteRegister, cpu: CPU, bus: seq<Bus.Component>)
    ensures LdRR(r, r, cpu, bus).cpu == Step(cpu, 1).0
  {
    WriteByteOwnValue(Step(cpu, 1).0, r);
  }

  /** A byte stored through `ld (rr), r` is read back by `ld r', (rr)` when
      `rr` is not PC and the addressed location is owned by writable
      components: `r'` ends up holding the old value of `r`, and PC has
      advanced by the two opcode bytes. */
  lemma StoreThenLoadRoundTrip(rr: WordRegister, r: ByteRegister, r': ByteRegister, cpu: CPU, bus: seq<Bus.Component>)
    requires Bus.ValidBus(bus) && rr != PC && Bus.Owned(bus, ReadWord(cpu, rr))
    ensures var o1 := LdAtRRR(rr, r, cpu, bus);
      var o2 := LdRAtRR(r', rr, o1.cpu, o1.bus);
      && ReadByte(o2.cpu, r') == ReadByte(cpu, r)
      && ReadWord(o2.cpu, PC) == PcPlus(cpu, 2)
  {
    var a, v := ReadWord(cpu, rr), ReadByte(cpu, r);
    var o1 := LdAtRRR(rr, r, cpu, bus);
    StoreThroughPair(rr, r, cpu, bus);
    LoadThroughPair(r', rr, o1.cpu, o1.bus);
    Bus.ReadAfterWrite(bus, a, v);
    PcPlusTwice(cpu, o1.cpu, 1, 1);
  }

  /** Advancing PC by `m` and then by `n` advances it by `m + n`. */
  lemma PcPlusTwice(c: CPU, c': CPU, m: nat, n: nat)
    requires ReadWord(c', PC) == PcPlus(c, m)
    ensures PcPlus(c', n) == PcPlus(c, m + n)
  {
    WrapAbsorbs(ReadWord(c, PC) + m, n);
  }

  /** `ld (rr), r` with `rr` other than PC, as seen by a later instruction. */
  lemma StoreThroughPair(rr: WordRegister, r: ByteRegister, cpu: CPU, bus: seq<Bus.Component>)
    requires Bus.ValidBus(bus) && rr != PC
    ensures var o := LdAtRRR(rr, r, cpu, bus);
      && o.bus == Bus.WriteByte(bus, ReadWord(cpu, rr), ReadByte(cpu, r))
      && ReadWord(o.cpu, rr) == ReadWord(cpu, rr)
      && ReadWord(o.cpu, PC) == PcPlus(cpu, 1)
  {
  }

  /** `ld r, (rr)` with `rr` other than PC: what `r` reads and where PC
      goes. */
  lemma LoadThroughPair(r: ByteRegister, rr: WordRegister, cpu: CPU, bus: seq<Bus.Component>)
    requires Bus.ValidBus(bus) && rr != PC
    ensures var o := LdRAtRR(r, rr, cpu, bus);
      && ReadByte(o.cpu, r) == Bus.ReadByte(bus, ReadWord(cpu, rr))
      && ReadWord(o.cpu, PC) == PcPlus(cpu, 1)
  {
  }

  /** PC is stepped before the register pair is read: `ld r, (pc)` loads the
      byte after the opcode, not the opcode itself. */
  lemma LdRAtPcReadsNextByte(r: ByteRegister, cpu: CPU, bus: seq<Bus.Component>)
    requires Bus.ValidBus(bus)
    ensures ReadByte(LdRAtRR(r, PC, cpu, bus).cpu, r) == Bus.ReadByte(bus, PcPlus(cpu, 1))
  {
  }

  /** The displacement is added unsigned: with IX = 0x1000 and d = 0xFF the
      indexed address is 0x10FF, where a signed displacement would give
      0x0FFF. */
  lemma DisplacementIsUnsigned(cpu: CPU, bus: seq<Bus.Component>)
    requires Bus.ValidBus(bus)
    requires ReadWord(cpu, IX) == 0x1000 && Bus.ReadByte(bus, PcPlus(cpu, 2)) == 0xFF
    ensures Indexed(cpu, bus, IX) == 0x10FF != 0x0FFF
  {
  }

  /** `ld (ii + d), n` steps PC by 3, so PC is left on the immediate byte it
      has just stored rather than past it. */
  lemma LdAtIIPlusDNStopsOnImmediate(ii: WordRegister, cpu: CPU, bus: seq<Bus.Component>)
    requires Bus.ValidBus(bus)
    ensures ReadWord(LdAtRRPlusDN(ii, cpu, bus).cpu, PC) == PcPlus(cpu, 3)
  {
  }

  /** When r is outside AF, `ld r, i` never clears S or Z: loading 0x00
      into B with S already set leaves S set, and Z becomes set. */
  lemma LdRIRKeepsStaleSign(cpu: CPU, bus: seq<Bus.Component>)
    requires ReadByte(cpu, I) == 0x00 && Get(cpu, Flag.S)
    ensures Get(LdRIR(B, I, cpu, bus).cpu, Flag.S)
    ensures Get(LdRIR(B, I, cpu, bus).cpu, Flag.Z)
  {
  }

  /** Because `set` is inverted, `ld r, i` leaves PV as the negation of
      iff2. */
  lemma LdRIRParityIsNotIff2(r: ByteRegister, ir: ByteRegister, cpu: CPU, bus: seq<Bus.Component>)
    ensures Get(LdRIR(r, ir, cpu, bus).cpu, Flag.PV) == !cpu.iff2
  {
  }

  /** `ld a, i`: A and F share one stored byte, so after the flag updates A
      reads `IrFlagByte(n, n, iff2)`, the flag byte the five flag calls
      produce from the value `n` of I, which need not be `n`. When I is 0,
      Z is set in that byte and A does not read 0. */
  lemma LdAIAbsorbsFlags(cpu: CPU, bus: seq<Bus.Component>)
    ensures var o := LdRIR(A, I, cpu, bus); var n := ReadByte(cpu, I);
      && ReadByte(o.cpu, A) == IrFlagByte(n, n, cpu.iff2)
      && (n == 0 ==> ReadByte(o.cpu, A) != n)
  {
    var n := ReadByte(cpu, I);
    IrFlagByteSetBits(n, n, cpu.iff2);
  }
}
