/** A small machine assembled from the modelled parts: RAM over the lower
    half of the address space, ROM above it, and a freshly powered CPU. */
module Scenarios {
  import opened Types
  import opened Registers
  import opened Cpu
  import Bus
  import opened Instructions

  /** The memory map: RAM over `[0x0000, 0x8000)` and ROM over
      `[0x8000, 0xFFFF)`. The ROM cannot reach 0xFFFF because its exclusive
      end is an address. */
  function Machine(): (bus: seq<Bus.Component>)
    ensures Bus.ValidBus(bus) && |bus| == 2
    ensures forall a: Address :: Bus.AcceptWrite(bus[0], a) <==> a < 0x8000
    ensures forall a: Address :: Bus.AcceptRead(bus[1], a) <==> 0x8000 <= a < 0xFFFF
    ensures forall a: Address :: !Bus.AcceptWrite(bus[1], a)
  {
    [Bus.NewRAM(0, 0x8000), Bus.NewROM(0x8000, 0xFFFF)]
  }

  /** Exactly the RAM half of the map is owned by writable storage. */
  lemma MachineOwnership(a: Address)
    ensures Bus.Owned(Machine(), a) <==> a < 0x8000
  {
    var bus := Machine();
    if a < 0x8000 {
      assert Bus.AcceptWrite(bus[0], a);
    }
  }

  /** `ld b, n` executed from a powered-on CPU whose first two bytes of
      memory, both owned by RAM, were written with the opcode 0x06 and the
      immediate 0x2A: B and its cell partner C read 0x2A, PC is 2, two
      cycles are reported and memory is untouched. */
  lemma LoadImmediateScenario(bus: seq<Bus.Component>, iff1: bool, iff2: bool)
    requires Bus.ValidBus(bus) && Bus.Owned(bus, 0) && Bus.Owned(bus, 1)
    ensures var program := Bus.WriteByte(Bus.WriteByte(bus, 0, 0x06), 1, 0x2A);
      var o := LdRN(B, PowerOn(iff1, iff2), program);
      && ReadByte(o.cpu, B) == 0x2A && ReadByte(o.cpu, ByteRegister.C) == 0x2A
      && ReadWord(o.cpu, PC) == 2 && o.cycles == 2 && o.bus == program
  {
    var cpu := PowerOn(iff1, iff2);
    PowerOnFetches(iff1, iff2);
    var program := Bus.WriteByte(Bus.WriteByte(bus, 0, 0x06), 1, 0x2A);
    ProgramStored(bus, 0x06, 0x2A);
    var o := LdRN(B, cpu, program);
    LoadedReads(cpu, o.cpu, 2, B, Bus.ReadByte(program, PcPlus(cpu, 1)));
    ByteNamesShareStorage(o.cpu, B);
  }

  /** Two bytes written at 0 and 1, both owned, read back there. */
  lemma ProgramStored(bus: seq<Bus.Component>, opcode: Byte, operand: Byte)
    requires Bus.ValidBus(bus) && Bus.Owned(bus, 0) && Bus.Owned(bus, 1)
    ensures var program := Bus.WriteByte(Bus.WriteByte(bus, 0, opcode), 1, operand);
      Bus.ReadByte(program, 0) == opcode && Bus.ReadByte(program, 1) == operand
  {
    var bus1 := Bus.WriteByte(bus, 0, opcode);
    Bus.ReadAfterWrite(bus, 0, opcode);
    Bus.OwnedAfterWrite(bus, 0, opcode, 1);
    Bus.ReadAfterWrite(bus1, 1, operand);
    Bus.WriteKeepsOtherAddresses(bus1, 1, operand, 0);
  }

  /** A powered-on CPU fetches from address 0: the operand bytes of its
      first instruction are at 1 and 2. */
  lemma PowerOnFetches(iff1: bool, iff2: bool)
    ensures ReadWord(PowerOn(iff1, iff2), PC) == 0
    ensures PcPlus(PowerOn(iff1, iff2), 1) == 1 && PcPlus(PowerOn(iff1, iff2), 2) == 2
  {
  }

  /** The same program on the machine's own memory map. */
  lemma MachineLoadsImmediate(iff1: bool, iff2: bool)
    ensures var program := Bus.WriteByte(Bus.WriteByte(Machine(), 0, 0x06), 1, 0x2A);
      var o := LdRN(B, PowerOn(iff1, iff2), program);
      && ReadByte(o.cpu, B) == 0x2A && ReadByte(o.cpu, ByteRegister.C) == 0x2A
      && ReadWord(o.cpu, PC) == 2 && o.cycles == 2 && o.bus == program
  {
    MachineOwnership(0);
    MachineOwnership(1);
    LoadImmediateScenario(Machine(), iff1, iff2);
  }

  /** A byte written to RAM at its last address is read back. */
  lemma RamTopReadBack(v: Byte)
    ensures Bus.ReadByte(Bus.WriteByte(Machine(), 0x7FFF, v), 0x7FFF) == v
  {
    MachineOwnership(0x7FFF);
    Bus.ReadAfterWrite(Machine(), 0x7FFF, v);
  }

  /** A byte written into the ROM's range changes nothing at all. */
  lemma RomIgnoresWrites(v: Byte)
    ensures Bus.WriteByte(Machine(), 0x9000, v) == Machine()
  {
    var bus := Machine();
    Bus.WriteByteBroadcast(bus, 0x9000, v);
    assert Bus.WriteByte(bus, 0x9000, v)[0] == bus[0];
    assert Bus.WriteByte(bus, 0x9000, v)[1] == bus[1];
  }

  /** The word write as written stores 0xFFFF where the intended one stores
      the word: writing 0x1234 to RAM at 0x1000. */
  lemma WordWriteScenario()
    ensures Bus.ReadWord(Bus.WriteWord(Machine(), 0x1000, 0x1234), 0x1000) == 0xFFFF
    ensures Bus.ReadWord(Bus.WriteWordMasked(Machine(), 0x1000, 0x1234), 0x1000) == 0x1234
  {
    MachineOwnership(0x1000);
    MachineOwnership(0x1001);
    Bus.WriteWordReadsBackFFFF(Machine(), 0x1000, 0x1234);
    Bus.WriteWordMaskedRoundTrip(Machine(), 0x1000, 0x1234);
  }
}
