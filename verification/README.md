# A Dafny model of the zasm Z80 machine core

zasm emulates a Zilog Z80. This project models three parts of its machine
core as pure Dafny functions and proves properties about them:

- the CPU register file (`Cpu`, `Registers`);
- the memory bus and its RAM and ROM components (`Bus`);
- the ten load-instruction families (`Instructions`).

The model is for proof only. Each row of the Model table below names a contract or lemma that Dafny proves.

Modules:

- `Types`: the machine's `byte_t`, `word_t` and `address_t`.
  - Bytes are `bv8`.
  - Words and addresses are integers in `[0, 65536)`.
  - `Wrap` makes the 16-bit truncation of every `pc + k` and `address + offset` explicit.
- `Registers`: the ten byte selectors, the thirteen word selectors and one register cell.
  - A cell is a pair `(word, half)`.
  - In the source, the word is a member of the struct in its own right, and the high and the low byte names are the two members of one anonymous union beside it. So both names denote the same single byte, and that byte is not part of the word.
- `Cpu`: thirteen independent cells plus the flip-flops `iff1` and `iff2`.
  - It covers word and byte `read`/`write`, `step`, the flag operations (`enable`, `disable`, `get`, `set`, `clearFlags`) and the flip-flop accessors.
  - The flags live in F, which is AF's shared byte, so A and F read the same storage.
- `Bus`: a bus is the ordered list of its components.
  - A byte read ORs together the byte of every component that accepts the read. An address that no component accepts reads 0.
  - A byte write is delivered to every component that accepts it.
  - A word read is little-endian.
  - The word write is modelled as written. It stores 0xFF in both bytes; see Findings.
  - `WriteWordMasked` is the corrected word write.
- `Instructions`: one function per load family. Each takes the CPU and the bus and returns the new CPU, the new bus and the cycle count.
  - The registers and the cycle count are parameters, as the template arguments are in the source.
  - PC is stepped first, and every operand is read afterwards. So `ld r, (pc)` reads the byte after its opcode.
- `Scenarios`: a concrete machine (RAM over `[0, 0x8000)`, ROM over `[0x8000, 0xFFFF)`) and a program `ld b, 0x2A` run on it.

Where the code departs from the usual description of a Z80, the model follows the code:

- There are thirteen cells, not twelve: the alternate set, IR, IX, IY, SP and PC are all separate.
- A cell's word and its byte halves are separate storage, so `word == high * 256 + low` does not hold (`Cpu.WordIsNotHighTimes256PlusLow`).
- The displacement of the indexed families is added unsigned (`Instructions.DisplacementIsUnsigned`).
- `ld (ii + d), n` steps PC by 3, not 4 (`Instructions.LdAtIIPlusDNStopsOnImmediate`).
- `set(flag, value)` is inverted: `true` disables the flag (`Cpu.SetIsInverted`). So `ld r, i` leaves PV as the negation of iff2 (`Instructions.LdRIRParityIsNotIff2`).
- The flag calls of `ld r, i` only enable S and Z and never clear them, so a stale S or Z survives (`Instructions.LdRIRKeepsStaleSign`). When r is A or F, the load first overwrites F, so S and Z can end clear (`Instructions.FlagsAfterLoad`).
- The end address of RAM and ROM is an exclusive 16-bit `address_t`, so no component can own 0xFFFF. A ROM starting at 0x8000 can therefore cover at most `[0x8000, 0xFFFF)`, so a ROM over `[0x8000, 0x10000)` cannot be built (`Bus.LastAddressReadsZero`).

## Model

| member | source | states |
|---|---|---|
| `Registers.CellOf` | src/machine/cpu.cc:42-71 | Each byte register lives in exactly one of the five cells AF, BC, DE, HL and IR. |
| `Registers.Partner` | include/zasm/registers.hh:31-35 | The other byte name of a register's cell is a different selector of the same cell. |
| `Registers.SelectorsClosed` | include/zasm/registers.hh:10-26 | There are exactly 10 distinct byte selectors and 13 distinct word selectors, each list is exhaustive, and two byte names share a cell exactly when they are equal or partners. |
| `Cpu.PowerOn` | include/zasm/machine/cpu.hh:26-45 | A freshly built CPU reads 0 from every word and byte register and carries the given flip-flops. |
| `Cpu.ReadWordLaws` | src/machine/cpu.cc:5-40 | `read(WordRegister)` reads the word of the cell in the selector's declaration slot of the thirteen cells, and writing that word back leaves the CPU identical. |
| `Cpu.ReadByteLaws` | src/machine/cpu.cc:42-71 | `read(ByteRegister)` reads the shared byte of the cell its register belongs to, and no word write changes what it reads. |
| `Cpu.GetLaws` | src/machine/cpu.cc:183-187 | `get(f)` reads bit `f` of F. A flag is set exactly when `enable` leaves the CPU unchanged, and clear exactly when `disable` does. |
| `Cpu.WithCell` | include/zasm/machine/cpu.hh:26-42 | Replacing one cell leaves the other twelve cells and both flip-flops unchanged. |
| `Cpu.WriteWord` | src/machine/cpu.cc:73-121 | A word write makes the selected register read the new value. It changes no other word register, no byte register and no flip-flop. |
| `Cpu.WriteByte` | src/machine/cpu.cc:123-162 | A byte write makes both names of the cell read the value. It changes no word register, no byte of another cell and no flip-flop. |
| `Cpu.Step` | src/machine/cpu.cc:164-169 | `step(k)` returns the old PC and moves PC to old PC + k modulo 65536. Every other register and flip-flop is kept. |
| `Cpu.StepReplacesPc` | src/machine/cpu.cc:164-169 | Stepping replaces only PC's word storage. PC's shared byte is kept too. |
| `Cpu.StepsCompose` | src/machine/cpu.cc:164-169 | Stepping by m and then by n equals one step by (m + n) mod 65536, and the second step returns old PC + m, wrapped. |
| `Cpu.Enable` | src/machine/cpu.cc:171-175 | After `enable(f)`, `get(f)` holds. Every other bit of F is kept, and so is everything except AF's shared byte (F and A). |
| `Cpu.Disable` | src/machine/cpu.cc:177-181 | After `disable(f)`, `get(f)` is false. Every other bit of F is kept, and so is everything except AF's shared byte (F and A). |
| `Cpu.ClearFlags` | src/machine/cpu.cc:189-192 | After `clearFlags()`, F is 0 and no flag reads set. Everything except AF's shared byte (F and A) is kept. |
| `Cpu.Set` | src/machine/cpu.cc:194-204 | After `set(f, v)`, `get(f)` is `!v`. Other bits of F are kept, and so is everything except AF's shared byte (F and A). |
| `Cpu.WithIff1` | include/zasm/machine/cpu.hh:158-166 | Writing `iff1` changes only `iff1`. |
| `Cpu.WithIff2` | include/zasm/machine/cpu.hh:167-176 | Writing `iff2` changes only `iff2`. |
| `Cpu.FlagPositionsDistinct` | include/zasm/machine/cpu.hh:10-18 | No two flags share a bit of F. |
| `Cpu.SetIsInverted` | src/machine/cpu.cc:194-204 | For every flag and value, `set` leaves the flag reading the opposite of the value, and repeating the same `set` is idempotent. |
| `Cpu.ByteNamesShareStorage` | include/zasm/registers.hh:31-35 | The high and the low name of a cell always read the same byte. |
| `Cpu.WritingARewritesFlags` | src/machine/cpu.cc:123-132 | Writing A with v makes F read v, so every flag becomes the matching bit of v. |
| `Cpu.WordIsNotHighTimes256PlusLow` | include/zasm/registers.hh:28-41 | After writing A = 1 on a fresh CPU, AF still reads word 0, while A * 256 + F is 257. |
| `Cpu.EnableDisableUndo` | src/machine/cpu.cc:171-181 | `disable` undoes an `enable` of a clear flag, and `enable` undoes a `disable` of a set flag. In both cases the whole CPU is restored. |
| `Cpu.WriteByteOwnValue` | src/machine/cpu.cc:123-162 | Writing a byte register with its own value gives back exactly the same CPU. |
| `Bus.NewRAM` | src/machine/bus.cc:84-109 | A new RAM accepts reads and writes exactly on `[start, end)`, and every byte reads 0. |
| `Bus.NewROM` | src/machine/bus.cc:111-120 | A new ROM accepts reads exactly on `[start, end)`, reads 0 there and accepts no write at all. |
| `Bus.Write` | src/machine/bus.cc:96-99 | A component write makes the addressed byte read the value. It keeps every other byte and what the component accepts. |
| `Bus.DefaultAcceptsNothing` | src/machine/bus.cc:16-26 | A component that keeps the base class's tests accepts no read and no write at any address. |
| `Bus.ReadAcceptance` | src/machine/bus.cc:101-104 | RAM and ROM accept the reads of exactly their range, so no component accepts a read at 0xFFFF. |
| `Bus.WriteAcceptance` | src/machine/bus.cc:106-120 | RAM accepts the writes of exactly its range and ROM accepts none, so every component accepting a write at an address also accepts reads there. |
| `Bus.WriteOwnValue` | src/machine/bus.cc:91-99 | Writing a component's own byte back, as `RAM::read` returns it, gives the identical component. |
| `Bus.ReadByte` | src/machine/bus.cc:53-64 | An address that no component accepts reads 0. |
| `Bus.ReadByteBits` | src/machine/bus.cc:53-64 | A bit of the byte read is set exactly when some component that accepts the address holds that bit set (an open-collector OR). |
| `Bus.ContributionsDetermineRead` | src/machine/bus.cc:53-64 | Two buses whose components contribute the same bytes at an address read the same byte there. |
| `Bus.WriteByte` | src/machine/bus.cc:28-35 | A byte write keeps the number of components and their validity. |
| `Bus.WriteByteDelivers` | src/machine/bus.cc:28-35 | Each component ends up as one step of the write loop would leave it: written if it accepts the write, unchanged otherwise. |
| `Bus.WriteByteBroadcast` | src/machine/bus.cc:28-35 | Every accepting component receives the write, and every other component is unchanged. In particular every ROM is unchanged. |
| `Bus.WriteByteKeepsAcceptance` | src/machine/bus.cc:96-109 | A byte write changes no component's read or write acceptance at any address. |
| `Bus.ReadAfterWrite` | src/machine/bus.cc:28-64 | If some component accepts a write at a, and every component accepting a read there also accepts a write, the byte written reads back. |
| `Bus.WriteKeepsOtherAddresses` | src/machine/bus.cc:28-35 | A byte write at a does not change what any other address reads. |
| `Bus.OwnedAfterWrite` | src/machine/bus.cc:28-35 | Writing keeps an address writable and readable back. |
| `Bus.LastAddressReadsZero` | src/machine/bus.cc:101-109 | No component can accept 0xFFFF, because the end address is an exclusive 16-bit value, so 0xFFFF always reads 0. |
| `Bus.WriteBytes` | src/machine/bus.cc:28-35 | A sequence of byte writes keeps the components' number, validity and acceptance. |
| `Bus.ReadOnlyAddressSurvivesWrites` | src/machine/bus.cc:111-120 | An address whose readers accept no writes at all (a ROM location) reads the same after any sequence of byte writes. |
| `Bus.ReadWordHalves` | src/machine/bus.cc:66-82 | A word read fetches the byte at a and the byte at a + 1, wrapping. |
| `Bus.ReadWord` | src/machine/bus.cc:66-82 | A word read is little-endian: the byte at a + 1 (wrapped) times 256 plus the byte at a. |
| `Bus.WordWriteLow` | src/machine/bus.cc:40 | The low byte the word write computes, `(byte_t)(word \| 0xFF)`, is 0xFF whatever the word is. |
| `Bus.WordWriteHigh` | src/machine/bus.cc:41 | The high byte the word write computes, `(byte_t)((word >> 8) \| 0xFF)`, is 0xFF whatever the word is. |
| `Bus.WriteWord` | src/machine/bus.cc:37-51 | Within one pass, each component receives the low byte at a and then the high byte at a + 1 (wrapped), each only if it accepts that address; both bytes are 0xFF. |
| `Bus.OnePassIsTwoByteWrites` | src/machine/bus.cc:37-51 | That single pass equals a byte write at a followed by a byte write at a + 1. |
| `Bus.BytesAfterTwoWrites` | src/machine/bus.cc:28-64 | After two byte writes at a and a + 1 on owned locations, both bytes read back. |
| `Bus.WordFromTwoByteWrites` | src/machine/bus.cc:66-82 | After byte writes lo at a and hi at a + 1, the word at a reads hi * 256 + lo. |
| `Bus.WriteWordReadsBackFFFF` | src/machine/bus.cc:37-51 | As written, a word written at an owned location always reads back as 0xFFFF. |
| `Bus.WriteWordLoses0x1234` | src/machine/bus.cc:37-51 | As written, 0x1234 written at 0 on a two-byte RAM reads back 0xFFFF, not 0x1234. |
| `Bus.WriteWordMasked` | src/machine/bus.cc:37-51 | The corrected word write delivers the low byte `w & 0xFF` and the high byte `w >> 8` in the same one-pass order. |
| `Bus.WriteWordMaskedRoundTrip` | src/machine/bus.cc:37-51 | With the corrected write, the word written at an owned location reads back unchanged. |
| `Instructions.LdRR` | src/machine/instructions.hh:19-28 | `ld r, r'` advances PC by 1 and loads r (both names of its cell) with the old r'. Nothing else changes and the bus is untouched. |
| `Instructions.LdRN` | src/machine/instructions.hh:30-39 | `ld r, n` advances PC by 2 and loads r with the byte at PC + 1. Nothing else changes and the bus is untouched. |
| `Instructions.LdRAtRR` | src/machine/instructions.hh:41-50 | `ld r, (rr)` advances PC by 1 and loads r with the byte at the address rr holds after the step. |
| `Instructions.LdRAtIIPlusD` | src/machine/instructions.hh:52-64 | `ld r, (ii + d)` advances PC by 3 and loads r from ii plus the unsigned displacement at PC + 2, wrapped. |
| `Instructions.LdAtRRR` | src/machine/instructions.hh:66-75 | `ld (rr), r` advances PC by 1 and writes r's byte to the address rr holds after the step. No register changes. |
| `Instructions.LdAtRRN` | src/machine/instructions.hh:77-86 | `ld (rr), n` advances PC by 2 and writes the byte at PC + 1 to the address rr holds after the step. |
| `Instructions.LdAtRRPlusDN` | src/machine/instructions.hh:88-101 | `ld (rr + d), n` advances PC by 3 and writes the byte at PC + 3 to rr plus the unsigned displacement at PC + 2. |
| `Instructions.Direct` | src/machine/instructions.hh:103-112 | The direct address is the little-endian word formed by the two bytes after the opcode. |
| `Instructions.LdRAtNN` | src/machine/instructions.hh:103-112 | `ld r, (nn)` advances PC by 3 and loads r with the byte at the direct address. |
| `Instructions.LdAtNNR` | src/machine/instructions.hh:114-123 | `ld (nn), r` advances PC by 3 and writes r's byte at the direct address. |
| `Instructions.IrFlagByteBits` | src/machine/instructions.hh:135-149 | The flag-update sequence sets S when bit 7 is set or S was already set, and Z when the value is 0 or Z was already set. It clears H and N, sets PV to the negation of iff2, and keeps C and bits 5 and 3. |
| `Instructions.IrFlagUpdates` | src/machine/instructions.hh:135-149 | The five flag calls change only F's storage, which ends as that flag byte. |
| `Instructions.LdRIR` | src/machine/instructions.hh:125-152 | `ld r, i` / `ld r, r` advances PC by 2, loads r from the I or R register, and leaves F with those flags: exactly the byte the five flag calls produce from the starting F. When r is A or F, the loaded register reads the final F. Nothing else changes. |
| `Instructions.FlagsAfterLoad` | src/machine/instructions.hh:130-133 | The flag updates start from the loaded value when r shares AF, and from the old F otherwise. |
| `Instructions.LdRRSelfOnlySteps` | src/machine/instructions.hh:19-28 | `ld r, r` with the same register on both sides only advances PC. |
| `Instructions.StoreThenLoadRoundTrip` | src/machine/instructions.hh:41-75 | `ld (rr), r` followed by `ld r', (rr)`, with rr not PC and the location owned, leaves r' equal to the old r, with PC advanced by 2. |
| `Instructions.LdRAtPcReadsNextByte` | src/machine/instructions.hh:41-50 | Because PC is stepped first, `ld r, (pc)` loads the byte after the opcode. |
| `Instructions.DisplacementIsUnsigned` | src/machine/instructions.hh:52-64 | With IX = 0x1000 and d = 0xFF, the indexed address is 0x10FF. A signed displacement would give 0x0FFF. |
| `Instructions.LdAtIIPlusDNStopsOnImmediate` | src/machine/instructions.hh:88-101 | `ld (ii + d), n` leaves PC at PC + 3, on its own immediate byte. |
| `Instructions.LdRIRKeepsStaleSign` | src/machine/instructions.hh:135-143 | Loading 0 into B from I with S already set leaves both S and Z set. |
| `Instructions.LdRIRParityIsNotIff2` | src/machine/instructions.hh:145-149 | After `ld r, i`, PV reads the negation of iff2. |
| `Instructions.LdAIAbsorbsFlags` | src/machine/instructions.hh:125-152 | After `ld a, i` with I holding n, A reads `IrFlagByte(n, n, iff2)`, the flag byte the five flag calls produce from n, which need not be n. When I is 0, A does not read 0. |
| `Scenarios.Machine` | src/machine/bus.cc:84-120 | The sample machine's RAM accepts reads and writes below 0x8000. Its ROM accepts reads on `[0x8000, 0xFFFF)` and no write. |
| `Scenarios.MachineOwnership` | src/machine/bus.cc:84-120 | In the sample machine, an address is writable and reads back exactly when it is below 0x8000. |
| `Scenarios.LoadImmediateScenario` | src/machine/instructions.hh:30-39 | With the program `06 2A` stored at 0 on any bus owning 0 and 1, `ld b, n` from power-on leaves B = C = 0x2A, PC = 2, 2 cycles and the bus unchanged. |
| `Scenarios.MachineLoadsImmediate` | src/machine/instructions.hh:30-39 | On the sample RAM and ROM machine, the same program leaves B = C = 0x2A, PC = 2, 2 cycles and the bus unchanged. |
| `Scenarios.RamTopReadBack` | src/machine/bus.cc:28-64 | On the sample machine, a byte written at 0x7FFF reads back. |
| `Scenarios.RomIgnoresWrites` | src/machine/bus.cc:111-120 | On the sample machine, a write at 0x9000 leaves the whole bus unchanged. |
| `Scenarios.WordWriteScenario` | src/machine/bus.cc:37-51 | On the sample machine, 0x1234 written at 0x1000 reads back 0xFFFF as written, and 0x1234 with the corrected write. |

## Left out

- Template register accessors and `Bus::read<T>`: the aliases at include/zasm/machine/cpu.hh:53-111 and the dispatch at include/zasm/machine/bus.hh:85-98 add no behaviour beyond the word and byte operations modelled here.
- The `Instruction` alias (a `std::function`) and any opcode table: instructions are plain Dafny functions. No decoder is part of this model.
- Heap ownership (`unique_ptr` components), the `Bus` constructor and destructor, and `noexcept`: they do not affect any value.
- Attaching components: zasm's `Bus` declares no method to add components (include/zasm/machine/bus.hh:57-117). A bus is therefore given as a parameter, namely the list of its components.
- Loading a ROM image: ROM has no loading API and its storage is zero-filled, so programs in the scenarios are placed in RAM.
- `Passive` stands for a component that keeps the base class's defaults (`accept_read` and `accept_write` both false). No concrete such component exists in the source.
- Undefined behaviour in C++ is not modelled:
  - reading an inactive union member;
  - a RAM built with `end < start` (the model requires `start <= end`);
  - falling off the end of a `switch`;
  - indexing a RAM's storage outside its range (src/machine/bus.cc:93 and 98). `Bus.Read` and `Bus.Write` require that the component accepts the address. The bus only calls `read` or `write` after the matching accept test, and for RAM and ROM that test means the address is in range.
- The flip-flops are not initialised by the CPU's constructor. `Cpu.PowerOn` takes their values as parameters.
- zasm documents `Register()` as zero-initialising (include/zasm/registers.hh:37-40). The model takes both storages to be 0.
- The host loop, timing, interrupts, the other instruction families, and anything that swaps the alternate register set.
- `Bus.WriteByte`: its own contract only states that the number and the validity of components are kept. What each component receives is stated by `Bus.WriteByteDelivers` and `Bus.WriteByteBroadcast`.
- `Bus.ReadByte`: its own contract only states the nobody-accepts case. The full OR is stated by `Bus.ReadByteBits`.

## Findings

| source | as written | input that shows it | evidently intended | confidence | as-written member | corrected member |
|---|---|---|---|---|---|---|
| src/machine/bus.cc:40-41 | The low and high bytes of a word write are computed with `\| 0xFF`, so both are always 0xFF. | Writing 0x1234 at 0 on a bus with one RAM over `[0, 2)`, then reading the word at 0, gives 0xFFFF. | The bytes `word & 0xFF` and `word >> 8`, so that the word reads back. | not executed | `Bus.WriteWordLoses0x1234` | `Bus.WriteWordMaskedRoundTrip` |
