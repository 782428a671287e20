/** The address bus and its memory components. A bus is the ordered list of
    its components; reads OR together every accepting component's byte and
    writes are delivered to every accepting component. */
module Bus {
  import opened Types

  /** A bus component. RAM and ROM own the addresses `[start, end)` and hold
      `end - start` bytes of storage; ROM shares RAM's storage and reads and
      differs only in refusing every write. `Passive` is a component that
      overrides neither acceptance test and so takes part in no access. */
  datatype Component =
    | RAM(start: Address, end: Address, mem: seq<Byte>)
    | ROM(start: Address, end: Address, mem: seq<Byte>)
    | Passive

  /** The storage of a RAM or ROM spans its address range. */
  predicate Valid(c: Component)
  {
    c.Passive? || (c.start <= c.end && |c.mem| == c.end - c.start)
  }

  /** Every component of the bus is valid. */
  predicate ValidBus(bus: seq<Component>)
  {
    forall i | 0 <= i < |bus| :: Valid(bus[i])
  }

  /** `accept_read`: RAM and ROM accept exactly their own range. */
  predicate AcceptRead(c: Component, a: Address)
  {
    match c
    case RAM(s, e, _) => s <= a < e
    case ROM(s, e, _) => s <= a < e
    case Passive => false
  }

  /** `accept_write`: RAM accepts its range; ROM and a passive component
      accept nothing. */
  predicate AcceptWrite(c: Component, a: Address)
  {
    match c
    case RAM(s, e, _) => s <= a < e
    case ROM(_, _, _) => false
    case Passive => false
  }

  /** A RAM over `[start, end)`: zeroed storage of `end - start` bytes. */
  function NewRAM(start: Address, end: Address): (c: Component)
    requires start <= end
    ensures Valid(c)
    ensures forall a: Address :: AcceptRead(c, a) <==> start <= a < end
    ensures forall a: Address :: AcceptWrite(c, a) <==> start <= a < end
    ensures forall a | AcceptRead(c, a) :: Read(c, a) == 0
  {
    RAM(start, end, seq(end - start, _ => 0))
  }

  /** A ROM over `[start, end)`: the same zeroed storage and reads as a RAM,
      but no address accepts a write. */
  function NewROM(start: Address, end: Address): (c: Component)
    requires start <= end
    ensures Valid(c)
    ensures forall a: Address :: AcceptRead(c, a) <==> start <= a < end
    ensures forall a: Address :: !AcceptWrite(c, a)
    ensures forall a | AcceptRead(c, a) :: Read(c, a) == 0
  {
    ROM(start, end, seq(end - start, _ => 0))
  }

  /** `RAM::read`, which ROM inherits: the stored byte at `a - start`. */
  function Read(c: Component, a: Address): Byte
    requires Valid(c) && AcceptRead(c, a)
  {
    c.mem[a - c.start]
  }

  /** `RAM::write`, which ROM inherits: stores `v` at `a - start`. Only that
      byte changes, and what the component accepts stays the same. */
  function Write(c: Component, a: Address, v: Byte): (c': Component)
    requires Valid(c) && AcceptRead(c, a)
    ensures Valid(c')
    ensures forall x :: AcceptRead(c', x) == AcceptRead(c, x) && AcceptWrite(c', x) == AcceptWrite(c, x)
    ensures Read(c', a) == v
    ensures forall x | AcceptRead(c, x) && x != a :: Read(c', x) == Read(c, x)
  {
    c.(mem := c.mem[a - c.start := v])
  }

  /** One iteration of the bus's write loop on one component. */
  function Deliver(c: Component, a: Address, v: Byte): Component
    requires Valid(c)
  {
    if AcceptWrite(c, a) then Write(c, a, v) else c
  }

  /** One iteration of the bus's read loop on one component: the byte it
      ORs into the accumulator. */
  function Contribution(c: Component, a: Address): Byte
    requires Valid(c)
  {
    if AcceptRead(c, a) then Read(c, a) else 0
  }

  /** The base class's acceptance tests, which `Passive` keeps: no read and
      no write is accepted at any address. */
  lemma DefaultAcceptsNothing(a: Address)
    ensures !AcceptRead(Passive, a) && !AcceptWrite(Passive, a)
  {
  }

  /** `accept_read` of RAM, and of ROM which inherits it: a component takes
      the reads of exactly its own range, so never those of 0xFFFF. */
  lemma ReadAcceptance(c: Component, a: Address)
    ensures c.RAM? || c.ROM? ==> (AcceptRead(c, a) <==> c.start <= a < c.end)
    ensures AcceptRead(c, a) ==> a < 0xFFFF
  {
  }

  /** `accept_write`: RAM takes the writes of its range and ROM none, so a
      component that accepts a write at an address also answers reads
      there. */
  lemma WriteAcceptance(c: Component, a: Address)
    ensures c.RAM? ==> (AcceptWrite(c, a) <==> c.start <= a < c.end)
    ensures c.ROM? ==> !AcceptWrite(c, a)
    ensures AcceptWrite(c, a) ==> AcceptRead(c, a)
  {
  }

  /** `RAM::write` of the byte `RAM::read` just returned changes nothing:
      storing a component's own byte back gives the very same component. */
  lemma WriteOwnValue(c: Component, a: Address)
    requires Valid(c) && AcceptRead(c, a)
    ensures Write(c, a, Read(c, a)) == c
  {
  }

  /** `Bus::read_byte`: the OR, in list order, of every accepting component's
      byte; an address nobody accepts reads 0 (see also `ReadByteBits`). */
  function ReadByte(bus: seq<Component>, a: Address): (r: Byte)
    requires ValidBus(bus)
    ensures (forall i | 0 <= i < |bus| :: !AcceptRead(bus[i], a)) ==> r == 0
    decreases |bus|
  {
    if |bus| == 0 then 0
    else
      var init := bus[..|bus| - 1];
      ReadByte(init, a) | Contribution(bus[|bus| - 1], a)
  }

  /** The open-collector read: a bit of the byte read at `a` is set exactly
      when some component accepting `a` has that bit set. */
  lemma {:induction false} ReadByteBits(bus: seq<Component>, a: Address)
    requires ValidBus(bus)
    ensures forall k: Byte | k < 8 ::
      BitSet(ReadByte(bus, a), k) <==> exists i | 0 <= i < |bus| :: AcceptRead(bus[i], a) && BitSet(Read(bus[i], a), k)
    decreases |bus|
  {
    if |bus| > 0 {
      var init := bus[..|bus| - 1];
      ReadByteBits(init, a);
      OrBits(ReadByte(init, a), Contribution(bus[|bus| - 1], a));
      assert forall i | 0 <= i < |init| :: init[i] == bus[i];
    } else {
      OrBits(0, 0);
    }
  }

  /** `Bus::write(address, byte)`: the write loop over the components in
      list order (see `WriteByteBroadcast` for what each receives). */
  function WriteByte(bus: seq<Component>, a: Address, v: Byte): (bus': seq<Component>)
    requires ValidBus(bus)
    ensures |bus'| == |bus| && ValidBus(bus')
    decreases |bus|
  {
    if |bus| == 0 then []
    else
      var init := bus[..|bus| - 1];
      WriteByte(init, a, v) + [Deliver(bus[|bus| - 1], a, v)]
  }

  /** A byte write hands each component its own `Deliver`: the components
      are visited independently of one another. */
  lemma {:induction false} WriteByteDelivers(bus: seq<Component>, a: Address, v: Byte)
    requires ValidBus(bus)
    ensures forall i | 0 <= i < |bus| :: WriteByte(bus, a, v)[i] == Deliver(bus[i], a, v)
    decreases |bus|
  {
    if |bus| > 0 {
      var init := bus[..|bus| - 1];
      WriteByteDelivers(init, a, v);
      assert forall i | 0 <= i < |init| :: init[i] == bus[i];
    }
  }

  /** Broadcast write: every component accepting a write at `a` receives `v`;
      every other component, every ROM in particular, is left as it was. */
  lemma WriteByteBroadcast(bus: seq<Component>, a: Address, v: Byte)
    requires ValidBus(bus)
    ensures forall i | 0 <= i < |bus| :: AcceptWrite(bus[i], a) ==> WriteByte(bus, a, v)[i] == Write(bus[i], a, v)
    ensures forall i | 0 <= i < |bus| :: !AcceptWrite(bus[i], a) ==> WriteByte(bus, a, v)[i] == bus[i]
    ensures forall i | 0 <= i < |bus| && bus[i].ROM? :: WriteByte(bus, a, v)[i] == bus[i]
  {
    WriteByteDelivers(bus, a, v);
  }

  /** A byte write changes no component's acceptance of any address. */
  lemma WriteByteKeepsAcceptance(bus: seq<Component>, a: Address, v: Byte)
    requires ValidBus(bus)
    ensures forall i, x | 0 <= i < |bus| ::
      && AcceptRead(WriteByte(bus, a, v)[i], x) == AcceptRead(bus[i], x)
      && AcceptWrite(WriteByte(bus, a, v)[i], x) == AcceptWrite(bus[i], x)
  {
    WriteByteDelivers(bus, a, v);
  }

  /** The two accumulators of `Bus::read_word`'s single loop: the low byte
      ORs the components accepting `a`, the high byte those accepting `a + 1`
      (wrapped). Each equals the corresponding byte read. */
  function ReadWordHalves(bus: seq<Component>, a: Address): (res: (Byte, Byte))
    requires ValidBus(bus)
    ensures res.0 == ReadByte(bus, a)
    ensures res.1 == ReadByte(bus, Wrap(a + 1))
    decreases |bus|
  {
    if |bus| == 0 then (0, 0)
    else
      var init := bus[..|bus| - 1];
      var last := bus[|bus| - 1];
      var (lo, hi) := ReadWordHalves(init, a);
      (lo | Contribution(last, a), hi | Contribution(last, Wrap(a + 1)))
  }

  /** `Bus::read_word`: little-endian, the byte at `a + 1` (wrapped) is the
      high half and the byte at `a` the low half. */
  function ReadWord(bus: seq<Component>, a: Address): (w: Word)
    requires ValidBus(bus)
    ensures w == ReadByte(bus, Wrap(a + 1)) as int * 256 + ReadByte(bus, a) as int
  {
    var (lo, hi) := ReadWordHalves(bus, a);
    (((hi as bv16) << 8) | (lo as bv16)) as int
  }

  /** The low byte `Bus::write(address, word)` computes, `(byte_t)(word | 0xFF)`:
      OR-ing with 0xFF sets every bit that survives the cast, so it is 0xFF
      whatever the word. */
  function WordWriteLow(w: Word): (b: Byte)
    ensures b == 0xFF
  {
    (((w as bv16) | 0xFF) & 0xFF) as Byte
  }

  /** The high byte `Bus::write(address, word)` computes,
      `(byte_t)((word >> 8) | 0xFF)`: 0xFF whatever the word, for the same
      reason. */
  function WordWriteHigh(w: Word): (b: Byte)
    ensures b == 0xFF
  {
    ((((w as bv16) >> 8) | 0xFF) & 0xFF) as Byte
  }

  /** `Bus::write(address, word)` as written: in one pass, each component is
      offered the low byte at `a` and then the high byte at `a + 1`
      (wrapped); both bytes are 0xFF whatever `w` is. */
  function WriteWord(bus: seq<Component>, a: Address, w: Word): (bus': seq<Component>)
    requires ValidBus(bus)
    ensures |bus'| == |bus| && ValidBus(bus')
    ensures forall i | 0 <= i < |bus| ::
      bus'[i] == Deliver(Deliver(bus[i], a, 0xFF), Wrap(a + 1), 0xFF)
    decreases |bus|
  {
    if |bus| == 0 then []
    else
      var init := bus[..|bus| - 1];
      var last := bus[|bus| - 1];
      WriteWord(init, a, w) + [Deliver(Deliver(last, a, WordWriteLow(w)), Wrap(a + 1), WordWriteHigh(w))]
  }

  /** `w & 0xFF`: the low byte of a word. */
  function MaskedLow(w: Word): (b: Byte)
    ensures b as int == w % 256
  {
    ToByte(w % 256)
  }

  /** `(w >> 8) & 0xFF`: the high byte of a word. */
  function MaskedHigh(w: Word): (b: Byte)
    ensures b as int == w / 256
  {
    ToByte(w / 256)
  }

  /** The intended word write: the low byte `w & 0xFF` at `a` and
      the high byte `(w >> 8) & 0xFF` at `a + 1` (wrapped). */
  function WriteWordMasked(bus: seq<Component>, a: Address, w: Word): (bus': seq<Component>)
    requires ValidBus(bus)
    ensures |bus'| == |bus| && ValidBus(bus')
    ensures forall i | 0 <= i < |bus| ::
      bus'[i] == Deliver(Deliver(bus[i], a, MaskedLow(w)), Wrap(a + 1), MaskedHigh(w))
    decreases |bus|
  {
    if |bus| == 0 then []
    else
      var init := bus[..|bus| - 1];
      var last := bus[|bus| - 1];
      WriteWordMasked(init, a, w) + [Deliver(Deliver(last, a, MaskedLow(w)), Wrap(a + 1), MaskedHigh(w))]
  }

  /** Address `a` is served by writable storage only: some component accepts a
      write there, and every component answering reads there accepts the
      write too (no ROM and no other read-only component overlaps it). */
  predicate Owned(bus: seq<Component>, a: Address)
  {
    && (exists i | 0 <= i < |bus| :: AcceptWrite(bus[i], a))
    && (forall i | 0 <= i < |bus| :: AcceptRead(bus[i], a) ==> AcceptWrite(bus[i], a))
  }

  /** A byte read after a byte write to an owned address returns the byte
      written, whatever the components held before. */
  lemma ReadAfterWrite(bus: seq<Component>, a: Address, v: Byte)
    requires ValidBus(bus) && Owned(bus, a)
    ensures ReadByte(WriteByte(bus, a, v), a) == v
  {
    var bus' := WriteByte(bus, a, v);
    ReadByteBits(bus', a);
    WriteByteDelivers(bus, a, v);
    WriteByteKeepsAcceptance(bus, a, v);
    var j :| 0 <= j < |bus| && AcceptWrite(bus[j], a);
    forall k: Byte | k < 8
      ensures BitSet(ReadByte(bus', a), k) == BitSet(v, k)
    {
      if BitSet(v, k) {
        assert AcceptRead(bus'[j], a) && BitSet(Read(bus'[j], a), k);
      }
    }
    BitsDetermineByte(ReadByte(bus', a), v);
  }

  /** A byte read depends only on what each component contributes. */
  lemma {:induction false} ContributionsDetermineRead(b1: seq<Component>, b2: seq<Component>, a: Address)
    requires ValidBus(b1) && ValidBus(b2) && |b1| == |b2|
    requires forall i | 0 <= i < |b1| :: Contribution(b1[i], a) == Contribution(b2[i], a)
    ensures ReadByte(b1, a) == ReadByte(b2, a)
    decreases |b1|
  {
    if |b1| > 0 {
      var n := |b1| - 1;
      ContributionsDetermineRead(b1[..n], b2[..n], a);
    }
  }

  /** A byte write at `a` leaves the byte read at every other address as it
      was. */
  lemma WriteKeepsOtherAddresses(bus: seq<Component>, a: Address, v: Byte, x: Address)
    requires ValidBus(bus) && x != a
    ensures ReadByte(WriteByte(bus, a, v), x) == ReadByte(bus, x)
  {
    var bus' := WriteByte(bus, a, v);
    WriteByteDelivers(bus, a, v);
    ContributionsDetermineRead(bus', bus, x);
  }

  /** Address 0xFFFF is never mapped: a range's exclusive end is itself an
      address, so no RAM or ROM can include 0xFFFF, and it always reads 0. */
  lemma LastAddressReadsZero(bus: seq<Component>)
    requires ValidBus(bus)
    ensures forall i | 0 <= i < |bus| :: !AcceptRead(bus[i], 0xFFFF) && !AcceptWrite(bus[i], 0xFFFF)
    ensures ReadByte(bus, 0xFFFF) == 0
  {
  }

  /** A sequence of byte writes, applied in order. */
  function WriteBytes(bus: seq<Component>, writes: seq<(Address, Byte)>): (bus': seq<Component>)
    requires ValidBus(bus)
    ensures ValidBus(bus') && |bus'| == |bus|
    ensures forall i, x | 0 <= i < |bus| ::
      AcceptRead(bus'[i], x) == AcceptRead(bus[i], x) && AcceptWrite(bus'[i], x) == AcceptWrite(bus[i], x)
    decreases |writes|
  {
    if |writes| == 0 then bus
    else
      WriteByteKeepsAcceptance(bus, writes[0].0, writes[0].1);
      WriteBytes(WriteByte(bus, writes[0].0, writes[0].1), writes[1..])
  }

  /** ROM write-protection: when only components refusing writes (ROMs, in
      particular) answer reads at `x`, no number of byte writes anywhere
      changes the byte read at `x`. */
  lemma {:induction false} ReadOnlyAddressSurvivesWrites(bus: seq<Component>, x: Address, writes: seq<(Address, Byte)>)
    requires ValidBus(bus)
    requires forall i, y | 0 <= i < |bus| :: AcceptRead(bus[i], x) ==> !AcceptWrite(bus[i], y)
    ensures ReadByte(WriteBytes(bus, writes), x) == ReadByte(bus, x)
    decreases |writes|
  {
    if |writes| > 0 {
      var (a, v) := writes[0];
      var bus1 := WriteByte(bus, a, v);
      WriteByteDelivers(bus, a, v);
      assert forall i | 0 <= i < |bus| :: Contribution(bus1[i], x) == Contribution(bus[i], x);
      ContributionsDetermineRead(bus1, bus, x);
      ReadOnlyAddressSurvivesWrites(bus1, x, writes[1..]);
    }
  }

  /** A one-pass word write that offers each component `lo` at `a` and then
      `hi` at `a + 1` equals two whole-bus byte writes. */
  lemma OnePassIsTwoByteWrites(bus: seq<Component>, a: Address, lo: Byte, hi: Byte, bus': seq<Component>)
    requires ValidBus(bus) && |bus'| == |bus|
    requires forall i | 0 <= i < |bus| :: bus'[i] == Deliver(Deliver(bus[i], a, lo), Wrap(a + 1), hi)
    ensures bus' == WriteByte(WriteByte(bus, a, lo), Wrap(a + 1), hi)
  {
    var bus1 := WriteByte(bus, a, lo);
    var bus2 := WriteByte(bus1, Wrap(a + 1), hi);
    WriteByteDelivers(bus, a, lo);
    WriteByteDelivers(bus1, Wrap(a + 1), hi);
    forall i | 0 <= i < |bus| ensures bus'[i] == bus2[i] {
      assert bus1[i] == Deliver(bus[i], a, lo);
    }
  }

  /** A byte write keeps every address owned that was owned before. */
  lemma OwnedAfterWrite(bus: seq<Component>, a: Address, v: Byte, x: Address)
    requires ValidBus(bus) && Owned(bus, x)
    ensures Owned(WriteByte(bus, a, v), x)
  {
    WriteByteKeepsAcceptance(bus, a, v);
    var j :| 0 <= j < |bus| && AcceptWrite(bus[j], x);
    assert AcceptWrite(WriteByte(bus, a, v)[j], x);
  }

  /** Writing `lo` at `a` and then `hi` at `a + 1`, both owned, leaves `lo`
      readable at `a` and `hi` at `a + 1`. */
  lemma BytesAfterTwoWrites(bus: seq<Component>, a: Address, lo: Byte, hi: Byte)
    requires ValidBus(bus) && Owned(bus, a) && Owned(bus, Wrap(a + 1))
    ensures var bus2 := WriteByte(WriteByte(bus, a, lo), Wrap(a + 1), hi);
      ReadByte(bus2, a) == lo && ReadByte(bus2, Wrap(a + 1)) == hi
  {
    var b := Wrap(a + 1);
    var bus1 := WriteByte(bus, a, lo);
    assert b != a;
    ReadAfterWrite(bus, a, lo);
    WriteKeepsOtherAddresses(bus1, b, hi, a);
    OwnedAfterWrite(bus, a, lo, b);
    ReadAfterWrite(bus1, b, hi);
  }

  /** Writing `lo` at `a` and then `hi` at `a + 1`, both owned, makes the
      word read at `a` equal `hi * 256 + lo`. */
  lemma WordFromTwoByteWrites(bus: seq<Component>, a: Address, lo: Byte, hi: Byte)
    requires ValidBus(bus) && Owned(bus, a) && Owned(bus, Wrap(a + 1))
    ensures ReadWord(WriteByte(WriteByte(bus, a, lo), Wrap(a + 1), hi), a) == hi as int * 256 + lo as int
  {
    BytesAfterTwoWrites(bus, a, lo, hi);
  }

  /** The word write as written: on owned addresses, the word read back is
      0xFFFF whatever word was written. */
  lemma WriteWordReadsBackFFFF(bus: seq<Component>, a: Address, w: Word)
    requires ValidBus(bus) && Owned(bus, a) && Owned(bus, Wrap(a + 1))
    ensures ReadWord(WriteWord(bus, a, w), a) == 0xFFFF
  {
    OnePassIsTwoByteWrites(bus, a, 0xFF, 0xFF, WriteWord(bus, a, w));
    WordFromTwoByteWrites(bus, a, 0xFF, 0xFF);
  }

  /** A concrete input the word write loses: 0x1234 written to a two-byte RAM
      at address 0 reads back as 0xFFFF. */
  lemma WriteWordLoses0x1234()
    ensures ReadWord(WriteWord([NewRAM(0, 2)], 0, 0x1234), 0) == 0xFFFF != 0x1234
  {
    var bus := [NewRAM(0, 2)];
    assert AcceptWrite(bus[0], 0) && AcceptWrite(bus[0], 1);
    WriteWordReadsBackFFFF(bus, 0, 0x1234);
  }

  /** The intended word write round-trips: on owned addresses the word read
      at `a` is the word written. */
  lemma WriteWordMaskedRoundTrip(bus: seq<Component>, a: Address, w: Word)
    requires ValidBus(bus) && Owned(bus, a) && Owned(bus, Wrap(a + 1))
    ensures ReadWord(WriteWordMasked(bus, a, w), a) == w
  {
    var lo, hi := MaskedLow(w), MaskedHigh(w);
    OnePassIsTwoByteWrites(bus, a, lo, hi, WriteWordMasked(bus, a, w));
    WordFromTwoByteWrites(bus, a, lo, hi);
  }
}
