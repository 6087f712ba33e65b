/**
 The page tables and the walk over them, in arithmetic. This is the reference the emulator
 is measured against: it has no TLB, no counters and no out-parameter.
 */
module PageTables {
  import opened Bits

  const KB4: nat := 0x1000
  const MB2: nat := 0x20_0000
  const GB1: nat := 0x4000_0000
  /** Level indices reach bit 47 only. */
  const WINDOW: nat := 0x1_0000_0000_0000

  type Bits3 = x: nat | x < 8
  type Bits2 = x: nat | x < 4
  type FrameNumber = x: nat | x < 0x10_0000_0000

  /** The fields the walk reads. How a 64-bit word is cut into them is left open. */
  datatype Descriptor = Descriptor(
    valid: bool, table: bool, sh: Bits2, ap: Bits3, attrIndex: Bits3, outputAddr: FrameNumber)
  {
    /** `set_output_address`: the frame number is truncated to 36 bits. */
    function WithOutputAddress(pa: u64): Descriptor {
      this.(outputAddr := (pa / KB4) % 0x10_0000_0000)
    }
  }

  /** What the word 0 decodes to, and what the shipped descriptor read always yields. */
  const ZERO := Descriptor(false, false, 0, 0, 0, 0)

  /** Memory seen as descriptors by physical address; an address that is absent holds the word 0. */
  type Memory = map<nat, Descriptor>

  function Read(mem: Memory, a: nat): Descriptor {
    if a in mem then mem[a] else ZERO
  }

  function Write(mem: Memory, a: nat, d: Descriptor): Memory {
    mem[a := d]
  }

  datatype MemoryType =
    DeviceNGnRnE | DeviceNGnRE | DeviceNGRE | DeviceGRE | Normal | NormalNC | NormalWB | NormalWT

  /** The enumerators of EL0 and EL1 share their values, so three are left. */
  datatype AccessPermission = NoAccess | ReadOnly | ReadWrite

  function DecodeMemoryType(attrIndex: nat): MemoryType {
    match attrIndex
    case 0x00 => DeviceNGnRnE
    case 0x01 => DeviceNGnRE
    case 0x04 => NormalNC
    case 0x44 => NormalWB
    case _ => Normal
  }

  function DecodePermissions(ap: nat): AccessPermission {
    match ap
    case 0 => ReadWrite
    case 1 => ReadOnly
    case 2 => ReadWrite
    case 4 => NoAccess
    case 5 => ReadOnly
    case 6 => ReadWrite
    case _ => ReadWrite
  }

  /** The fields that the TLB keeps. */
  datatype Attrs = Attrs(base: u64, size: u64, memType: MemoryType, ap: AccessPermission, uxn: bool, pxn: bool)

  datatype Region = Region(attrs: Attrs, contiguous: bool, shareable: bool)

  /** `Undefined` is behaviour that C++ leaves undefined: a shift by 64 or by a negative amount. */
  datatype WalkResult = Undefined | Fault | Mapped(region: Region)

  datatype Config = Config(ttbr0: u64, ttbr1: u64, tcr: u64)
  {
    function T0sz(): nat { tcr % 64 }
    function T1sz(): nat { (tcr / 0x1_0000) % 64 }
  }

  /** First address above a lower range, and first of an upper one. */
  function RangeEdge(tsz: nat): nat
    requires 1 <= tsz < 64
  {
    Pow2(64 - tsz)
  }

  function TableBase(ttbr: u64): u64 {
    ttbr - ttbr % 0x1_0000
  }

  datatype Range = Lower | Upper | Neither | BadRange

  /** Which register's range an address falls into; the lower range is asked first. */
  function Picks(cfg: Config, va: nat): Range {
    if cfg.T0sz() == 0 then BadRange
    else if va < RangeEdge(cfg.T0sz()) then Lower
    else if cfg.T1sz() == 0 then BadRange
    else if va >= RangeEdge(cfg.T1sz()) then Upper
    else Neither
  }

  datatype Selection = BadShift | OutOfRange | From(base: u64)

  /** Which root table translates `va`. */
  function Select(cfg: Config, va: nat): Selection {
    match Picks(cfg, va)
    case BadRange => BadShift
    case Lower => From(TableBase(cfg.ttbr0))
    case Upper => From(TableBase(cfg.ttbr1))
    case Neither => OutOfRange
  }

  /** Bytes of address space that one slot of a table of this level stands for. */
  function Span(level: nat): nat
    requires level <= 4
  {
    match level
    case 0 => 0x80_0000_0000
    case 1 => GB1
    case 2 => MB2
    case 3 => KB4
    case 4 => 8
  }

  function LeafSize(level: nat): (s: nat)
    requires level <= 3
  {
    match level
    case 0 => GB1
    case 1 => MB2
    case 2 => MB2
    case 3 => KB4
  }

  function Index(va: nat, level: nat): nat
    requires level <= 4
  {
    (va / Span(level)) % 512
  }

  function Slot(va: nat, base: nat, level: nat): nat
    requires level <= 4
  {
    base + 8 * Index(va, level)
  }

  function OutputAddress(d: Descriptor): u64 {
    d.outputAddr * KB4
  }

  function LeafRegion(d: Descriptor, level: nat): Region
    requires level <= 3
  {
    var size := LeafSize(level);
    var pa := OutputAddress(d);
    Region(Attrs(pa - pa % size, size, DecodeMemoryType(d.attrIndex), DecodePermissions(d.ap), false, false),
           false, d.sh != 0)
  }

  /** A table descriptor at level 4 leads to a shift by -6; a leaf there is a fault. */
  function WalkLevel(mem: Memory, va: nat, base: nat, level: nat): WalkResult
    decreases if level <= 4 then 5 - level else 0
  {
    if level > 4 then Undefined
    else
      var d := Read(mem, Slot(va, base, level));
      if !d.valid then Fault
      else if d.table then WalkLevel(mem, va, OutputAddress(d), level + 1)
      else if level == 4 then Fault
      else Mapped(LeafRegion(d, level))
  }

  function Walk(cfg: Config, mem: Memory, va: nat): WalkResult {
    match Select(cfg, va)
    case BadShift => Undefined
    case OutOfRange => Fault
    case From(base) => WalkLevel(mem, va, base, 0)
  }

  /** `va & (size - 1)` for the sizes in use; a size of 0 masks nothing away. */
  function Offset(va: nat, size: nat): (r: nat)
    ensures r <= va
  {
    if size == 0 then va else va % size
  }

  function PhysicalAddress(attrs: Attrs, va: nat): nat {
    attrs.base + Offset(va, attrs.size)
  }

  ghost predicate LeafSized(size: nat) {
    size == KB4 || size == MB2 || size == GB1
  }
}
