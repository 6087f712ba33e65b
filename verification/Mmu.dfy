/** The emulator's state as a value, and what each of its operations does to it. */
module Mmu {
  import opened Bits
  import opened PageTables

  datatype Query = Query(va: u64, asid: u16)

  /** `matches` compares masked addresses and treats the stored ASID 0xFFFF as a wildcard. */
  datatype TLBEntry = TLBEntry(virtualAddress: u64, attrs: Attrs, asid: u16, valid: bool)
  {
    predicate Matches(va: u64, asidMatch: u16) {
      if !valid then false
      else if asid != asidMatch && asid != 0xFFFF then false
      else
        var mask := Not64((attrs.size - 1) % WORD);
        And(virtualAddress, mask) == And(va, mask)
    }
  }

  type Tlb = map<nat, TLBEntry>

  /** Counters wrap at 2^64. */
  datatype Stats = Stats(hits: u64, misses: u64, walks: u64, faults: u64)

  const NO_STATS := Stats(0, 0, 0, 0)

  datatype State = State(capacity: nat, tlb: Tlb, cfg: Config, stats: Stats)

  /** What a caller of `translate_with_attributes` can see, on a hit as on a miss. */
  datatype Answer = Crash | NoAddress | Address(pa: nat, attrs: Attrs)

  /** The page within the low 48 bits, with the ASID or-ed into the bits above. */
  function Key(q: Query): nat {
    Or(q.va / WINDOW, q.asid) * WINDOW + (q.va % WINDOW) / KB4 * KB4
  }

  predicate Hit(tlb: Tlb, q: Query) {
    Key(q) in tlb && tlb[Key(q)].valid
  }

  /** What the page tables say, without a TLB. */
  function WalkAnswer(cfg: Config, mem: Memory, va: u64): Answer {
    match Walk(cfg, mem, va)
    case Undefined => Crash
    case Fault => NoAddress
    case Mapped(r) => Address(PhysicalAddress(r.attrs, va), r.attrs)
  }

  function TranslateAnswer(s: State, mem: Memory, q: Query): Answer {
    if Hit(s.tlb, q) then
      var attrs := s.tlb[Key(q)].attrs;
      Address(PhysicalAddress(attrs, q.va), attrs)
    else WalkAnswer(s.cfg, mem, q.va)
  }

  /** The caller's region after a walk: written as a whole on success only. */
  function WalkRegion(cfg: Config, mem: Memory, va: u64, before: Region): Region {
    match Walk(cfg, mem, va)
    case Mapped(r) => r
    case _ => before
  }

  /** The caller's region after a translation: a hit writes six of its eight fields. */
  function RegionAfter(s: State, mem: Memory, q: Query, before: Region): Region {
    if Hit(s.tlb, q) then before.(attrs := s.tlb[Key(q)].attrs) else WalkRegion(s.cfg, mem, q.va, before)
  }

  /** `MemoryRegion`'s default. */
  const FRESH_REGION := Region(Attrs(0, 0, Normal, ReadWrite, false, false), false, false)

  function EntryFor(q: Query, attrs: Attrs): TLBEntry {
    TLBEntry(q.va - Offset(q.va, attrs.size), attrs, q.asid, true)
  }

  /** `victim` is whatever the unordered map has first when an entry must go. */
  function Evict(s: State, victim: nat): Tlb {
    if |s.tlb| >= s.capacity then s.tlb - {victim} else s.tlb
  }

  ghost predicate LegalVictim(s: State, victim: nat) {
    |s.tlb| >= s.capacity ==> victim in s.tlb
  }

  function Translated(s: State, mem: Memory, q: Query, victim: nat): State {
    var st := s.stats;
    if Hit(s.tlb, q) then s.(stats := st.(hits := Inc64(st.hits)))
    else
      var missed := st.(misses := Inc64(st.misses), walks := Inc64(st.walks));
      match Walk(s.cfg, mem, q.va)
      case Undefined => s.(stats := missed)
      case Fault => s.(stats := missed.(faults := Inc64(st.faults)))
      case Mapped(r) => s.(tlb := Evict(s, victim)[Key(q) := EntryFor(q, r.attrs)], stats := missed)
  }

  function WithoutAsid(tlb: Tlb, asid: u16): Tlb {
    map k | k in tlb && !(tlb[k].valid && (tlb[k].asid == asid || asid == 0xFFFF)) :: tlb[k]
  }

  function WithConfig(s: State, cfg: Config): State {
    s.(cfg := cfg, tlb := map[])
  }

  // ------------------------------------------------------------------- runs

  datatype Op =
    | Translate(q: Query, victim: nat)
    | SetTtbr0(value: u64)
    | SetTtbr1(value: u64)
    | SetTcr(value: u64)
    | InvalidateVa(q: Query)
    | InvalidateAsid(asid: u16)
    | InvalidateAll
    | ResetStats
    | WriteDescriptor(address: nat, d: Descriptor)

  /** The emulator together with the memory that the guest may write between operations. */
  datatype World = World(s: State, mem: Memory)

  function ConfigAfter(cfg: Config, op: Op): Config {
    match op
    case SetTtbr0(v) => cfg.(ttbr0 := v)
    case SetTtbr1(v) => cfg.(ttbr1 := v)
    case SetTcr(v) => cfg.(tcr := v)
    case _ => cfg
  }

  function MemoryAfter(mem: Memory, op: Op): Memory {
    match op
    case WriteDescriptor(a, d) => Write(mem, a, d)
    case _ => mem
  }

  function StateAfter(s: State, mem: Memory, op: Op): State {
    match op
    case Translate(q, victim) => Translated(s, mem, q, victim)
    case SetTtbr0(_) => WithConfig(s, ConfigAfter(s.cfg, op))
    case SetTtbr1(_) => WithConfig(s, ConfigAfter(s.cfg, op))
    case SetTcr(_) => WithConfig(s, ConfigAfter(s.cfg, op))
    case InvalidateVa(q) => s.(tlb := s.tlb - {Key(q)})
    case InvalidateAsid(asid) => s.(tlb := WithoutAsid(s.tlb, asid))
    case InvalidateAll => s.(tlb := map[])
    case ResetStats => s.(stats := NO_STATS)
    case WriteDescriptor(_, _) => s
  }

  function Step(w: World, op: Op): World {
    World(StateAfter(w.s, w.mem, op), MemoryAfter(w.mem, op))
  }

  function Run(w: World, ops: seq<Op>): World
    decreases |ops|
  {
    if ops == [] then w else Run(Step(w, ops[0]), ops[1..])
  }

  /** The answers of the translations of a run, in order. */
  function Answers(w: World, ops: seq<Op>): seq<Answer>
    decreases |ops|
  {
    if ops == [] then []
    else (match ops[0] case Translate(q, _) => [TranslateAnswer(w.s, w.mem, q)] case _ => [])
         + Answers(Step(w, ops[0]), ops[1..])
  }

  /** The machine without a TLB: registers and memory only. */
  function WalkAnswers(cfg: Config, mem: Memory, ops: seq<Op>): seq<Answer>
    decreases |ops|
  {
    if ops == [] then []
    else (match ops[0] case Translate(q, _) => [WalkAnswer(cfg, mem, q.va)] case _ => [])
         + WalkAnswers(ConfigAfter(cfg, ops[0]), MemoryAfter(mem, ops[0]), ops[1..])
  }

  /** Like the two functions above, with all eight fields that a caller with a fresh region sees each time. */
  function Regions(w: World, ops: seq<Op>): seq<Region>
    decreases |ops|
  {
    if ops == [] then []
    else (match ops[0] case Translate(q, _) => [RegionAfter(w.s, w.mem, q, FRESH_REGION)] case _ => [])
         + Regions(Step(w, ops[0]), ops[1..])
  }

  function WalkRegions(cfg: Config, mem: Memory, ops: seq<Op>): seq<Region>
    decreases |ops|
  {
    if ops == [] then []
    else (match ops[0] case Translate(q, _) => [WalkRegion(cfg, mem, q.va, FRESH_REGION)] case _ => [])
         + WalkRegions(ConfigAfter(cfg, ops[0]), MemoryAfter(mem, ops[0]), ops[1..])
  }

  /** The same for a caller that passes one region along from call to call. */
  function CarriedRegions(w: World, ops: seq<Op>, before: Region): seq<Region>
    decreases |ops|
  {
    if ops == [] then []
    else match ops[0]
      case Translate(q, _) =>
        var r := RegionAfter(w.s, w.mem, q, before);
        [r] + CarriedRegions(Step(w, ops[0]), ops[1..], r)
      case _ => CarriedRegions(Step(w, ops[0]), ops[1..], before)
  }

  function CarriedWalkRegions(cfg: Config, mem: Memory, ops: seq<Op>, before: Region): seq<Region>
    decreases |ops|
  {
    if ops == [] then []
    else match ops[0]
      case Translate(q, _) =>
        var r := WalkRegion(cfg, mem, q.va, before);
        [r] + CarriedWalkRegions(ConfigAfter(cfg, ops[0]), MemoryAfter(mem, ops[0]), ops[1..], r)
      case _ => CarriedWalkRegions(ConfigAfter(cfg, ops[0]), MemoryAfter(mem, ops[0]), ops[1..], before)
  }

  /** The constructor's state; the shipped capacity is 1024. */
  function Initial(capacity: nat): State {
    State(capacity, map[], Config(0, 0, 0), NO_STATS)
  }
}
