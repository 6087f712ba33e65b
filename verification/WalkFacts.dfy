/** What the page-table walk means: range selection, block linearity, footprint, definedness, mapping a page. */
module WalkFacts {
  import opened Bits
  import opened PageTables

  // --------------------------------------------------------- range selection

  lemma EdgeIsWord(tsz: nat)
    requires 1 <= tsz < 64
    ensures RangeEdge(tsz) < WORD
  {
    PowerTable();
    Pow2Strict(64 - tsz, 64);
  }

  /**
   The addresses that neither register covers are the interval between the two range edges, and there
   is one exactly when T1SZ is below T0SZ; where the ranges overlap, TTBR0 wins.
   */
  lemma RangeGap(cfg: Config)
    requires cfg.T0sz() >= 1 && cfg.T1sz() >= 1
    ensures forall a: u64 :: Select(cfg, a) == OutOfRange <==> RangeEdge(cfg.T0sz()) <= a < RangeEdge(cfg.T1sz())
    ensures (exists a: u64 :: Select(cfg, a) == OutOfRange) <==> cfg.T1sz() < cfg.T0sz()
    ensures forall a: u64 :: RangeEdge(cfg.T1sz()) <= a < RangeEdge(cfg.T0sz()) ==>
      Select(cfg, a) == From(TableBase(cfg.ttbr0))
  {
    var t0, t1 := cfg.T0sz(), cfg.T1sz();
    EdgeIsWord(t0);
    if t1 < t0 {
      Pow2Strict(64 - t0, 64 - t1);
      var gap: u64 := RangeEdge(t0);
      assert Select(cfg, gap) == OutOfRange;
    } else {
      if t0 < t1 {
        Pow2Strict(64 - t1, 64 - t0);
      }
      assert RangeEdge(t1) <= RangeEdge(t0);
    }
  }

  /** A range edge at or above `2^k` does not cut a block of `2^k` bytes. */
  lemma EdgeUncut(x: nat, y: nat, k: nat, n: nat)
    requires k <= n && x / Pow2(k) == y / Pow2(k)
    ensures x < Pow2(n) <==> y < Pow2(n)
  {
    Pow2Sum(k, n - k);
    CoarserBlock(x, y, Pow2(k), Pow2(n - k));
    BelowIsBlockZero(x, Pow2(n));
    BelowIsBlockZero(y, Pow2(n));
  }

  lemma BelowIsBlockZero(x: nat, p: nat)
    requires p > 0
    ensures x < p <==> x / p == 0
  {
    if x < p {
      DivModUnique(x, p, 0, x);
    } else {
      assert x / p >= 1 by {
        assert x == p * (x / p) + x % p;
      }
    }
  }

  /**
   No block of `2^k` bytes is divided between root tables: either the lower range ends on a block border, or
   what lies above it falls to the upper range and to the very same table.
   */
  predicate Uncut(cfg: Config, k: nat)
    requires k <= 64
  {
    cfg.T0sz() <= 64 - k || (cfg.T0sz() <= cfg.T1sz() && TableBase(cfg.ttbr0) == TableBase(cfg.ttbr1))
  }

  lemma SelectionPerBlock(cfg: Config, x: nat, y: nat, k: nat)
    requires k <= 64 && Uncut(cfg, k) && x / Pow2(k) == y / Pow2(k)
    ensures Select(cfg, x) == Select(cfg, y)
  {
    if cfg.T0sz() > 64 - k {
      OneTable(cfg, x);
      OneTable(cfg, y);
    } else if cfg.T0sz() >= 1 {
      EdgeUncut(x, y, k, 64 - cfg.T0sz());
      if cfg.T0sz() < cfg.T1sz() {
        Pow2Strict(64 - cfg.T1sz(), 64 - cfg.T0sz());
      } else if cfg.T1sz() >= 1 {
        EdgeUncut(x, y, k, 64 - cfg.T1sz());
      }
    }
  }

  lemma OneTable(cfg: Config, x: nat)
    requires 1 <= cfg.T0sz() <= cfg.T1sz() && TableBase(cfg.ttbr0) == TableBase(cfg.ttbr1)
    ensures Select(cfg, x) == From(TableBase(cfg.ttbr0))
  {
    if cfg.T0sz() < cfg.T1sz() {
      Pow2Strict(64 - cfg.T1sz(), 64 - cfg.T0sz());
    }
  }

  ghost predicate SameRoot(cfg: Config, x: nat, y: nat) {
    Select(cfg, x) == Select(cfg, y)
  }

  /** The condition is exact: otherwise the range edge itself and address 0 share a block but not a table. */
  lemma UncutExact(cfg: Config, k: nat)
    requires k <= 64
    ensures Uncut(cfg, k) <==> forall x: u64, y: u64 :: x / Pow2(k) == y / Pow2(k) ==> SameRoot(cfg, x, y)
  {
    if Uncut(cfg, k) {
      forall x: u64, y: u64 | x / Pow2(k) == y / Pow2(k)
        ensures SameRoot(cfg, x, y)
      {
        SelectionPerBlock(cfg, x, y, k);
      }
    } else {
      CutBlock(cfg, k);
      var zero: u64, edge: u64 := 0, RangeEdge(cfg.T0sz());
      assert zero / Pow2(k) == edge / Pow2(k) && !SameRoot(cfg, zero, edge);
    }
  }

  lemma CutBlock(cfg: Config, k: nat)
    requires k <= 64 && !Uncut(cfg, k)
    ensures cfg.T0sz() >= 1 && RangeEdge(cfg.T0sz()) < Pow2(k)
    ensures RangeEdge(cfg.T0sz()) < WORD && RangeEdge(cfg.T0sz()) / Pow2(k) == 0 == 0 / Pow2(k)
    ensures Select(cfg, 0).From? && Select(cfg, RangeEdge(cfg.T0sz())) != Select(cfg, 0)
  {
    var t0, t1 := cfg.T0sz(), cfg.T1sz();
    EdgeIsWord(t0);
    Pow2Strict(64 - t0, k);
    BelowIsBlockZero(RangeEdge(t0), Pow2(k));
    BelowIsBlockZero(0, Pow2(k));
    if 1 <= t1 < t0 {
      Pow2Strict(64 - t0, 64 - t1);
    }
  }

  /**
   TTBR1 covers the upper half of the address space exactly when one of the two sizes is 1, and the range that
   the architecture gives it, the topmost 2^(64-T1SZ) bytes, exactly when T1SZ is 1.
   */
  lemma UpperHalfExact(cfg: Config)
    requires cfg.T0sz() >= 1 && cfg.T1sz() >= 1
    ensures (forall a: u64 :: Picks(cfg, a) == Upper <==> a >= 0x8000_0000_0000_0000) <==>
      cfg.T0sz() == 1 || cfg.T1sz() == 1
    ensures (forall a: u64 :: Picks(cfg, a) == Upper <==> a >= WORD - RangeEdge(cfg.T1sz())) <==> cfg.T1sz() == 1
  {
    var t0, t1 := cfg.T0sz(), cfg.T1sz();
    HalfEdge(t0);
    HalfEdge(t1);
    var quarter: u64, half: u64 := 0x4000_0000_0000_0000, 0x8000_0000_0000_0000;
    assert Picks(cfg, half) == Upper;
    if t0 >= 2 && t1 >= 2 {
      assert Picks(cfg, quarter) == Upper;
    }
    if t1 >= 2 {
      assert half < WORD - RangeEdge(t1);
    }
  }

  lemma HalfEdge(tsz: nat)
    requires 1 <= tsz < 64
    ensures RangeEdge(1) == 0x8000_0000_0000_0000
    ensures tsz >= 2 ==> RangeEdge(tsz) <= 0x4000_0000_0000_0000
  {
    PowerTable();
    assert Pow2(64) == 2 * Pow2(63) && Pow2(63) == 2 * Pow2(62);
    if tsz >= 3 {
      Pow2Strict(64 - tsz, 62);
    }
  }

  // ------------------------------------------------- shape of a leaf, results

  /** A leaf-sized region, aligned to its size, below 2^48. */
  ghost predicate WellShaped(a: Attrs) {
    LeafSized(a.size) && a.base % a.size == 0 && a.base + a.size <= WINDOW
  }

  lemma LeafShape(d: Descriptor, level: nat)
    requires level <= 3
    ensures WellShaped(LeafRegion(d, level).attrs) && LeafRegion(d, level).attrs.size <= Span(level)
  {
    RoundedDown(OutputAddress(d), LeafSize(level));
  }

  lemma RoundedDown(x: nat, size: nat)
    requires LeafSized(size)
    ensures (x - x % size) % size == 0
    ensures x < WINDOW ==> x - x % size + size <= WINDOW
  {
    DivModUnique(x - x % size, size, x / size, 0);
    var blocks := if size == KB4 then 0x10_0000_0000 else if size == MB2 then 0x800_0000 else 0x4_0000;
    assert WINDOW == size * blocks && x - x % size == size * (x / size);
  }

  lemma {:induction false} LevelShape(mem: Memory, va: nat, base: nat, level: nat)
    requires level <= 4
    requires WalkLevel(mem, va, base, level).Mapped?
    ensures var a := WalkLevel(mem, va, base, level).region.attrs;
      WellShaped(a) && a.size <= Span(level)
    decreases 5 - level
  {
    var d := Read(mem, Slot(va, base, level));
    if d.table {
      if level < 4 {
        LevelShape(mem, va, OutputAddress(d), level + 1);
      }
    } else {
      LeafShape(d, level);
    }
  }

  /** No walk reports a contiguous region. */
  lemma {:induction false} NeverContiguous(mem: Memory, va: nat, base: nat, level: nat)
    requires WalkLevel(mem, va, base, level).Mapped?
    ensures !WalkLevel(mem, va, base, level).region.contiguous
    decreases if level <= 4 then 5 - level else 0
  {
    var d := Read(mem, Slot(va, base, level));
    if d.table {
      NeverContiguous(mem, va, OutputAddress(d), level + 1);
    }
  }

  /** Every successful walk yields an aligned region below 2^48, and adding the offset cannot wrap. */
  lemma ResultArithmetic(cfg: Config, mem: Memory, va: nat)
    requires Walk(cfg, mem, va).Mapped?
    ensures var a := Walk(cfg, mem, va).region.attrs;
      var pa := PhysicalAddress(a, va);
      WellShaped(a) && a.base <= pa < a.base + a.size && pa % a.size == va % a.size
  {
    LevelShape(mem, va, Select(cfg, va).base, 0);
    ShapedAddress(Walk(cfg, mem, va).region.attrs, va);
  }

  lemma ShapedAddress(a: Attrs, va: nat)
    requires WellShaped(a)
    ensures var pa := PhysicalAddress(a, va);
      a.base <= pa < a.base + a.size <= WINDOW && pa % a.size == va % a.size
  {
    var pa := PhysicalAddress(a, va);
    assert pa == (a.base / a.size) * a.size + va % a.size;
    DivModUnique(pa, a.size, a.base / a.size, va % a.size);
  }

  // --------------------------------------------------------- block linearity

  /** Same block of `size` bytes within the 48-bit window the indices look at. */
  ghost predicate SameBlock(x: nat, y: nat, size: nat)
    requires size > 0
  {
    (x % WINDOW) / size == (y % WINDOW) / size
  }

  lemma WindowIndex(x: nat, span: nat, rest: nat)
    requires span > 0 && rest > 0 && span * (512 * rest) == WINDOW
    ensures (x / span) % 512 == ((x % WINDOW) / span) % 512
  {
    WindowDiv(x, span, 512 * rest);
    WindowDiv(x / span, 512, rest);
  }

  lemma SpanIndex(x: nat, level: nat)
    requires level <= 4
    ensures Index(x, level) == ((x % WINDOW) / Span(level)) % 512
  {
    match level
    case 0 => WindowIndex(x, Span(0), 1);
    case 1 => WindowIndex(x, Span(1), 0x200);
    case 2 => WindowIndex(x, Span(2), 0x4_0000);
    case 3 => WindowIndex(x, Span(3), 0x800_0000);
    case 4 => WindowIndex(x, Span(4), 0x10_0000_0000);
  }

  lemma SpanMultiple(size: nat, level: nat)
    requires level <= 3 && LeafSized(size) && size <= Span(level)
    ensures Span(level) / size > 0 && size * (Span(level) / size) == Span(level)
  {
    match level
    case 0 =>
    case 1 =>
    case 2 =>
    case 3 =>
  }

  /** Addresses of one block have equal indices at every level whose slots span at least the block. */
  lemma IndexPerBlock(x: nat, y: nat, size: nat, level: nat)
    requires level <= 3 && LeafSized(size) && size <= Span(level) && SameBlock(x, y, size)
    ensures Index(x, level) == Index(y, level)
  {
    SpanIndex(x, level);
    SpanIndex(y, level);
    SpanMultiple(size, level);
    CoarserBlock(x % WINDOW, y % WINDOW, size, Span(level) / size);
  }

  lemma {:induction false} LevelLinear(mem: Memory, x: nat, y: nat, base: nat, level: nat)
    requires level <= 3
    requires WalkLevel(mem, x, base, level).Mapped?
    requires WalkLevel(mem, x, base, level).region.attrs.size > 0
    requires SameBlock(x, y, WalkLevel(mem, x, base, level).region.attrs.size)
    ensures WalkLevel(mem, y, base, level) == WalkLevel(mem, x, base, level)
    decreases 5 - level
  {
    LevelShape(mem, x, base, level);
    IndexPerBlock(x, y, WalkLevel(mem, x, base, level).region.attrs.size, level);
    var d := Read(mem, Slot(x, base, level));
    if d.table && level < 3 {
      LevelLinear(mem, x, y, OutputAddress(d), level + 1);
    }
  }

  lemma FullBlockIsSameBlock(x: nat, y: nat, size: nat)
    requires LeafSized(size) && x / size == y / size
    ensures SameBlock(x, y, size)
  {
    assert size * (WINDOW / size) == WINDOW;
    WindowDiv(x, size, WINDOW / size);
    WindowDiv(y, size, WINDOW / size);
  }

  /** A walk that ends in a block answers for every address that shares the root table and the block. */
  lemma WalkPerBlock(cfg: Config, mem: Memory, x: nat, y: nat)
    requires Walk(cfg, mem, x).Mapped? && Select(cfg, x) == Select(cfg, y)
    requires var s := Walk(cfg, mem, x).region.attrs.size;
      s > 0 && SameBlock(x, y, s)
    ensures Walk(cfg, mem, y) == Walk(cfg, mem, x)
  {
    LevelLinear(mem, x, y, Select(cfg, x).base, 0);
  }

  /** Block linearity: one region, and physical distance equals virtual distance. */
  lemma BlockLinearity(cfg: Config, mem: Memory, x: nat, y: nat)
    requires Walk(cfg, mem, x).Mapped? && Select(cfg, x) == Select(cfg, y)
    requires var s := Walk(cfg, mem, x).region.attrs.size;
      s > 0 && x / s == y / s
    ensures Walk(cfg, mem, y) == Walk(cfg, mem, x)
    ensures var a := Walk(cfg, mem, x).region.attrs;
      PhysicalAddress(a, y) - PhysicalAddress(a, x) == y - x
  {
    ResultArithmetic(cfg, mem, x);
    var s := Walk(cfg, mem, x).region.attrs.size;
    FullBlockIsSameBlock(x, y, s);
    WalkPerBlock(cfg, mem, x, y);
    assert x == s * (x / s) + x % s && y == s * (y / s) + y % s;
  }

  /** Blocks of a page refine into larger blocks. */
  lemma SamePageSameBlock(x: nat, y: nat, size: nat)
    requires LeafSized(size) && SameBlock(x, y, KB4)
    ensures SameBlock(x, y, size)
  {
    assert KB4 * (size / KB4) == size;
    CoarserBlock(x % WINDOW, y % WINDOW, KB4, size / KB4);
  }

  /** Addresses of one page that select the same table translate alike, once one of them translates. */
  lemma WalkPerPage(cfg: Config, mem: Memory, x: nat, y: nat)
    requires Walk(cfg, mem, x).Mapped? && Select(cfg, x) == Select(cfg, y) && SameBlock(x, y, KB4)
    ensures Walk(cfg, mem, y) == Walk(cfg, mem, x)
  {
    ResultArithmetic(cfg, mem, x);
    SamePageSameBlock(x, y, Walk(cfg, mem, x).region.attrs.size);
    WalkPerBlock(cfg, mem, x, y);
  }

  // --------------------------------------------------------------- footprint

  /** The addresses the walk reads, in order. */
  function Chain(mem: Memory, va: nat, base: nat, level: nat): seq<nat>
    decreases if level <= 4 then 5 - level else 0
  {
    if level > 4 then []
    else
      var a := Slot(va, base, level);
      var d := Read(mem, a);
      [a] + if d.valid && d.table then Chain(mem, va, OutputAddress(d), level + 1) else []
  }

  function Footprint(cfg: Config, mem: Memory, va: nat): seq<nat> {
    match Select(cfg, va)
    case From(base) => Chain(mem, va, base, 0)
    case _ => []
  }

  lemma {:induction false} LevelFootprint(mem: Memory, mem': Memory, va: nat, base: nat, level: nat)
    requires forall a <- Chain(mem, va, base, level) :: Read(mem', a) == Read(mem, a)
    ensures WalkLevel(mem', va, base, level) == WalkLevel(mem, va, base, level)
    ensures Chain(mem', va, base, level) == Chain(mem, va, base, level)
    decreases if level <= 4 then 5 - level else 0
  {
    if level <= 4 {
      var a := Slot(va, base, level);
      assert Chain(mem, va, base, level)[0] == a;
      var d := Read(mem, a);
      if d.valid && d.table {
        assert Chain(mem, va, base, level)[1..] == Chain(mem, va, OutputAddress(d), level + 1);
        LevelFootprint(mem, mem', va, OutputAddress(d), level + 1);
      }
    }
  }

  /** Clearing any word the walk reads turns it into a fault. */
  lemma {:induction false} LevelUnmap(mem: Memory, va: nat, base: nat, level: nat, hit: nat)
    requires hit in Chain(mem, va, base, level)
    ensures WalkLevel(Write(mem, hit, ZERO), va, base, level) == Fault
    decreases if level <= 4 then 5 - level else 0
  {
    var a := Slot(va, base, level);
    if a != hit {
      LevelUnmap(mem, va, OutputAddress(Read(mem, a)), level + 1, hit);
    }
  }

  /** Some word in place of any word the walk reads ends it otherwise than in a fault. */
  lemma {:induction false} LevelRepair(mem: Memory, va: nat, base: nat, level: nat, hit: nat) returns (d: Descriptor)
    requires hit in Chain(mem, va, base, level)
    ensures WalkLevel(Write(mem, hit, d), va, base, level) != Fault
    decreases if level <= 4 then 5 - level else 0
  {
    var a := Slot(va, base, level);
    if a == hit {
      d := ZERO.(valid := true, table := level == 4);
      if level == 4 {
        assert WalkLevel(Write(mem, hit, d), va, OutputAddress(d), 5) == Undefined;
      }
    } else {
      d := LevelRepair(mem, va, OutputAddress(Read(mem, a)), level + 1, hit);
    }
  }

  /** Some write to an address changes the walk, faulting or not, exactly when the walk reads that address. */
  lemma FootprintExact(cfg: Config, mem: Memory, va: nat, a: nat)
    ensures a in Footprint(cfg, mem, va) <==> exists d :: Walk(cfg, Write(mem, a, d), va) != Walk(cfg, mem, va)
  {
    if a in Footprint(cfg, mem, va) {
      var base := Select(cfg, va).base;
      LevelUnmap(mem, va, base, 0, a);
      var d := LevelRepair(mem, va, base, 0, a);
      assert Walk(cfg, Write(mem, a, ZERO), va) == Fault;
      assert Walk(cfg, Write(mem, a, d), va) != Fault;
    } else {
      forall d
        ensures Walk(cfg, Write(mem, a, d), va) == Walk(cfg, mem, va)
      {
        WriteElsewhere(cfg, mem, va, a, d);
      }
    }
  }

  /** A write outside the footprint leaves a translation, faulting or not, as it was. */
  lemma WriteElsewhere(cfg: Config, mem: Memory, va: nat, a: nat, d: Descriptor)
    requires a !in Footprint(cfg, mem, va)
    ensures Walk(cfg, Write(mem, a, d), va) == Walk(cfg, mem, va)
    ensures Footprint(cfg, Write(mem, a, d), va) == Footprint(cfg, mem, va)
  {
    if Select(cfg, va).From? {
      LevelFootprint(mem, Write(mem, a, d), va, Select(cfg, va).base, 0);
    }
  }

  // ------------------------------------------------------------- root tables

  /** Root tables are 64 KB apart and their slots take 4 KB. */
  lemma RootSlotsApart(cfg: Config, x: nat, cfg': Config, y: nat)
    requires Select(cfg, x).From? && Select(cfg', y).From? && Select(cfg, x) != Select(cfg', y)
    ensures Slot(x, Select(cfg, x).base, 0) != Slot(y, Select(cfg', y).base, 0)
  {
    RootAligned(cfg, x);
    RootAligned(cfg', y);
    TablesApart(Select(cfg, x).base, Select(cfg', y).base, Index(x, 0), Index(y, 0));
  }

  lemma TablesApart(b: nat, c: nat, i: nat, j: nat)
    requires b % 0x1_0000 == 0 && c % 0x1_0000 == 0 && b != c && i < 512 && j < 512
    ensures b + 8 * i != c + 8 * j
  {
  }

  lemma RootAligned(cfg: Config, x: nat)
    requires Select(cfg, x).From?
    ensures Select(cfg, x).base % 0x1_0000 == 0
  {
  }

  /** One 1 GB leaf in the root table of `x` under `cfg`, nothing in that of `y` under `cfg'`. */
  lemma OneLeafTables(cfg: Config, x: nat, cfg': Config, y: nat) returns (mem: Memory)
    requires Select(cfg, x).From? && Select(cfg', y) != Select(cfg, x)
    ensures Walk(cfg, mem, x).Mapped? && Walk(cfg, mem, x).region.attrs.size == GB1
    ensures !Walk(cfg', mem, y).Mapped?
  {
    mem := map[Slot(x, Select(cfg, x).base, 0) := ZERO.(valid := true)];
    if Select(cfg', y).From? {
      RootSlotsApart(cfg, x, cfg', y);
      assert Read(mem, Slot(y, Select(cfg', y).base, 0)) == ZERO;
    }
  }

  /** The register whose table translates `va`, ASID field included. */
  function SelectedTtbr(cfg: Config, va: nat): u64
    requires Select(cfg, va).From?
  {
    if va < RangeEdge(cfg.T0sz()) then cfg.ttbr0 else cfg.ttbr1
  }

  /** The configuration with bits 63:48 of both table registers cleared. */
  function WithoutTtbrAsids(cfg: Config): Config {
    cfg.(ttbr0 := cfg.ttbr0 % WINDOW, ttbr1 := cfg.ttbr1 % WINDOW)
  }

  lemma ClearedBase(ttbr: u64)
    ensures TableBase(ttbr % WINDOW) == TableBase(ttbr) <==> ttbr < WINDOW
  {
    WindowDiv(ttbr, 0x1_0000, 0x1_0000_0000);
    assert ttbr == ttbr / WINDOW * WINDOW + ttbr % WINDOW;
  }

  /** The ASID field of a table register is part of the root address: it is without effect exactly when it is 0. */
  lemma TtbrAsidExact(cfg: Config, va: nat)
    requires Select(cfg, va).From?
    ensures (forall mem: Memory :: Walk(WithoutTtbrAsids(cfg), mem, va) == Walk(cfg, mem, va))
      <==> SelectedTtbr(cfg, va) < WINDOW
  {
    ClearedBase(SelectedTtbr(cfg, va));
    if SelectedTtbr(cfg, va) >= WINDOW {
      var mem := OneLeafTables(cfg, va, WithoutTtbrAsids(cfg), va);
      assert Walk(WithoutTtbrAsids(cfg), mem, va) != Walk(cfg, mem, va);
    }
  }

  /** The table address the architecture names: bits 47:12 of the register. */
  function BaddrField(ttbr: u64): u64 {
    (ttbr % WINDOW) / KB4 * KB4
  }

  lemma BaddrAgrees(ttbr: u64)
    ensures TableBase(ttbr) == BaddrField(ttbr) <==> ttbr < WINDOW && ttbr % 0x1_0000 < KB4
  {
    var high, mid, low := ttbr / WINDOW, (ttbr % WINDOW) / 0x1_0000, ttbr % 0x1_0000;
    WindowDiv(ttbr, 0x1_0000, 0x1_0000_0000);
    assert TableBase(ttbr) == high * WINDOW + mid * 0x1_0000;
    WindowDiv(ttbr % WINDOW, KB4, 0x10);
    assert BaddrField(ttbr) == mid * 0x1_0000 + low / KB4 * KB4;
  }

  /** Walking from the masked register and from its address field agree exactly if only bits 47:16 and 11:0 are set. */
  lemma RootFieldExact(ttbr: u64, va: nat)
    ensures (forall mem: Memory :: WalkLevel(mem, va, BaddrField(ttbr), 0) == WalkLevel(mem, va, TableBase(ttbr), 0))
      <==> ttbr < WINDOW && ttbr % 0x1_0000 < KB4
  {
    BaddrAgrees(ttbr);
    var b, c := TableBase(ttbr), BaddrField(ttbr);
    if b != c {
      var mem: Memory := map[Slot(va, b, 0) := ZERO.(valid := true)];
      assert Read(mem, Slot(va, c, 0)) == ZERO;
      assert WalkLevel(mem, va, c, 0) != WalkLevel(mem, va, b, 0);
    }
  }

  // ------------------------------------------- the walk as a relation, definedness

  ghost predicate IsTable(mem: Memory, a: nat) {
    Read(mem, a).valid && Read(mem, a).table
  }

  /** `bases` are successive tables for `va`: each slot but the last holds a valid table descriptor for the next. */
  ghost predicate Linked(mem: Memory, va: nat, bases: seq<nat>, level: nat)
    requires level + |bases| <= 5
  {
    forall i :: 0 <= i < |bases| - 1 ==>
      && IsTable(mem, Slot(va, bases[i], level + i))
      && bases[i + 1] == OutputAddress(Read(mem, Slot(va, bases[i], level + i)))
  }

  /** What a chain of tables that stops at this slot means. */
  ghost predicate Ends(mem: Memory, va: nat, base: nat, level: nat, result: WalkResult)
    requires level <= 4
  {
    var d := Read(mem, Slot(va, base, level));
    || (result == Fault && (!d.valid || (!d.table && level == 4)))
    || (result == Undefined && d.valid && d.table && level == 4)
    || (result.Mapped? && d.valid && !d.table && level <= 3 && LeafMeans(d, level, result.region))
  }

  /** The aligned region of the level's size around the output address, with the descriptor's attributes. */
  ghost predicate LeafMeans(d: Descriptor, level: nat, r: Region)
    requires level <= 3
  {
    && r.attrs.size == LeafSize(level) && r.attrs.base % LeafSize(level) == 0
    && r.attrs.base <= OutputAddress(d) < r.attrs.base + LeafSize(level)
    && r.attrs.memType == DecodeMemoryType(d.attrIndex) && r.attrs.ap == DecodePermissions(d.ap)
    && !r.attrs.uxn && !r.attrs.pxn && !r.contiguous && (r.shareable <==> d.sh != 0)
  }

  lemma LeafMeaning(d: Descriptor, level: nat, r: Region)
    requires level <= 3
    ensures LeafMeans(d, level, r) <==> r == LeafRegion(d, level)
  {
    var pa, size := OutputAddress(d), LeafSize(level);
    RoundedDown(pa, size);
    if LeafMeans(d, level, r) {
      assert r.attrs.base == r.attrs.base / size * size;
      DivModUnique(pa, size, r.attrs.base / size, pa - r.attrs.base);
    }
  }

  ghost predicate Trace(mem: Memory, va: nat, base: nat, level: nat, bases: seq<nat>, result: WalkResult) {
    && 1 <= |bases| <= 5 - level && bases[0] == base
    && Linked(mem, va, bases, level)
    && Ends(mem, va, bases[|bases| - 1], level + |bases| - 1, result)
  }

  lemma {:induction false} HasTrace(mem: Memory, va: nat, base: nat, level: nat) returns (bases: seq<nat>)
    requires level <= 4
    ensures Trace(mem, va, base, level, bases, WalkLevel(mem, va, base, level))
    decreases 5 - level
  {
    bases := [base];
    var next := OutputAddress(Read(mem, Slot(va, base, level)));
    if IsTable(mem, Slot(va, base, level)) && level < 4 {
      var rest := HasTrace(mem, va, next, level + 1);
      bases := [base] + rest;
      forall i | 0 <= i < |bases| - 1
        ensures IsTable(mem, Slot(va, bases[i], level + i))
        ensures bases[i + 1] == OutputAddress(Read(mem, Slot(va, bases[i], level + i)))
      {
        if i > 0 {
          assert IsTable(mem, Slot(va, rest[i - 1], level + 1 + (i - 1)));
        }
      }
    } else {
      EndsHere(mem, va, base, level);
    }
  }

  lemma EndsHere(mem: Memory, va: nat, base: nat, level: nat)
    requires level <= 4 && (IsTable(mem, Slot(va, base, level)) ==> level == 4)
    ensures Ends(mem, va, base, level, WalkLevel(mem, va, base, level))
  {
    if level <= 3 {
      var d := Read(mem, Slot(va, base, level));
      LeafMeaning(d, level, LeafRegion(d, level));
    }
  }

  lemma EndDecides(mem: Memory, va: nat, base: nat, level: nat, result: WalkResult)
    requires level <= 4 && Ends(mem, va, base, level, result)
    ensures WalkLevel(mem, va, base, level) == result
  {
    if result.Mapped? {
      LeafMeaning(Read(mem, Slot(va, base, level)), level, result.region);
    } else if result == Undefined {
      assert WalkLevel(mem, va, OutputAddress(Read(mem, Slot(va, base, level))), 5) == Undefined;
    }
  }

  lemma {:induction false} TraceDecides(
      mem: Memory, va: nat, base: nat, level: nat, bases: seq<nat>, result: WalkResult)
    requires level <= 4 && Trace(mem, va, base, level, bases, result)
    ensures WalkLevel(mem, va, base, level) == result
    decreases 5 - level
  {
    if |bases| > 1 {
      assert IsTable(mem, Slot(va, bases[0], level + 0));
      var rest := bases[1..];
      forall i | 0 <= i < |rest| - 1
        ensures IsTable(mem, Slot(va, rest[i], level + 1 + i))
        ensures rest[i + 1] == OutputAddress(Read(mem, Slot(va, rest[i], level + 1 + i)))
      {
        assert IsTable(mem, Slot(va, bases[i + 1], level + (i + 1)));
      }
      TraceDecides(mem, va, rest[0], level + 1, rest, result);
    } else {
      EndDecides(mem, va, base, level, result);
    }
  }

  /** The recursion computes exactly the relation: a result is the walk's when some chain of tables ends in it. */
  lemma WalkIsTrace(mem: Memory, va: nat, base: nat, result: WalkResult)
    ensures WalkLevel(mem, va, base, 0) == result <==> exists bases: seq<nat> :: Trace(mem, va, base, 0, bases, result)
  {
    if WalkLevel(mem, va, base, 0) == result {
      var bases := HasTrace(mem, va, base, 0);
    } else if bases: seq<nat> :| Trace(mem, va, base, 0, bases, result) {
      TraceDecides(mem, va, base, 0, bases, result);
      assert false;
    }
  }

  /** Five valid table descriptors in a row, from `base` on. */
  ghost predicate FiveTables(mem: Memory, va: nat, base: nat, bases: seq<nat>) {
    |bases| == 5 && bases[0] == base && Linked(mem, va, bases, 0) && IsTable(mem, Slot(va, bases[4], 4))
  }

  /** The recursion keeps to the defined shifts unless five valid table descriptors follow each other. */
  lemma DefinedExactly(mem: Memory, va: nat, base: nat)
    ensures WalkLevel(mem, va, base, 0) == Undefined <==> exists bases: seq<nat> :: FiveTables(mem, va, base, bases)
  {
    if WalkLevel(mem, va, base, 0) == Undefined {
      var bases := HasTrace(mem, va, base, 0);
      assert FiveTables(mem, va, base, bases);
    } else if bases: seq<nat> :| FiveTables(mem, va, base, bases) {
      TraceDecides(mem, va, base, 0, bases, Undefined);
      assert false;
    }
  }

  /** At most four reads unless the level-3 descriptor is a table; then the walk never succeeds. */
  lemma ReadCount(cfg: Config, mem: Memory, va: nat)
    ensures |Footprint(cfg, mem, va)| <= 5
    ensures |Footprint(cfg, mem, va)| == 5 <==>
      |Footprint(cfg, mem, va)| >= 4 && IsTable(mem, Footprint(cfg, mem, va)[3])
    ensures |Footprint(cfg, mem, va)| == 5 ==> !Walk(cfg, mem, va).Mapped?
  {
    if Select(cfg, va).From? {
      FourSteps(mem, va, Select(cfg, va).base);
    }
  }

  lemma FourSteps(mem: Memory, va: nat, b0: nat)
    ensures var c := Chain(mem, va, b0, 0);
      && |c| <= 5
      && (|c| == 5 <==> |c| >= 4 && IsTable(mem, c[3]))
      && (|c| == 5 ==> !WalkLevel(mem, va, b0, 0).Mapped?)
  {
    var b1 := OutputAddress(Read(mem, Slot(va, b0, 0)));
    var b2 := OutputAddress(Read(mem, Slot(va, b1, 1)));
    var b3 := OutputAddress(Read(mem, Slot(va, b2, 2)));
    var b4 := OutputAddress(Read(mem, Slot(va, b3, 3)));
    assert |Chain(mem, va, b4, 4)| == 1;
    assert Chain(mem, va, b3, 3)[0] == Slot(va, b3, 3);
    assert |Chain(mem, va, b3, 3)| == 2 <==> IsTable(mem, Slot(va, b3, 3));
    assert IsTable(mem, Slot(va, b3, 3)) ==> !WalkLevel(mem, va, b3, 3).Mapped?;
    assert 1 <= |Chain(mem, va, b2, 2)| <= 3;
    assert |Chain(mem, va, b2, 2)| >= 2 ==> Chain(mem, va, b2, 2)[1] == Slot(va, b3, 3);
    assert 1 <= |Chain(mem, va, b1, 1)| <= 4;
    assert |Chain(mem, va, b1, 1)| >= 3 ==> Chain(mem, va, b1, 1)[2] == Slot(va, b3, 3);
  }

  // ---------------------------------------------------------- mapping a page

  /** Three valid tables lead to the table that holds the level-3 slot of `va`. */
  ghost predicate ReachesSlot(mem: Memory, va: nat, bases: seq<nat>, slot: nat)
  {
    && |bases| == 4
    && Linked(mem, va, bases, 0)
    && slot == Slot(va, bases[3], 3)
    && slot != Slot(va, bases[0], 0) && slot != Slot(va, bases[1], 1) && slot != Slot(va, bases[2], 2)
  }

  /** Setting an output address and reading it back gives the address exactly for pages below 2^48. */
  lemma OutputAddressRoundTrip(d: Descriptor, pa: u64)
    ensures OutputAddress(d.WithOutputAddress(pa)) == (pa % WINDOW) / KB4 * KB4
    ensures OutputAddress(d.WithOutputAddress(pa)) == pa <==> pa < WINDOW && pa % KB4 == 0
    ensures d.WithOutputAddress(pa).(outputAddr := d.outputAddr) == d
  {
    WindowDiv(pa, KB4, 0x10_0000_0000);
  }

  lemma WrittenLeaf(mem: Memory, va: nat, bases: seq<nat>, slot: nat, leaf: Descriptor)
    requires ReachesSlot(mem, va, bases, slot) && leaf.valid && !leaf.table
    ensures WalkLevel(Write(mem, slot, leaf), va, bases[0], 0) == Mapped(LeafRegion(leaf, 3))
  {
    var mem' := Write(mem, slot, leaf);
    forall i | 0 <= i < 3
      ensures IsTable(mem', Slot(va, bases[i], 0 + i))
      ensures bases[i + 1] == OutputAddress(Read(mem', Slot(va, bases[i], 0 + i)))
    {
      assert IsTable(mem, Slot(va, bases[i], 0 + i));
    }
    LeafMeaning(leaf, 3, LeafRegion(leaf, 3));
    TraceDecides(mem', va, bases[0], 0, bases, Mapped(LeafRegion(leaf, 3)));
  }

  /** A leaf given `pa` and written to the level-3 slot makes `va` translate to that page, `pa` taken modulo 2^48. */
  lemma MapPage(cfg: Config, mem: Memory, va: u64, bases: seq<nat>, slot: nat, d: Descriptor, pa: u64)
    requires |bases| == 4 && Select(cfg, va).From? && Select(cfg, va).base == bases[0]
    requires ReachesSlot(mem, va, bases, slot) && d.valid && !d.table
    ensures var w := Walk(cfg, Write(mem, slot, d.WithOutputAddress(pa)), va);
      && w.Mapped? && w.region.attrs.size == KB4
      && w.region.attrs.memType == DecodeMemoryType(d.attrIndex) && w.region.attrs.ap == DecodePermissions(d.ap)
      && PhysicalAddress(w.region.attrs, va) == (pa % WINDOW) / KB4 * KB4 + va % KB4
  {
    var leaf := d.WithOutputAddress(pa);
    WrittenLeaf(mem, va, bases, slot, leaf);
    OutputAddressRoundTrip(d, pa);
    PageAddress(leaf, va);
  }

  lemma PageAddress(leaf: Descriptor, va: nat)
    ensures PhysicalAddress(LeafRegion(leaf, 3).attrs, va) == OutputAddress(leaf) + va % KB4
  {
    DivModUnique(OutputAddress(leaf), KB4, leaf.outputAddr, 0);
  }
}
