/**
 The walk in plain numbers: which address each level reads, what the word there means, and which register a
 virtual address starts from. The statements are about memory as a map and about numbers, and use none of the
 definitions that the walk is built from.
 */
module PlainNumbers {
  import opened Bits
  import PageTables
  import WalkFacts
  import opened Mmu

  type Memory = PageTables.Memory
  type Descriptor = PageTables.Descriptor

  // ------------------------------------------------------------- one level

  /** The region that a leaf found at a level stands for. */
  ghost predicate LeafIs(d: Descriptor, level: nat, r: PageTables.Region)
    requires level <= 3
  {
    var size := [0x4000_0000, 0x20_0000, 0x20_0000, 0x1000][level];
    && r.attrs.size == size && r.attrs.base == d.outputAddr * 4096 / size * size
    && (r.attrs.memType == PageTables.DeviceNGnRnE <==> d.attrIndex == 0)
    && (r.attrs.memType == PageTables.DeviceNGnRE <==> d.attrIndex == 1)
    && (r.attrs.memType == PageTables.NormalNC <==> d.attrIndex == 4)
    && (r.attrs.memType == PageTables.Normal <==> d.attrIndex !in {0, 1, 4})
    && (r.attrs.ap == PageTables.ReadOnly <==> d.ap in {1, 5})
    && (r.attrs.ap == PageTables.NoAccess <==> d.ap == 4)
    && (r.attrs.ap == PageTables.ReadWrite <==> d.ap !in {1, 4, 5})
    && !r.attrs.uxn && !r.attrs.pxn && !r.contiguous && (r.shareable <==> d.sh != 0)
  }

  /** The word that a level of the walk of `va` reads from the table at `base`: 8 bytes a slot, 9 bits a level. */
  ghost function WordAddress(va: nat, base: nat, level: nat): nat
    requires level <= 4
  {
    base + 8 * (va / [0x80_0000_0000, 0x4000_0000, 0x20_0000, 0x1000, 8][level] % 512)
  }

  lemma ReadsHere(va: nat, base: nat, level: nat)
    requires level <= 4
    ensures PageTables.Slot(va, base, level) == WordAddress(va, base, level)
  {
    match level
    case 0 =>
    case 1 =>
    case 2 =>
    case 3 =>
    case 4 =>
  }

  lemma LeafInNumbers(d: Descriptor, level: nat)
    requires level <= 3
    ensures LeafIs(d, level, PageTables.LeafRegion(d, level))
  {
    var pa, size := d.outputAddr * 4096, [0x4000_0000, 0x20_0000, 0x20_0000, 0x1000][level];
    assert pa == pa / size * size + pa % size;
  }

  /** A level of the walk, for every memory, address, table and level. */
  lemma OneLevel(mem: Memory, va: nat, base: nat, level: nat)
    requires level <= 4
    ensures var a := base + 8 * (va / [0x80_0000_0000, 0x4000_0000, 0x20_0000, 0x1000, 8][level] % 512);
      var walk := PageTables.WalkLevel(mem, va, base, level);
      && (a !in mem || !mem[a].valid ==> walk == PageTables.Fault)
      && (a in mem && mem[a].valid && mem[a].table ==>
            walk == PageTables.WalkLevel(mem, va, mem[a].outputAddr * 4096, level + 1))
      && (a in mem && mem[a].valid && !mem[a].table ==>
            if level == 4 then walk == PageTables.Fault else walk.Mapped? && LeafIs(mem[a], level, walk.region))
    ensures PageTables.WalkLevel(mem, va, base, 5) == PageTables.Undefined
  {
    ReadsHere(va, base, level);
    if level <= 3 {
      LeafInNumbers(PageTables.Read(mem, PageTables.Slot(va, base, level)), level);
    }
  }

  // ----------------------------------------------------------- a whole chain

  /** At this level of the walk of `va` from `base` stands a table word that names `next`. */
  ghost predicate TableWord(mem: Memory, va: nat, base: nat, level: nat, next: nat)
    requires level <= 4
  {
    var a := WordAddress(va, base, level);
    a in mem && mem[a].valid && mem[a].table && next == mem[a].outputAddr * 4096
  }

  /** Tables at `bases`, each named by the word before, and the leaf under the last one. */
  ghost predicate LeadsTo(mem: Memory, va: nat, bases: seq<nat>, level: nat, leaf: Descriptor)
    requires level + |bases| <= 4
  {
    && bases != []
    && (forall i :: 0 <= i < |bases| - 1 ==> TableWord(mem, va, bases[i], level + i, bases[i + 1]))
    && var last := WordAddress(va, bases[|bases| - 1], level + |bases| - 1);
       last in mem && mem[last] == leaf && leaf.valid && !leaf.table
  }

  /** Tables all the way to a leaf give that leaf. */
  lemma {:induction false} ChainGivesLeaf(mem: Memory, va: nat, bases: seq<nat>, level: nat, leaf: Descriptor)
    requires level + |bases| <= 4 && LeadsTo(mem, va, bases, level, leaf)
    ensures var walk := PageTables.WalkLevel(mem, va, bases[0], level);
      walk.Mapped? && LeafIs(leaf, level + |bases| - 1, walk.region)
    decreases |bases|
  {
    if |bases| == 1 {
      OneLevel(mem, va, bases[0], level);
    } else {
      assert TableWord(mem, va, bases[0], level + 0, bases[0 + 1]);
      DownOneLevel(mem, va, bases[0], level, bases[1]);
      var rest := bases[1..];
      forall i | 0 <= i < |rest| - 1
        ensures TableWord(mem, va, rest[i], level + 1 + i, rest[i + 1])
      {
        assert TableWord(mem, va, bases[i + 1], level + (i + 1), bases[(i + 1) + 1]);
      }
      ChainGivesLeaf(mem, va, rest, level + 1, leaf);
    }
  }

  lemma DownOneLevel(mem: Memory, va: nat, base: nat, level: nat, next: nat)
    requires level <= 4 && TableWord(mem, va, base, level, next)
    ensures PageTables.WalkLevel(mem, va, base, level) == PageTables.WalkLevel(mem, va, next, level + 1)
  {
    OneLevel(mem, va, base, level);
  }

  /** Address and region that the leaf gives for `va`. */
  ghost predicate TranslatesTo(answer: Answer, va: nat, pa: nat, level: nat)
    requires level <= 3
  {
    var size := [0x4000_0000, 0x20_0000, 0x20_0000, 0x1000][level];
    answer.Address? && answer.attrs.size == size && answer.pa == pa / size * size + va % size
  }

  lemma LeafAnswer(cfg: PageTables.Config, mem: Memory, va: u64, leaf: Descriptor, level: nat)
    requires level <= 3 && PageTables.Walk(cfg, mem, va).Mapped?
    requires LeafIs(leaf, level, PageTables.Walk(cfg, mem, va).region)
    ensures TranslatesTo(WalkAnswer(cfg, mem, va), va, leaf.outputAddr * 4096, level)
  {
  }

  // ---------------------------------------------------- which table to start from

  /** Addresses below 2^(64-T0SZ) walk from bits 63:16 of TTBR0, and TTBR1 does not matter. */
  lemma LowerFromTtbr0(ttbr0: u64, ttbr1: u64, other: u64, tcr: u64, mem: Memory, va: nat)
    requires 1 <= tcr % 64 && va < Pow2(64 - tcr % 64)
    ensures PageTables.Walk(PageTables.Config(ttbr0, ttbr1, tcr), mem, va)
      == PageTables.WalkLevel(mem, va, ttbr0 / 0x1_0000 * 0x1_0000, 0)
      == PageTables.Walk(PageTables.Config(ttbr0, other, tcr), mem, va)
  {
    assert ttbr0 - ttbr0 % 0x1_0000 == ttbr0 / 0x1_0000 * 0x1_0000;
  }

  /** Addresses at or above both edges walk from bits 63:16 of TTBR1, and TTBR0 does not matter. */
  lemma UpperFromTtbr1(ttbr0: u64, ttbr1: u64, other: u64, tcr: u64, mem: Memory, va: nat)
    requires 1 <= tcr % 64 && 1 <= tcr / 0x1_0000 % 64
    requires va >= Pow2(64 - tcr % 64) && va >= Pow2(64 - tcr / 0x1_0000 % 64)
    ensures PageTables.Walk(PageTables.Config(ttbr0, ttbr1, tcr), mem, va)
      == PageTables.WalkLevel(mem, va, ttbr1 / 0x1_0000 * 0x1_0000, 0)
      == PageTables.Walk(PageTables.Config(other, ttbr1, tcr), mem, va)
  {
    assert ttbr1 - ttbr1 % 0x1_0000 == ttbr1 / 0x1_0000 * 0x1_0000;
  }

  /** All other addresses read no table: a fault between the edges, and undefined where a size of 0 is shifted by. */
  lemma NoTable(ttbr0: u64, ttbr1: u64, tcr: u64, mem: Memory, va: nat)
    ensures var t0, t1 := tcr % 64, tcr / 0x1_0000 % 64;
      var walk := PageTables.Walk(PageTables.Config(ttbr0, ttbr1, tcr), mem, va);
      && (t0 == 0 ==> walk == PageTables.Undefined)
      && (1 <= t0 && va >= Pow2(64 - t0) && t1 == 0 ==> walk == PageTables.Undefined)
      && (1 <= t0 && va >= Pow2(64 - t0) && 1 <= t1 && va < Pow2(64 - t1) ==> walk == PageTables.Fault)
  {
  }

  // --------------------------------------------------------------- end to end

  /** The root table that the two registers and the two sizes give an address, if they give one. */
  ghost predicate StartsAt(cfg: PageTables.Config, va: nat, base: nat) {
    var t0, t1 := cfg.tcr % 64, cfg.tcr / 0x1_0000 % 64;
    && 1 <= t0
    && if va < Pow2(64 - t0) then base == cfg.ttbr0 / 0x1_0000 * 0x1_0000
       else 1 <= t1 && va >= Pow2(64 - t1) && base == cfg.ttbr1 / 0x1_0000 * 0x1_0000
  }

  lemma StartsWalk(cfg: PageTables.Config, mem: Memory, va: nat, base: nat)
    requires StartsAt(cfg, va, base)
    ensures PageTables.Walk(cfg, mem, va) == PageTables.WalkLevel(mem, va, base, 0)
  {
    if va < Pow2(64 - cfg.tcr % 64) {
      LowerFromTtbr0(cfg.ttbr0, cfg.ttbr1, cfg.ttbr1, cfg.tcr, mem, va);
    } else {
      UpperFromTtbr1(cfg.ttbr0, cfg.ttbr1, cfg.ttbr0, cfg.tcr, mem, va);
    }
  }

  /**
   A first translation, from register values and memory words to the physical address: whatever the state, as long
   as nothing is cached under the key, a leaf at any of the four levels answers with its frame and the offset.
   */
  lemma FirstTranslation(s: State, mem: Memory, q: Query, bases: seq<nat>, leaf: Descriptor)
    requires !Hit(s.tlb, q) && 1 <= |bases| <= 4 && StartsAt(s.cfg, q.va, bases[0])
    requires LeadsTo(mem, q.va, bases, 0, leaf)
    ensures TranslatesTo(TranslateAnswer(s, mem, q), q.va, leaf.outputAddr * 4096, |bases| - 1)
  {
    StartsWalk(s.cfg, mem, q.va, bases[0]);
    ChainGivesLeaf(mem, q.va, bases, 0, leaf);
    LeafAnswer(s.cfg, mem, q.va, leaf, |bases| - 1);
  }

  /** Tables at `bases` for `va`; `slot` is the word under the last of them and none of the words before. */
  ghost predicate Reaches(mem: Memory, va: nat, bases: seq<nat>, slot: nat)
    requires |bases| <= 4
  {
    && bases != []
    && slot == WordAddress(va, bases[|bases| - 1], |bases| - 1)
    && (forall i :: 0 <= i < |bases| - 1 ==> TableWord(mem, va, bases[i], i, bases[i + 1]))
    && (forall i :: 0 <= i < |bases| - 1 ==> WordAddress(va, bases[i], i) != slot)
  }

  /**
   A leaf given `pa` and written to the slot of any level makes `va` translate to the block of that level's size
   around `pa`, taken modulo 2^48, plus the offset.
   */
  lemma MapBlock(cfg: PageTables.Config, mem: Memory, va: u64, bases: seq<nat>, slot: nat, d: Descriptor, pa: u64)
    requires 1 <= |bases| <= 4 && StartsAt(cfg, va, bases[0]) && Reaches(mem, va, bases, slot)
    requires d.valid && !d.table
    ensures TranslatesTo(WalkAnswer(cfg, mem[slot := d.WithOutputAddress(pa)], va), va, pa % 0x1_0000_0000_0000,
                         |bases| - 1)
  {
    var leaf := d.WithOutputAddress(pa);
    var mem' := mem[slot := leaf];
    forall i | 0 <= i < |bases| - 1
      ensures TableWord(mem', va, bases[i], 0 + i, bases[i + 1])
    {
      assert TableWord(mem, va, bases[i], i, bases[i + 1]) && WordAddress(va, bases[i], i) != slot;
    }
    StartsWalk(cfg, mem', va, bases[0]);
    ChainGivesLeaf(mem', va, bases, 0, leaf);
    LeafAnswer(cfg, mem', va, leaf, |bases| - 1);
    WalkFacts.OutputAddressRoundTrip(d, pa);
    BlockOfPage(pa % 0x1_0000_0000_0000, |bases| - 1);
  }

  /** Rounding to a page first does not change the block. */
  lemma BlockOfPage(x: nat, level: nat)
    requires level <= 3
    ensures var size := [0x4000_0000, 0x20_0000, 0x20_0000, 0x1000][level];
      x / 4096 * 4096 / size * size == x / size * size
  {
    var pages := [0x4_0000, 0x200, 0x200, 1][level];
    var page := x / 4096;
    DivModUnique(page * 4096, 4096, page, 0);
    WindowDiv(x, 4096, pages);
    WindowDiv(page * 4096, 4096, pages);
  }
}
