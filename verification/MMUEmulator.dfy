/** The emulator as a mutable object, computing with masks and shifts, proved against the value model. */
module MMUEmulator {
  import opened Bits
  import PageTables
  import WalkFacts
  import opened Mmu
  import Keys
  import opened Options

  // ------------------------------------------------------------ mask lemmas

  lemma IndexBits(va: u64, level: nat)
    requires level <= 4
    ensures And(Shr(va, 39 - level * 9), 0x1FF) == PageTables.Index(va, level)
  {
    PowerTable();
    AndLow(Shr(va, 39 - level * 9), 9);
  }

  lemma BaseBits(ttbr: u64)
    ensures And(ttbr, 0xFFFF_FFFF_FFFF_0000) == PageTables.TableBase(ttbr)
  {
    PowerTable();
    AndHigh(ttbr, 16);
  }

  lemma RangeBits(tsz: nat)
    requires 1 <= tsz < 64
    ensures Shl64(1, 64 - tsz) == PageTables.RangeEdge(tsz)
  {
    PowerTable();
    Pow2Strict(64 - tsz, 64);
  }

  lemma TcrBits(tcr: u64)
    ensures And(tcr, 0x3F) == tcr % 64 && And(Shr(tcr, 16), 0x3F) == (tcr / 0x1_0000) % 64
  {
    PowerTable();
    assert Pow2(6) == 64;
    AndLow(tcr, 6);
    AndLow(Shr(tcr, 16), 6);
  }

  lemma FrameBits(frame: PageTables.FrameNumber)
    ensures Shl64(frame, 12) == frame * PageTables.KB4
  {
    PowerTable();
  }

  // -------------------------------------- the source's word expressions, named

  /** `a + b` on 64-bit words. */
  method AddWord(a: u64, b: nat) returns (r: u64)
    ensures r == (a + b) % WORD
    ensures a + b < WORD ==> r == a + b
  {
    r := (a + b) % WORD;
  }

  /** `output_addr << 12` */
  method FrameAddress(d: PageTables.Descriptor) returns (r: u64)
    ensures r == PageTables.OutputAddress(d)
    ensures r <= WORD - 0x1000
  {
    FrameBits(d.outputAddr);
    r := Shl64(d.outputAddr, 12);
  }

  /** `x & ~(size - 1)` */
  method AlignDown(x: u64, size: u64) returns (r: u64)
    requires PageTables.LeafSized(size)
    ensures r == x - x % size
  {
    Keys.SizeBits(x, size);
    r := And(x, Not64(size - 1));
  }

  /** `va & (size - 1)` */
  method OffsetIn(va: u64, size: u64) returns (r: u64)
    requires PageTables.LeafSized(size)
    ensures r == PageTables.Offset(va, size)
  {
    Keys.SizeBits(va, size);
    r := And(va, size - 1);
  }

  /** `(va & ~0xFFF) | asid << 48` */
  method TlbKey(va: u64, asid: u16) returns (key: nat)
    ensures key == Key(Query(va, asid))
  {
    Keys.KeyBitsMeaning(Query(va, asid));
    key := Keys.KeyBits(va, asid);
  }

  /** Bits 63:16 of a table base register. */
  method RootTable(ttbr: u64) returns (base: u64)
    ensures base == PageTables.TableBase(ttbr) && base <= WORD - 0x1000
  {
    BaseBits(ttbr);
    base := And(ttbr, 0xFFFF_FFFF_FFFF_0000);
  }

  // ---------------------------------------------------------------- objects

  ghost predicate Shaped(tlb: Tlb) {
    forall k :: k in tlb ==> tlb[k].valid && WalkFacts.WellShaped(tlb[k].attrs)
  }

  lemma ShapedStore(m: Tlb, k: nat, e: TLBEntry)
    requires Shaped(m) && e.valid && WalkFacts.WellShaped(e.attrs)
    ensures Shaped(m[k := e]) && |m[k := e]| <= |m| + 1
  {
    assert m[k := e].Keys == m.Keys + {k};
    assert |m[k := e].Keys| == |m[k := e]| && |m.Keys| == |m|;
  }

  lemma ShapedErase(m: Tlb, k: nat)
    requires Shaped(m) && k in m
    ensures Shaped(m - {k}) && |m - {k}| == |m| - 1
  {
    assert (m - {k}).Keys == m.Keys - {k};
    assert |(m - {k}).Keys| == |m - {k}| && |m.Keys| == |m|;
  }

  /** The caller's out-parameter. */
  class MemoryRegion {
    var baseAddress: u64
    var size: u64
    var memType: PageTables.MemoryType
    var ap: PageTables.AccessPermission
    var uxn: bool
    var pxn: bool
    var contiguous: bool
    var shareable: bool

    function View(): PageTables.Region
      reads this
    {
      PageTables.Region(PageTables.Attrs(baseAddress, size, memType, ap, uxn, pxn), contiguous, shareable)
    }

    constructor ()
      ensures View() == FRESH_REGION
      ensures baseAddress == size == 0 && memType == PageTables.Normal && ap == PageTables.ReadWrite
      ensures !uxn && !pxn && !contiguous && !shareable
    {
      baseAddress, size, memType, ap := 0, 0, PageTables.Normal, PageTables.ReadWrite;
      uxn, pxn, contiguous, shareable := false, false, false, false;
    }
  }

  /** A descriptor under construction. */
  class PageTableDescriptor {
    var fields: PageTables.Descriptor

    constructor ()
      ensures fields == PageTables.ZERO
    {
      fields := PageTables.ZERO;
    }

    method SetOutputAddress(pa: u64)
      modifies this
      ensures fields == old(fields).WithOutputAddress(pa)
      ensures fields == old(fields).(outputAddr := pa / 4096 % 0x10_0000_0000)
    {
      PowerTable();
      AndLow(Shr(pa, 12), 36);
      fields := fields.(outputAddr := And(Shr(pa, 12), 0xF_FFFF_FFFF));
    }

    function GetOutputAddress(): (pa: u64)
      reads this
      ensures pa == PageTables.OutputAddress(fields)
    {
      FrameBits(fields.outputAddr);
      Shl64(fields.outputAddr, 12)
    }
  }

  class MMUEmulator {
    const capacity: nat
    var tlb: Tlb
    var ttbr0: u64
    var ttbr1: u64
    var tcr: u64
    var stats: Stats

    function Value(): State
      reads this
    {
      State(capacity, tlb, Cfg(), stats)
    }

    function Cfg(): PageTables.Config
      reads this
    {
      PageTables.Config(ttbr0, ttbr1, tcr)
    }

    ghost predicate Valid()
      reads this
    {
      1 <= capacity && |tlb| <= capacity && Shaped(tlb)
    }

    constructor (capacity: nat)
      requires capacity >= 1
      ensures Valid() && Value() == Initial(capacity) && this.capacity == capacity
      ensures tlb == map[] && ttbr0 == ttbr1 == tcr == 0 && stats == Stats(0, 0, 0, 0)
    {
      this.capacity := capacity;
      tlb, ttbr0, ttbr1, tcr, stats := map[], 0, 0, 0, NO_STATS;
    }

    // -------------------------------------------------------- control registers

    method SetTtbr0(value: u64)
      requires Valid()
      modifies this`ttbr0, this`tlb
      ensures Valid() && ttbr0 == value && tlb == map[]
      ensures Value() == StateAfter(old(Value()), map[], Op.SetTtbr0(value))
    {
      ttbr0 := value;
      TlbInvalidateAll();
    }

    method SetTtbr1(value: u64)
      requires Valid()
      modifies this`ttbr1, this`tlb
      ensures Valid() && ttbr1 == value && tlb == map[]
      ensures Value() == StateAfter(old(Value()), map[], Op.SetTtbr1(value))
    {
      ttbr1 := value;
      TlbInvalidateAll();
    }

    method SetTcr(value: u64)
      requires Valid()
      modifies this`tcr, this`tlb
      ensures Valid() && tcr == value && tlb == map[]
      ensures Value() == StateAfter(old(Value()), map[], Op.SetTcr(value))
    {
      tcr := value;
      TlbInvalidateAll();
    }

    function GetT0sz(): (t: u8)
      reads this
      ensures t == Cfg().T0sz()
    {
      TcrBits(tcr);
      And(tcr, 0x3F)
    }

    function GetT1sz(): (t: u8)
      reads this
      ensures t == Cfg().T1sz()
    {
      TcrBits(tcr);
      And(Shr(tcr, 16), 0x3F)
    }

    predicate VaInTtbr0(va: u64)
      requires GetT0sz() >= 1
      reads this
      ensures VaInTtbr0(va) <==> va < PageTables.RangeEdge(Cfg().T0sz())
    {
      RangeBits(GetT0sz());
      va < Shl64(1, 64 - GetT0sz())
    }

    predicate VaInTtbr1(va: u64)
      requires GetT1sz() >= 1
      reads this
      ensures VaInTtbr1(va) <==> va >= PageTables.RangeEdge(Cfg().T1sz())
    {
      RangeBits(GetT1sz());
      va >= Shl64(1, 64 - GetT1sz())
    }

    // ------------------------------------------------------------- translation

    method Translate(mem: PageTables.Memory, va: u64, asid: u16) returns (result: Option<u64>, ghost victim: nat)
      requires Valid()
      requires TranslateAnswer(Value(), mem, Query(va, asid)) != Crash
      modifies this`tlb, this`stats
      ensures Valid() && LegalVictim(old(Value()), victim)
      ensures Value() == StateAfter(old(Value()), mem, Op.Translate(Query(va, asid), victim))
      ensures var answer := TranslateAnswer(old(Value()), mem, Query(va, asid));
        result == if answer.Address? then Some(answer.pa) else None
    {
      var region := new MemoryRegion();
      result, victim := TranslateWithAttributes(mem, va, region, asid);
    }

    /**
     The precondition asks only for defined behaviour: a hit, or a walk without a bad shift.
     On a hit two of the caller's fields keep what they held before.
     */
    method TranslateWithAttributes(mem: PageTables.Memory, va: u64, region: MemoryRegion, asid: u16)
      returns (result: Option<u64>, ghost victim: nat)
      requires Valid()
      requires TranslateAnswer(Value(), mem, Query(va, asid)) != Crash
      modifies this`tlb, this`stats, region
      ensures Valid() && LegalVictim(old(Value()), victim)
      ensures Value() == StateAfter(old(Value()), mem, Op.Translate(Query(va, asid), victim))
      ensures var answer := TranslateAnswer(old(Value()), mem, Query(va, asid));
        && result == (if answer.Address? then Some(answer.pa) else None)
        && (answer.Address? ==> region.View().attrs == answer.attrs)
      ensures region.View() == RegionAfter(old(Value()), mem, Query(va, asid), old(region.View()))
      ensures result == None ==> region.View() == old(region.View()) && tlb == old(tlb)
    {
      victim := SomeVictim(Value());
      var key := TlbKey(va, asid);
      if key in tlb && tlb[key].valid {
        stats := stats.(hits := Inc64(stats.hits));
        var address := AnswerFrom(tlb[key], va, region);
        return Some(address), victim;
      }
      stats := stats.(misses := Inc64(stats.misses));
      result := WalkPageTables(mem, va, region);
      if result.Some? {
        WalkFacts.ResultArithmetic(Cfg(), mem, va);
        victim := Store(key, va, region, asid);
      }
    }

    /** The hit of `translate_with_attributes`. */
    method AnswerFrom(entry: TLBEntry, va: u64, region: MemoryRegion) returns (address: u64)
      requires WalkFacts.WellShaped(entry.attrs)
      modifies region
      ensures region.View() == PageTables.Region(entry.attrs, old(region.contiguous), old(region.shareable))
      ensures address == PageTables.PhysicalAddress(entry.attrs, va)
    {
      region.baseAddress := entry.attrs.base;
      region.size := entry.attrs.size;
      region.memType := entry.attrs.memType;
      region.ap := entry.attrs.ap;
      region.uxn := entry.attrs.uxn;
      region.pxn := entry.attrs.pxn;
      WalkFacts.ShapedAddress(entry.attrs, va);
      var offset := OffsetIn(va, entry.attrs.size);
      address := AddWord(entry.attrs.base, offset);
    }

    static lemma SomeVictim(s: State) returns (victim: nat)
      requires s.capacity >= 1
      ensures LegalVictim(s, victim)
    {
      victim := 0;
      if |s.tlb| >= s.capacity {
        assert |s.tlb.Keys| >= 1;
        victim :| victim in s.tlb;
      }
    }

    /** The fill of `translate_with_attributes`: build the entry, evict if full, insert. */
    method Store(key: nat, va: u64, region: MemoryRegion, asid: u16) returns (ghost victim: nat)
      requires Valid() && key !in tlb && WalkFacts.WellShaped(region.View().attrs)
      modifies this`tlb
      ensures Valid() && LegalVictim(old(Value()), victim)
      ensures tlb == Evict(old(Value()), victim)[key := EntryFor(Query(va, asid), region.View().attrs)]
    {
      victim := 0;
      var entry := NewEntry(va, region, asid);
      var kept := tlb;
      if |kept| >= capacity {
        var first := AnyKey(kept);
        victim := first;
        ShapedErase(kept, first);
        kept := kept - {first};
      }
      ShapedStore(kept, key, entry);
      tlb := kept[key := entry];
    }

    method NewEntry(va: u64, region: MemoryRegion, asid: u16) returns (entry: TLBEntry)
      requires WalkFacts.WellShaped(region.View().attrs)
      ensures entry == EntryFor(Query(va, asid), region.View().attrs)
    {
      var virtualAddress := AlignDown(va, region.size);
      var physicalAddress := AlignDown(region.baseAddress, region.size);
      entry := TLBEntry(
        virtualAddress,
        PageTables.Attrs(physicalAddress, region.size, region.memType, region.ap, region.uxn, region.pxn),
        asid, true);
    }

    /** `begin()` of a non-empty unordered map: some key, whichever. */
    static method AnyKey(m: Tlb) returns (k: nat)
      requires |m| >= 1
      ensures k in m
    {
      assert |m.Keys| >= 1;
      k :| k in m;
    }

    method WalkPageTables(mem: PageTables.Memory, va: u64, region: MemoryRegion) returns (result: Option<u64>)
      requires PageTables.Walk(Cfg(), mem, va) != PageTables.Undefined
      modifies this`stats, region
      ensures var walk := PageTables.Walk(Cfg(), mem, va);
        && result == (if walk.Mapped? then Some(PageTables.PhysicalAddress(walk.region.attrs, va)) else None)
        && region.View() == (if walk.Mapped? then walk.region else old(region.View()))
        && stats == old(stats).(walks := Inc64(old(stats).walks),
                                faults := if walk.Fault? then Inc64(old(stats).faults) else old(stats).faults)
    {
      stats := stats.(walks := Inc64(stats.walks));
      var tableBase: u64;
      if VaInTtbr0(va) {
        tableBase := RootTable(ttbr0);
      } else if VaInTtbr1(va) {
        tableBase := RootTable(ttbr1);
      } else {
        stats := stats.(faults := Inc64(stats.faults));
        return None;
      }
      result := WalkLevel(mem, va, tableBase, 0, region);
    }

    /** No address wraps: a table ends below 2^64. */
    method WalkLevel(mem: PageTables.Memory, va: u64, tableBase: u64, level: nat, region: MemoryRegion)
      returns (result: Option<u64>)
      requires level <= 4 && tableBase <= WORD - 0x1000
      requires PageTables.WalkLevel(mem, va, tableBase, level) != PageTables.Undefined
      modifies this`stats, region
      ensures var walk := PageTables.WalkLevel(mem, va, tableBase, level);
        && result == (if walk.Mapped? then Some(PageTables.PhysicalAddress(walk.region.attrs, va)) else None)
        && region.View() == (if walk.Mapped? then walk.region else old(region.View()))
        && stats == (if walk.Fault? then old(stats).(faults := Inc64(old(stats).faults)) else old(stats))
      decreases 5 - level
    {
      var shift := 39 - level * 9;
      var index := And(Shr(va, shift), 0x1FF);
      IndexBits(va, level);
      var address := AddWord(tableBase, index * 8);
      assert address == PageTables.Slot(va, tableBase, level);
      var desc := PageTables.Read(mem, address);
      if !desc.valid {
        stats := stats.(faults := Inc64(stats.faults));
        return None;
      }
      if desc.table {
        var nextTable := FrameAddress(desc);
        result := WalkLevel(mem, va, nextTable, level + 1, region);
        return;
      }
      result := FinishWalk(va, desc, level, region);
    }

    /** The second half of `walk_level`: a block or page descriptor, or a leaf where none may be. */
    method FinishWalk(va: u64, desc: PageTables.Descriptor, level: nat, region: MemoryRegion)
      returns (result: Option<u64>)
      requires level <= 4
      modifies this`stats, region
      ensures level <= 3 ==>
        && region.View() == PageTables.LeafRegion(desc, level)
        && result == Some(PageTables.PhysicalAddress(region.View().attrs, va))
        && stats == old(stats)
      ensures level == 4 ==>
        && result == None && region.View() == old(region.View())
        && stats == old(stats).(faults := Inc64(old(stats).faults))
    {
      var outputAddr := FrameAddress(desc);
      match level {
        case 0 => region.size := 1024 * 1024 * 1024;
        case 1 => region.size := 2 * 1024 * 1024;
        case 2 => region.size := 2 * 1024 * 1024;
        case 3 => region.size := 4096;
        case _ =>
          stats := stats.(faults := Inc64(stats.faults));
          return None;
      }
      outputAddr := AlignDown(outputAddr, region.size);
      region.baseAddress := outputAddr;
      region.memType := PageTables.DecodeMemoryType(desc.attrIndex);
      region.ap := PageTables.DecodePermissions(desc.ap);
      region.uxn := false;
      region.pxn := false;
      region.contiguous := false;
      region.shareable := desc.sh != 0;
      assert region.View() == PageTables.LeafRegion(desc, level);
      WalkFacts.LeafShape(desc, level);
      WalkFacts.ShapedAddress(region.View().attrs, va);
      var offset := OffsetIn(va, region.size);
      var address := AddWord(outputAddr, offset);
      return Some(address);
    }

    // ------------------------------------------------------------ invalidation

    method TlbInvalidateVa(va: u64, asid: u16)
      requires Valid()
      modifies this`tlb
      ensures Valid() && Value() == StateAfter(old(Value()), map[], Op.InvalidateVa(Query(va, asid)))
    {
      var key := TlbKey(va, asid);
      ShrinkTo(tlb, tlb - {key});
      tlb := tlb - {key};
    }

    static lemma ShrinkTo(before: Tlb, after: Tlb)
      requires after.Keys <= before.Keys
      ensures |after| <= |before|
    {
      assert before.Keys == after.Keys + (before.Keys - after.Keys);
      assert |after.Keys| == |after| && |before.Keys| == |before|;
    }

    /** Visits the entries in any order and erases on the way. */
    method TlbInvalidateAsid(asid: u16)
      requires Valid()
      modifies this`tlb
      ensures Valid() && Value() == StateAfter(old(Value()), map[], Op.InvalidateAsid(asid))
    {
      var todo := tlb.Keys;
      while todo != {}
        invariant todo <= tlb.Keys <= old(tlb).Keys
        invariant forall k :: k in tlb ==> tlb[k] == old(tlb)[k]
        invariant forall k :: k in old(tlb) && k !in todo ==>
          (k in tlb <==> !(old(tlb)[k].valid && (old(tlb)[k].asid == asid || asid == 0xFFFF)))
        decreases todo
      {
        var it :| it in todo;
        if (tlb[it].asid == asid || asid == 0xFFFF) && tlb[it].valid {
          tlb := tlb - {it};
        }
        todo := todo - {it};
      }
      assert tlb == WithoutAsid(old(tlb), asid);
      ShrinkTo(old(tlb), tlb);
    }

    method TlbInvalidateAll()
      requires 1 <= capacity
      modifies this`tlb
      ensures Valid() && tlb == map[]
    {
      tlb := map[];
    }

    // -------------------------------------------------------------- statistics

    method ResetStats()
      requires Valid()
      modifies this`stats
      ensures Valid() && Value() == StateAfter(old(Value()), map[], Op.ResetStats) && stats == Stats(0, 0, 0, 0)
    {
      stats := NO_STATS;
    }
  }
}
