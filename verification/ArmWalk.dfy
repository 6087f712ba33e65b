/**
 The walk of the Arm architecture with a 4 KB granule (DDI 0487, sections D8.2 and D8.3), over the same root
 table, and exactly when the emulator's walk is that walk. It settles faults, sizes and addresses; memory type,
 permissions and the constant flags are decoded as the emulator decodes them.
 */
module ArmWalk {
  import opened PageTables
  import opened WalkFacts

  function ArmRegion(d: Descriptor, size: nat): Region
    requires LeafSized(size)
  {
    var pa := OutputAddress(d);
    Region(Attrs(pa - pa % size, size, DecodeMemoryType(d.attrIndex), DecodePermissions(d.ap), false, false),
           false, d.sh != 0)
  }

  /**
   Blocks of 1 GB at level 1 and of 2 MB at level 2, none at level 0. At level 3 the table bit marks a page,
   and without it the descriptor is invalid.
   */
  function ArmLevel(mem: Memory, va: nat, base: nat, level: nat): WalkResult
    requires level <= 3
    decreases 3 - level
  {
    var d := Read(mem, Slot(va, base, level));
    if !d.valid then Fault
    else if level == 3 then if d.table then Mapped(ArmRegion(d, KB4)) else Fault
    else if d.table then ArmLevel(mem, va, OutputAddress(d), level + 1)
    else if level == 0 then Fault
    else Mapped(ArmRegion(d, if level == 1 then GB1 else MB2))
  }

  ghost predicate IsLeaf(mem: Memory, a: nat) {
    Read(mem, a).valid && !Read(mem, a).table
  }

  /** Of the words read: no leaf at level 0 or 1, and nothing valid at level 3. */
  ghost predicate Common(mem: Memory, chain: seq<nat>, level: nat)
    requires level <= 3
  {
    && (level == 0 && |chain| >= 1 ==> !IsLeaf(mem, chain[0]))
    && (level <= 1 && |chain| >= 2 - level ==> !IsLeaf(mem, chain[1 - level]))
    && (|chain| >= 4 - level ==> !Read(mem, chain[3 - level]).valid)
  }

  lemma {:induction false} LevelAgrees(mem: Memory, va: nat, base: nat, level: nat)
    requires level <= 3
    ensures WalkLevel(mem, va, base, level) == ArmLevel(mem, va, base, level)
      <==> Common(mem, Chain(mem, va, base, level), level)
    decreases 3 - level
  {
    var a := Slot(va, base, level);
    var d := Read(mem, a);
    var chain := Chain(mem, va, base, level);
    assert chain[0] == a;
    if d.valid && d.table {
      var rest := Chain(mem, va, OutputAddress(d), level + 1);
      assert chain == [a] + rest;
      if level < 3 {
        LevelAgrees(mem, va, OutputAddress(d), level + 1);
      } else {
        assert !WalkLevel(mem, va, OutputAddress(d), 4).Mapped?;
      }
    }
  }

  /**
   The emulator's walk is the architecture's exactly when it meets no leaf at level 0 or 1 and nothing valid at
   level 3. So of all successful walks only 2 MB blocks agree.
   */
  lemma AgreesExactly(mem: Memory, va: nat, base: nat)
    ensures WalkLevel(mem, va, base, 0) == ArmLevel(mem, va, base, 0) <==> Common(mem, Chain(mem, va, base, 0), 0)
  {
    LevelAgrees(mem, va, base, 0);
  }

  function TableTo(frame: FrameNumber): Descriptor {
    ZERO.(valid := true, table := true, outputAddr := frame)
  }

  /** Three tables and, at level 3, a page descriptor with both low bits set. */
  function OnePage(va: nat, base: nat, page: Descriptor): Memory {
    map[Slot(va, base, 0) := TableTo(1), Slot(va, 0x1000, 1) := TableTo(2),
        Slot(va, 0x2000, 2) := TableTo(3), Slot(va, 0x3000, 3) := page]
  }

  lemma OnePageReads(va: nat, base: nat, page: Descriptor)
    requires base % 0x1_0000 == 0
    ensures var mem := OnePage(va, base, page);
      && Read(mem, Slot(va, base, 0)) == TableTo(1) && Read(mem, Slot(va, 0x1000, 1)) == TableTo(2)
      && Read(mem, Slot(va, 0x2000, 2)) == TableTo(3) && Read(mem, Slot(va, 0x3000, 3)) == page
  {
    assert base == 0 || base >= 0x1_0000;
    assert forall level :: 0 <= level <= 4 ==> 0 <= Index(va, level) < 512;
  }

  /**
   An ordinary 4 KB page descriptor, bits 1:0 both set, maps its page in the architecture and never
   translates here, for any address, root table and page.
   */
  lemma StandardPageLost(va: nat, base: nat, page: Descriptor)
    requires base % 0x1_0000 == 0 && page.valid && page.table
    ensures ArmLevel(OnePage(va, base, page), va, base, 0) == Mapped(ArmRegion(page, KB4))
    ensures !WalkLevel(OnePage(va, base, page), va, base, 0).Mapped?
  {
    var mem := OnePage(va, base, page);
    OnePageReads(va, base, page);
    assert ArmLevel(mem, va, 0x3000, 3) == Mapped(ArmRegion(page, KB4));
    assert ArmLevel(mem, va, 0x2000, 2) == ArmLevel(mem, va, 0x3000, 3);
    assert ArmLevel(mem, va, 0x1000, 1) == ArmLevel(mem, va, 0x2000, 2);
    assert !WalkLevel(mem, va, OutputAddress(page), 4).Mapped?;
    assert WalkLevel(mem, va, 0x3000, 3) == WalkLevel(mem, va, OutputAddress(page), 4);
    assert WalkLevel(mem, va, 0x2000, 2) == WalkLevel(mem, va, 0x3000, 3);
    assert WalkLevel(mem, va, 0x1000, 1) == WalkLevel(mem, va, 0x2000, 2);
  }

  /** And whatever else the tables hold: a valid level-3 descriptor is read the other way round. */
  lemma PageBitInverted(mem: Memory, va: nat, base: nat)
    ensures WalkLevel(mem, va, base, 3).Mapped? <==> IsLeaf(mem, Slot(va, base, 3))
    ensures ArmLevel(mem, va, base, 3).Mapped? <==> IsTable(mem, Slot(va, base, 3))
  {
    var next := OutputAddress(Read(mem, Slot(va, base, 3)));
    assert !WalkLevel(mem, va, next, 4).Mapped?;
  }
}
