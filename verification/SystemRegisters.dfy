/**
 The system register file: a class that updates ten fields, the history of what was stored,
 and the proof that the one behaves as the other's last write.
 */
module SystemRegisters {
  import opened Bits
  import opened Options

  /** An encoding as the emulator's accessors receive it. */
  datatype Encoding = Encoding(op0: u8, op1: u8, crn: u8, crm: u8, op2: u8)

  const SCTLR := Encoding(3, 0, 1, 0, 0)
  const TCR := Encoding(3, 0, 2, 0, 2)
  const TTBR0 := Encoding(3, 0, 2, 0, 0)
  const TTBR1 := Encoding(3, 0, 2, 0, 1)
  const ESR := Encoding(3, 0, 5, 2, 0)
  const FAR := Encoding(3, 0, 6, 0, 0)
  const ELR := Encoding(3, 0, 4, 0, 1)
  const VBAR := Encoding(3, 0, 12, 0, 0)
  const MPIDR := Encoding(3, 0, 0, 0, 5)
  const MIDR := Encoding(3, 0, 0, 0, 0)

  const WRITABLE: set<Encoding> := {SCTLR, TCR, TTBR0, TTBR1, ESR, FAR, ELR, VBAR}

  datatype InstructionType = UNKNOWN | MSR_IMM | MSR_REG | MRS_REG | ISB | DSB | DMB | WFI | WFE | HLT | BRK

  /** The decoder's result keeps its fields in 64 bits. */
  datatype SystemInstruction = SystemInstruction(
    kind: InstructionType, op0: u64, op1: u64, crn: u64, crm: u64, op2: u64, rt: u8, immediate: u64)
  {
    /** Passing the fields on truncates each of them to 8 bits. */
    function Target(): Encoding {
      Encoding(op0 % 0x100, op1 % 0x100, crn % 0x100, crm % 0x100, op2 % 0x100)
    }
  }

  datatype Registers = Registers(
    sctlr: u64, tcr: u64, ttbr0: u64, ttbr1: u64, esr: u64, far: u64, elr: u64, vbar: u64, mpidr: u64, midr: u64)

  const RESET := Registers(0x00C5_0838, 0, 0, 0, 0, 0, 0, 0, 0x8000_0000, 0x610F_0220)

  function ReadRegister(r: Registers, e: Encoding): Option<u64> {
    if e == SCTLR then Some(r.sctlr)
    else if e == TCR then Some(r.tcr)
    else if e == TTBR0 then Some(r.ttbr0)
    else if e == TTBR1 then Some(r.ttbr1)
    else if e == ESR then Some(r.esr)
    else if e == FAR then Some(r.far)
    else if e == ELR then Some(r.elr)
    else if e == VBAR then Some(r.vbar)
    else if e == MPIDR then Some(r.mpidr)
    else if e == MIDR then Some(r.midr)
    else None
  }

  /** What MRS delivers: an unknown encoding reads as 0. */
  function ReadOrZero(r: Registers, e: Encoding): u64 {
    match ReadRegister(r, e)
    case Some(v) => v
    case None => 0
  }

  /** What `e` reads after `value` is written to `target`: identification and unknown registers drop the write. */
  function Overwritten(r: Registers, target: Encoding, value: u64, e: Encoding): Option<u64> {
    if e == target && e in WRITABLE then Some(value) else ReadRegister(r, e)
  }

  // ------------------------------------------------------------------ history

  /** One call on the emulator. `source` is what the callback reads from the general register. */
  datatype Call =
    | Msr(instruction: SystemInstruction, source: u64)
    | Mrs(instruction: SystemInstruction)
    | Enter(pc: u64, esr: u64, far: u64)

  /** The value a call stores under `e`, if it stores one there. */
  function Stored(c: Call, e: Encoding): Option<u64> {
    if e !in WRITABLE then None
    else match c
      case Msr(i, source) =>
        if i.Target() != e then None
        else if i.kind == MSR_REG then Some(source)
        else if i.kind == MSR_IMM then Some(i.immediate)
        else None
      case Mrs(_) => None
      case Enter(pc, esr, far) =>
        if e == ELR then Some(pc) else if e == ESR then Some(esr) else if e == FAR then Some(far) else None
  }

  /** The last value stored under `e` in a history, or what the register held before it. */
  function LastStored(calls: seq<Call>, e: Encoding, before: Option<u64>): Option<u64> {
    if calls == [] then before
    else
      var last := Stored(calls[|calls| - 1], e);
      if last.Some? then last else LastStored(calls[..|calls| - 1], e, before)
  }

  /** What each call must make of the file, said encoding by encoding. */
  ghost predicate Becomes(r: Registers, c: Call, r': Registers) {
    forall e :: ReadRegister(r', e) == if Stored(c, e).Some? then Stored(c, e) else ReadRegister(r, e)
  }

  /** `files` are the states of the register file before, between and after the calls. */
  ghost predicate IsRun(files: seq<Registers>, calls: seq<Call>) {
    |files| == |calls| + 1 && forall i :: 0 <= i < |calls| ==> Becomes(files[i], calls[i], files[i + 1])
  }

  /** Last write wins, on every run and for every encoding. */
  lemma {:induction false} LastWriteWins(files: seq<Registers>, calls: seq<Call>, e: Encoding)
    requires IsRun(files, calls)
    ensures ReadRegister(files[|calls|], e) == LastStored(calls, e, ReadRegister(files[0], e))
  {
    if calls != [] {
      var n := |calls| - 1;
      LastWriteWins(files[..|calls|], calls[..n], e);
      assert Becomes(files[n], calls[n], files[n + 1]);
    }
  }

  lemma {:induction false} NeverStored(calls: seq<Call>, e: Encoding, before: Option<u64>)
    requires forall c <- calls :: Stored(c, e) == None
    ensures LastStored(calls, e, before) == before
  {
    if calls != [] {
      assert calls[|calls| - 1] in calls;
      NeverStored(calls[..|calls| - 1], e, before);
    }
  }

  /** The identification registers keep their reset values on every run, whatever is written to them. */
  lemma IdentificationFixed(files: seq<Registers>, calls: seq<Call>)
    requires IsRun(files, calls) && files[0] == RESET
    ensures files[|calls|].mpidr == 0x8000_0000 && files[|calls|].midr == 0x610F_0220
  {
    LastWriteWins(files, calls, MPIDR);
    LastWriteWins(files, calls, MIDR);
    NeverStored(calls, MPIDR, ReadRegister(files[0], MPIDR));
    NeverStored(calls, MIDR, ReadRegister(files[0], MIDR));
  }

  lemma {:induction false} LastStoredOfTail(first: Call, rest: seq<Call>, e: Encoding, before: Option<u64>)
    requires forall c <- rest :: Stored(c, e) == None
    requires Stored(first, e).Some?
    ensures LastStored([first] + rest, e, before) == Stored(first, e)
  {
    var all := [first] + rest;
    if rest == [] {
      assert all[..0] == [];
    } else {
      var n := |rest| - 1;
      assert all[..|all| - 1] == [first] + rest[..n];
      assert all[|all| - 1] == rest[n] && rest[n] in rest;
      LastStoredOfTail(first, rest[..n], e, before);
    }
  }

  /** The value an MSR carries, in either of its two forms. */
  function Carried(i: SystemInstruction, source: u64): Option<u64> {
    if i.kind == MSR_REG then Some(source) else if i.kind == MSR_IMM then Some(i.immediate) else None
  }

  /**
   What MRS delivers after MSR, in either form, and any calls that store nothing under the same encoding: the
   value carried exactly when the register is writable or read as that value before; without a register, 0.
   */
  lemma MrsAfterMsr(files: seq<Registers>, i: SystemInstruction, source: u64, between: seq<Call>)
    requires Carried(i, source).Some? && IsRun(files, [Msr(i, source)] + between)
    requires forall c <- between :: Stored(c, i.Target()) == None
    ensures var delivered, carried := ReadOrZero(files[|between| + 1], i.Target()), Carried(i, source).value;
      && (delivered == carried <==> i.Target() in WRITABLE || ReadOrZero(files[0], i.Target()) == carried)
      && (i.Target() !in WRITABLE + {MPIDR, MIDR} ==> delivered == 0)
  {
    var e, calls := i.Target(), [Msr(i, source)] + between;
    LastWriteWins(files, calls, e);
    if e in WRITABLE {
      LastStoredOfTail(Msr(i, source), between, e, ReadRegister(files[0], e));
    } else {
      NeverStored(calls, e, ReadRegister(files[0], e));
    }
  }

  /**
   After an exception entry and any calls, each of the three registers it records still reads as recorded if
   the calls store nothing there: the return address, the syndrome and the fault address.
   */
  lemma ExceptionBracket(files: seq<Registers>, pc: u64, esr: u64, far: u64, inside: seq<Call>)
    requires IsRun(files, [Enter(pc, esr, far)] + inside)
    ensures (forall c <- inside :: Stored(c, Encoding(3, 0, 4, 0, 1)) == None) ==> files[|inside| + 1].elr == pc
    ensures (forall c <- inside :: Stored(c, Encoding(3, 0, 5, 2, 0)) == None) ==> files[|inside| + 1].esr == esr
    ensures (forall c <- inside :: Stored(c, Encoding(3, 0, 6, 0, 0)) == None) ==> files[|inside| + 1].far == far
  {
    RecordedStays(files, pc, esr, far, inside, ELR);
    RecordedStays(files, pc, esr, far, inside, ESR);
    RecordedStays(files, pc, esr, far, inside, FAR);
  }

  lemma RecordedStays(files: seq<Registers>, pc: u64, esr: u64, far: u64, inside: seq<Call>, e: Encoding)
    requires IsRun(files, [Enter(pc, esr, far)] + inside) && Stored(Enter(pc, esr, far), e).Some?
    ensures (forall c <- inside :: Stored(c, e) == None) ==>
      ReadRegister(files[|inside| + 1], e) == Stored(Enter(pc, esr, far), e)
  {
    if forall c <- inside :: Stored(c, e) == None {
      LastWriteWins(files, [Enter(pc, esr, far)] + inside, e);
      LastStoredOfTail(Enter(pc, esr, far), inside, e, ReadRegister(files[0], e));
    }
  }

  /** Two calls commute on the file exactly when they never store different values under one encoding. */
  lemma CallsCommute(r: Registers, a: Call, b: Call, ra: Registers, rab: Registers, rb: Registers, rba: Registers)
    requires Becomes(r, a, ra) && Becomes(ra, b, rab) && Becomes(r, b, rb) && Becomes(rb, a, rba)
    ensures rab == rba <==>
      forall e :: Stored(a, e).Some? && Stored(b, e).Some? ==> Stored(a, e) == Stored(b, e)
  {
    if rab != rba {
      var e := SomeDifference(rab, rba);
      assert Stored(a, e).Some? && Stored(b, e).Some? && Stored(a, e) != Stored(b, e);
    } else if e :| Stored(a, e).Some? && Stored(b, e).Some? && Stored(a, e) != Stored(b, e) {
      assert false;
    }
  }

  /** The ten encodings tell register files apart. */
  lemma SomeDifference(a: Registers, b: Registers) returns (e: Encoding)
    requires a != b
    ensures ReadRegister(a, e) != ReadRegister(b, e)
  {
    e := if a.sctlr != b.sctlr then SCTLR else if a.tcr != b.tcr then TCR
         else if a.ttbr0 != b.ttbr0 then TTBR0 else if a.ttbr1 != b.ttbr1 then TTBR1
         else if a.esr != b.esr then ESR else if a.far != b.far then FAR
         else if a.elr != b.elr then ELR else if a.vbar != b.vbar then VBAR
         else if a.mpidr != b.mpidr then MPIDR else MIDR;
  }

  // ----------------------------------------------------- instructions by number

  /** The five fields of an instruction, each cut to a byte. */
  ghost predicate Names(i: SystemInstruction, op0: nat, op1: nat, crn: nat, crm: nat, op2: nat) {
    && i.op0 % 0x100 == op0 && i.op1 % 0x100 == op1 && i.crn % 0x100 == crn
    && i.crm % 0x100 == crm && i.op2 % 0x100 == op2
  }

  ghost predicate NamesWritable(i: SystemInstruction) {
    || Names(i, 3, 0, 1, 0, 0)
    || Names(i, 3, 0, 2, 0, 2)
    || Names(i, 3, 0, 2, 0, 0)
    || Names(i, 3, 0, 2, 0, 1)
    || Names(i, 3, 0, 5, 2, 0)
    || Names(i, 3, 0, 6, 0, 0)
    || Names(i, 3, 0, 4, 0, 1)
    || Names(i, 3, 0, 12, 0, 0)
  }

  /** What an MSR that carries `v` does to the file, field by field. */
  ghost predicate MsrWrites(i: SystemInstruction, v: u64, r: Registers, r': Registers) {
    && (Names(i, 3, 0, 1, 0, 0) ==> r' == r.(sctlr := v))
    && (Names(i, 3, 0, 2, 0, 2) ==> r' == r.(tcr := v))
    && (Names(i, 3, 0, 2, 0, 0) ==> r' == r.(ttbr0 := v))
    && (Names(i, 3, 0, 2, 0, 1) ==> r' == r.(ttbr1 := v))
    && (Names(i, 3, 0, 5, 2, 0) ==> r' == r.(esr := v))
    && (Names(i, 3, 0, 6, 0, 0) ==> r' == r.(far := v))
    && (Names(i, 3, 0, 4, 0, 1) ==> r' == r.(elr := v))
    && (Names(i, 3, 0, 12, 0, 0) ==> r' == r.(vbar := v))
    && (!NamesWritable(i) ==> r' == r)
  }

  /** What an MRS delivers, field by field. */
  ghost predicate MrsDelivers(i: SystemInstruction, r: Registers, v: u64) {
    && (Names(i, 3, 0, 1, 0, 0) ==> v == r.sctlr)
    && (Names(i, 3, 0, 2, 0, 2) ==> v == r.tcr)
    && (Names(i, 3, 0, 2, 0, 0) ==> v == r.ttbr0)
    && (Names(i, 3, 0, 2, 0, 1) ==> v == r.ttbr1)
    && (Names(i, 3, 0, 5, 2, 0) ==> v == r.esr)
    && (Names(i, 3, 0, 6, 0, 0) ==> v == r.far)
    && (Names(i, 3, 0, 4, 0, 1) ==> v == r.elr)
    && (Names(i, 3, 0, 12, 0, 0) ==> v == r.vbar)
    && (Names(i, 3, 0, 0, 0, 5) ==> v == r.mpidr)
    && (Names(i, 3, 0, 0, 0, 0) ==> v == r.midr)
    && (!NamesWritable(i) && !Names(i, 3, 0, 0, 0, 5) && !Names(i, 3, 0, 0, 0, 0) ==> v == 0)
  }

  /** The file in terms of what its ten encodings read as. */
  lemma ReadInFields(r: Registers)
    ensures ReadRegister(r, Encoding(3, 0, 1, 0, 0)) == Some(r.sctlr)
    ensures ReadRegister(r, Encoding(3, 0, 2, 0, 2)) == Some(r.tcr)
    ensures ReadRegister(r, Encoding(3, 0, 2, 0, 0)) == Some(r.ttbr0)
    ensures ReadRegister(r, Encoding(3, 0, 2, 0, 1)) == Some(r.ttbr1)
    ensures ReadRegister(r, Encoding(3, 0, 5, 2, 0)) == Some(r.esr)
    ensures ReadRegister(r, Encoding(3, 0, 6, 0, 0)) == Some(r.far)
    ensures ReadRegister(r, Encoding(3, 0, 4, 0, 1)) == Some(r.elr)
    ensures ReadRegister(r, Encoding(3, 0, 12, 0, 0)) == Some(r.vbar)
    ensures ReadRegister(r, Encoding(3, 0, 0, 0, 5)) == Some(r.mpidr)
    ensures ReadRegister(r, Encoding(3, 0, 0, 0, 0)) == Some(r.midr)
  {
  }

  /** Files that read alike everywhere are equal. */
  lemma SameReads(a: Registers, b: Registers)
    requires forall e :: ReadRegister(a, e) == ReadRegister(b, e)
    ensures a == b
  {
    ReadInFields(a);
    ReadInFields(b);
  }

  /** One encoding written: the named field takes the value, and no other changes. */
  lemma WrittenField(r: Registers, e: Encoding, v: u64, r': Registers)
    requires forall x :: ReadRegister(r', x) == Overwritten(r, e, v, x)
    ensures e == Encoding(3, 0, 1, 0, 0) ==> r' == r.(sctlr := v)
    ensures e == Encoding(3, 0, 2, 0, 2) ==> r' == r.(tcr := v)
    ensures e == Encoding(3, 0, 2, 0, 0) ==> r' == r.(ttbr0 := v)
    ensures e == Encoding(3, 0, 2, 0, 1) ==> r' == r.(ttbr1 := v)
    ensures e == Encoding(3, 0, 5, 2, 0) ==> r' == r.(esr := v)
    ensures e == Encoding(3, 0, 6, 0, 0) ==> r' == r.(far := v)
    ensures e == Encoding(3, 0, 4, 0, 1) ==> r' == r.(elr := v)
    ensures e == Encoding(3, 0, 12, 0, 0) ==> r' == r.(vbar := v)
    ensures e !in WRITABLE ==> r' == r
  {
    if e == Encoding(3, 0, 1, 0, 0) {
      SameReads(r', r.(sctlr := v));
    } else if e == Encoding(3, 0, 2, 0, 2) {
      SameReads(r', r.(tcr := v));
    } else if e == Encoding(3, 0, 2, 0, 0) {
      SameReads(r', r.(ttbr0 := v));
    } else if e == Encoding(3, 0, 2, 0, 1) {
      SameReads(r', r.(ttbr1 := v));
    } else if e == Encoding(3, 0, 5, 2, 0) {
      SameReads(r', r.(esr := v));
    } else if e == Encoding(3, 0, 6, 0, 0) {
      SameReads(r', r.(far := v));
    } else if e == Encoding(3, 0, 4, 0, 1) {
      SameReads(r', r.(elr := v));
    } else if e == Encoding(3, 0, 12, 0, 0) {
      SameReads(r', r.(vbar := v));
    } else {
      SameReads(r', r);
    }
  }

  /** An MSR, by the numbers in the instruction. */
  lemma MsrInNumbers(r: Registers, i: SystemInstruction, source: u64, r': Registers)
    requires Becomes(r, Msr(i, source), r')
    ensures i.kind == MSR_REG ==> MsrWrites(i, source, r, r')
    ensures i.kind == MSR_IMM ==> MsrWrites(i, i.immediate, r, r')
    ensures i.kind != MSR_REG && i.kind != MSR_IMM ==> r' == r
  {
    if i.kind == MSR_REG || i.kind == MSR_IMM {
      var v := if i.kind == MSR_REG then source else i.immediate;
      forall x
        ensures ReadRegister(r', x) == Overwritten(r, i.Target(), v, x)
      {
        assert Stored(Msr(i, source), x) == if x == i.Target() && x in WRITABLE then Some(v) else None;
      }
      WrittenField(r, i.Target(), v, r');
    } else {
      SameReads(r', r);
    }
  }

  /** An MRS, by the numbers in the instruction. */
  lemma MrsInNumbers(r: Registers, i: SystemInstruction)
    ensures MrsDelivers(i, r, ReadOrZero(r, i.Target()))
  {
  }

  /** An exception entry, field by field. */
  lemma EntryInFields(r: Registers, pc: u64, esr: u64, far: u64, r': Registers)
    requires Becomes(r, Enter(pc, esr, far), r')
    ensures r' == r.(elr := pc, esr := esr, far := far)
  {
    SameReads(r', r.(elr := pc, esr := esr, far := far));
  }

  // ------------------------------------------------------------------- object

  class SystemRegisterEmulator {
    var sctlr: u64
    var tcr: u64
    var ttbr0: u64
    var ttbr1: u64
    var esr: u64
    var far: u64
    var elr: u64
    var vbar: u64
    var mpidr: u64
    var midr: u64

    function Value(): Registers
      reads this
    {
      Registers(sctlr, tcr, ttbr0, ttbr1, esr, far, elr, vbar, mpidr, midr)
    }

    constructor ()
      ensures Value() == RESET
      ensures Value() == Registers(0x00C5_0838, 0, 0, 0, 0, 0, 0, 0, 0x8000_0000, 0x610F_0220)
    {
      new;
      Reset();
    }

    method Reset()
      modifies this
      ensures Value() == RESET
      ensures Value() == Registers(0x00C5_0838, 0, 0, 0, 0, 0, 0, 0, 0x8000_0000, 0x610F_0220)
    {
      sctlr, tcr, ttbr0, ttbr1 := 0x00C5_0838, 0, 0, 0;
      esr, far, elr, vbar := 0, 0, 0, 0;
      mpidr, midr := 0x8000_0000, 0x610F_0220;
    }

    method ReadSystemRegister(op0: u8, op1: u8, crn: u8, crm: u8, op2: u8) returns (v: Option<u64>)
      ensures v == ReadRegister(Value(), Encoding(op0, op1, crn, crm, op2))
    {
      if op0 == 3 && op1 == 0 && crn == 1 && crm == 0 && op2 == 0 { return Some(sctlr); }
      if op0 == 3 && op1 == 0 && crn == 2 && crm == 0 && op2 == 2 { return Some(tcr); }
      if op0 == 3 && op1 == 0 && crn == 2 && crm == 0 && op2 == 0 { return Some(ttbr0); }
      if op0 == 3 && op1 == 0 && crn == 2 && crm == 0 && op2 == 1 { return Some(ttbr1); }
      if op0 == 3 && op1 == 0 && crn == 5 && crm == 2 && op2 == 0 { return Some(esr); }
      if op0 == 3 && op1 == 0 && crn == 6 && crm == 0 && op2 == 0 { return Some(far); }
      if op0 == 3 && op1 == 0 && crn == 4 && crm == 0 && op2 == 1 { return Some(elr); }
      if op0 == 3 && op1 == 0 && crn == 12 && crm == 0 && op2 == 0 { return Some(vbar); }
      if op0 == 3 && op1 == 0 && crn == 0 && crm == 0 && op2 == 5 { return Some(mpidr); }
      if op0 == 3 && op1 == 0 && crn == 0 && crm == 0 && op2 == 0 { return Some(midr); }
      return None;
    }

    /** Always reports success; encodings that are not writable are accepted and dropped. */
    method WriteSystemRegister(op0: u8, op1: u8, crn: u8, crm: u8, op2: u8, value: u64) returns (ok: bool)
      modifies this
      ensures ok
      ensures forall e :: ReadRegister(Value(), e) ==
                          Overwritten(old(Value()), Encoding(op0, op1, crn, crm, op2), value, e)
    {
      if op0 == 3 && op1 == 0 && crn == 1 && crm == 0 && op2 == 0 { sctlr := value; return true; }
      if op0 == 3 && op1 == 0 && crn == 2 && crm == 0 && op2 == 2 { tcr := value; return true; }
      if op0 == 3 && op1 == 0 && crn == 2 && crm == 0 && op2 == 0 { ttbr0 := value; return true; }
      if op0 == 3 && op1 == 0 && crn == 2 && crm == 0 && op2 == 1 { ttbr1 := value; return true; }
      if op0 == 3 && op1 == 0 && crn == 5 && crm == 2 && op2 == 0 { esr := value; return true; }
      if op0 == 3 && op1 == 0 && crn == 6 && crm == 0 && op2 == 0 { far := value; return true; }
      if op0 == 3 && op1 == 0 && crn == 4 && crm == 0 && op2 == 1 { elr := value; return true; }
      if op0 == 3 && op1 == 0 && crn == 12 && crm == 0 && op2 == 0 { vbar := value; return true; }
      return true;
    }

    /** The array holds the general registers that the callbacks reach, indexed by a byte. */
    method EmulateMSR(i: SystemInstruction, g: array<u64>) returns (ok: bool)
      requires g.Length == 256
      modifies this
      ensures Becomes(old(Value()), Msr(i, g[i.rt]), Value())
      ensures i.kind == MSR_REG ==> MsrWrites(i, g[i.rt], old(Value()), Value())
      ensures i.kind == MSR_IMM ==> MsrWrites(i, i.immediate, old(Value()), Value())
      ensures !ok ==> Value() == old(Value())
      ensures ok <==> i.kind == MSR_REG || i.kind == MSR_IMM
    {
      var value: u64 := 0;
      if i.kind == MSR_REG {
        value := g[i.rt];
      } else if i.kind == MSR_IMM {
        value := i.immediate;
      } else {
        return false;
      }
      ok := WriteSystemRegister(i.op0 % 0x100, i.op1 % 0x100, i.crn % 0x100, i.crm % 0x100, i.op2 % 0x100, value);
      MsrInNumbers(old(Value()), i, g[i.rt], Value());
    }

    /** The file stays as it is, and every MRS reports success. */
    method EmulateMRS(i: SystemInstruction, g: array<u64>) returns (ok: bool)
      requires g.Length == 256
      modifies g
      ensures Becomes(old(Value()), Mrs(i), Value())
      ensures ok <==> i.kind == MRS_REG
      ensures g[..] == if ok then old(g[..])[i.rt := ReadOrZero(Value(), i.Target())] else old(g[..])
      ensures Value() == old(Value()) && (ok ==> MrsDelivers(i, Value(), g[i.rt]))
    {
      if i.kind != MRS_REG {
        return false;
      }
      var value := ReadSystemRegister(i.op0 % 0x100, i.op1 % 0x100, i.crn % 0x100, i.crm % 0x100, i.op2 % 0x100);
      if value.Some? {
        g[i.rt] := value.value;
        return true;
      }
      g[i.rt] := 0;
      return true;
    }

    method HandleExceptionEntry(currentPC: u64, syndrome: u64, faultAddress: u64)
      modifies this
      ensures Becomes(old(Value()), Enter(currentPC, syndrome, faultAddress), Value())
      ensures Value() == old(Value()).(elr := currentPC, esr := syndrome, far := faultAddress)
    {
      elr := currentPC;
      esr := syndrome;
      far := faultAddress;
    }

    method HandleExceptionReturn() returns (pc: u64)
      ensures Some(pc) == ReadRegister(Value(), ELR) && pc == elr
    {
      return elr;
    }
  }
}
