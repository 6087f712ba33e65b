/** A guest at work on one emulator object: a sequence of calls is answered as by a machine without a TLB. */
module Sessions {
  import opened Bits
  import PageTables
  import S = SystemRegisters
  import opened Mmu
  import opened Coherence
  import opened MMUEmulator

  /** The same call; only the choice of victim, which is the object's, may differ. */
  ghost predicate SameCall(op: Op, done: Op) {
    if op.Translate? then done.Translate? && done.q == op.q else done == op
  }

  function Said(w: World, op: Op): seq<Answer> {
    if op.Translate? then [TranslateAnswer(w.s, w.mem, op.q)] else []
  }

  /** One call on the object, or one write to the guest's page tables. */
  method Perform(e: MMUEmulator, region: MemoryRegion, mem: PageTables.Memory, op: Op)
    returns (said: seq<Answer>, mem': PageTables.Memory, ghost done: Op)
    requires e.Valid()
    requires op.Translate? ==> TranslateAnswer(e.Value(), mem, op.q) != Crash
    modifies e, region
    ensures e.Valid() && SameCall(op, done)
    ensures World(e.Value(), mem') == Step(World(old(e.Value()), mem), done)
    ensures said == Said(World(old(e.Value()), mem), op)
  {
    said, mem', done := [], mem, op;
    match op {
      case Translate(q, _) =>
        var result, victim := e.TranslateWithAttributes(mem, q.va, region, q.asid);
        done := Translate(q, victim);
        said := if result.Some? then [Address(result.value, region.View().attrs)] else [NoAddress];
      case SetTtbr0(v) => e.SetTtbr0(v);
      case SetTtbr1(v) => e.SetTtbr1(v);
      case SetTcr(v) => e.SetTcr(v);
      case InvalidateVa(q) => e.TlbInvalidateVa(q.va, q.asid);
      case InvalidateAsid(asid) => e.TlbInvalidateAsid(asid);
      case InvalidateAll => e.TlbInvalidateAll();
      case ResetStats => e.ResetStats();
      case WriteDescriptor(a, d) => mem' := PageTables.Write(mem, a, d);
    }
  }

  /** A coherent object with disciplined, defined calls still to come. */
  ghost predicate InSession(w: World, m: Monitor, rest: seq<Op>) {
    && Coherent(w, m) && Disciplined(m, w.s.cfg, w.mem, rest)
    && Crash !in WalkAnswers(w.s.cfg, w.mem, rest)
  }

  /** The next call is defined. */
  lemma NextIsDefined(w: World, m: Monitor, rest: seq<Op>)
    requires rest != [] && InSession(w, m, rest)
    ensures rest[0].Translate? ==> TranslateAnswer(w.s, w.mem, rest[0].q) != Crash
  {
    if rest[0].Translate? {
      TrustedAnswer(w, m, rest[0].q);
      assert WalkAnswers(w.s.cfg, w.mem, rest)[0] != Crash;
    }
  }

  /** One call says what is due, and the session goes on. */
  lemma OneCall(w: World, m: Monitor, rest: seq<Op>, done: Op)
    requires rest != [] && SameCall(rest[0], done) && InSession(w, m, rest)
    ensures InSession(Step(w, done), MonitorAfter(m, w.s.cfg, w.mem, done), rest[1..])
    ensures WalkAnswers(w.s.cfg, w.mem, rest)
      == Said(w, rest[0]) + WalkAnswers(Step(w, done).s.cfg, Step(w, done).mem, rest[1..])
  {
    if rest[0].Translate? {
      TrustedAnswer(w, m, rest[0].q);
    }
    StepKeeps(w, m, done);
    var later := WalkAnswers(Step(w, done).s.cfg, Step(w, done).mem, rest[1..]);
    forall a | a in later
      ensures a != Crash
    {
      assert a in Said(w, rest[0]) + later;
    }
  }

  /** A disciplined session on an object in any coherent state gives the answers of the walk. */
  method Serve(e: MMUEmulator, memory: PageTables.Memory, ops: seq<Op>, ghost monitor: Monitor)
    returns (answers: seq<Answer>)
    requires e.Valid() && InSession(World(e.Value(), memory), monitor, ops)
    modifies e
    ensures e.Valid() && answers == WalkAnswers(old(e.Cfg()), memory, ops)
  {
    var region := new MemoryRegion();
    var mem, rest := memory, ops;
    ghost var m, due := monitor, WalkAnswers(e.Cfg(), memory, ops);
    answers := [];
    while rest != []
      invariant e.Valid() && InSession(World(e.Value(), mem), m, rest)
      invariant due == answers + WalkAnswers(e.Cfg(), mem, rest)
      decreases |rest|
    {
      ghost var before := World(e.Value(), mem);
      NextIsDefined(before, m, rest);
      var said, mem', done := Perform(e, region, mem, rest[0]);
      OneCall(before, m, rest, done);
      Appended(due, answers, said, WalkAnswers(e.Cfg(), mem', rest[1..]));
      m := MonitorAfter(m, before.s.cfg, before.mem, done);
      answers, mem, rest := answers + said, mem', rest[1..];
    }
  }

  lemma Appended(due: seq<Answer>, answers: seq<Answer>, said: seq<Answer>, later: seq<Answer>)
    requires due == answers + (said + later)
    ensures due == (answers + said) + later
  {
  }

  /** From a new object: every guest that avoids stale keys gets the answers of the walk. */
  method PowerOnAndServe(g: Guest, capacity: nat, memory: PageTables.Memory, ops: seq<Op>)
    returns (e: MMUEmulator, answers: seq<Answer>)
    requires capacity >= 1 && RunOf(g, PageTables.Config(0, 0, 0), ops)
    requires AvoidsStale(FLUSHED, PageTables.Config(0, 0, 0), memory, ops)
    requires Crash !in WalkAnswers(PageTables.Config(0, 0, 0), memory, ops)
    ensures fresh(e) && e.Valid() && answers == WalkAnswers(PageTables.Config(0, 0, 0), memory, ops)
  {
    e := new MMUEmulator(capacity);
    InitiallyCoherent(capacity, memory);
    GuestDisciplined(g, FLUSHED, PageTables.Config(0, 0, 0), memory, ops);
    answers := Serve(e, memory, ops, FLUSHED);
  }

  // ---------------------------------------------------------- the register file

  /** What a hypervisor passes on: a trapped instruction, or an exception. */
  datatype Command =
    | Move(instruction: S.SystemInstruction)
    | MoveBack(instruction: S.SystemInstruction)
    | Exception(pc: u64, syndrome: u64, faultAddress: u64)

  /** The call that a command amounts to, its register operand filled in. */
  ghost predicate Made(cmd: Command, c: S.Call) {
    match cmd
    case Move(i) => c.Msr? && c.instruction == i
    case MoveBack(i) => c == S.Mrs(i)
    case Exception(pc, syndrome, faultAddress) => c == S.Enter(pc, syndrome, faultAddress)
  }

  method Obey(e: S.SystemRegisterEmulator, g: array<u64>, cmd: Command) returns (ghost call: S.Call)
    requires g.Length == 256
    modifies e, g
    ensures Made(cmd, call) && S.Becomes(old(e.Value()), call, e.Value())
  {
    match cmd {
      case Move(i) =>
        call := S.Msr(i, g[i.rt]);
        var ok := e.EmulateMSR(i, g);
      case MoveBack(i) =>
        call := S.Mrs(i);
        var ok := e.EmulateMRS(i, g);
      case Exception(pc, syndrome, faultAddress) =>
        call := S.Enter(pc, syndrome, faultAddress);
        e.HandleExceptionEntry(pc, syndrome, faultAddress);
    }
  }

  /** Commands on one object make a run of the register file, so every encoding ends with its last stored value. */
  method Execute(e: S.SystemRegisterEmulator, g: array<u64>, commands: seq<Command>)
    returns (ghost calls: seq<S.Call>, ghost files: seq<S.Registers>)
    requires g.Length == 256
    modifies e, g
    ensures |calls| == |commands| && forall k :: 0 <= k < |commands| ==> Made(commands[k], calls[k])
    ensures S.IsRun(files, calls) && files[0] == old(e.Value()) && files[|calls|] == e.Value()
    ensures forall x :: S.ReadRegister(e.Value(), x) == S.LastStored(calls, x, S.ReadRegister(old(e.Value()), x))
  {
    calls, files := [], [e.Value()];
    for k := 0 to |commands|
      invariant |calls| == k && forall j :: 0 <= j < k ==> Made(commands[j], calls[j])
      invariant S.IsRun(files, calls) && files[0] == old(e.Value()) && files[k] == e.Value()
    {
      var call := Obey(e, g, commands[k]);
      calls, files := calls + [call], files + [e.Value()];
    }
    forall x
      ensures S.ReadRegister(e.Value(), x) == S.LastStored(calls, x, S.ReadRegister(old(e.Value()), x))
    {
      S.LastWriteWins(files, calls, x);
    }
  }
}
