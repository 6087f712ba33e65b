/**
 The TLB against the walk it speeds up. A monitor that knows the operations but not the TLB
 remembers which translations the page tables have handed out and may still be cached; a query whose
 key is not stale by that record is answered as the page tables say, on every run and for every choice
 of evicted entries.
 */
module Coherence {
  import opened Bits
  import opened PageTables
  import WalkFacts
  import opened Mmu
  import Keys

  /** What the walk gave when `q` was translated. */
  datatype Handed = Handed(q: Query, attrs: Attrs)

  /** The translations handed out since they were last invalidated. A fault is none: it is never cached. */
  type Monitor = set<Handed>

  const FLUSHED: Monitor := {}

  function MonitorAfter(m: Monitor, cfg: Config, mem: Memory, op: Op): Monitor {
    match op
    case Translate(q, _) =>
      if Walk(cfg, mem, q.va).Mapped? then m + {Handed(q, Walk(cfg, mem, q.va).region.attrs)} else m
    case SetTtbr0(_) => FLUSHED
    case SetTtbr1(_) => FLUSHED
    case SetTcr(_) => FLUSHED
    case InvalidateAll => FLUSHED
    case InvalidateVa(q) => set h | h in m && Key(h.q) != Key(q)
    case InvalidateAsid(asid) => set h | h in m && !(h.q.asid == asid || asid == 0xFFFF)
    case ResetStats => m
    case WriteDescriptor(_, _) => m
  }

  /** What was handed out is what the page tables say now. */
  predicate UpToDate(cfg: Config, mem: Memory, h: Handed) {
    Walk(cfg, mem, h.q.va).Mapped? && Walk(cfg, mem, h.q.va).region.attrs == h.attrs
  }

  /** The keys whose walk differs from one handed out since they were last invalidated. */
  function Stale(m: Monitor, cfg: Config, mem: Memory): set<nat> {
    set h | h in m && !UpToDate(cfg, mem, h) :: Key(h.q)
  }

  /** A translation of `q` cannot be answered from an entry that `p` stored through another root table. */
  predicate Separated(cfg: Config, p: Query, q: Query) {
    Key(p) == Key(q) && Select(cfg, p.va).From? ==> Select(cfg, q.va) == Select(cfg, p.va)
  }

  ghost predicate Trusted(m: Monitor, cfg: Config, mem: Memory, q: Query) {
    Key(q) !in Stale(m, cfg, mem) && forall h :: h in m ==> Separated(cfg, h.q, q)
  }

  // --------------------------------------------------------------- invariant

  /** The entry under `k` is the one that `h` would have stored. */
  ghost predicate Explains(w: World, m: Monitor, k: nat, h: Handed)
    requires k in w.s.tlb
  {
    h in m && Key(h.q) == k && WalkFacts.WellShaped(h.attrs) && w.s.tlb[k] == EntryFor(h.q, h.attrs)
  }

  /** Every entry was handed out and is not forgotten by the monitor. */
  ghost predicate Coherent(w: World, m: Monitor) {
    forall k :: k in w.s.tlb ==> exists h :: Explains(w, m, k, h)
  }

  lemma InitiallyCoherent(capacity: nat, mem: Memory)
    ensures Coherent(World(Initial(capacity), mem), FLUSHED)
  {
  }

  /** An entry that an operation leaves in place, with its origin still on record, stays explained. */
  lemma StillExplained(w: World, m: Monitor, w': World, m': Monitor, k: nat)
    requires Coherent(w, m) && k in w.s.tlb && k in w'.s.tlb && w'.s.tlb[k] == w.s.tlb[k]
    requires forall h :: Explains(w, m, k, h) ==> h in m'
    ensures exists h :: Explains(w', m', k, h)
  {
    var h :| Explains(w, m, k, h);
    assert Explains(w', m', k, h);
  }

  /** A filled entry is explained by the translation that filled it. */
  lemma FilledEntry(w: World, m: Monitor, q: Query, victim: nat)
    requires !Hit(w.s.tlb, q) && Walk(w.s.cfg, w.mem, q.va).Mapped?
    ensures Explains(Step(w, Translate(q, victim)), MonitorAfter(m, w.s.cfg, w.mem, Translate(q, victim)),
                     Key(q), Handed(q, Walk(w.s.cfg, w.mem, q.va).region.attrs))
  {
    WalkFacts.ResultArithmetic(w.s.cfg, w.mem, q.va);
  }

  lemma StepKeeps(w: World, m: Monitor, op: Op)
    requires Coherent(w, m)
    ensures Coherent(Step(w, op), MonitorAfter(m, w.s.cfg, w.mem, op))
  {
    var w', m' := Step(w, op), MonitorAfter(m, w.s.cfg, w.mem, op);
    forall k | k in w'.s.tlb
      ensures exists h :: Explains(w', m', k, h)
    {
      if k in w.s.tlb && w'.s.tlb[k] == w.s.tlb[k] {
        StillExplained(w, m, w', m', k);
      } else {
        FilledEntry(w, m, op.q, op.victim);
      }
    }
  }

  // -------------------------------------------------------------- refinement

  /** In a coherent world a trusted query is answered as by a fresh walk. */
  lemma TrustedAnswer(w: World, m: Monitor, q: Query)
    requires Coherent(w, m) && Trusted(m, w.s.cfg, w.mem, q)
    ensures TranslateAnswer(w.s, w.mem, q) == WalkAnswer(w.s.cfg, w.mem, q.va)
  {
    if Hit(w.s.tlb, q) {
      var h :| Explains(w, m, Key(q), h);
      SharedWalk(m, w.s.cfg, w.mem, h, q);
    }
  }

  /** What was handed out under a trusted query's key is the query's own walk. */
  lemma SharedWalk(m: Monitor, cfg: Config, mem: Memory, h: Handed, q: Query)
    requires Trusted(m, cfg, mem, q) && h in m && Key(h.q) == Key(q)
    ensures Walk(cfg, mem, q.va).Mapped? && Walk(cfg, mem, q.va).region.attrs == h.attrs
  {
    assert UpToDate(cfg, mem, h) && Separated(cfg, h.q, q);
    Keys.KeyEquality(h.q, q);
    WalkFacts.WalkPerPage(cfg, mem, h.q.va, q.va);
  }

  function MonitorRun(m: Monitor, cfg: Config, mem: Memory, ops: seq<Op>): Monitor
    decreases |ops|
  {
    if ops == [] then m
    else MonitorRun(MonitorAfter(m, cfg, mem, ops[0]), ConfigAfter(cfg, ops[0]), MemoryAfter(mem, ops[0]), ops[1..])
  }

  lemma {:induction false} RunKeeps(w: World, m: Monitor, ops: seq<Op>)
    requires Coherent(w, m)
    ensures Coherent(Run(w, ops), MonitorRun(m, w.s.cfg, w.mem, ops))
    decreases |ops|
  {
    if ops != [] {
      StepKeeps(w, m, ops[0]);
      RunKeeps(Step(w, ops[0]), MonitorAfter(m, w.s.cfg, w.mem, ops[0]), ops[1..]);
    }
  }

  /**
   The staleness protocol, judged translation by translation: after any run, with page-table
   writes, collisions and evictions of any kind in it, a query that the monitor trusts is
   answered as the page tables say now.
   */
  lemma StalenessProtocol(capacity: nat, mem: Memory, ops: seq<Op>, q: Query)
    requires var w := Run(World(Initial(capacity), mem), ops);
      Trusted(MonitorRun(FLUSHED, Config(0, 0, 0), mem, ops), w.s.cfg, w.mem, q)
    ensures var w := Run(World(Initial(capacity), mem), ops);
      TranslateAnswer(w.s, w.mem, q) == WalkAnswer(w.s.cfg, w.mem, q.va)
  {
    InitiallyCoherent(capacity, mem);
    RunKeeps(World(Initial(capacity), mem), FLUSHED, ops);
    TrustedAnswer(Run(World(Initial(capacity), mem), ops), MonitorRun(FLUSHED, Config(0, 0, 0), mem, ops), q);
  }

  /** Every translation of the run is trusted when it is made. */
  ghost predicate Disciplined(m: Monitor, cfg: Config, mem: Memory, ops: seq<Op>)
    decreases |ops|
  {
    ops == [] ||
    (&& (ops[0].Translate? ==> Trusted(m, cfg, mem, ops[0].q))
     && Disciplined(MonitorAfter(m, cfg, mem, ops[0]), ConfigAfter(cfg, ops[0]), MemoryAfter(mem, ops[0]), ops[1..]))
  }

  /** The cached machine answers a disciplined run like the machine that only walks. */
  lemma {:induction false} CacheRefinesWalk(w: World, m: Monitor, ops: seq<Op>)
    requires Coherent(w, m) && Disciplined(m, w.s.cfg, w.mem, ops)
    ensures Answers(w, ops) == WalkAnswers(w.s.cfg, w.mem, ops)
    decreases |ops|
  {
    if ops != [] {
      if ops[0].Translate? {
        TrustedAnswer(w, m, ops[0].q);
      }
      StepKeeps(w, m, ops[0]);
      CacheRefinesWalk(Step(w, ops[0]), MonitorAfter(m, w.s.cfg, w.mem, ops[0]), ops[1..]);
    }
  }

  // --------------------------------------------------- faults, then a mapping

  /** Page-table writes, in any number, between a fault and the retry. */
  ghost predicate OnlyWrites(ops: seq<Op>) {
    forall op <- ops :: op.WriteDescriptor?
  }

  lemma {:induction false} WritesKeep(w: World, m: Monitor, writes: seq<Op>)
    requires OnlyWrites(writes)
    ensures Run(w, writes).s == w.s && MonitorRun(m, w.s.cfg, w.mem, writes) == m
    decreases |writes|
  {
    if writes != [] {
      assert writes[0].WriteDescriptor?;
      WritesKeep(Step(w, writes[0]), m, writes[1..]);
    }
  }

  /**
   Fault, map, retry: a trusted query that faults stays trusted through any page-table writes, so the
   retry is answered by the new walk without an invalidation.
   */
  lemma FaultMapRetry(capacity: nat, mem: Memory, ops: seq<Op>, q: Query, victim: nat, writes: seq<Op>)
    requires var w := Run(World(Initial(capacity), mem), ops);
      && Trusted(MonitorRun(FLUSHED, Config(0, 0, 0), mem, ops), w.s.cfg, w.mem, q)
      && Walk(w.s.cfg, w.mem, q.va) == Fault && OnlyWrites(writes)
    ensures var w := Run(World(Initial(capacity), mem), ops);
      var m := MonitorAfter(MonitorRun(FLUSHED, Config(0, 0, 0), mem, ops), w.s.cfg, w.mem, Translate(q, victim));
      var w' := Run(Step(w, Translate(q, victim)), writes);
      && Trusted(MonitorRun(m, w.s.cfg, w.mem, writes), w.s.cfg, w'.mem, q)
      && TranslateAnswer(w'.s, w'.mem, q) == WalkAnswer(w.s.cfg, w'.mem, q.va)
  {
    var w0 := World(Initial(capacity), mem);
    InitiallyCoherent(capacity, mem);
    RunKeeps(w0, FLUSHED, ops);
    RetryFrom(Run(w0, ops), MonitorRun(FLUSHED, Config(0, 0, 0), mem, ops), q, victim, writes);
  }

  lemma RetryFrom(w: World, m: Monitor, q: Query, victim: nat, writes: seq<Op>)
    requires Coherent(w, m) && Trusted(m, w.s.cfg, w.mem, q)
    requires Walk(w.s.cfg, w.mem, q.va) == Fault && OnlyWrites(writes)
    ensures var w1 := Step(w, Translate(q, victim));
      var w' := Run(w1, writes);
      && MonitorAfter(m, w.s.cfg, w.mem, Translate(q, victim)) == m
      && Trusted(MonitorRun(m, w.s.cfg, w.mem, writes), w.s.cfg, w'.mem, q)
      && TranslateAnswer(w'.s, w'.mem, q) == WalkAnswer(w.s.cfg, w'.mem, q.va)
  {
    var w1 := Step(w, Translate(q, victim));
    StepKeeps(w, m, Translate(q, victim));
    RunKeeps(w1, m, writes);
    WritesKeep(w1, m, writes);
    forall h | h in m
      ensures Key(h.q) != Key(q)
    {
      if Key(h.q) == Key(q) {
        SharedWalk(m, w.s.cfg, w.mem, h, q);
        assert false;
      }
    }
    TrustedAnswer(Run(w1, writes), m, q);
  }

  // ----------------------------------------------- what a guest has to avoid

  /**
   Two kinds of guest whose queries share a key only within a page: canonical addresses, the low ones not under
   ASID 0xFFFF, or addresses below 2^48 under any ASID.
   */
  datatype Guest = CanonicalGuest | LowGuest

  ghost predicate Asks(g: Guest, q: Query) {
    match g
    case CanonicalGuest => Keys.Canonical(q.va) && (q.va < WINDOW ==> q.asid != 0xFFFF)
    case LowGuest => q.va < WINDOW
  }

  ghost predicate AsksOnly(g: Guest, ops: seq<Op>) {
    forall op <- ops :: op.Translate? ==> Asks(g, op.q)
  }

  ghost predicate AskedBy(g: Guest, m: Monitor) {
    forall h :: h in m ==> Asks(g, h.q)
  }

  /** No page is divided between root tables. */
  predicate UncutPages(cfg: Config) {
    WalkFacts.Uncut(cfg, 12)
  }

  lemma SamePage(g: Guest, p: Query, q: Query)
    requires Asks(g, p) && Asks(g, q) && Key(p) == Key(q)
    ensures p.va / KB4 == q.va / KB4
  {
    match g
    case CanonicalGuest => Keys.KeyCanonical(p, q);
    case LowGuest => Keys.KeyInjectiveLow(p, q);
  }

  lemma GuestSeparated(g: Guest, cfg: Config, p: Query, q: Query)
    requires UncutPages(cfg) && Asks(g, p) && Asks(g, q)
    ensures Key(p) == Key(q) ==> Select(cfg, p.va) == Select(cfg, q.va)
  {
    if Key(p) == Key(q) {
      SamePage(g, p, q);
      PowerTable();
      WalkFacts.SelectionPerBlock(cfg, p.va, q.va, 12);
    }
  }

  ghost predicate SeparatedFor(g: Guest, cfg: Config, p: Query, q: Query) {
    Asks(g, p) && Asks(g, q) ==> Separated(cfg, p, q)
  }

  /** For either guest the condition on the registers is exact. */
  lemma GuestSeparatedExactly(g: Guest, cfg: Config)
    ensures (forall p, q :: SeparatedFor(g, cfg, p, q)) <==> UncutPages(cfg)
  {
    if UncutPages(cfg) {
      forall p, q
        ensures SeparatedFor(g, cfg, p, q)
      {
        if Asks(g, p) && Asks(g, q) {
          GuestSeparated(g, cfg, p, q);
        }
      }
    } else {
      WalkFacts.CutBlock(cfg, 12);
      PowerTable();
      var p, q := Query(0, 0), Query(RangeEdge(cfg.T0sz()), 0);
      Keys.KeyInjectiveLow(p, q);
      assert !SeparatedFor(g, cfg, p, q);
    }
  }

  ghost predicate RightFor(g: Guest, capacity: nat, cfg: Config, p: Query, q: Query) {
    Asks(g, p) && Asks(g, q) ==>
      forall mem: Memory :: AnswerAfter(capacity, cfg, mem, p, q) == WalkAnswer(cfg, mem, q.va)
  }

  /** Every two translations of such a guest are right over all page tables exactly if no page is divided. */
  lemma TwoCallsExact(g: Guest, capacity: nat, cfg: Config)
    requires capacity >= 1
    ensures (forall p, q :: RightFor(g, capacity, cfg, p, q)) <==> UncutPages(cfg)
  {
    forall p, q
      ensures RightFor(g, capacity, cfg, p, q) <==> SeparatedFor(g, cfg, p, q)
    {
      SeparationExact(capacity, cfg, p, q);
    }
    GuestSeparatedExactly(g, cfg);
    if !UncutPages(cfg) {
      var p, q :| !SeparatedFor(g, cfg, p, q);
      assert !RightFor(g, capacity, cfg, p, q);
    }
  }

  lemma GuestTrusted(g: Guest, m: Monitor, cfg: Config, mem: Memory, q: Query)
    requires UncutPages(cfg) && Asks(g, q) && Key(q) !in Stale(m, cfg, mem)
    requires AskedBy(g, m)
    ensures Trusted(m, cfg, mem, q)
  {
    forall h | h in m
      ensures Separated(cfg, h.q, q)
    {
      GuestSeparated(g, cfg, h.q, q);
    }
  }

  lemma RunAskedBy(g: Guest, mem: Memory, ops: seq<Op>)
    requires AsksOnly(g, ops)
    ensures AskedBy(g, MonitorRun(FLUSHED, Config(0, 0, 0), mem, ops))
  {
    forall h | h in MonitorRun(FLUSHED, Config(0, 0, 0), mem, ops)
      ensures Asks(g, h.q)
    {
      var op := HandedFromOps(FLUSHED, Config(0, 0, 0), mem, ops, h);
    }
  }

  /**
   Staleness in the form a guest can use: after any run with its own queries, page-table writes and register
   changes included, a key outside the stale set is answered as the page tables say now.
   */
  lemma GuestStaleness(g: Guest, capacity: nat, mem: Memory, ops: seq<Op>, q: Query)
    requires AsksOnly(g, ops) && Asks(g, q)
    requires var w := Run(World(Initial(capacity), mem), ops);
      UncutPages(w.s.cfg) && Key(q) !in Stale(MonitorRun(FLUSHED, Config(0, 0, 0), mem, ops), w.s.cfg, w.mem)
    ensures var w := Run(World(Initial(capacity), mem), ops);
      TranslateAnswer(w.s, w.mem, q) == WalkAnswer(w.s.cfg, w.mem, q.va)
  {
    var w := Run(World(Initial(capacity), mem), ops);
    RunAskedBy(g, mem, ops);
    GuestTrusted(g, MonitorRun(FLUSHED, Config(0, 0, 0), mem, ops), w.s.cfg, w.mem, q);
    StalenessProtocol(capacity, mem, ops, q);
  }

  /** A hit of a guest's query is right exactly while the translation that filled the entry is up to date. */
  lemma HitExact(g: Guest, w: World, m: Monitor, q: Query) returns (h: Handed)
    requires Coherent(w, m) && AskedBy(g, m) && Asks(g, q) && UncutPages(w.s.cfg) && Hit(w.s.tlb, q)
    ensures Explains(w, m, Key(q), h)
    ensures TranslateAnswer(w.s, w.mem, q) == WalkAnswer(w.s.cfg, w.mem, q.va) <==> UpToDate(w.s.cfg, w.mem, h)
  {
    h :| Explains(w, m, Key(q), h);
    GuestSeparated(g, w.s.cfg, h.q, q);
    Keys.KeyEquality(h.q, q);
    if Walk(w.s.cfg, w.mem, h.q.va).Mapped? {
      WalkFacts.WalkPerPage(w.s.cfg, w.mem, h.q.va, q.va);
    } else if Walk(w.s.cfg, w.mem, q.va).Mapped? {
      WalkFacts.WalkPerPage(w.s.cfg, w.mem, q.va, h.q.va);
    }
  }

  /** A run in which the guest translates its own queries, and only while no page is divided. */
  ghost predicate RunOf(g: Guest, cfg: Config, ops: seq<Op>)
    decreases |ops|
  {
    ops == [] ||
    (&& (ops[0].Translate? ==> Asks(g, ops[0].q) && UncutPages(cfg))
     && RunOf(g, ConfigAfter(cfg, ops[0]), ops[1..]))
  }

  /** No translation of the run is of a key that is stale when it is made. */
  ghost predicate AvoidsStale(m: Monitor, cfg: Config, mem: Memory, ops: seq<Op>)
    decreases |ops|
  {
    ops == [] ||
    (&& (ops[0].Translate? ==> Key(ops[0].q) !in Stale(m, cfg, mem))
     && AvoidsStale(MonitorAfter(m, cfg, mem, ops[0]), ConfigAfter(cfg, ops[0]), MemoryAfter(mem, ops[0]), ops[1..]))
  }

  lemma {:induction false} GuestDisciplined(g: Guest, m: Monitor, cfg: Config, mem: Memory, ops: seq<Op>)
    requires AskedBy(g, m) && RunOf(g, cfg, ops) && AvoidsStale(m, cfg, mem, ops)
    ensures Disciplined(m, cfg, mem, ops)
    decreases |ops|
  {
    if ops != [] {
      if ops[0].Translate? {
        GuestTrusted(g, m, cfg, mem, ops[0].q);
      }
      GuestDisciplined(
        g, MonitorAfter(m, cfg, mem, ops[0]), ConfigAfter(cfg, ops[0]), MemoryAfter(mem, ops[0]), ops[1..]);
    }
  }

  /** A guest that writes page tables but translates no stale key gets the answers, six fields each, of the walk. */
  lemma GuestRunRefines(g: Guest, capacity: nat, mem: Memory, ops: seq<Op>)
    requires RunOf(g, Config(0, 0, 0), ops) && AvoidsStale(FLUSHED, Config(0, 0, 0), mem, ops)
    ensures Answers(World(Initial(capacity), mem), ops) == WalkAnswers(Config(0, 0, 0), mem, ops)
  {
    InitiallyCoherent(capacity, mem);
    GuestDisciplined(g, FLUSHED, Config(0, 0, 0), mem, ops);
    CacheRefinesWalk(World(Initial(capacity), mem), FLUSHED, ops);
  }

  // -------------------------------------------------------------- dirty words

  /** The record that has to be invalidated: a write dirties what was handed out over the word written. */
  function DirtyAfter(dirty: Monitor, m: Monitor, cfg: Config, mem: Memory, op: Op): Monitor {
    match op
    case WriteDescriptor(a, _) => dirty + set h | h in m && a in WalkFacts.Footprint(cfg, mem, h.q.va)
    case _ => dirty * MonitorAfter(m, cfg, mem, op)
  }

  /** No translation of the run is of a dirty key; walks are not compared, only the words written. */
  ghost predicate AvoidsDirty(dirty: Monitor, m: Monitor, cfg: Config, mem: Memory, ops: seq<Op>)
    decreases |ops|
  {
    ops == [] ||
    (&& (ops[0].Translate? ==> forall h :: h in dirty ==> Key(h.q) != Key(ops[0].q))
     && AvoidsDirty(DirtyAfter(dirty, m, cfg, mem, ops[0]), MonitorAfter(m, cfg, mem, ops[0]),
                    ConfigAfter(cfg, ops[0]), MemoryAfter(mem, ops[0]), ops[1..]))
  }

  ghost predicate CleanIsUpToDate(dirty: Monitor, m: Monitor, cfg: Config, mem: Memory) {
    forall h :: h in m && h !in dirty ==> UpToDate(cfg, mem, h)
  }

  lemma CleanStep(dirty: Monitor, m: Monitor, cfg: Config, mem: Memory, op: Op)
    requires CleanIsUpToDate(dirty, m, cfg, mem)
    ensures CleanIsUpToDate(DirtyAfter(dirty, m, cfg, mem, op), MonitorAfter(m, cfg, mem, op),
                            ConfigAfter(cfg, op), MemoryAfter(mem, op))
  {
    if op.WriteDescriptor? {
      forall h | h in m && h !in DirtyAfter(dirty, m, cfg, mem, op)
        ensures UpToDate(cfg, MemoryAfter(mem, op), h)
      {
        WalkFacts.WriteElsewhere(cfg, mem, h.q.va, op.address, op.d);
      }
    }
  }

  /** Keeping off the dirty keys keeps off the stale ones. */
  lemma {:induction false} DirtyCoversStale(dirty: Monitor, m: Monitor, cfg: Config, mem: Memory, ops: seq<Op>)
    requires CleanIsUpToDate(dirty, m, cfg, mem) && AvoidsDirty(dirty, m, cfg, mem, ops)
    ensures AvoidsStale(m, cfg, mem, ops)
    decreases |ops|
  {
    if ops != [] {
      CleanStep(dirty, m, cfg, mem, ops[0]);
      DirtyCoversStale(DirtyAfter(dirty, m, cfg, mem, ops[0]), MonitorAfter(m, cfg, mem, ops[0]),
                       ConfigAfter(cfg, ops[0]), MemoryAfter(mem, ops[0]), ops[1..]);
    }
  }

  // ------------------------------------------------------ fixed page tables

  ghost predicate NoWrites(ops: seq<Op>) {
    forall op <- ops :: !op.WriteDescriptor?
  }

  lemma {:induction false} NothingStale(m: Monitor, cfg: Config, mem: Memory, ops: seq<Op>)
    requires Stale(m, cfg, mem) == {} && NoWrites(ops)
    ensures AvoidsStale(m, cfg, mem, ops)
    decreases |ops|
  {
    if ops != [] {
      assert !ops[0].WriteDescriptor?;
      forall h | h in MonitorAfter(m, cfg, mem, ops[0])
        ensures UpToDate(ConfigAfter(cfg, ops[0]), mem, h)
      {
        assert h in m ==> UpToDate(cfg, mem, h) || Key(h.q) in Stale(m, cfg, mem);
      }
      NothingStale(MonitorAfter(m, cfg, mem, ops[0]), ConfigAfter(cfg, ops[0]), MemoryAfter(mem, ops[0]), ops[1..]);
    }
  }

  /** Over fixed page tables every run of a guest gets the answers, six fields each, of the walk. */
  lemma PlainRunRefines(g: Guest, capacity: nat, mem: Memory, ops: seq<Op>)
    requires RunOf(g, Config(0, 0, 0), ops) && NoWrites(ops)
    ensures Answers(World(Initial(capacity), mem), ops) == WalkAnswers(Config(0, 0, 0), mem, ops)
  {
    NothingStale(FLUSHED, Config(0, 0, 0), mem, ops);
    GuestRunRefines(g, capacity, mem, ops);
  }

  // ------------------------------------------------- all eight region fields

  /** A hit gives the caller the walk's whole region exactly if the two fields it leaves alone held the right values. */
  lemma HitRegionExact(w: World, m: Monitor, q: Query, before: Region)
    requires Coherent(w, m) && Trusted(m, w.s.cfg, w.mem, q) && Hit(w.s.tlb, q)
    ensures Walk(w.s.cfg, w.mem, q.va).Mapped?
    ensures RegionAfter(w.s, w.mem, q, before) == Walk(w.s.cfg, w.mem, q.va).region <==>
      !before.contiguous && before.shareable == Walk(w.s.cfg, w.mem, q.va).region.shareable
  {
    TrustedAnswer(w, m, q);
    WalkFacts.NeverContiguous(w.mem, q.va, Select(w.s.cfg, q.va).base, 0);
  }

  /** Some translation of the run hits while its page is shareable. */
  ghost predicate HitsShareable(w: World, ops: seq<Op>)
    decreases |ops|
  {
    ops != [] &&
    (|| (ops[0].Translate? && Hit(w.s.tlb, ops[0].q)
         && WalkRegion(w.s.cfg, w.mem, ops[0].q.va, FRESH_REGION).shareable)
     || HitsShareable(Step(w, ops[0]), ops[1..]))
  }

  lemma FreshRegionExact(w: World, m: Monitor, q: Query)
    requires Coherent(w, m) && Trusted(m, w.s.cfg, w.mem, q)
    ensures RegionAfter(w.s, w.mem, q, FRESH_REGION) == WalkRegion(w.s.cfg, w.mem, q.va, FRESH_REGION) <==>
      !(Hit(w.s.tlb, q) && WalkRegion(w.s.cfg, w.mem, q.va, FRESH_REGION).shareable)
  {
    if Hit(w.s.tlb, q) {
      HitRegionExact(w, m, q, FRESH_REGION);
    }
  }

  /** A caller with fresh regions is shown the machine without a TLB exactly until it hits a shareable page. */
  lemma {:induction false} RegionsExact(w: World, m: Monitor, ops: seq<Op>)
    requires Coherent(w, m) && Disciplined(m, w.s.cfg, w.mem, ops)
    ensures Regions(w, ops) == WalkRegions(w.s.cfg, w.mem, ops) <==> !HitsShareable(w, ops)
    decreases |ops|
  {
    if ops != [] {
      StepKeeps(w, m, ops[0]);
      RegionsExact(Step(w, ops[0]), MonitorAfter(m, w.s.cfg, w.mem, ops[0]), ops[1..]);
      var r, s := Regions(Step(w, ops[0]), ops[1..]),
                  WalkRegions(ConfigAfter(w.s.cfg, ops[0]), MemoryAfter(w.mem, ops[0]), ops[1..]);
      if ops[0].Translate? {
        FreshRegionExact(w, m, ops[0].q);
        SameHeadAndTail(RegionAfter(w.s, w.mem, ops[0].q, FRESH_REGION), r,
                        WalkRegion(w.s.cfg, w.mem, ops[0].q.va, FRESH_REGION), s);
      } else {
        assert [] + r == r && [] + s == s;
      }
    }
  }

  /** Every hit of the run finds in the caller's region the two values that the walk would write. */
  ghost predicate HitsFindRight(w: World, ops: seq<Op>, before: Region)
    decreases |ops|
  {
    ops == [] ||
    (match ops[0]
     case Translate(q, _) =>
       && (Hit(w.s.tlb, q) ==>
           !before.contiguous && before.shareable == WalkRegion(w.s.cfg, w.mem, q.va, before).shareable)
       && HitsFindRight(Step(w, ops[0]), ops[1..], RegionAfter(w.s, w.mem, q, before))
     case _ => HitsFindRight(Step(w, ops[0]), ops[1..], before))
  }

  lemma OneRegionExact(w: World, m: Monitor, q: Query, before: Region)
    requires Coherent(w, m) && Trusted(m, w.s.cfg, w.mem, q)
    ensures RegionAfter(w.s, w.mem, q, before) == WalkRegion(w.s.cfg, w.mem, q.va, before) <==>
      (Hit(w.s.tlb, q) ==>
         !before.contiguous && before.shareable == WalkRegion(w.s.cfg, w.mem, q.va, before).shareable)
  {
    if Hit(w.s.tlb, q) {
      HitRegionExact(w, m, q, before);
    }
  }

  /** A caller that passes one region along sees all eight fields right exactly while its hits find the right values. */
  lemma {:induction false} CarriedRegionsExact(w: World, m: Monitor, ops: seq<Op>, before: Region)
    requires Coherent(w, m) && Disciplined(m, w.s.cfg, w.mem, ops)
    ensures CarriedRegions(w, ops, before) == CarriedWalkRegions(w.s.cfg, w.mem, ops, before)
      <==> HitsFindRight(w, ops, before)
    decreases |ops|
  {
    if ops != [] {
      var w', m' := Step(w, ops[0]), MonitorAfter(m, w.s.cfg, w.mem, ops[0]);
      StepKeeps(w, m, ops[0]);
      if ops[0].Translate? {
        var x, y := RegionAfter(w.s, w.mem, ops[0].q, before), WalkRegion(w.s.cfg, w.mem, ops[0].q.va, before);
        OneRegionExact(w, m, ops[0].q, before);
        CarriedRegionsExact(w', m', ops[1..], x);
        SameHeadAndTail(x, CarriedRegions(w', ops[1..], x), y, CarriedWalkRegions(w'.s.cfg, w'.mem, ops[1..], y));
      } else {
        CarriedRegionsExact(w', m', ops[1..], before);
      }
    }
  }

  lemma SameHeadAndTail(x: Region, r: seq<Region>, y: Region, s: seq<Region>)
    ensures [x] + r == [y] + s <==> x == y && r == s
  {
    assert ([x] + r)[0] == x && ([x] + r)[1..] == r;
    assert ([y] + s)[0] == y && ([y] + s)[1..] == s;
  }

  // --------------------------------------------------------------- exactness

  /** Answer to `q` when `p` was the only translation since the flush. */
  function AnswerAfter(capacity: nat, cfg: Config, mem: Memory, p: Query, q: Query): Answer {
    TranslateAnswer(Translated(State(capacity, map[], cfg, NO_STATS), mem, p, 0), mem, q)
  }

  /** Separation is not only enough: without it some page tables make the TLB answer wrongly. */
  lemma SeparationExact(capacity: nat, cfg: Config, p: Query, q: Query)
    requires capacity >= 1
    ensures Separated(cfg, p, q) <==>
      forall mem: Memory :: AnswerAfter(capacity, cfg, mem, p, q) == WalkAnswer(cfg, mem, q.va)
  {
    if Separated(cfg, p, q) {
      forall mem: Memory
        ensures AnswerAfter(capacity, cfg, mem, p, q) == WalkAnswer(cfg, mem, q.va)
      {
        var w := World(State(capacity, map[], cfg, NO_STATS), mem);
        assert Coherent(w, FLUSHED);
        StepKeeps(w, FLUSHED, Translate(p, 0));
        TrustedAnswer(Step(w, Translate(p, 0)), MonitorAfter(FLUSHED, cfg, mem, Translate(p, 0)), q);
      }
    } else {
      var mem := WalkFacts.OneLeafTables(cfg, p.va, cfg, q.va);
      assert AnswerAfter(capacity, cfg, mem, p, q).Address?;
    }
  }

  /**
   Why ASID 0xFFFF is excluded above: a low address under it collides with the address that has the same
   48-bit page and all top bits set, and some page tables give that one the other's translation.
   */
  lemma AllOnesAsidCollides(capacity: nat, cfg: Config, p: Query, q: Query) returns (mem: Memory)
    requires capacity >= 1 && Keys.Canonical(p.va) && Keys.Canonical(q.va)
    requires p.va < WINDOW <= q.va && p.asid == 0xFFFF && WalkFacts.SameBlock(p.va, q.va, KB4)
    requires Select(cfg, p.va).From? && Select(cfg, q.va) != Select(cfg, p.va)
    ensures AnswerAfter(capacity, cfg, mem, p, q).Address? && !WalkAnswer(cfg, mem, q.va).Address?
  {
    TwinKeys(p, q);
    mem := WalkFacts.OneLeafTables(cfg, p.va, cfg, q.va);
  }

  lemma TwinKeys(p: Query, q: Query)
    requires p.va < WINDOW && p.asid == 0xFFFF && q.va / WINDOW == 0xFFFF && WalkFacts.SameBlock(p.va, q.va, KB4)
    ensures Key(p) == Key(q)
  {
    PowerTable();
    OrAllOnes(q.asid, 16);
    Keys.KeyEquality(p, q);
  }

  /** The world after `q` was cached, the tables were written, and one address was invalidated. */
  function CachedThenWritten(
      capacity: nat, cfg: Config, mem: Memory, q: Query, a: nat, d: Descriptor, invalidated: Query): World
  {
    Step(Step(Step(World(State(capacity, map[], cfg, NO_STATS), mem), Translate(q, 0)), WriteDescriptor(a, d)),
         InvalidateVa(invalidated))
  }

  /** What the retained entry answers: the old walk, unless its own key was invalidated. */
  lemma RetainedAnswer(capacity: nat, cfg: Config, mem: Memory, q: Query, a: nat, d: Descriptor, invalidated: Query)
    requires capacity >= 1 && Walk(cfg, mem, q.va).Mapped?
    ensures var w := CachedThenWritten(capacity, cfg, mem, q, a, d, invalidated);
      TranslateAnswer(w.s, w.mem, q) == WalkAnswer(cfg, if Key(invalidated) == Key(q) then w.mem else mem, q.va)
  {
    var w := Step(World(State(capacity, map[], cfg, NO_STATS), mem), Translate(q, 0));
    assert Hit(w.s.tlb, q);
  }

  ghost predicate RightAfterWrite(
      capacity: nat, cfg: Config, mem: Memory, q: Query, a: nat, d: Descriptor, invalidated: Query)
  {
    var w := CachedThenWritten(capacity, cfg, mem, q, a, d, invalidated);
    TranslateAnswer(w.s, w.mem, q) == WalkAnswer(cfg, w.mem, q.va)
  }

  /**
   A cached query is answered right after every write to an address exactly when its walk does not read
   that address or its own key was invalidated; invalidating another page of the same block is not enough.
   */
  lemma StaleExact(capacity: nat, cfg: Config, mem: Memory, q: Query, a: nat, invalidated: Query)
    requires capacity >= 1 && Walk(cfg, mem, q.va).Mapped?
    ensures (forall d :: RightAfterWrite(capacity, cfg, mem, q, a, d, invalidated))
      <==> a !in WalkFacts.Footprint(cfg, mem, q.va) || Key(invalidated) == Key(q)
  {
    if a in WalkFacts.Footprint(cfg, mem, q.va) {
      WalkFacts.LevelUnmap(mem, q.va, Select(cfg, q.va).base, 0, a);
      RetainedAnswer(capacity, cfg, mem, q, a, ZERO, invalidated);
      assert Key(invalidated) != Key(q) ==> !RightAfterWrite(capacity, cfg, mem, q, a, ZERO, invalidated);
    }
    forall d | a !in WalkFacts.Footprint(cfg, mem, q.va) || Key(invalidated) == Key(q)
      ensures RightAfterWrite(capacity, cfg, mem, q, a, d, invalidated)
    {
      RetainedAnswer(capacity, cfg, mem, q, a, d, invalidated);
      if a !in WalkFacts.Footprint(cfg, mem, q.va) {
        WalkFacts.WriteElsewhere(cfg, mem, q.va, a, d);
      }
    }
  }

  /** Map a page, invalidate its address, translate: the new page answers, whatever was cached before. */
  lemma RemapVisible(w: World, q: Query, bases: seq<nat>, slot: nat, d: Descriptor, pa: u64)
    requires |bases| == 4 && Select(w.s.cfg, q.va).From? && Select(w.s.cfg, q.va).base == bases[0]
    requires WalkFacts.ReachesSlot(w.mem, q.va, bases, slot) && d.valid && !d.table
    ensures var w' := Run(w, [WriteDescriptor(slot, d.WithOutputAddress(pa)), InvalidateVa(q)]);
      var answer := TranslateAnswer(w'.s, w'.mem, q);
      answer.Address? && answer.pa == (pa % WINDOW) / KB4 * KB4 + q.va % KB4
  {
    WalkFacts.MapPage(w.s.cfg, w.mem, q.va, bases, slot, d, pa);
    var ops := [WriteDescriptor(slot, d.WithOutputAddress(pa)), InvalidateVa(q)];
    var w1 := Step(w, ops[0]);
    assert ops[1..] == [InvalidateVa(q)];
    assert Run(w1, ops[1..]) == Run(Step(w1, ops[1]), []);
  }

  // -------------------------------------------------- entries and their tags

  lemma {:induction false} HandedFromOps(m: Monitor, cfg: Config, mem: Memory, ops: seq<Op>, h: Handed) returns (op: Op)
    requires h in MonitorRun(m, cfg, mem, ops) && h !in m
    ensures op in ops && op.Translate? && op.q == h.q
    decreases |ops|
  {
    var m' := MonitorAfter(m, cfg, mem, ops[0]);
    if h in m' {
      op := ops[0];
    } else {
      op := HandedFromOps(m', ConfigAfter(cfg, ops[0]), MemoryAfter(mem, ops[0]), ops[1..], h);
    }
  }

  /** After any run of a guest the entry found under the key of a query below 2^48 matches the query. */
  lemma KeySoundness(g: Guest, capacity: nat, mem: Memory, ops: seq<Op>, q: Query)
    requires AsksOnly(g, ops) && Asks(g, q) && q.va < WINDOW
    requires Hit(Run(World(Initial(capacity), mem), ops).s.tlb, q)
    ensures Run(World(Initial(capacity), mem), ops).s.tlb[Key(q)].Matches(q.va, q.asid)
  {
    var h := LowOrigin(g, capacity, mem, ops, q);
    var e := Run(World(Initial(capacity), mem), ops).s.tlb[Key(q)];
    Keys.MatchesMeaning(e, q.va, q.asid);
    StoredBlock(h.q, q.va, e.attrs);
  }

  /** The entry under the key of a query below 2^48 was stored for that page and ASID. */
  lemma LowOrigin(g: Guest, capacity: nat, mem: Memory, ops: seq<Op>, q: Query) returns (h: Handed)
    requires AsksOnly(g, ops) && Asks(g, q) && q.va < WINDOW
    requires Key(q) in Run(World(Initial(capacity), mem), ops).s.tlb
    ensures Explains(Run(World(Initial(capacity), mem), ops), MonitorRun(FLUSHED, Config(0, 0, 0), mem, ops), Key(q), h)
    ensures h.q.va / KB4 == q.va / KB4 && h.q.asid == q.asid
  {
    InitiallyCoherent(capacity, mem);
    RunKeeps(World(Initial(capacity), mem), FLUSHED, ops);
    RunAskedBy(g, mem, ops);
    h :| Explains(Run(World(Initial(capacity), mem), ops), MonitorRun(FLUSHED, Config(0, 0, 0), mem, ops), Key(q), h);
    SamePage(g, h.q, q);
    Keys.PageParts(h.q.va);
    Keys.PageParts(q.va);
    assert h.q.va < WINDOW;
    Keys.KeyInjectiveLow(h.q, q);
  }

  /** The stored virtual address names the block of the address that stored it. */
  lemma StoredBlock(p: Query, va: u64, attrs: Attrs)
    requires LeafSized(attrs.size) && p.va / KB4 == va / KB4
    ensures EntryFor(p, attrs).virtualAddress / attrs.size == va / attrs.size
  {
    var size := attrs.size;
    assert KB4 * (size / KB4) == size;
    CoarserBlock(p.va, va, KB4, size / KB4);
    DivModUnique(p.va - p.va % size, size, p.va / size, 0);
  }

  /**
   Every stored entry is true of the page tables: wherever `matches` holds and the root table is
   the one the entry was stored through, the entry repeats a fresh walk.
   */
  lemma EntryIsTrue(w: World, m: Monitor, k: nat, va: u64, asid: u16) returns (h: Handed)
    requires Coherent(w, m) && k in w.s.tlb && k !in Stale(m, w.s.cfg, w.mem) && w.s.tlb[k].Matches(va, asid)
    ensures Explains(w, m, k, h) && h.q.va / h.attrs.size == va / h.attrs.size
    ensures Select(w.s.cfg, h.q.va) == Select(w.s.cfg, va) ==>
      WalkAnswer(w.s.cfg, w.mem, va) == Address(PhysicalAddress(w.s.tlb[k].attrs, va), w.s.tlb[k].attrs)
  {
    h :| Explains(w, m, k, h);
    assert UpToDate(w.s.cfg, w.mem, h);
    Keys.MatchesMeaning(w.s.tlb[k], va, asid);
    StoredBlock(h.q, h.q.va, h.attrs);
    if Select(w.s.cfg, h.q.va) == Select(w.s.cfg, va) {
      WalkFacts.BlockLinearity(w.s.cfg, w.mem, h.q.va, va);
    }
  }

  lemma GigabyteBlock(x: nat, y: nat, size: nat)
    requires LeafSized(size) && x / size == y / size
    ensures x / GB1 == y / GB1
  {
    assert size * (GB1 / size) == GB1;
    CoarserBlock(x, y, size, GB1 / size);
  }

  /** Where no gigabyte is divided between root tables a lookup by `matches` would be coherent too. */
  lemma MatchesIsCoherent(w: World, m: Monitor, k: nat, va: u64, asid: u16)
    requires Coherent(w, m) && k in w.s.tlb && k !in Stale(m, w.s.cfg, w.mem) && w.s.tlb[k].Matches(va, asid)
    requires WalkFacts.Uncut(w.s.cfg, 30)
    ensures WalkAnswer(w.s.cfg, w.mem, va) == Address(PhysicalAddress(w.s.tlb[k].attrs, va), w.s.tlb[k].attrs)
  {
    var h := EntryIsTrue(w, m, k, va, asid);
    GigabyteBlock(h.q.va, va, h.attrs.size);
    PowerTable();
    WalkFacts.SelectionPerBlock(w.s.cfg, h.q.va, va, 30);
  }

  /** The entry `p` would store is right about `va` if `matches` says it applies. */
  ghost predicate EntryTrueOf(cfg: Config, mem: Memory, p: Query, va: u64) {
    var walk := Walk(cfg, mem, p.va);
    walk.Mapped? && EntryFor(p, walk.region.attrs).Matches(va, p.asid) ==>
      WalkAnswer(cfg, mem, va) == Address(PhysicalAddress(walk.region.attrs, va), walk.region.attrs)
  }

  /** Within a gigabyte `matches` is right for all page tables exactly when both addresses select one root table. */
  lemma MatchesExact(cfg: Config, p: Query, va: u64)
    requires Select(cfg, p.va).From? && p.va / GB1 == va / GB1
    ensures Select(cfg, va) == Select(cfg, p.va) <==> forall mem: Memory :: EntryTrueOf(cfg, mem, p, va)
  {
    if Select(cfg, va) == Select(cfg, p.va) {
      forall mem: Memory
        ensures EntryTrueOf(cfg, mem, p, va)
      {
        if Walk(cfg, mem, p.va).Mapped? {
          var attrs := Walk(cfg, mem, p.va).region.attrs;
          WalkFacts.ResultArithmetic(cfg, mem, p.va);
          Keys.MatchesMeaning(EntryFor(p, attrs), va, p.asid);
          StoredBlock(p, p.va, attrs);
          if EntryFor(p, attrs).Matches(va, p.asid) {
            WalkFacts.BlockLinearity(cfg, mem, p.va, va);
          }
        }
      }
    } else {
      var mem := WalkFacts.OneLeafTables(cfg, p.va, cfg, va);
      var attrs := Walk(cfg, mem, p.va).region.attrs;
      Keys.MatchesMeaning(EntryFor(p, attrs), va, p.asid);
      StoredBlock(p, p.va, attrs);
      assert !EntryTrueOf(cfg, mem, p, va);
    }
  }

  ghost predicate MatchesRight(cfg: Config, p: Query, va: u64) {
    forall mem: Memory :: EntryTrueOf(cfg, mem, p, va)
  }

  /** `matches` is right for every entry, address and page table exactly when no gigabyte is divided. */
  lemma MatchesEverywhereExact(cfg: Config)
    ensures (forall p: Query, va: u64 :: MatchesRight(cfg, p, va)) <==> WalkFacts.Uncut(cfg, 30)
  {
    PowerTable();
    if WalkFacts.Uncut(cfg, 30) {
      forall p: Query, va: u64
        ensures MatchesRight(cfg, p, va)
      {
        MatchesRightUncut(cfg, p, va);
      }
    } else {
      WalkFacts.CutBlock(cfg, 30);
      var p, va: u64 := Query(0, 0), RangeEdge(cfg.T0sz());
      MatchesExact(cfg, p, va);
      assert !MatchesRight(cfg, p, va);
    }
  }

  lemma MatchesRightUncut(cfg: Config, p: Query, va: u64)
    requires WalkFacts.Uncut(cfg, 30)
    ensures MatchesRight(cfg, p, va)
  {
    forall mem: Memory
      ensures EntryTrueOf(cfg, mem, p, va)
    {
      if Walk(cfg, mem, p.va).Mapped? {
        var attrs := Walk(cfg, mem, p.va).region.attrs;
        WalkFacts.ResultArithmetic(cfg, mem, p.va);
        Keys.MatchesMeaning(EntryFor(p, attrs), va, p.asid);
        StoredBlock(p, p.va, attrs);
        if EntryFor(p, attrs).Matches(va, p.asid) {
          GigabyteBlock(p.va, va, attrs.size);
          PowerTable();
          WalkFacts.SelectionPerBlock(cfg, p.va, va, 30);
          WalkFacts.BlockLinearity(cfg, mem, p.va, va);
        }
      }
    }
  }
}
