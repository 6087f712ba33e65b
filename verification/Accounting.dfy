/** Conservation laws over runs: capacity, entries, counters, ASID isolation, and the shipped descriptor read. */
module Accounting {
  import opened Bits
  import opened PageTables
  import WalkFacts
  import opened Mmu
  import Keys
  import opened Coherence

  // ------------------------------------------------------------- conservation

  /**
   What an observer counts from the answers and from the keys that come and go.
   The first four are since the last `ResetStats`, the others since power-on.
   */
  datatype Ledger = Ledger(calls: nat, hits: nat, noAddress: nat, mapped: nat,
                           filled: nat, evicted: nat, removed: nat)

  const EMPTY_LEDGER := Ledger(0, 0, 0, 0, 0, 0, 0)

  function LedgerAfter(l: Ledger, w: World, op: Op): Ledger {
    var gone := |w.s.tlb.Keys - Step(w, op).s.tlb.Keys|;
    match op
    case Translate(q, _) =>
      var answer := TranslateAnswer(w.s, w.mem, q);
      var found := Hit(w.s.tlb, q);
      var stored := if !found && answer.Address? then 1 else 0;
      Ledger(l.calls + 1, l.hits + (if found then 1 else 0), l.noAddress + (if answer == NoAddress then 1 else 0),
             l.mapped + stored, l.filled + stored, l.evicted + gone, l.removed)
    case ResetStats => Ledger(0, 0, 0, 0, l.filled, l.evicted, l.removed)
    case _ => l.(removed := l.removed + gone)
  }

  function LedgerRun(l: Ledger, w: World, ops: seq<Op>): Ledger
    decreases |ops|
  {
    if ops == [] then l else LedgerRun(LedgerAfter(l, w, ops[0]), Step(w, ops[0]), ops[1..])
  }

  /** The victim is a live entry, and no translation runs into undefined behaviour. */
  ghost predicate LegalOp(w: World, op: Op) {
    op.Translate? ==> LegalVictim(w.s, op.victim) && TranslateAnswer(w.s, w.mem, op.q) != Crash
  }

  ghost predicate LegalRun(w: World, ops: seq<Op>)
    decreases |ops|
  {
    ops == [] || (LegalOp(w, ops[0]) && LegalRun(Step(w, ops[0]), ops[1..]))
  }

  ghost predicate AllValid(tlb: Tlb) {
    forall k :: k in tlb ==> tlb[k].valid
  }

  /** Entries: what was filled is live, evicted, or removed by an invalidation. */
  ghost predicate EntriesBalanced(s: State, l: Ledger) {
    && AllValid(s.tlb)
    && |s.tlb| <= s.capacity
    && l.filled == |s.tlb| + l.evicted + l.removed
  }

  /** Counters: every call is a hit, a fault or a fill, and the four counters follow modulo 2^64. */
  ghost predicate CountersBalanced(s: State, l: Ledger) {
    && l.calls == l.hits + l.noAddress + l.mapped
    && s.stats == Tally(l.hits, l.calls - l.hits, l.noAddress)
  }

  ghost predicate Balanced(w: World, l: Ledger) {
    EntriesBalanced(w.s, l) && CountersBalanced(w.s, l)
  }

  lemma KeyCount<V>(m: map<nat, V>)
    ensures |m| == |m.Keys|
  {
  }

  lemma RemovedKeys<V>(before: map<nat, V>, after: map<nat, V>)
    requires after.Keys <= before.Keys
    ensures |before| == |after| + |before.Keys - after.Keys|
  {
    KeyCount(before);
    KeyCount(after);
    assert before.Keys == after.Keys + (before.Keys - after.Keys);
  }

  lemma EvictCount(s: State, victim: nat)
    requires LegalVictim(s, victim) && 1 <= s.capacity && |s.tlb| <= s.capacity
    ensures var gone := |s.tlb.Keys - Evict(s, victim).Keys|;
      gone == (if |s.tlb| == s.capacity then 1 else 0) && |Evict(s, victim)| + gone == |s.tlb|
  {
    RemovedKeys(s.tlb, Evict(s, victim));
    if |s.tlb| >= s.capacity {
      assert s.tlb.Keys - Evict(s, victim).Keys == {victim};
    } else {
      assert s.tlb.Keys - Evict(s, victim).Keys == {};
    }
  }

  lemma InsertCount<V>(m: map<nat, V>, k: nat, v: V)
    requires k !in m
    ensures |m[k := v]| == |m| + 1
  {
    assert m[k := v].Keys == m.Keys + {k};
    KeyCount(m);
    KeyCount(m[k := v]);
  }

  /** A fill evicts one entry when the TLB is full and none otherwise. */
  lemma FillCount(w: World, q: Query, victim: nat)
    requires AllValid(w.s.tlb) && LegalVictim(w.s, victim) && 1 <= w.s.capacity && |w.s.tlb| <= w.s.capacity
    requires !Hit(w.s.tlb, q) && Walk(w.s.cfg, w.mem, q.va).Mapped?
    ensures var tlb' := Step(w, Translate(q, victim)).s.tlb;
      var gone := |w.s.tlb.Keys - tlb'.Keys|;
      && |tlb'| + gone == |w.s.tlb| + 1 && |tlb'| <= w.s.capacity && AllValid(tlb')
      && gone == (if |w.s.tlb| == w.s.capacity then 1 else 0)
  {
    var kept := Evict(w.s, victim);
    var entry := EntryFor(q, Walk(w.s.cfg, w.mem, q.va).region.attrs);
    assert Step(w, Translate(q, victim)).s.tlb == kept[Key(q) := entry];
    EvictCount(w.s, victim);
    InsertCount(kept, Key(q), entry);
    assert w.s.tlb.Keys - kept[Key(q) := entry].Keys == w.s.tlb.Keys - kept.Keys;
  }

  lemma CountOne(n: nat)
    ensures Inc64(n % WORD) == (n + 1) % WORD
  {
  }

  /** The four counters that a number of hits, misses and faults amounts to. */
  function Tally(hits: nat, misses: nat, faults: nat): Stats {
    Stats(hits % WORD, misses % WORD, misses % WORD, faults % WORD)
  }

  lemma TallyHit(hits: nat, misses: nat, faults: nat)
    ensures var t := Tally(hits, misses, faults);
      Tally(hits + 1, misses, faults) == t.(hits := Inc64(t.hits))
  {
    CountOne(hits);
  }

  lemma TallyMiss(hits: nat, misses: nat, faults: nat)
    ensures var t := Tally(hits, misses, faults);
      Tally(hits, misses + 1, faults) == t.(misses := Inc64(t.misses), walks := Inc64(t.walks))
    ensures var t := Tally(hits, misses, faults);
      Tally(hits, misses + 1, faults + 1)
        == t.(misses := Inc64(t.misses), walks := Inc64(t.walks), faults := Inc64(t.faults))
  {
    CountOne(misses);
    CountOne(faults);
  }

  lemma HitCounts(s: State, l: Ledger, s': State, l': Ledger)
    requires CountersBalanced(s, l) && s'.stats == s.stats.(hits := Inc64(s.stats.hits))
    requires l'.calls == l.calls + 1 && l'.hits == l.hits + 1 && l'.noAddress == l.noAddress && l'.mapped == l.mapped
    ensures CountersBalanced(s', l')
  {
    TallyHit(l.hits, l.calls - l.hits, l.noAddress);
    assert l'.calls - l'.hits == l.calls - l.hits;
  }

  lemma MissCounts(s: State, l: Ledger, s': State, l': Ledger, fault: bool)
    requires CountersBalanced(s, l)
    requires var t := s.stats.(misses := Inc64(s.stats.misses), walks := Inc64(s.stats.walks));
      s'.stats == if fault then t.(faults := Inc64(t.faults)) else t
    requires l'.calls == l.calls + 1 && l'.hits == l.hits
    requires l'.noAddress == l.noAddress + (if fault then 1 else 0) && l'.mapped == l.mapped + (if fault then 0 else 1)
    ensures CountersBalanced(s', l')
  {
    TallyMiss(l.hits, l.calls - l.hits, l.noAddress);
    assert l'.calls - l'.hits == l.calls - l.hits + 1;
  }

  lemma TranslateCounters(w: World, l: Ledger, q: Query, victim: nat)
    requires CountersBalanced(w.s, l) && LegalOp(w, Translate(q, victim))
    ensures CountersBalanced(Step(w, Translate(q, victim)).s, LedgerAfter(l, w, Translate(q, victim)))
  {
    var s', l' := Step(w, Translate(q, victim)).s, LedgerAfter(l, w, Translate(q, victim));
    if Hit(w.s.tlb, q) {
      HitCounts(w.s, l, s', l');
    } else {
      MissCounts(w.s, l, s', l', Walk(w.s.cfg, w.mem, q.va).Fault?);
    }
  }

  lemma TranslateEntries(w: World, l: Ledger, q: Query, victim: nat)
    requires EntriesBalanced(w.s, l) && LegalOp(w, Translate(q, victim)) && 1 <= w.s.capacity
    ensures EntriesBalanced(Step(w, Translate(q, victim)).s, LedgerAfter(l, w, Translate(q, victim)))
  {
    if !Hit(w.s.tlb, q) && Walk(w.s.cfg, w.mem, q.va).Mapped? {
      FillCount(w, q, victim);
    } else {
      assert w.s.tlb.Keys - Step(w, Translate(q, victim)).s.tlb.Keys == {};
    }
  }

  lemma ResetBalances(w: World, l: Ledger)
    requires Balanced(w, l)
    ensures Balanced(Step(w, ResetStats), LedgerAfter(l, w, ResetStats))
  {
  }

  lemma OnlyRemoves(w: World, op: Op)
    requires AllValid(w.s.tlb) && !op.Translate? && !op.ResetStats?
    ensures Step(w, op).s.tlb.Keys <= w.s.tlb.Keys && AllValid(Step(w, op).s.tlb)
    ensures Step(w, op).s.stats == w.s.stats && Step(w, op).s.capacity == w.s.capacity
  {
  }

  lemma EntriesRemoved(s: State, s': State, l: Ledger)
    requires EntriesBalanced(s, l) && AllValid(s'.tlb) && s'.tlb.Keys <= s.tlb.Keys && s'.capacity == s.capacity
    ensures EntriesBalanced(s', l.(removed := l.removed + |s.tlb.Keys - s'.tlb.Keys|))
  {
    RemovedKeys(s.tlb, s'.tlb);
  }

  lemma OtherLedger(l: Ledger, w: World, op: Op)
    requires !op.Translate? && !op.ResetStats?
    ensures LedgerAfter(l, w, op) == l.(removed := l.removed + |w.s.tlb.Keys - Step(w, op).s.tlb.Keys|)
  {
  }

  lemma CountersUnmoved(s: State, s': State, l: Ledger, l': Ledger)
    requires CountersBalanced(s, l) && s'.stats == s.stats
    requires l' == l.(removed := l'.removed)
    ensures CountersBalanced(s', l')
  {
  }

  lemma InvalidationBalances(w: World, l: Ledger, op: Op)
    requires Balanced(w, l) && !op.Translate? && !op.ResetStats?
    ensures Balanced(Step(w, op), LedgerAfter(l, w, op))
  {
    var s', l' := Step(w, op).s, LedgerAfter(l, w, op);
    OnlyRemoves(w, op);
    OtherLedger(l, w, op);
    EntriesRemoved(w.s, s', l);
    CountersUnmoved(w.s, s', l, l');
  }

  lemma StepBalances(w: World, l: Ledger, op: Op)
    requires Balanced(w, l) && LegalOp(w, op) && 1 <= w.s.capacity
    ensures Balanced(Step(w, op), LedgerAfter(l, w, op))
  {
    if op.Translate? {
      TranslateCounters(w, l, op.q, op.victim);
      TranslateEntries(w, l, op.q, op.victim);
    } else if op.ResetStats? {
      ResetBalances(w, l);
    } else {
      InvalidationBalances(w, l, op);
    }
  }

  lemma CapacityStays(w: World, op: Op)
    ensures Step(w, op).s.capacity == w.s.capacity
  {
  }

  lemma {:induction false} RunBalances(w: World, l: Ledger, ops: seq<Op>)
    requires Balanced(w, l) && LegalRun(w, ops) && 1 <= w.s.capacity
    ensures Balanced(Run(w, ops), LedgerRun(l, w, ops)) && Run(w, ops).s.capacity == w.s.capacity
    decreases |ops|
  {
    if ops != [] {
      StepBalances(w, l, ops[0]);
      CapacityStays(w, ops[0]);
      RunBalances(Step(w, ops[0]), LedgerAfter(l, w, ops[0]), ops[1..]);
    }
  }

  ghost predicate PowerOn(w: World) {
    w.s.capacity >= 1 && w.s == Initial(w.s.capacity)
  }

  /** The laws a reader of the four counters and of the TLB can rely on. */
  ghost predicate Conserved(w: World, l: Ledger) {
    && |w.s.tlb| <= w.s.capacity
    && l.filled == |w.s.tlb| + l.evicted + l.removed
    && (w.s.stats.hits + w.s.stats.misses) % WORD == l.calls % WORD
    && w.s.stats.misses == w.s.stats.walks == (l.noAddress + l.mapped) % WORD
    && w.s.stats.faults == l.noAddress % WORD
  }

  /** Capacity, entries and counters on every legal run from power-on. */
  lemma Conservation(w: World, ops: seq<Op>)
    requires PowerOn(w) && LegalRun(w, ops)
    ensures Run(w, ops).s.capacity == w.s.capacity
    ensures Conserved(Run(w, ops), LedgerRun(EMPTY_LEDGER, w, ops))
  {
    RunBalances(w, EMPTY_LEDGER, ops);
    CountersAddUp(Run(w, ops), LedgerRun(EMPTY_LEDGER, w, ops));
  }

  lemma CountersAddUp(w: World, l: Ledger)
    requires Balanced(w, l)
    ensures Conserved(w, l)
  {
    var a, b := l.hits, l.calls - l.hits;
    assert w.s.stats.hits == a % WORD && w.s.stats.misses == b % WORD;
    SplitMod(a, b);
    assert a + b == l.calls;
  }

  lemma SplitMod(a: nat, b: nat)
    ensures (a % WORD + b % WORD) % WORD == (a + b) % WORD
  {
  }

  /** Every live entry is valid, of a leaf size, and aligned to it on both sides. */
  lemma EntriesAligned(capacity: nat, mem: Memory, ops: seq<Op>, k: nat)
    requires k in Run(World(Initial(capacity), mem), ops).s.tlb
    ensures var e := Run(World(Initial(capacity), mem), ops).s.tlb[k];
      e.valid && WalkFacts.WellShaped(e.attrs) && e.virtualAddress % e.attrs.size == 0
  {
    var w := World(Initial(capacity), mem);
    InitiallyCoherent(capacity, mem);
    RunKeeps(w, FLUSHED, ops);
    var h :| Explains(Run(w, ops), MonitorRun(FLUSHED, Config(0, 0, 0), mem, ops), k, h);
    WalkFacts.RoundedDown(h.q.va, Run(w, ops).s.tlb[k].attrs.size);
  }

  /** On every run, hit or miss, stale or not, an answer lies in its region and keeps the offset. */
  lemma AnswerArithmetic(capacity: nat, mem: Memory, ops: seq<Op>, q: Query)
    requires var w := Run(World(Initial(capacity), mem), ops);
      TranslateAnswer(w.s, w.mem, q).Address?
    ensures var w := Run(World(Initial(capacity), mem), ops);
      var a := TranslateAnswer(w.s, w.mem, q);
      && WalkFacts.WellShaped(a.attrs) && a.attrs.base <= a.pa < a.attrs.base + a.attrs.size <= WINDOW
      && a.pa % a.attrs.size == q.va % a.attrs.size
  {
    var w := Run(World(Initial(capacity), mem), ops);
    if Hit(w.s.tlb, q) {
      EntriesAligned(capacity, mem, ops, Key(q));
    } else {
      WalkFacts.ResultArithmetic(w.s.cfg, w.mem, q.va);
    }
    WalkFacts.ShapedAddress(TranslateAnswer(w.s, w.mem, q).attrs, q.va);
  }

  // ------------------------------------------------------- the shipped program

  /** Descriptors always read as 0: nothing is ever cached, and every walk faults. */
  lemma {:induction false} StubNeverCaches(w: World, ops: seq<Op>)
    requires w.mem == map[] && w.s.tlb == map[] && NoWrites(ops)
    ensures Run(w, ops).mem == map[] && Run(w, ops).s.tlb == map[]
    ensures forall a <- Answers(w, ops) :: !a.Address?
    decreases |ops|
  {
    if ops != [] {
      assert !ops[0].WriteDescriptor?;
      if ops[0].Translate? {
        assert !Walk(w.s.cfg, w.mem, ops[0].q.va).Mapped?;
      }
      StubNeverCaches(Step(w, ops[0]), ops[1..]);
    }
  }

  /** As shipped, a legal run reports no hits and as many faults as walks and misses. */
  lemma StubCounters(w: World, ops: seq<Op>)
    requires PowerOn(w) && w.mem == map[] && NoWrites(ops) && LegalRun(w, ops)
    ensures var stats := Run(w, ops).s.stats;
      stats.hits == 0 && stats.misses == stats.walks == stats.faults
  {
    RunBalances(w, EMPTY_LEDGER, ops);
    StubLedger(w, EMPTY_LEDGER, ops);
    AllFaults(Run(w, ops), LedgerRun(EMPTY_LEDGER, w, ops));
  }

  lemma AllFaults(w: World, l: Ledger)
    requires Balanced(w, l) && l.hits == 0 && l.mapped == 0
    ensures w.s.stats.hits == 0 && w.s.stats.misses == w.s.stats.walks == w.s.stats.faults
  {
    assert l.calls - l.hits == l.noAddress;
  }

  lemma {:induction false} StubLedger(w: World, l: Ledger, ops: seq<Op>)
    requires w.mem == map[] && w.s.tlb == map[] && NoWrites(ops)
    requires l.hits == 0 && l.mapped == 0
    ensures LedgerRun(l, w, ops).hits == 0 && LedgerRun(l, w, ops).mapped == 0
    decreases |ops|
  {
    if ops != [] {
      StubNeverCaches(w, [ops[0]]);
      assert Run(w, [ops[0]]) == Run(Step(w, ops[0]), []);
      StubLedger(Step(w, ops[0]), LedgerAfter(l, w, ops[0]), ops[1..]);
    }
  }

  // ------------------------------------------------------------ invalidation

  /**
   ASID isolation below 2^48, after any run of a guest, kernel addresses included: invalidating an ASID makes
   exactly the lookups under that ASID miss (all lookups for 0xFFFF) and leaves every other entry in place.
   */
  lemma AsidIsolation(g: Guest, capacity: nat, mem: Memory, ops: seq<Op>, asid: u16, q: Query)
    requires AsksOnly(g, ops) && Asks(g, q) && q.va < WINDOW
    ensures var w := Run(World(Initial(capacity), mem), ops);
      var tlb' := Step(w, InvalidateAsid(asid)).s.tlb;
      && (Hit(tlb', q) <==> Hit(w.s.tlb, q) && q.asid != asid && asid != 0xFFFF)
      && (Hit(tlb', q) ==> tlb'[Key(q)] == w.s.tlb[Key(q)])
  {
    if Key(q) in Run(World(Initial(capacity), mem), ops).s.tlb {
      var h := LowOrigin(g, capacity, mem, ops, q);
    }
  }

  /** A key that is absent stays absent until it is translated again. */
  lemma {:induction false} MissesUntilTranslated(w: World, ops: seq<Op>, k: nat)
    requires k !in w.s.tlb
    requires forall op <- ops :: op.Translate? ==> Key(op.q) != k
    ensures k !in Run(w, ops).s.tlb
    decreases |ops|
  {
    if ops != [] {
      assert ops[0] in ops;
      MissesUntilTranslated(Step(w, ops[0]), ops[1..], k);
    }
  }

  /**
   A fault is never cached: after any run, a query that was answered without an address is answered by the
   walk of the moment, whatever was written, set, invalidated or translated under other keys since.
   */
  lemma FaultIsNotCached(capacity: nat, mem: Memory, before: seq<Op>, q: Query, victim: nat, between: seq<Op>)
    requires var w := Run(World(Initial(capacity), mem), before);
      TranslateAnswer(w.s, w.mem, q) == NoAddress
    requires forall op <- between :: op.Translate? ==> Key(op.q) != Key(q)
    ensures var w := Run(Step(Run(World(Initial(capacity), mem), before), Translate(q, victim)), between);
      TranslateAnswer(w.s, w.mem, q) == WalkAnswer(w.s.cfg, w.mem, q.va)
  {
    var w := Run(World(Initial(capacity), mem), before);
    if Key(q) in w.s.tlb {
      EntriesAligned(capacity, mem, before, Key(q));
    }
    MissesUntilTranslated(Step(w, Translate(q, victim)), between, Key(q));
  }

  /** The first lookup under an invalidated ASID misses, whatever else happens in between. */
  lemma FirstLookupMisses(
      g: Guest, capacity: nat, mem: Memory, before: seq<Op>, asid: u16, after: seq<Op>, q: Query)
    requires AsksOnly(g, before) && Asks(g, q) && q.va < WINDOW && (q.asid == asid || asid == 0xFFFF)
    requires forall op <- after :: op.Translate? ==> Key(op.q) != Key(q)
    ensures !Hit(Run(Step(Run(World(Initial(capacity), mem), before), InvalidateAsid(asid)), after).s.tlb, q)
  {
    var w := Run(World(Initial(capacity), mem), before);
    if Key(q) in w.s.tlb {
      var h := LowOrigin(g, capacity, mem, before, q);
      EntriesAligned(capacity, mem, before, Key(q));
    }
    MissesUntilTranslated(Step(w, InvalidateAsid(asid)), after, Key(q));
  }

  // -------------------------------------------------------------- the cache caches

  /** The operation takes the entry under `k` away: eviction, invalidation or flush. */
  ghost predicate Removes(w: World, op: Op, k: nat)
    requires k in w.s.tlb
  {
    match op
    case Translate(_, victim) => Evicts(w, op) && victim == k
    case InvalidateVa(q) => Key(q) == k
    case InvalidateAsid(asid) => w.s.tlb[k].valid && (w.s.tlb[k].asid == asid || asid == 0xFFFF)
    case ResetStats => false
    case WriteDescriptor(_, _) => false
    case _ => true
  }

  /** An operation leaves an entry exactly as it was unless it removes it. */
  lemma StepRetains(w: World, op: Op, k: nat)
    requires k in w.s.tlb && w.s.tlb[k].valid
    ensures k in Step(w, op).s.tlb && Step(w, op).s.tlb[k] == w.s.tlb[k] <==> !Removes(w, op, k)
  {
    if op.Translate? {
      TranslateTlb(w, op.q, op.victim);
    }
  }

  /** No operation of the run removes the entry under `k`. */
  ghost predicate Untouched(w: World, ops: seq<Op>, k: nat)
    decreases |ops|
  {
    ops == [] || (k in w.s.tlb && !Removes(w, ops[0], k) && Untouched(Step(w, ops[0]), ops[1..], k))
  }

  lemma {:induction false} RunRetains(w: World, ops: seq<Op>, k: nat)
    requires k in w.s.tlb && w.s.tlb[k].valid && Untouched(w, ops, k)
    ensures k in Run(w, ops).s.tlb && Run(w, ops).s.tlb[k] == w.s.tlb[k]
    decreases |ops|
  {
    if ops != [] {
      StepRetains(w, ops[0], k);
      RunRetains(Step(w, ops[0]), ops[1..], k);
    }
  }

  /**
   The TLB caches: once a query was answered with an address, every query with its key hits and is given the same
   region, whatever page-table writes and other calls come between, until that entry is removed.
   */
  lemma HitsUntilRemoved(w: World, q: Query, victim: nat, between: seq<Op>, again: Query)
    requires TranslateAnswer(w.s, w.mem, q).Address? && Key(again) == Key(q)
    requires Untouched(Step(w, Translate(q, victim)), between, Key(q))
    ensures var w' := Run(Step(w, Translate(q, victim)), between);
      && Hit(w'.s.tlb, again)
      && TranslateAnswer(w'.s, w'.mem, again).attrs == TranslateAnswer(w.s, w.mem, q).attrs
  {
    var w1 := Step(w, Translate(q, victim));
    assert Key(q) in w1.s.tlb && w1.s.tlb[Key(q)].valid;
    RunRetains(w1, between, Key(q));
  }

  // ------------------------------------------------- how far isolation reaches

  /** After this run, invalidating the ASID of `q` makes the lookup of `q` miss. */
  ghost predicate Isolated(capacity: nat, mem: Memory, ops: seq<Op>, q: Query) {
    !Hit(Step(Run(World(Initial(capacity), mem), ops), InvalidateAsid(q.asid)).s.tlb, q)
  }

  /** Both ranges of 2^63 bytes: every address walks from the table at 0 after power-on. */
  const FULL_TCR: u64 := 0x1_0001

  function OneTranslation(p: Query): seq<Op> {
    [SetTcr(FULL_TCR), Translate(p, 0)]
  }

  lemma MappedAtRoot(mem: Memory, va: nat)
    requires Read(mem, Slot(va, 0, 0)).valid && !Read(mem, Slot(va, 0, 0)).table
    ensures Walk(Config(0, 0, FULL_TCR), mem, va).Mapped?
  {
    WalkFacts.OneTable(Config(0, 0, FULL_TCR), va);
  }

  lemma AfterOneTranslation(capacity: nat, mem: Memory, p: Query)
    ensures var w := Step(World(Initial(capacity), mem), SetTcr(FULL_TCR));
      Run(World(Initial(capacity), mem), OneTranslation(p)) == Step(w, Translate(p, 0))
  {
    var w, ops := Step(World(Initial(capacity), mem), SetTcr(FULL_TCR)), OneTranslation(p);
    assert ops[1..] == [Translate(p, 0)];
    assert Run(w, ops[1..]) == Run(Step(w, Translate(p, 0)), []);
  }

  /** A translation under another ASID but the same key defeats the invalidation. */
  lemma SharedKeyDefeats(capacity: nat, p: Query, q: Query) returns (mem: Memory)
    requires capacity >= 1 && Key(p) == Key(q) && p.asid != q.asid && q.asid != 0xFFFF
    ensures !Isolated(capacity, mem, OneTranslation(p), q)
  {
    mem := map[Slot(p.va, 0, 0) := ZERO.(valid := true)];
    var w := Step(World(Initial(capacity), mem), SetTcr(FULL_TCR));
    MappedAtRoot(mem, p.va);
    AfterOneTranslation(capacity, mem, p);
    var tlb := Step(w, Translate(p, 0)).s.tlb;
    assert Key(q) in tlb && tlb[Key(q)].valid && tlb[Key(q)].asid == p.asid;
  }

  /** For canonical guests an invalidated ASID is gone after every run exactly for the addresses below 2^48. */
  lemma IsolationExact(capacity: nat, q: Query)
    requires capacity >= 1 && Asks(CanonicalGuest, q)
    ensures (forall mem: Memory, ops: seq<Op> :: AsksOnly(CanonicalGuest, ops) ==> Isolated(capacity, mem, ops, q))
      <==> q.va < WINDOW || q.asid == 0xFFFF
  {
    if q.va < WINDOW {
      forall mem: Memory, ops: seq<Op> | AsksOnly(CanonicalGuest, ops)
        ensures Isolated(capacity, mem, ops, q)
      {
        AsidIsolation(CanonicalGuest, capacity, mem, ops, q.asid, q);
      }
    } else if q.asid == 0xFFFF {
      forall mem: Memory, ops: seq<Op> | AsksOnly(CanonicalGuest, ops)
        ensures Isolated(capacity, mem, ops, q)
      {
        AllOnesAsidClears(capacity, mem, ops, q);
      }
    } else {
      var p := Query(q.va, if q.asid == 0 then 1 else 0);
      TopAddressesIgnoreAsid(q.va, p.asid, q.asid);
      var mem := SharedKeyDefeats(capacity, p, q);
      assert AsksOnly(CanonicalGuest, OneTranslation(p));
    }
  }

  /** After this run, an entry found under the key of `q` matches `q`. */
  ghost predicate FoundMatches(capacity: nat, mem: Memory, ops: seq<Op>, q: Query) {
    var tlb := Run(World(Initial(capacity), mem), ops).s.tlb;
    Hit(tlb, q) ==> tlb[Key(q)].Matches(q.va, q.asid)
  }

  /** For canonical guests the entry found under a query's key matches it after every run exactly below 2^48. */
  lemma KeySoundnessExact(capacity: nat, q: Query)
    requires capacity >= 1 && Asks(CanonicalGuest, q)
    ensures (forall mem: Memory, ops: seq<Op> :: AsksOnly(CanonicalGuest, ops) ==> FoundMatches(capacity, mem, ops, q))
      <==> q.va < WINDOW
  {
    if q.va < WINDOW {
      forall mem: Memory, ops: seq<Op> | AsksOnly(CanonicalGuest, ops)
        ensures FoundMatches(capacity, mem, ops, q)
      {
        if Hit(Run(World(Initial(capacity), mem), ops).s.tlb, q) {
          KeySoundness(CanonicalGuest, capacity, mem, ops, q);
        }
      }
    } else {
      var p := Query(q.va, if q.asid == 0 then 1 else 0);
      TopAddressesIgnoreAsid(q.va, p.asid, q.asid);
      var mem := ForeignEntry(capacity, p, q);
      assert AsksOnly(CanonicalGuest, OneTranslation(p)) && !FoundMatches(capacity, mem, OneTranslation(p), q);
    }
  }

  /** A translation under another ASID but the same key leaves an entry that does not match. */
  lemma ForeignEntry(capacity: nat, p: Query, q: Query) returns (mem: Memory)
    requires capacity >= 1 && Key(p) == Key(q) && p.asid != q.asid && p.asid != 0xFFFF
    ensures !FoundMatches(capacity, mem, OneTranslation(p), q)
  {
    mem := map[Slot(p.va, 0, 0) := ZERO.(valid := true)];
    MappedAtRoot(mem, p.va);
    AfterOneTranslation(capacity, mem, p);
    var tlb := Step(Step(World(Initial(capacity), mem), SetTcr(FULL_TCR)), Translate(p, 0)).s.tlb;
    assert Key(q) in tlb && tlb[Key(q)].valid && tlb[Key(q)].asid == p.asid;
  }

  lemma AllOnesAsidClears(capacity: nat, mem: Memory, ops: seq<Op>, q: Query)
    requires q.asid == 0xFFFF
    ensures Isolated(capacity, mem, ops, q)
  {
    if Key(q) in Run(World(Initial(capacity), mem), ops).s.tlb {
      EntriesAligned(capacity, mem, ops, Key(q));
    }
  }

  /** Without any discipline on the addresses only ASID 0 below 2^48, and the wildcard, are isolated on every run. */
  lemma IsolationAnyRun(capacity: nat, q: Query)
    requires capacity >= 1
    ensures (forall mem: Memory, ops: seq<Op> :: Isolated(capacity, mem, ops, q))
      <==> q.asid == 0xFFFF || (q.va < WINDOW && q.asid == 0)
  {
    if q.asid == 0xFFFF {
      forall mem: Memory, ops: seq<Op>
        ensures Isolated(capacity, mem, ops, q)
      {
        AllOnesAsidClears(capacity, mem, ops, q);
      }
    } else if q.va < WINDOW && q.asid == 0 {
      forall mem: Memory, ops: seq<Op>
        ensures Isolated(capacity, mem, ops, q)
      {
        ZeroAsidClears(capacity, mem, ops, q);
      }
    } else {
      var p := OtherAsid(q);
      var mem := SharedKeyDefeats(capacity, p, q);
    }
  }

  /** An entry under the key of a low query of ASID 0 is of ASID 0. */
  lemma ZeroAsidEntry(capacity: nat, mem: Memory, ops: seq<Op>, q: Query)
    requires q.va < WINDOW && q.asid == 0 && Key(q) in Run(World(Initial(capacity), mem), ops).s.tlb
    ensures Run(World(Initial(capacity), mem), ops).s.tlb[Key(q)].asid == 0
  {
    InitiallyCoherent(capacity, mem);
    RunKeeps(World(Initial(capacity), mem), FLUSHED, ops);
    var h :| Explains(Run(World(Initial(capacity), mem), ops),
                      MonitorRun(FLUSHED, Config(0, 0, 0), mem, ops), Key(q), h);
    ZeroTag(h.q, q);
  }

  lemma ZeroAsidClears(capacity: nat, mem: Memory, ops: seq<Op>, q: Query)
    requires q.va < WINDOW && q.asid == 0
    ensures Isolated(capacity, mem, ops, q)
  {
    if Key(q) in Run(World(Initial(capacity), mem), ops).s.tlb {
      ZeroAsidEntry(capacity, mem, ops, q);
    }
  }

  lemma ZeroTag(p: Query, q: Query)
    requires Key(p) == Key(q) && q.va < WINDOW && q.asid == 0
    ensures p.asid == 0
  {
    Keys.KeyEquality(p, q);
    OrCovers(p.va / WINDOW, p.asid);
  }

  /** A query with the key of `q` under another ASID. */
  lemma OtherAsid(q: Query) returns (p: Query)
    requires q.asid != 0 || q.va >= WINDOW
    ensures Key(p) == Key(q) && p.asid != q.asid
  {
    Keys.KeyParts(q);
    var top: u16 := Key(q) / WINDOW;
    var low := q.va % WINDOW;
    if q.asid != 0 {
      p := Query(top * WINDOW + low, 0);
      DivModUnique(p.va, WINDOW, top, low);
    } else {
      p := Query(low, top);
      DivModUnique(p.va, WINDOW, 0, low);
      OrCovers(q.va / WINDOW, 0);
    }
    Keys.KeyEquality(p, q);
  }

  /** Where one translation filled the TLB: the entry of ASID `b` survives and answers `a` exactly if the keys agree. */
  lemma SurvivesInvalidation(capacity: nat, cfg: Config, mem: Memory, va: u64, a: u16, b: u16)
    requires capacity >= 1 && a != b && a != 0xFFFF && Walk(cfg, mem, va).Mapped?
    ensures var w := Step(World(State(capacity, map[], cfg, NO_STATS), mem), Translate(Query(va, b), 0));
      Hit(Step(w, InvalidateAsid(a)).s.tlb, Query(va, a)) <==> Or(va / WINDOW, a) == Or(va / WINDOW, b)
  {
    Keys.KeyEquality(Query(va, a), Query(va, b));
  }

  // ------------------------------------------- the other ASIDs, from then on

  /** The tags, bits 63:48 of a key, under which an entry may have been stored for the ASID. */
  function Tags(g: Guest, asid: u16): set<nat> {
    match g
    case CanonicalGuest => {asid, 0xFFFF}
    case LowGuest => {asid}
  }

  /** Two TLBs agree on every key with another tag. */
  ghost predicate AgreeBeside(t: Tlb, t': Tlb, tags: set<nat>) {
    forall k :: k / WINDOW !in tags ==> (k in t <==> k in t') && (k in t ==> t[k] == t'[k])
  }

  ghost predicate SameButTlb(w: World, w': World, tags: set<nat>) {
    && w.mem == w'.mem && w.s.cfg == w'.s.cfg && w.s.capacity == w'.s.capacity
    && AgreeBeside(w.s.tlb, w'.s.tlb, tags)
  }

  /** A fill that finds the TLB full: the one case in which an entry is evicted. */
  ghost predicate Evicts(w: World, op: Op) {
    && op.Translate? && !Hit(w.s.tlb, op.q) && Walk(w.s.cfg, w.mem, op.q.va).Mapped?
    && |w.s.tlb| >= w.s.capacity
  }

  /** The call evicts in both worlds or in neither, or its victim has one of the tags. */
  ghost predicate EvictsAlike(w: World, w': World, op: Op, tags: set<nat>) {
    op.Translate? ==> (Evicts(w, op) <==> Evicts(w', op)) || op.victim / WINDOW in tags
  }

  ghost predicate EvictAlike(w: World, w': World, ops: seq<Op>, tags: set<nat>)
    decreases |ops|
  {
    ops == [] || (EvictsAlike(w, w', ops[0], tags) && EvictAlike(Step(w, ops[0]), Step(w', ops[0]), ops[1..], tags))
  }

  /** The run evicts nothing. */
  ghost predicate NothingEvicted(w: World, ops: seq<Op>)
    decreases |ops|
  {
    ops == [] || (!Evicts(w, ops[0]) && NothingEvicted(Step(w, ops[0]), ops[1..]))
  }

  /** Runs that evict nothing do not differ in what they evict. */
  lemma {:induction false} NothingIsAlike(w: World, w': World, ops: seq<Op>, tags: set<nat>)
    requires NothingEvicted(w, ops) && NothingEvicted(w', ops)
    ensures EvictAlike(w, w', ops, tags)
    decreases |ops|
  {
    if ops != [] {
      NothingIsAlike(Step(w, ops[0]), Step(w', ops[0]), ops[1..], tags);
    }
  }

  /** What a translation leaves of the TLB, as an eviction and a store. */
  lemma TranslateTlb(w: World, q: Query, victim: nat)
    ensures var op := Translate(q, victim);
      var kept := if Evicts(w, op) then w.s.tlb - {victim} else w.s.tlb;
      Step(w, op).s.tlb ==
        if !Hit(w.s.tlb, q) && Walk(w.s.cfg, w.mem, q.va).Mapped?
        then kept[Key(q) := EntryFor(q, Walk(w.s.cfg, w.mem, q.va).region.attrs)] else kept
  {
  }

  lemma TranslateBeside(w: World, w': World, q: Query, victim: nat, tags: set<nat>)
    requires SameButTlb(w, w', tags) && EvictsAlike(w, w', Translate(q, victim), tags)
    ensures AgreeBeside(Step(w, Translate(q, victim)).s.tlb, Step(w', Translate(q, victim)).s.tlb, tags)
  {
    TranslateTlb(w, q, victim);
    TranslateTlb(w', q, victim);
  }

  lemma StepBeside(w: World, w': World, op: Op, tags: set<nat>)
    requires SameButTlb(w, w', tags) && EvictsAlike(w, w', op, tags)
    ensures SameButTlb(Step(w, op), Step(w', op), tags)
  {
    if op.Translate? {
      TranslateBeside(w, w', op.q, op.victim, tags);
    }
  }

  lemma {:induction false} RunBeside(w: World, w': World, ops: seq<Op>, tags: set<nat>)
    requires SameButTlb(w, w', tags) && EvictAlike(w, w', ops, tags)
    ensures SameButTlb(Run(w, ops), Run(w', ops), tags)
    decreases |ops|
  {
    if ops != [] {
      StepBeside(w, w', ops[0], tags);
      RunBeside(Step(w, ops[0]), Step(w', ops[0]), ops[1..], tags);
    }
  }

  /**
   After any run of a guest and an invalidation of one ASID, lookups of other ASIDs below 2^48 go on to hit and
   miss as they would have without it, with the same entries, as long as the two runs do not differ in evicting
   an entry of those other ASIDs; in particular, by the lemma above, as long as nothing is evicted.
   */
  lemma OthersUndisturbed(
      g: Guest, capacity: nat, mem: Memory, before: seq<Op>, asid: u16, after: seq<Op>, q: Query)
    requires AsksOnly(g, before) && Asks(g, q) && asid != 0xFFFF && q.va < WINDOW && q.asid != asid
    requires var w := Run(World(Initial(capacity), mem), before);
      EvictAlike(w, Step(w, InvalidateAsid(asid)), after, Tags(g, asid))
    ensures var w := Run(World(Initial(capacity), mem), before);
      var t, t' := Run(w, after).s.tlb, Run(Step(w, InvalidateAsid(asid)), after).s.tlb;
      (Hit(t, q) <==> Hit(t', q)) && (Hit(t, q) ==> t[Key(q)] == t'[Key(q)])
  {
    var w := Run(World(Initial(capacity), mem), before);
    var w' := Step(w, InvalidateAsid(asid));
    forall k | k in w.s.tlb && k / WINDOW !in Tags(g, asid)
      ensures w.s.tlb[k].asid != asid
    {
      TagOfKey(g, capacity, mem, before, k);
    }
    RunBeside(w, w', after, Tags(g, asid));
    Keys.KeyParts(q);
  }

  lemma TagOfKey(g: Guest, capacity: nat, mem: Memory, ops: seq<Op>, k: nat)
    requires AsksOnly(g, ops) && k in Run(World(Initial(capacity), mem), ops).s.tlb
    requires g.LowGuest? || k / WINDOW != 0xFFFF
    ensures Run(World(Initial(capacity), mem), ops).s.tlb[k].asid == k / WINDOW
  {
    InitiallyCoherent(capacity, mem);
    RunKeeps(World(Initial(capacity), mem), FLUSHED, ops);
    RunAskedBy(g, mem, ops);
    var h :| Explains(Run(World(Initial(capacity), mem), ops), MonitorRun(FLUSHED, Config(0, 0, 0), mem, ops), k, h);
    TagIsAsid(g, h.q);
  }

  lemma TagIsAsid(g: Guest, q: Query)
    requires Asks(g, q) && (g.LowGuest? || Key(q) / WINDOW != 0xFFFF)
    ensures Key(q) / WINDOW == q.asid
  {
    Keys.KeyParts(q);
    PowerTable();
    OrAllOnes(q.asid, 16);
  }

  /** For addresses whose top sixteen bits are ones the ASID does not count at all. */
  lemma TopAddressesIgnoreAsid(va: u64, a: u16, b: u16)
    requires va / WINDOW == 0xFFFF
    ensures Key(Query(va, a)) == Key(Query(va, b))
  {
    PowerTable();
    OrAllOnes(a, 16);
    OrAllOnes(b, 16);
  }

  /** `tlb_invalidate_va` clears one page of one ASID even when a larger block is cached page by page. */
  lemma InvalidateVaExact(w: World, gone: Query, q: Query)
    requires gone.va < WINDOW && q.va < WINDOW
    ensures Hit(Step(w, InvalidateVa(gone)).s.tlb, q)
      <==> Hit(w.s.tlb, q) && !(q.va / KB4 == gone.va / KB4 && q.asid == gone.asid)
  {
    Keys.KeyInjectiveLow(gone, q);
  }
}
