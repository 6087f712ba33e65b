/** When two queries share a TLB key, and what a stored entry's own tag says about a query. */
module Keys {
  import opened Bits
  import opened PageTables
  import WalkFacts
  import opened Mmu

  /** The key as the source computes it: mask the page, shift the ASID, or them. */
  function KeyBits(va: u64, asid: u16): nat {
    Or(And(va, Not64(0xFFF)), Shl64(asid, 48))
  }

  lemma KeyBitsMeaning(q: Query)
    ensures KeyBits(q.va, q.asid) == Key(q)
  {
    PageMask(q.va);
    TagShift(q.asid);
    PowerTable();
    OrParts(q.va / WINDOW, q.asid, (q.va % WINDOW) / KB4 * KB4, 48);
  }

  lemma PageMask(va: u64)
    ensures And(va, Not64(0xFFF)) == va / WINDOW * WINDOW + (va % WINDOW) / KB4 * KB4
  {
    PowerTable();
    AndHigh(va, 12);
    PageParts(va);
  }

  lemma TagShift(asid: u16)
    ensures Shl64(asid, 48) == asid * WINDOW
  {
    PowerTable();
  }

  lemma KeyParts(q: Query)
    ensures Key(q) / WINDOW == Or(q.va / WINDOW, q.asid)
    ensures (Key(q) % WINDOW) / KB4 == (q.va % WINDOW) / KB4
    ensures Key(q) / WINDOW < 0x1_0000
  {
    var low := (q.va % WINDOW) / KB4 * KB4;
    DivModUnique(Key(q), WINDOW, Or(q.va / WINDOW, q.asid), low);
    PowerTable();
    OrBelow(q.va / WINDOW, q.asid, 16);
  }

  /** Keys are equal exactly when the 48-bit page and the or-ed high parts are. */
  lemma KeyEquality(p: Query, q: Query)
    ensures Key(p) == Key(q) <==>
      WalkFacts.SameBlock(p.va, q.va, KB4) && Or(p.va / WINDOW, p.asid) == Or(q.va / WINDOW, q.asid)
  {
    KeyParts(p);
    KeyParts(q);
  }

  /** Below 2^48 the key is injective on page and ASID. */
  lemma KeyInjectiveLow(p: Query, q: Query)
    requires p.va < WINDOW && q.va < WINDOW
    ensures Key(p) == Key(q) <==> p.va / KB4 == q.va / KB4 && p.asid == q.asid
  {
    KeyEquality(p, q);
    DivModUnique(p.va, WINDOW, 0, p.va);
    DivModUnique(q.va, WINDOW, 0, q.va);
  }

  ghost predicate Canonical(va: u64) {
    va / WINDOW == 0 || va / WINDOW == 0xFFFF
  }

  /** Canonical addresses, the low ones not under ASID 0xFFFF: equal keys still mean equal pages. */
  lemma KeyCanonical(p: Query, q: Query)
    requires Canonical(p.va) && Canonical(q.va)
    requires (p.va < WINDOW ==> p.asid != 0xFFFF) && (q.va < WINDOW ==> q.asid != 0xFFFF)
    requires Key(p) == Key(q)
    ensures p.va / KB4 == q.va / KB4
  {
    KeyEquality(p, q);
    PowerTable();
    OrAllOnes(p.asid, 16);
    OrAllOnes(q.asid, 16);
    assert p.va / WINDOW == q.va / WINDOW;
    PageParts(p.va);
    PageParts(q.va);
  }

  lemma PageParts(va: nat)
    ensures va / KB4 == (va / WINDOW) * 0x10_0000_0000 + (va % WINDOW) / KB4
  {
  }

  /** The tag separates all address spaces of a VA exactly below 2^48. */
  lemma TagSeparates(va: u64)
    ensures (forall a: u16, b: u16 :: a != b ==> Key(Query(va, a)) != Key(Query(va, b))) <==> va < WINDOW
  {
    if va < WINDOW {
      forall a: u16, b: u16 | a != b
        ensures Key(Query(va, a)) != Key(Query(va, b))
      {
        KeyInjectiveLow(Query(va, a), Query(va, b));
      }
    } else {
      var h: u16 := va / WINDOW;
      OrSelf(h);
      KeyEquality(Query(va, h), Query(va, 0));
      var zero: u16 := 0;
      assert Key(Query(va, h)) == Key(Query(va, zero));
    }
  }

  /** `size - 1` as a mask, and its complement. */
  lemma SizeBits(x: u64, size: nat)
    requires LeafSized(size)
    ensures And(x, size - 1) == x % size
    ensures And(x, Not64(size - 1)) == x - x % size
  {
    PowerTable();
    var k := if size == KB4 then 12 else if size == MB2 then 21 else 30;
    assert Pow2(k) == size;
    AndLow(x, k);
    AndHigh(x, k);
  }

  lemma RoundedEqual(x: nat, y: nat, size: nat)
    requires size > 0
    ensures x - x % size == y - y % size <==> x / size == y / size
  {
    var a, b := x / size, y / size;
    assert x - x % size == size * a && y - y % size == size * b;
    if a < b {
      assert size * a < size * b;
    } else if b < a {
      assert size * b < size * a;
    }
  }

  /** `matches` says: same ASID, or stored under 0xFFFF, and same block of the entry's size. */
  lemma MatchesMeaning(e: TLBEntry, va: u64, asid: u16)
    requires LeafSized(e.attrs.size)
    ensures e.Matches(va, asid) <==>
      e.valid && (e.asid == asid || e.asid == 0xFFFF) && e.virtualAddress / e.attrs.size == va / e.attrs.size
  {
    var size := e.attrs.size;
    assert (size - 1) % WORD == size - 1;
    SizeBits(va, size);
    SizeBits(e.virtualAddress, size);
    RoundedEqual(e.virtualAddress, va, size);
  }
}
