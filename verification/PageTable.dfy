/** Three-level user page tables (kernel/mm/mmu.c) against the flat map of pages they stand for. */
module PageTable {
  import opened Common

  const ENTRIES := 512
  const PAGE_SIZE := 4096

  /** Bit positions of an entry outside the address field. */
  const VALID := 0
  const TABLE := 1
  const USER := 6
  const RO := 7
  const COW := 55

  /** An entry: the address field, and the set bits around it. */
  datatype Entry = Entry(addr: nat, bits: set<nat>)

  /** What a page translates to, its attributes without the page-type bit. */
  datatype Leaf = Leaf(addr: nat, bits: set<nat>)

  /** A table's place in the tree. */
  datatype Place = Root | Mid(i: nat) | Low(i: nat, j: nat)

  type Tables = map<nat, seq<Entry>>

  predicate Is(e: Entry, bit: nat) { bit in e.bits }

  function Zero(): Entry { Entry(0, {}) }

  function Empty(): (t: seq<Entry>)
    ensures |t| == ENTRIES && forall i | 0 <= i < ENTRIES :: t[i] == Zero()
  { seq(ENTRIES, _ => Zero()) }

  /** Every table is full-sized, and every table entry names a table of its own. */
  ghost predicate Tree(ts: Tables, pgd: nat, own: map<nat, Place>) {
    && own.Keys == ts.Keys && pgd in ts && own[pgd] == Root
    && (forall t | t in ts :: |ts[t]| == ENTRIES)
    && (forall i: nat | i < ENTRIES && Is(ts[pgd][i], VALID) :: ts[pgd][i].addr in ts && own[ts[pgd][i].addr] == Mid(i))
    && (forall t, j: nat | t in ts && own[t].Mid? && j < ENTRIES && Is(ts[t][j], VALID) && Is(ts[t][j], TABLE) ::
          ts[t][j].addr in ts && own[ts[t][j].addr] == Low(own[t].i, j))
  }

  /** The page at indices `i`, `j`, `k`: a 2 MB block stands for its 512 pages. */
  function Lookup(ts: Tables, pgd: nat, i: nat, j: nat, k: nat): Option<Leaf> {
    if pgd !in ts || i >= |ts[pgd]| || !Is(ts[pgd][i], VALID) then None
    else
      var l2 := ts[pgd][i].addr;
      if l2 !in ts || j >= |ts[l2]| || !Is(ts[l2][j], VALID) then None
      else if !Is(ts[l2][j], TABLE) then Some(Leaf(ts[l2][j].addr + k * PAGE_SIZE, ts[l2][j].bits - {TABLE}))
      else
        var l3 := ts[l2][j].addr;
        if l3 !in ts || k >= |ts[l3]| || !Is(ts[l3][k], VALID) then None
        else Some(Leaf(ts[l3][k].addr, ts[l3][k].bits - {TABLE}))
  }

  /** The two maps agree except perhaps on one page. */
  ghost predicate SameBut(ts: Tables, ts': Tables, pgd: nat, i: nat, j: nat, k: nat) {
    forall a: nat, b: nat, c: nat | a < ENTRIES && b < ENTRIES && c < ENTRIES && !(a == i && b == j && c == k) ::
      Lookup(ts', pgd, a, b, c) == Lookup(ts, pgd, a, b, c)
  }

  ghost predicate Same(ts: Tables, ts': Tables, pgd: nat) {
    forall a: nat, b: nat, c: nat | a < ENTRIES && b < ENTRIES && c < ENTRIES :: Lookup(ts', pgd, a, b, c) == Lookup(ts, pgd, a, b, c)
  }

  // ---------------------------------------------------------------- linking tables

  /** A new empty middle table changes no translation. */
  lemma LinkMid(ts: Tables, pgd: nat, own: map<nat, Place>, i: nat, t: nat)
    requires Tree(ts, pgd, own) && i < ENTRIES && !Is(ts[pgd][i], VALID) && t !in ts
    ensures var ts' := ts[t := Empty()][pgd := ts[pgd][i := Entry(t, {VALID, TABLE})]];
            Tree(ts', pgd, own[t := Mid(i)]) && Same(ts, ts', pgd)
  {
  }

  /** So does a new empty last-level table. */
  lemma LinkLow(ts: Tables, pgd: nat, own: map<nat, Place>, l2: nat, j: nat, t: nat)
    requires Tree(ts, pgd, own) && l2 in ts && own[l2].Mid? && j < ENTRIES && !Is(ts[l2][j], VALID) && t !in ts
    ensures var ts' := ts[t := Empty()][l2 := ts[l2][j := Entry(t, {VALID, TABLE})]];
            Tree(ts', pgd, own[t := Low(own[l2].i, j)]) && Same(ts, ts', pgd)
  {
  }

  /** The page table a block is split into. */
  function Pages(e: Entry): (t: seq<Entry>)
    ensures |t| == ENTRIES && forall i | 0 <= i < ENTRIES :: t[i] == Entry(e.addr + i * PAGE_SIZE, (e.bits - {TABLE}) + {VALID, TABLE})
  { seq(ENTRIES, i requires 0 <= i => Entry(e.addr + i * PAGE_SIZE, (e.bits - {TABLE}) + {VALID, TABLE})) }

  /** Splitting a block keeps every translation, and its attributes apart from the page-type bit. */
  lemma SplitKeeps(ts: Tables, pgd: nat, own: map<nat, Place>, l2: nat, j: nat, t: nat)
    requires Tree(ts, pgd, own) && l2 in ts && own[l2].Mid? && j < ENTRIES && t !in ts
    requires Is(ts[l2][j], VALID) && !Is(ts[l2][j], TABLE)
    ensures var ts' := ts[t := Pages(ts[l2][j])][l2 := ts[l2][j := Entry(t, {VALID, TABLE})]];
            Tree(ts', pgd, own[t := Low(own[l2].i, j)]) && Same(ts, ts', pgd)
  {
    var e := ts[l2][j];
    assert ((e.bits - {TABLE}) + {VALID, TABLE}) - {TABLE} == e.bits - {TABLE};
  }

  /** A store to a last-level table moves one page. */
  lemma PutLeaf(ts: Tables, pgd: nat, own: map<nat, Place>, l3: nat, i: nat, j: nat, k: nat, e: Entry)
    requires Tree(ts, pgd, own) && l3 in ts && own[l3] == Low(i, j) && k < ENTRIES
    ensures var ts' := ts[l3 := ts[l3][k := e]]; Tree(ts', pgd, own) && SameBut(ts, ts', pgd, i, j, k)
  {
  }

  // ---------------------------------------------------------------- the address field

  const BLOCK := 0x20_0000
  const ADDRESS_END := 0x1_0000_0000_0000

  predicate PageField(addr: nat) { addr % PAGE_SIZE == 0 && addr < ADDRESS_END }

  predicate BlockField(addr: nat) { addr % BLOCK == 0 && addr < ADDRESS_END }

  /** `PTE_ADDR` applied to an address. */
  function Masked(addr: nat): (r: nat)
    ensures PageField(r) && (PageField(addr) ==> r == addr) && r <= addr % ADDRESS_END < r + PAGE_SIZE
  { addr % ADDRESS_END / PAGE_SIZE * PAGE_SIZE }

  /** What a block or a page maps lies in the address field of its entry, 48 bits aligned to 2 MB or to a page, and a page
      entry has the page-type bit. */
  ghost predicate Fields(ts: Tables, own: map<nat, Place>) {
    && (forall t, j: nat | t in ts && t in own && own[t].Mid? && j < |ts[t]| && Is(ts[t][j], VALID) && !Is(ts[t][j], TABLE) ::
          BlockField(ts[t][j].addr))
    && (forall t, k: nat | t in ts && t in own && own[t].Low? && k < |ts[t]| && Is(ts[t][k], VALID) ::
          PageField(ts[t][k].addr) && Is(ts[t][k], TABLE))
  }

  /** The pages of an aligned block stay inside the address field, so no attribute bit is disturbed. */
  lemma SplitStaysInField(e: Entry, i: nat)
    requires BlockField(e.addr) && i < ENTRIES
    ensures PageField(e.addr + i * PAGE_SIZE) && (e.addr + i * PAGE_SIZE) / BLOCK == e.addr / BLOCK
  {
    var q := e.addr / BLOCK;
    assert e.addr == q * BLOCK && BLOCK == ENTRIES * PAGE_SIZE;
    assert e.addr + i * PAGE_SIZE == (q * ENTRIES + i) * PAGE_SIZE && 0 <= i * PAGE_SIZE < BLOCK;
  }

  /** Splitting a block of a well-formed table gives pages in their fields. */
  lemma SplitFields(ts: Tables, own: map<nat, Place>, l2: nat, j: nat, t: nat, place: Place)
    requires Fields(ts, own) && l2 in ts && l2 in own && own[l2].Mid? && j < |ts[l2]| && t !in ts && t !in own && place.Low?
    requires Is(ts[l2][j], VALID) && !Is(ts[l2][j], TABLE)
    ensures Fields(ts[t := Pages(ts[l2][j])][l2 := ts[l2][j := Entry(t, {VALID, TABLE})]], own[t := place])
  {
    var e := ts[l2][j];
    forall k: nat | k < ENTRIES ensures PageField(Pages(e)[k].addr) { SplitStaysInField(e, k); }
  }

  /** So every translation is a page address the field can hold. */
  lemma LeafInField(ts: Tables, pgd: nat, own: map<nat, Place>, p: nat)
    requires Tree(ts, pgd, own) && Fields(ts, own) && p < PAGES
    ensures PageOf(ts, pgd, p).Some? ==> PageField(PageOf(ts, pgd, p).value.addr)
  {
    IndicesAreThePage(p, p);
    var (i, j, k) := (L1(p), L2(p), L3(p));
    if Is(ts[pgd][i], VALID) {
      var e := ts[ts[pgd][i].addr][j];
      if Is(e, VALID) && !Is(e, TABLE) { SplitStaysInField(e, k); }
    }
  }

  // ---------------------------------------------------------------- addresses

  const PAGES := 0x800_0000

  function L1(p: nat): nat { p / 262144 }
  function L2(p: nat): nat { p / 512 % 512 }
  function L3(p: nat): nat { p % 512 }

  /** Page numbers below 2^27 and triples of indices are the same thing. */
  lemma IndicesAreThePage(p: nat, q: nat)
    requires p < PAGES && q < PAGES
    ensures L1(p) < ENTRIES && L2(p) < ENTRIES && L3(p) < ENTRIES && p == (L1(p) * 512 + L2(p)) * 512 + L3(p)
    ensures L1(p) == L1(q) && L2(p) == L2(q) && L3(p) == L3(q) ==> p == q
  {
    assert p / 512 == p / 262144 * 512 + p / 512 % 512;
    assert q / 512 == q / 262144 * 512 + q / 512 % 512;
  }

  /** What page number `p` translates to. */
  function PageOf(ts: Tables, pgd: nat, p: nat): Option<Leaf> { Lookup(ts, pgd, L1(p), L2(p), L3(p)) }

  /** `pte_user_ok`: a copy-on-write page reads as read-only but may be written. */
  predicate UserOk(bits: set<nat>, writable: bool) { USER in bits && !(writable && RO in bits && COW !in bits) }

  predicate PageOk(ts: Tables, pgd: nat, p: nat, writable: bool) {
    PageOf(ts, pgd, p).Some? && UserOk(PageOf(ts, pgd, p).value.bits, writable)
  }

  /** A 2 MB block stands where a page is wanted. */
  predicate BlockAt(ts: Tables, pgd: nat, i: nat, j: nat) {
    && pgd in ts && i < |ts[pgd]| && Is(ts[pgd][i], VALID)
    && var l2 := ts[pgd][i].addr;
       l2 in ts && j < |ts[l2]| && Is(ts[l2][j], VALID) && !Is(ts[l2][j], TABLE)
  }

  /** Splitting a block panics when no page is left for its table; a missing table is an error to the caller. */
  datatype MapEnd = Mapped | NoMemory | Panicked

  datatype UnmapEnd = Unmapped(freed: Option<nat>) | UnmapPanicked

  /** What a query reports: the physical address and the entry's bits. */
  datatype Found = Found(paddr: nat, flags: set<nat>)

  /** The tables a mapping at `i`, `j` finds missing. */
  predicate NeedsMid(ts: Tables, pgd: nat, i: nat) { pgd in ts && i < |ts[pgd]| && !Is(ts[pgd][i], VALID) }

  predicate NeedsLow(ts: Tables, pgd: nat, i: nat, j: nat) {
    || NeedsMid(ts, pgd, i)
    || (pgd in ts && i < |ts[pgd]| && ts[pgd][i].addr in ts && j < |ts[ts[pgd][i].addr]| && !Is(ts[ts[pgd][i].addr][j], VALID))
  }

  /** One address space's tables, by physical address. */
  class Space {
    const pgd: nat
    var ts: Tables
    ghost var own: map<nat, Place>

    ghost predicate Valid()
      reads this
    { Tree(ts, pgd, own) && Fields(ts, own) }

    constructor (root: nat)
      ensures Valid() && pgd == root && forall p: nat | p < PAGES :: PageOf(ts, pgd, p) == None
    {
      pgd := root;
      ts := map[root := Empty()];
      own := map[root := Root];
    }

    /** `split_block_to_pages`, with the new table's address. */
    method SplitBlock(l2: nat, j: nat, t: nat)
      requires Valid() && l2 in ts && own[l2].Mid? && j < ENTRIES && t !in ts && Is(ts[l2][j], VALID) && !Is(ts[l2][j], TABLE)
      modifies this`ts, this`own
      ensures Valid() && Same(old(ts), ts, pgd) && t in ts && own == old(own)[t := Low(old(own)[l2].i, j)]
      ensures l2 in ts && ts[l2] == old(ts)[l2][j := Entry(t, {VALID, TABLE})] && pgd in ts && ts[pgd] == old(ts)[pgd]
      ensures ts.Keys == old(ts).Keys + {t}
    {
      var e := ts[l2][j];
      var attr := e.bits - {TABLE};
      var l3: seq<Entry> := [];
      var i := 0;
      while i < ENTRIES
        invariant 0 <= i <= ENTRIES && |l3| == i && forall k | 0 <= k < i :: l3[k] == Entry(e.addr + k * PAGE_SIZE, attr + {VALID, TABLE})
      {
        l3 := l3 + [Entry(e.addr + i * PAGE_SIZE, attr + {VALID, TABLE})];
        i := i + 1;
      }
      assert l3 == Pages(e);
      SplitKeeps(ts, pgd, own, l2, j, t);
      SplitFields(ts, own, l2, j, t, Low(own[l2].i, j));
      hide Fields, Tree;
      ts := ts[t := l3][l2 := ts[l2][j := Entry(t, {VALID, TABLE})]];
      own := own[t := Low(own[l2].i, j)];
    }

    /** The middle table for `i`, made if missing. */
    method Descend(i: nat, spare: Option<nat>) returns (l2: Option<nat>)
      requires Valid() && i < ENTRIES && (spare.Some? ==> spare.value !in ts)
      modifies this`ts, this`own
      ensures Valid() && Same(old(ts), ts, pgd) && (l2.None? <==> !Is(old(ts)[pgd][i], VALID) && spare.None?)
      ensures l2.None? || Is(old(ts)[pgd][i], VALID) ==> ts == old(ts)
      ensures l2.Some? && !Is(old(ts)[pgd][i], VALID) ==> l2.value in ts && ts[l2.value] == Empty()
      ensures l2.Some? ==> l2.value in ts && own[l2.value] == Mid(i) && Is(ts[pgd][i], VALID) && ts[pgd][i].addr == l2.value
      ensures ts.Keys <= old(ts).Keys + (if spare.Some? then {spare.value} else {})
    {
      if Is(ts[pgd][i], VALID) { return Some(ts[pgd][i].addr); }
      if spare.None? { return None; }
      var t := spare.value;
      LinkMid(ts, pgd, own, i, t);
      ts := ts[t := Empty()][pgd := ts[pgd][i := Entry(t, {VALID, TABLE})]];
      own := own[t := Mid(i)];
      return Some(t);
    }

    /** The last-level table for `i`, `j`, made if missing, a block split first. */
    method DescendLow(i: nat, l2: nat, j: nat, spare: Option<nat>) returns (l3: Option<nat>)
      requires Valid() && i < ENTRIES && j < ENTRIES && l2 in ts && own[l2] == Mid(i) && Is(ts[pgd][i], VALID) && ts[pgd][i].addr == l2
      requires spare.Some? ==> spare.value !in ts
      modifies this`ts, this`own
      ensures Valid() && Same(old(ts), ts, pgd)
      ensures l3.None? <==> spare.None? && !(Is(old(ts)[l2][j], VALID) && Is(old(ts)[l2][j], TABLE))
      ensures l3.None? ==> ts == old(ts)
      ensures l3.Some? ==>
                && l3.value in ts && own[l3.value] == Low(i, j) && Is(ts[pgd][i], VALID) && ts[pgd][i].addr == l2
                && l2 in ts && Is(ts[l2][j], VALID) && Is(ts[l2][j], TABLE) && ts[l2][j].addr == l3.value
    {
      if Is(ts[l2][j], VALID) && Is(ts[l2][j], TABLE) { return Some(ts[l2][j].addr); }
      if spare.None? { return None; }
      if Is(ts[l2][j], VALID) {
        SplitBlock(l2, j, spare.value);
        return spare;
      }
      var t := spare.value;
      LinkLow(ts, pgd, own, l2, j, t);
      ts := ts[t := Empty()][l2 := ts[l2][j := Entry(t, {VALID, TABLE})]];
      own := own[t := Low(i, j)];
      return Some(t);
    }

    /** The store to a last-level table that a walk reached. */
    method Put(p: nat, l2: nat, l3: nat, e: Entry) returns (freed: Option<nat>)
      requires Valid() && p < PAGES && L1(p) < ENTRIES && L2(p) < ENTRIES && L3(p) < ENTRIES
      requires Is(ts[pgd][L1(p)], VALID) && ts[pgd][L1(p)].addr == l2 && l2 in ts && l3 in ts && own[l3] == Low(L1(p), L2(p))
      requires Is(ts[l2][L2(p)], VALID) && Is(ts[l2][L2(p)], TABLE) && ts[l2][L2(p)].addr == l3 && (Is(e, VALID) ==> PageField(e.addr) && Is(e, TABLE))
      modifies this`ts
      ensures Valid() && SameBut(old(ts), ts, pgd, L1(p), L2(p), L3(p))
      ensures PageOf(ts, pgd, p) == if Is(e, VALID) then Some(Leaf(e.addr, e.bits - {TABLE})) else None
      ensures freed == if PageOf(old(ts), pgd, p).Some? then Some(PageOf(old(ts), pgd, p).value.addr) else None
    {
      var k := L3(p);
      freed := if Is(ts[l3][k], VALID) then Some(ts[l3][k].addr) else None;
      PutLeaf(ts, pgd, own, l3, L1(p), L2(p), k, e);
      ts := ts[l3 := ts[l3][k := e]];
    }

    /** `mmu_user_map_page`: only this page's translation changes, and none when a table cannot be had. `freed` is the page
        the old entry named. */
    method MapPage(p: nat, addr: nat, bits: set<nat>, mid: Option<nat>, low: Option<nat>) returns (r: MapEnd, freed: Option<nat>)
      requires Valid() && p < PAGES && (mid.Some? ==> mid.value !in ts) && (low.Some? ==> low.value !in ts)
      requires mid.Some? && low.Some? ==> mid != low
      modifies this`ts, this`own
      ensures Valid() && SameBut(old(ts), ts, pgd, L1(p), L2(p), L3(p))
      ensures r == NoMemory <==> (mid.None? && NeedsMid(old(ts), pgd, L1(p))) || (low.None? && NeedsLow(old(ts), pgd, L1(p), L2(p)))
      ensures r == Panicked <==> low.None? && BlockAt(old(ts), pgd, L1(p), L2(p))
      ensures r != Mapped ==> Same(old(ts), ts, pgd) && freed == None
      ensures r == Mapped ==> PageOf(ts, pgd, p) == Some(Leaf(Masked(addr), bits + {VALID} - {TABLE}))
      ensures r == Mapped ==> forall w :: PageOk(ts, pgd, p, w) <==> USER in bits && (!w || RO !in bits || COW in bits)
      ensures r == Mapped ==> freed == if PageOf(old(ts), pgd, p).Some? then Some(PageOf(old(ts), pgd, p).value.addr) else None
    {
      IndicesAreThePage(p, p);
      var (i, j) := (L1(p), L2(p));
      var l2 := Descend(i, mid);
      if l2.None? { return NoMemory, None; }
      var block := Is(ts[l2.value][j], VALID);
      var l3 := DescendLow(i, l2.value, j, low);
      if l3.None? { return if block then Panicked else NoMemory, None; }
      freed := Put(p, l2.value, l3.value, Entry(Masked(addr), bits + {VALID, TABLE}));
      assert (bits + {VALID, TABLE}) - {TABLE} == bits + {VALID} - {TABLE};
      forall w ensures PageOk(ts, pgd, p, w) <==> USER in bits && (!w || RO !in bits || COW in bits) {
        MappedPasses(ts, pgd, p, addr, bits, w);
      }
      return Mapped, freed;
    }

    /** `mmu_user_unmap_page`: the page is gone, every other translation stays. */
    method UnmapPage(p: nat, spare: Option<nat>) returns (r: UnmapEnd)
      requires Valid() && p < PAGES && (spare.Some? ==> spare.value !in ts)
      modifies this`ts, this`own
      ensures Valid() && SameBut(old(ts), ts, pgd, L1(p), L2(p), L3(p))
      ensures r == UnmapPanicked <==> spare.None? && BlockAt(old(ts), pgd, L1(p), L2(p))
      ensures r == UnmapPanicked ==> ts == old(ts)
      ensures r.Unmapped? ==> PageOf(ts, pgd, p) == None
      ensures r.Unmapped? ==> r.freed == if PageOf(old(ts), pgd, p).Some? then Some(PageOf(old(ts), pgd, p).value.addr) else None
    {
      IndicesAreThePage(p, p);
      var (i, j, k) := (L1(p), L2(p), L3(p));
      if !Is(ts[pgd][i], VALID) { return Unmapped(None); }
      var l2 := ts[pgd][i].addr;
      if !Is(ts[l2][j], VALID) { return Unmapped(None); }
      var l3 := DescendLow(i, l2, j, spare);
      if l3.None? { return UnmapPanicked; }
      if !Is(ts[l3.value][k], VALID) { return Unmapped(None); }
      var freed := Put(p, l2, l3.value, Zero());
      return Unmapped(freed);
    }

    /** `mmu_user_query`: the translation of any address, its offset added, the page-type bit exactly when no block maps it. */
    method Query(v: nat) returns (r: Option<Found>)
      requires Valid() && v < PAGES * PAGE_SIZE
      ensures r.Some? <==> PageOf(ts, pgd, v / PAGE_SIZE).Some?
      ensures r.Some? ==>
                && r.value.paddr == PageOf(ts, pgd, v / PAGE_SIZE).value.addr + v % PAGE_SIZE
                && r.value.flags - {TABLE} == PageOf(ts, pgd, v / PAGE_SIZE).value.bits
                && (TABLE in r.value.flags <==> !BlockAt(ts, pgd, L1(v / PAGE_SIZE), L2(v / PAGE_SIZE)))
    {
      var p := v / PAGE_SIZE;
      IndicesAreThePage(p, p);
      var (i, j, k) := (L1(p), L2(p), L3(p));
      if !Is(ts[pgd][i], VALID) { return None; }
      var l2 := ts[pgd][i].addr;
      if !Is(ts[l2][j], VALID) { return None; }
      if !Is(ts[l2][j], TABLE) {
        BlockOffset(v);
        return Some(Found(ts[l2][j].addr + v % BLOCK, ts[l2][j].bits));
      }
      var l3 := ts[l2][j].addr;
      if !Is(ts[l3][k], VALID) { return None; }
      return Some(Found(ts[l3][k].addr + v % PAGE_SIZE, ts[l3][k].bits));
    }

    /** `mmu_user_range_ok`: table by table, a block in one step, yet exactly the page-by-page answer: every page met is
        mapped for user code and, for a write, is not read-only unless it is copy-on-write. */
    method RangeOk(start: nat, end: nat, writable: bool) returns (ok: bool)
      requires Valid() && end <= PAGES * PAGE_SIZE
      ensures ok <==> start < end && forall p: nat | start / PAGE_SIZE <= p && p * PAGE_SIZE < end ::
                        && PageOf(ts, pgd, p).Some? && USER in PageOf(ts, pgd, p).value.bits
                        && (writable ==> RO !in PageOf(ts, pgd, p).value.bits || COW in PageOf(ts, pgd, p).value.bits)
    {
      if end <= start { return false; }
      var v := start / PAGE_SIZE;
      while v * PAGE_SIZE < end
        invariant start / PAGE_SIZE <= v && forall p: nat | start / PAGE_SIZE <= p < v && p * PAGE_SIZE < end :: PageOk(ts, pgd, p, writable)
        decreases PAGES + ENTRIES - v
      {
        IndicesAreThePage(v, v);
        if !Is(ts[pgd][L1(v)], VALID) {
          assert !PageOk(ts, pgd, v, writable);
          return false;
        }
        var l2 := ts[pgd][L1(v)].addr;
        var e := ts[l2][L2(v)];
        if !Is(e, VALID) {
          assert !PageOk(ts, pgd, v, writable);
          return false;
        }
        if !Is(e, TABLE) {
          assert PageOk(ts, pgd, v, writable) == UserOk(e.bits, writable);
          if !UserOk(e.bits, writable) { return false; }
          BlockOk(ts, pgd, v, writable);
          v := (v / ENTRIES + 1) * ENTRIES;
        } else {
          var good;
          v, good := RunOk(v, end, e.addr, writable);
          if !good { return false; }
        }
      }
      forall p: nat | start / PAGE_SIZE <= p && p * PAGE_SIZE < end
        ensures && PageOf(ts, pgd, p).Some? && USER in PageOf(ts, pgd, p).value.bits
                && (writable ==> RO !in PageOf(ts, pgd, p).value.bits || COW in PageOf(ts, pgd, p).value.bits)
      {
        assert PageOk(ts, pgd, p, writable);
      }
      return true;
    }

    /** The rest of one last-level table. */
    method RunOk(v: nat, end: nat, l3: nat, writable: bool) returns (next: nat, ok: bool)
      requires Valid() && v * PAGE_SIZE < end <= PAGES * PAGE_SIZE && Is(ts[pgd][L1(v)], VALID)
      requires var l2 := ts[pgd][L1(v)].addr; Is(ts[l2][L2(v)], VALID) && Is(ts[l2][L2(v)], TABLE) && ts[l2][L2(v)].addr == l3
      ensures v <= next && (ok ==> v < next) && forall p: nat | v <= p < next :: PageOk(ts, pgd, p, writable)
      ensures !ok ==> next * PAGE_SIZE < end && !PageOk(ts, pgd, next, writable)
    {
      IndicesAreThePage(v, v);
      var k := L3(v);
      next := v;
      while k < ENTRIES && next * PAGE_SIZE < end
        invariant L3(v) <= k <= ENTRIES && next == v + (k - L3(v))
        invariant forall p: nat | v <= p < next :: PageOk(ts, pgd, p, writable)
      {
        SameTable(v, next);
        var e := ts[l3][k];
        if !Is(e, VALID) || !UserOk(e.bits, writable) { return next, false; }
        k := k + 1;
        next := next + 1;
      }
      return next, true;
    }
  }

  /** An address in a block: the page of the block, and the offset in the page. */
  lemma BlockOffset(v: nat)
    ensures v % BLOCK == L3(v / PAGE_SIZE) * PAGE_SIZE + v % PAGE_SIZE
  {
    var p := v / PAGE_SIZE;
    assert v == p * PAGE_SIZE + v % PAGE_SIZE && p == p / 512 * 512 + p % 512;
  }

  /** Pages up to the next multiple of 512 share their tables. */
  lemma SameTable(v: nat, p: nat)
    requires v <= p < (v / ENTRIES + 1) * ENTRIES
    ensures L1(p) == L1(v) && L2(p) == L2(v) && L3(p) == L3(v) + (p - v)
  {
    assert p / 512 == v / 512;
    assert p / 262144 == p / 512 / 512 && v / 262144 == v / 512 / 512;
  }

  /** A block that passes once passes for all its pages. */
  lemma BlockOk(ts: Tables, pgd: nat, v: nat, writable: bool)
    requires PageOk(ts, pgd, v, writable) && pgd in ts && L1(v) < |ts[pgd]|
    requires var l2 := ts[pgd][L1(v)].addr; l2 in ts && L2(v) < |ts[l2]| && !Is(ts[l2][L2(v)], TABLE)
    ensures forall p: nat | v <= p < (v / ENTRIES + 1) * ENTRIES :: PageOk(ts, pgd, p, writable)
  {
    forall p: nat | v <= p < (v / ENTRIES + 1) * ENTRIES ensures PageOk(ts, pgd, p, writable) { SameTable(v, p); }
  }

  /** A page mapped with given bits is open to user code exactly when they say so: for reading when USER is set, for writing
      when also RO is clear or COW set. */
  lemma MappedPasses(ts: Tables, pgd: nat, p: nat, addr: nat, bits: set<nat>, writable: bool)
    requires PageOf(ts, pgd, p) == Some(Leaf(Masked(addr), bits + {VALID} - {TABLE}))
    ensures PageOk(ts, pgd, p, writable) <==> USER in bits && (!writable || RO !in bits || COW in bits)
  {
    assert forall b | b in {USER, RO, COW} :: b in bits + {VALID} - {TABLE} <==> b in bits;
  }

  /** A change at one page's indices is a change at one page. */
  lemma OtherPagesStay(ts: Tables, ts': Tables, pgd: nat, p: nat, q: nat)
    requires p < PAGES && q < PAGES && p != q && SameBut(ts, ts', pgd, L1(p), L2(p), L3(p))
    ensures PageOf(ts', pgd, q) == PageOf(ts, pgd, q)
  {
    IndicesAreThePage(p, q);
    IndicesAreThePage(q, p);
  }
}
