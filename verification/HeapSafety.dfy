/** Pool allocations and frees (kernel/mm/heap.c) as functions, and what every sequence of them keeps. */
module HeapSafety {
  import opened Common
  import opened HeapList

  const PAGE_SIZE := 4096
  const MAX_ALLOC := 8 * 1024 * 1024

  /** `live` are the allocated blocks, redzone footer included in their size; `pool` are the regions taken from the page
      allocator, a region being all the bytes of a block. */
  datatype Heap = Heap(free: seq<Block>, live: seq<Block>, pool: seq<Block>, total: int, used: int)

  function Dropped<T>(s: seq<T>, i: nat): seq<T>
    requires i < |s|
  { s[..i] + s[i + 1..] }

  // ---------------------------------------------------------------- the operations

  /** The first block of at least `need` bytes, by index. */
  function FirstFit(l: seq<Block>, need: nat): (i: nat)
    ensures i <= |l| && (i < |l| ==> l[i].size >= need) && forall k | 0 <= k < i :: l[k].size < need
  { if l == [] || l[0].size >= need then 0 else 1 + FirstFit(l[1..], need) }

  /** What is left of a block that is worth splitting. */
  function Remainder(b: Block, need: nat): Block
    requires b.size >= need + HEADER
  { Block(b.addr + HEADER + need, b.size - need - HEADER) }

  predicate Splits(b: Block, need: nat) { b.size >= need + HEADER + 16 }

  function Granted(b: Block, need: nat): Block { if Splits(b, need) then Block(b.addr, need) else b }

  function Take(h: Heap, i: nat, need: nat): Heap
    requires i < |h.free| && h.free[i].size >= need >= FOOTER
  {
    var b := h.free[i];
    var rest := Dropped(h.free, i);
    var g := Granted(b, need);
    h.(free := if Splits(b, need) then Insert(rest, Remainder(b, need)) else rest, live := h.live + [g],
       used := h.used + g.size - FOOTER + HEADER)
  }

  /** A region of `pages` pages at `addr` joins the pool. */
  function Expand(h: Heap, addr: nat, pages: nat): Heap
    requires pages > 0
  {
    var b := Block(addr, pages * PAGE_SIZE - HEADER);
    h.(free := Insert(h.free, b), pool := h.pool + [b], total := h.total + pages * PAGE_SIZE)
  }

  /** The power of two of pages that covers a request with its header and footer. */
  function PagesFor(size: nat, from: nat): (r: nat)
    requires from > 0
    ensures r >= from && r * PAGE_SIZE >= size + HEADER + FOOTER
    ensures r == from || (r % 2 == 0 && r / 2 * PAGE_SIZE < size + HEADER + FOOTER)
    decreases if from * PAGE_SIZE < size + HEADER + FOOTER then size + HEADER + FOOTER - from * PAGE_SIZE else 0
  { if from * PAGE_SIZE >= size + HEADER + FOOTER then from else PagesFor(size, 2 * from) }

  function Align(x: nat): (r: nat)
    ensures x <= r < x + 16 && r % 16 == 0
  { (x + 15) / 16 * 16 }

  /** `heap_malloc` past the slab sizes; `region` is what the page allocator would give. The header's address is returned. */
  function Malloc(h: Heap, size: nat, region: Option<nat>): (Heap, Option<nat>)
  {
    if size == 0 || size > MAX_ALLOC then (h, None)
    else
      var need := Align(size) + FOOTER;
      var i := FirstFit(h.free, need);
      if i < |h.free| then (Take(h, i, need), Some(h.free[i].addr))
      else if region.None? then (h, None)
      else
        var e := Expand(h, region.value, PagesFor(Align(size), 1));
        var k := FirstFit(e.free, need);
        if k < |e.free| then (Take(e, k, need), Some(e.free[k].addr)) else (e, None)
  }

  /** `heap_free` of a live block. */
  function Free(h: Heap, i: nat): Heap
    requires i < |h.live|
  { h.(free := Insert(h.free, h.live[i]), live := Dropped(h.live, i), used := h.used - (h.live[i].size - FOOTER + HEADER)) }

  // ---------------------------------------------------------------- the invariant

  ghost predicate Apart(a: Block, b: Block) { End(a) <= b.addr || End(b) <= a.addr }

  ghost predicate Aligned(l: seq<Block>) { forall i | 0 <= i < |l| :: l[i].addr % 16 == 0 && l[i].size % 16 == 0 }

  ghost predicate Separate(l: seq<Block>) { forall i, j | 0 <= i < j < |l| :: Apart(l[i], l[j]) }

  /** Free and allocated blocks share no byte and fill the pool. */
  ghost predicate Partition(h: Heap) {
    && (forall x: nat :: Occupied(h.pool, x) <==> Occupied(h.free, x) || Occupied(h.live, x))
    && (forall i | 0 <= i < |h.live| :: Clear(h.free, h.live[i]))
    && Separate(h.live)
  }

  ghost predicate Inv(h: Heap) {
    && Good(h.free) && Aligned(h.free) && Aligned(h.live) && Partition(h)
    && (forall i | 0 <= i < |h.live| :: h.live[i].size >= FOOTER)
    && h.total == Bytes(h.free) + Bytes(h.live) && h.used == Bytes(h.live) + |h.live| * (0 - FOOTER)
  }

  // ---------------------------------------------------------------- removing one block from a list

  lemma DroppedGood(l: seq<Block>, i: nat)
    requires Good(l) && i < |l|
    ensures Good(Dropped(l, i)) && Clear(Dropped(l, i), l[i])
    ensures forall k | 0 <= k < |Dropped(l, i)| :: Dropped(l, i)[k] == l[if k < i then k else k + 1]
  {
  }

  lemma DroppedBytes(l: seq<Block>, i: nat)
    requires i < |l|
    ensures Bytes(l) == Bytes(Dropped(l, i)) + HEADER + l[i].size
  {
    var tail := l[i..];
    assert l == l[..i] + tail && tail[0] == l[i] && tail[1..] == l[i + 1..];
    BytesJoin(l[..i], tail);
    BytesJoin(l[..i], l[i + 1..]);
  }

  lemma DroppedOccupied(l: seq<Block>, i: nat, x: nat)
    requires i < |l|
    ensures Occupied(l, x) <==> Occupied(Dropped(l, i), x) || In(l[i], x)
  {
    assert l == l[..i] + ([l[i]] + l[i + 1..]);
    OccupiedJoin(l[..i], [l[i]] + l[i + 1..], x);
    OccupiedHead([l[i]] + l[i + 1..], x);
    assert ([l[i]] + l[i + 1..])[1..] == l[i + 1..];
    OccupiedJoin(l[..i], l[i + 1..], x);
  }

  /** A block clear of a list is one that shares no byte with it. */
  lemma ClearMeans(l: seq<Block>, b: Block)
    ensures Clear(l, b) <==> forall x: nat | In(b, x) :: !Occupied(l, x)
  {
    if !Clear(l, b) {
      var i :| 0 <= i < |l| && End(l[i]) > b.addr && End(b) > l[i].addr;
      var x := if l[i].addr < b.addr then b.addr else l[i].addr;
      assert In(b, x) && In(l[i], x);
      assert Occupied(l, x);
    }
  }

  /** Inserting a block clear of another keeps the list clear of it. */
  lemma InsertClear(l: seq<Block>, b: Block, c: Block)
    requires Clear(l, c) && Apart(b, c)
    ensures Clear(Insert(l, b), c)
  {
    ClearMeans(l, c);
    ClearMeans(Insert(l, b), c);
    forall x: nat | In(c, x) ensures !Occupied(Insert(l, b), x) { InsertOccupies(l, b, x); }
  }

  lemma FrontAligned(b: Block, right: seq<Block>)
    requires Aligned(right) && b.addr % 16 == 0 && b.size % 16 == 0
    ensures Aligned(Front(b, right))
  {
    var r := Front(b, right);
    assert forall k | 0 < k < |r| :: r[k] == right[if |r| == |right| then k else k - 1];
  }

  lemma BackAligned(left: seq<Block>, s: seq<Block>)
    requires Aligned(left) && Aligned(s) && s != []
    ensures Aligned(Back(left, s))
  {
    var (r, n) := (Back(left, s), |left|);
    if left != [] && End(left[n - 1]) == s[0].addr {
      assert forall k | 0 <= k < n - 1 :: r[k] == left[k];
      assert r[n - 1] == Merge(left[n - 1], s[0]);
      assert forall k | n <= k < |r| :: r[k] == s[k - n + 1];
    }
  }

  lemma InsertAligned(l: seq<Block>, b: Block)
    requires Aligned(l) && b.addr % 16 == 0 && b.size % 16 == 0
    ensures Aligned(Insert(l, b))
  {
    var i := Below(l, b.addr);
    assert Aligned(l[..i]) && Aligned(l[i..]);
    hide Aligned, Front, Back;
    FrontAligned(b, l[i..]);
    BackAligned(l[..i], Front(b, l[i..]));
  }

  // ---------------------------------------------------------------- freeing

  /** A freed block goes back whole: free space, used bytes and the partition account for all of it. */
  lemma FreeKeepsInv(h: Heap, i: nat)
    requires Inv(h) && i < |h.live|
    ensures Inv(Free(h, i))
  {
    LiveClear(h, i);
    DroppedAligned(h.live, i);
    hide Partition, Insert, Bytes, Good, Clear, Aligned, Dropped;
    InsertIsGood(h.free, h.live[i]);
    InsertAligned(h.free, h.live[i]);
    InsertBytes(h.free, h.live[i]);
    DroppedBytes(h.live, i);
    FreePartition(h, i);
  }

  lemma DroppedAligned(l: seq<Block>, i: nat)
    requires i < |l| && Aligned(l) && forall k | 0 <= k < |l| :: l[k].size >= FOOTER
    ensures Aligned(Dropped(l, i)) && l[i].addr % 16 == 0 && l[i].size % 16 == 0 && |Dropped(l, i)| == |l| - 1
    ensures forall k | 0 <= k < |l| - 1 :: Dropped(l, i)[k].size >= FOOTER
  {
    assert forall k | 0 <= k < |l| - 1 :: Dropped(l, i)[k] == l[if k < i then k else k + 1];
  }

  lemma LiveClear(h: Heap, i: nat)
    requires Partition(h) && i < |h.live|
    ensures Clear(h.free, h.live[i])
  {
  }

  lemma FreePartition(h: Heap, i: nat)
    requires Partition(h) && i < |h.live|
    ensures Partition(Free(h, i))
  {
    var (b, r) := (h.live[i], Free(h, i));
    assert forall k | 0 <= k < |r.live| :: r.live[k] == h.live[if k < i then k else k + 1];
    hide Insert;
    forall x: nat ensures Occupied(r.pool, x) <==> Occupied(r.free, x) || Occupied(r.live, x) {
      InsertOccupies(h.free, b, x);
      DroppedOccupied(h.live, i, x);
    }
    forall k | 0 <= k < |r.live| ensures Clear(r.free, r.live[k]) {
      var j := if k < i then k else k + 1;
      assert Apart(h.live[if i < j then i else j], h.live[if i < j then j else i]);
      InsertClear(h.free, b, h.live[j]);
    }
  }

  // ---------------------------------------------------------------- growing

  /** The new region shares no byte with the pool. */
  ghost predicate Fresh(h: Heap, addr: nat, pages: nat) {
    addr % PAGE_SIZE == 0 && pages > 0 && forall x: nat | addr <= x < addr + pages * PAGE_SIZE :: !Occupied(h.pool, x)
  }

  lemma ExpandKeepsInv(h: Heap, addr: nat, pages: nat)
    requires Inv(h) && Fresh(h, addr, pages)
    ensures Inv(Expand(h, addr, pages))
  {
    var (b, r) := (Block(addr, pages * PAGE_SIZE - HEADER), Expand(h, addr, pages));
    PageAligned(addr, pages);
    FreshMeans(h, addr, pages);
    hide Partition, Insert, Bytes, Good, Clear, Occupied, Aligned, Fresh;
    FreshClear(h, b);
    InsertIsGood(h.free, b);
    InsertAligned(h.free, b);
    InsertBytes(h.free, b);
    ExpandPartition(h, b);
    SamePartition(h.(free := r.free, pool := r.pool), r);
  }

  lemma PageAligned(addr: nat, pages: nat)
    requires addr % PAGE_SIZE == 0 && pages > 0
    ensures addr % 16 == 0 && (pages * PAGE_SIZE - HEADER) % 16 == 0
  {
    var q := addr / PAGE_SIZE;
    assert addr == 16 * (256 * q);
    Multiple(256 * q);
    assert pages * PAGE_SIZE - HEADER == 16 * (256 * pages - 2);
    Multiple(256 * pages - 2);
  }

  lemma Multiple(k: nat)
    ensures (16 * k) % 16 == 0
  {
  }

  lemma FreshMeans(h: Heap, addr: nat, pages: nat)
    requires Fresh(h, addr, pages)
    ensures forall x: nat | In(Block(addr, pages * PAGE_SIZE - HEADER), x) :: !Occupied(h.pool, x)
  {
  }

  lemma SamePartition(h: Heap, r: Heap)
    requires Partition(h) && r.free == h.free && r.live == h.live && r.pool == h.pool
    ensures Partition(r)
  {
  }

  lemma FreshClear(h: Heap, b: Block)
    requires Partition(h) && forall x: nat | In(b, x) :: !Occupied(h.pool, x)
    ensures Clear(h.free, b)
  {
    ClearMeans(h.free, b);
  }

  lemma ExpandPartition(h: Heap, b: Block)
    requires Partition(h) && forall x: nat | In(b, x) :: !Occupied(h.pool, x)
    ensures Partition(h.(free := Insert(h.free, b), pool := h.pool + [b]))
  {
    var r := h.(free := Insert(h.free, b), pool := h.pool + [b]);
    hide Insert;
    forall x: nat ensures Occupied(r.pool, x) <==> Occupied(r.free, x) || Occupied(r.live, x) {
      InsertOccupies(h.free, b, x);
      OccupiedJoin(h.pool, [b], x);
      OccupiedHead([b], x);
    }
    forall k | 0 <= k < |r.live| ensures Clear(r.free, r.live[k]) {
      LiveApart(h, b, k);
      InsertClear(h.free, b, h.live[k]);
    }
  }

  lemma LiveApart(h: Heap, b: Block, k: nat)
    requires Partition(h) && k < |h.live| && forall x: nat | In(b, x) :: !Occupied(h.pool, x)
    ensures Apart(b, h.live[k])
  {
    if !Apart(b, h.live[k]) {
      var x := if b.addr < h.live[k].addr then h.live[k].addr else b.addr;
      assert In(b, x) && In(h.live[k], x);
      assert Occupied(h.live, x);
    }
  }

  // ---------------------------------------------------------------- allocating

  lemma TakeKeepsInv(h: Heap, i: nat, need: nat)
    requires Inv(h) && i < |h.free| && h.free[i].size >= need >= FOOTER && need % 16 == 0
    ensures Inv(Take(h, i, need))
  {
    var g := Granted(h.free[i], need);
    TakePartition(h, i, need);
    TakeFree(h.free, i, need);
    GrantAligned(h.free, h.live, i, need);
    hide Partition, Insert, Good, Clear, Dropped, Bytes, Aligned;
    LiveBytes(h.live, g);
  }

  lemma LiveBytes(live: seq<Block>, g: Block)
    ensures Bytes(live + [g]) == Bytes(live) + HEADER + g.size && |live + [g]| == |live| + 1
  {
    BytesJoin(live, [g]);
    assert [g][1..] == [];
  }

  lemma GrantAligned(free: seq<Block>, live: seq<Block>, i: nat, need: nat)
    requires Aligned(free) && Aligned(live) && i < |free| && free[i].size >= need >= FOOTER && need % 16 == 0
    requires forall k | 0 <= k < |live| :: live[k].size >= FOOTER
    ensures Aligned(live + [Granted(free[i], need)]) && forall k | 0 <= k <= |live| :: (live + [Granted(free[i], need)])[k].size >= FOOTER
  {
  }

  lemma RestAligned(l: seq<Block>, i: nat)
    requires Aligned(l) && i < |l|
    ensures Aligned(Dropped(l, i)) && l[i].addr % 16 == 0 && l[i].size % 16 == 0
  {
    assert forall k | 0 <= k < |l| - 1 :: Dropped(l, i)[k] == l[if k < i then k else k + 1];
  }

  /** The free list after a block was taken and its remainder put back. */
  lemma TakeFree(l: seq<Block>, i: nat, need: nat)
    requires Good(l) && Aligned(l) && i < |l| && l[i].size >= need >= FOOTER && need % 16 == 0
    ensures var (b, rest) := (l[i], Dropped(l, i));
            var l' := if Splits(b, need) then Insert(rest, Remainder(b, need)) else rest;
            Good(l') && Aligned(l') && Bytes(l') + HEADER + Granted(b, need).size == Bytes(l)
  {
    DroppedGood(l, i);
    DroppedBytes(l, i);
    RestAligned(l, i);
    var (b, rest) := (l[i], Dropped(l, i));
    hide *;
    GrantedIs(b, need);
    if Splits(b, need) {
      RemainderAligned(b, need);
      RemainderClear(rest, b, need);
      InsertIsGood(rest, Remainder(b, need));
      InsertAligned(rest, Remainder(b, need));
      InsertBytes(rest, Remainder(b, need));
    }
  }

  lemma GrantedIs(b: Block, need: nat)
    requires b.size >= need
    ensures Granted(b, need) == if Splits(b, need) then Block(b.addr, need) else b
    ensures Splits(b, need) ==> Remainder(b, need).size + need + HEADER == b.size
  {
  }

  lemma RemainderAligned(b: Block, need: nat)
    requires Splits(b, need) && b.addr % 16 == 0 && b.size % 16 == 0 && need % 16 == 0
    ensures b.size >= need + HEADER && Remainder(b, need).addr % 16 == 0 && Remainder(b, need).size % 16 == 0
  {
  }

  lemma RemainderClear(rest: seq<Block>, b: Block, need: nat)
    requires Clear(rest, b) && Splits(b, need)
    ensures Clear(rest, Remainder(b, need)) && Clear(rest, Block(b.addr, need))
  {
  }

  lemma TakePartition(h: Heap, i: nat, need: nat)
    requires Inv(h) && i < |h.free| && h.free[i].size >= need >= FOOTER
    ensures Partition(Take(h, i, need))
  {
    var (b, rest, r) := (h.free[i], Dropped(h.free, i), Take(h, i, need));
    var g := Granted(b, need);
    DroppedGood(h.free, i);
    hide Insert;
    if Splits(b, need) { RemainderClear(rest, b, need); }
    forall x: nat ensures Occupied(r.pool, x) <==> Occupied(r.free, x) || Occupied(r.live, x) {
      TakeOccupied(h, i, need, x);
    }
    forall k | 0 <= k < |r.live| ensures Clear(r.free, r.live[k]) {
      TakeClear(h, i, need, k);
    }
    assert forall k | 0 <= k < |h.live| :: Apart(h.live[k], b) && Apart(h.live[k], g);
  }

  lemma TakeOccupied(h: Heap, i: nat, need: nat, x: nat)
    requires Inv(h) && i < |h.free| && h.free[i].size >= need >= FOOTER
    ensures var r := Take(h, i, need); Occupied(r.pool, x) <==> Occupied(r.free, x) || Occupied(r.live, x)
  {
    var (b, rest) := (h.free[i], Dropped(h.free, i));
    var g := Granted(b, need);
    DroppedOccupied(h.free, i, x);
    OccupiedJoin(h.live, [g], x);
    OccupiedHead([g], x);
    if Splits(b, need) { InsertOccupies(rest, Remainder(b, need), x); }
    hide Insert, Dropped;
  }

  lemma TakeClear(h: Heap, i: nat, need: nat, k: nat)
    requires Inv(h) && i < |h.free| && h.free[i].size >= need >= FOOTER && k <= |h.live|
    ensures var r := Take(h, i, need); Clear(r.free, r.live[k])
  {
    var (b, rest, r) := (h.free[i], Dropped(h.free, i), Take(h, i, need));
    DroppedGood(h.free, i);
    assert Clear(rest, r.live[k]);
    if Splits(b, need) { InsertClear(rest, Remainder(b, need), r.live[k]); }
  }

  /** Some block of the list is at least as large as the one inserted. */
  lemma InsertHolds(l: seq<Block>, b: Block)
    ensures exists k :: 0 <= k < |Insert(l, b)| && Insert(l, b)[k].size >= b.size
  {
    var i := Below(l, b.addr);
    var (left, f) := (l[..i], Front(b, l[i..]));
    assert f[0].size >= b.size;
    var r := Back(left, f);
    if left != [] && End(left[i - 1]) == f[0].addr {
      assert r[i - 1] == Merge(left[i - 1], f[0]);
      assert Insert(l, b)[i - 1].size >= b.size;
    } else {
      assert r[i] == f[0];
      assert Insert(l, b)[i].size >= b.size;
    }
  }

  /** After growing, the first-fit search succeeds: one expansion is enough. */
  lemma ExpandFits(h: Heap, addr: nat, size: nat)
    ensures var e := Expand(h, addr, PagesFor(size, 1)); FirstFit(e.free, size + FOOTER) < |e.free|
  {
    InsertHolds(h.free, Block(addr, PagesFor(size, 1) * PAGE_SIZE - HEADER));
    hide Insert, PagesFor;
  }

  /** What an allocation out of `e` gives, `live` being the blocks allocated before. */
  ghost predicate Grants(r: Heap, got: Option<nat>, live: seq<Block>, size: nat) {
    && got.Some? && |r.live| == |live| + 1 && r.live[..|live|] == live && r.live[|live|].addr == got.value
    && (got.value + HEADER) % 16 == 0 && size <= r.live[|live|].size - FOOTER < Align(size) + HEADER + 16
  }

  lemma FitGrants(h: Heap, size: nat)
    requires Inv(h) && FirstFit(h.free, Align(size) + FOOTER) < |h.free|
    ensures var i := FirstFit(h.free, Align(size) + FOOTER);
            var r := Take(h, i, Align(size) + FOOTER);
            Inv(r) && Grants(r, Some(h.free[i].addr), h.live, size) && r.pool == h.pool
  {
    var need := Align(size) + FOOTER;
    var i := FirstFit(h.free, need);
    TakeKeepsInv(h, i, need);
    TakeResult(h, i, need);
  }

  /** A pool allocation keeps the invariant and, unless the page allocator fails, succeeds after at most one expansion with an
      aligned payload of at least the requested size in space that was not live. */
  lemma MallocKeepsInv(h: Heap, size: nat, region: Option<nat>)
    requires Inv(h) && (region.Some? ==> Fresh(h, region.value, PagesFor(Align(size), 1)))
    ensures var (r, got) := Malloc(h, size, region);
            && Inv(r)
            && (got.None? <==> size == 0 || size > MAX_ALLOC || (FirstFit(h.free, Align(size) + FOOTER) == |h.free| && region.None?))
            && (got.None? ==> r == h)
            && (got.Some? ==> Grants(r, got, h.live, size) && |r.pool| <= |h.pool| + 1)
  {
    if 0 < size <= MAX_ALLOC {
      hide Grants, Take;
      if FirstFit(h.free, Align(size) + FOOTER) < |h.free| {
        hide Inv;
        FitGrants(h, size);
      } else if region.Some? {
        var pages := PagesFor(Align(size), 1);
        ExpandKeepsInv(h, region.value, pages);
        FreshClear(h, Block(region.value, pages * PAGE_SIZE - HEADER));
        ExpandFits(h, region.value, Align(size));
        hide Inv, Expand, Fresh;
        ExpandRest(h, region.value, pages);
        FitGrants(Expand(h, region.value, pages), size);
      }
    }
  }

  lemma ExpandRest(h: Heap, addr: nat, pages: nat)
    requires pages > 0
    ensures Expand(h, addr, pages).live == h.live && |Expand(h, addr, pages).pool| == |h.pool| + 1
  {
  }

  lemma TakeResult(h: Heap, i: nat, need: nat)
    requires Inv(h) && i < |h.free| && h.free[i].size >= need >= FOOTER
    ensures var r := Take(h, i, need);
            && |r.live| == |h.live| + 1 && r.live[..|h.live|] == h.live && r.live[|h.live|].addr == h.free[i].addr
            && (h.free[i].addr + HEADER) % 16 == 0 && need <= r.live[|h.live|].size < need + HEADER + 16 && r.pool == h.pool
  {
  }

  // ---------------------------------------------------------------- every run

  ghost predicate DoMalloc(h: Heap, h': Heap, size: nat, region: Option<nat>) {
    (region.Some? ==> Fresh(h, region.value, PagesFor(Align(size), 1))) && h' == Malloc(h, size, region).0
  }

  ghost predicate DoFree(h: Heap, h': Heap, i: nat) { i < |h.live| && h' == Free(h, i) }

  ghost predicate Next(h: Heap, h': Heap) { (exists size, region :: DoMalloc(h, h', size, region)) || (exists i :: DoFree(h, h', i)) }

  ghost predicate IsRun(trace: seq<Heap>) {
    |trace| > 0 && trace[0] == Heap([], [], [], 0, 0) && forall i | 0 <= i < |trace| - 1 :: Next(trace[i], trace[i + 1])
  }

  /** Over every sequence of pool allocations and frees of live pointers. */
  lemma {:induction false} RunKeepsInv(trace: seq<Heap>, i: nat)
    requires IsRun(trace) && i < |trace|
    ensures Inv(trace[i])
  {
    if i > 0 {
      RunKeepsInv(trace, i - 1);
      var (h, h') := (trace[i - 1], trace[i]);
      assert Next(h, h') by { assert Next(trace[i - 1], trace[i - 1 + 1]); }
      hide Inv, Malloc, Free;
      if size, region :| DoMalloc(h, h', size, region) {
        MallocKeepsInv(h, size, region);
      } else {
        var k :| DoFree(h, h', k);
        FreeKeepsInv(h, k);
      }
    }
  }

  /** What the invariant says of the whole pool. */
  lemma HeapAccounts(trace: seq<Heap>, i: nat)
    requires IsRun(trace) && i < |trace|
    ensures Good(trace[i].free) && Separate(trace[i].live)
    ensures trace[i].total == Bytes(trace[i].free) + trace[i].used + |trace[i].live| * FOOTER
    ensures forall x: nat :: !(Occupied(trace[i].free, x) && Occupied(trace[i].live, x))
  {
    RunKeepsInv(trace, i);
    var h := trace[i];
    forall x: nat ensures !(Occupied(h.free, x) && Occupied(h.live, x)) {
      if Occupied(h.live, x) {
        var k :| 0 <= k < |h.live| && In(h.live[k], x);
        ClearMeans(h.free, h.live[k]);
      }
    }
  }
}
