/** Allocation and freeing undo each other: the free list depends only on what is allocated, not on how it came about. */
module HeapCycle {
  import opened Common
  import opened HeapList
  import opened HeapSafety
  import opened BuddyMath

  // ---------------------------------------------------------------- the free list is canonical

  lemma FirstStarts(a: seq<Block>, b: seq<Block>)
    requires Good(a) && Good(b) && a != [] && (forall x: nat | Occupied(a, x) :: Occupied(b, x))
    ensures b != [] && b[0].addr <= a[0].addr
  {
    assert In(a[0], a[0].addr) && Occupied(a, a[0].addr);
    var k :| 0 <= k < |b| && In(b[k], a[0].addr);
    assert k > 0 ==> End(b[0]) < b[k].addr;
  }

  lemma FirstEnds(a: seq<Block>, b: seq<Block>)
    requires Good(a) && a != [] && b != [] && a[0].addr == b[0].addr && (forall x: nat | Occupied(b, x) :: Occupied(a, x))
    ensures End(b[0]) <= End(a[0])
  {
    FreeBehindFirst(a);
    assert End(a[0]) < End(b[0]) ==> In(b[0], End(a[0]));
  }

  lemma FreeBehindFirst(a: seq<Block>)
    requires Good(a) && a != []
    ensures !Occupied(a, End(a[0]))
  {
    assert forall k | 0 < k < |a| :: End(a[0]) < a[k].addr;
  }

  lemma RestOccupies(a: seq<Block>, x: nat)
    requires Good(a) && a != []
    ensures Occupied(a[1..], x) <==> Occupied(a, x) && !In(a[0], x)
  {
    OccupiedHead(a, x);
    if Occupied(a[1..], x) {
      var k :| 0 <= k < |a[1..]| && In(a[1..][k], x);
      assert End(a[0]) < a[k + 1].addr;
    }
  }

  /** Two ordered lists without touching blocks that hold the same addresses are the same list. */
  lemma {:induction false} SameAddressesSameList(a: seq<Block>, b: seq<Block>)
    requires Good(a) && Good(b) && forall x: nat :: Occupied(a, x) <==> Occupied(b, x)
    ensures a == b
  {
    if a == [] {
      if b != [] { assert In(b[0], b[0].addr) && Occupied(b, b[0].addr); }
    } else {
      FirstStarts(a, b);
      FirstStarts(b, a);
      FirstEnds(a, b);
      FirstEnds(b, a);
      assert a[0] == b[0];
      forall x: nat ensures Occupied(a[1..], x) <==> Occupied(b[1..], x) { RestOccupies(a, x); RestOccupies(b, x); }
      SameAddressesSameList(a[1..], b[1..]);
    }
  }

  /** Whatever the history: the same regions and the same allocated blocks leave the same free list. */
  lemma HistoryDoesNotMatter(g: Heap, h: Heap)
    requires Inv(g) && Inv(h) && g.pool == h.pool && forall x: nat :: Occupied(g.live, x) <==> Occupied(h.live, x)
    ensures g.free == h.free
  {
    forall x: nat ensures Occupied(g.free, x) <==> Occupied(h.free, x) {
      FreeIsRest(g, x);
      FreeIsRest(h, x);
    }
    SameAddressesSameList(g.free, h.free);
  }

  /** What is free is what of the pool is not allocated. */
  lemma FreeIsRest(h: Heap, x: nat)
    requires Inv(h)
    ensures Occupied(h.free, x) <==> Occupied(h.pool, x) && !Occupied(h.live, x)
  {
    if Occupied(h.live, x) {
      var k :| 0 <= k < |h.live| && In(h.live[k], x);
      ClearMeans(h.free, h.live[k]);
    }
  }

  // ---------------------------------------------------------------- freeing

  /** What a free does: exactly this block stops being allocated, exactly its addresses become free, and the bytes in use
      fall by its payload and header. */
  lemma FreeMeaning(h: Heap, i: nat, x: nat)
    requires Inv(h) && i < |h.live|
    ensures var r := Free(h, i);
            && Inv(r) && r.live == h.live[..i] + h.live[i + 1..] && r.pool == h.pool && r.total == h.total
            && r.used == h.used - (h.live[i].size - FOOTER + HEADER)
            && (Occupied(r.free, x) <==> Occupied(h.free, x) || In(h.live[i], x))
  {
    FreeKeepsInv(h, i);
    InsertOccupies(h.free, h.live[i], x);
  }

  lemma TakeFrees(h: Heap, i: nat, need: nat, x: nat)
    requires Inv(h) && i < |h.free| && h.free[i].size >= need >= FOOTER
    ensures Occupied(h.free, x) <==> Occupied(Take(h, i, need).free, x) || In(Granted(h.free[i], need), x)
  {
    var (b, rest) := (h.free[i], Dropped(h.free, i));
    DroppedOccupied(h.free, i, x);
    if Splits(b, need) { InsertOccupies(rest, Remainder(b, need), x); }
    hide Insert, Dropped;
  }

  /** Taking a block and giving it back. */
  lemma TakeThenFree(h: Heap, i: nat, need: nat)
    requires Inv(h) && i < |h.free| && h.free[i].size >= need >= FOOTER && need % 16 == 0
    ensures Free(Take(h, i, need), |h.live|) == h
  {
    var (g, r) := (Granted(h.free[i], need), Take(h, i, need));
    TakeKeepsInv(h, i, need);
    FreeKeepsInv(r, |h.live|);
    var back := Free(r, |h.live|);
    assert r.live == h.live + [g] && Dropped(r.live, |h.live|) == h.live;
    hide Inv;
    forall x: nat ensures Occupied(back.free, x) <==> Occupied(h.free, x) {
      FreeMeaning(r, |h.live|, x);
      TakeFrees(h, i, need, x);
    }
    assert Good(back.free) && Good(h.free) by { GoodOf(back); GoodOf(h); }
    SameAddressesSameList(back.free, h.free);
  }

  lemma GoodOf(h: Heap)
    requires Inv(h)
    ensures Good(h.free)
  {
  }

  lemma GrowthTakes(h: Heap, size: nat, addr: nat)
    requires Inv(h) && Fresh(h, addr, PagesFor(Align(size), 1)) && 0 < size <= MAX_ALLOC && FirstFit(h.free, Align(size) + FOOTER) == |h.free|
    ensures var (e, need) := (Expand(h, addr, PagesFor(Align(size), 1)), Align(size) + FOOTER);
            && Inv(e) && e.live == h.live && FirstFit(e.free, need) < |e.free|
            && Malloc(h, size, Some(addr)) == (Take(e, FirstFit(e.free, need), need), Some(e.free[FirstFit(e.free, need)].addr))
  {
    ExpandKeepsInv(h, addr, PagesFor(Align(size), 1));
    ExpandRest(h, addr, PagesFor(Align(size), 1));
    ExpandFits(h, addr, Align(size));
    hide Inv, Take, Fresh, Expand, PagesFor;
  }

  /** The heap an allocation takes its block from: the heap itself if something fits, otherwise grown by one region. */
  function Source(h: Heap, size: nat, region: Option<nat>): Heap {
    if FirstFit(h.free, Align(size) + FOOTER) < |h.free| || region.None? then h else Expand(h, region.value, PagesFor(Align(size), 1))
  }

  lemma MallocTakes(h: Heap, size: nat, region: Option<nat>)
    requires Inv(h) && (region.Some? ==> Fresh(h, region.value, PagesFor(Align(size), 1))) && Malloc(h, size, region).1.Some?
    ensures var (e, need) := (Source(h, size, region), Align(size) + FOOTER);
            && Inv(e) && e.live == h.live && FirstFit(e.free, need) < |e.free|
            && Malloc(h, size, region) == (Take(e, FirstFit(e.free, need), need), Some(e.free[FirstFit(e.free, need)].addr))
  {
    if FirstFit(h.free, Align(size) + FOOTER) == |h.free| {
      assert region.Some? && 0 < size <= MAX_ALLOC;
      hide Malloc, Inv, Fresh, Expand, PagesFor;
      GrowthTakes(h, size, region.value);
    }
  }

  /** An allocation and the free of what it returned leave the heap as it was, grown by one region if the pool had to grow. */
  lemma MallocThenFree(h: Heap, size: nat, region: Option<nat>)
    requires Inv(h) && (region.Some? ==> Fresh(h, region.value, PagesFor(Align(size), 1))) && Malloc(h, size, region).1.Some?
    ensures var r := Malloc(h, size, region).0;
            |r.live| == |h.live| + 1 && Free(r, |h.live|) == Source(h, size, region)
  {
    hide Malloc, Inv, Source, Free, Fresh;
    MallocTakes(h, size, region);
    var (e, need) := (Source(h, size, region), Align(size) + FOOTER);
    TakeThenFree(e, FirstFit(e.free, need), need);
  }

  // ---------------------------------------------------------------- where an allocation lands

  lemma FitIsLowest(l: seq<Block>, need: nat)
    requires Good(l) && FirstFit(l, need) < |l|
    ensures forall b | b in l && b.size >= need :: l[FirstFit(l, need)].addr <= b.addr
  {
    hide FirstFit;
    var i := FirstFit(l, need);
    forall b | b in l && b.size >= need ensures l[i].addr <= b.addr {
      var k :| 0 <= k < |l| && l[k] == b;
      assert i < k ==> End(l[i]) < l[k].addr;
    }
  }

  /** The block comes from the lowest address at which the request fits. */
  lemma MallocIsFirstFit(h: Heap, size: nat, region: Option<nat>)
    requires Inv(h) && (region.Some? ==> Fresh(h, region.value, PagesFor(Align(size), 1))) && Malloc(h, size, region).1.Some?
    ensures var (free, got) := (Source(h, size, region).free, Malloc(h, size, region).1.value);
            && (exists b | b in free :: b.addr == got && b.size >= Align(size) + FOOTER)
            && forall b | b in free && b.size >= Align(size) + FOOTER :: got <= b.addr
  {
    hide Malloc, Inv, Source, Fresh, Take, Good;
    MallocTakes(h, size, region);
    var (e, need) := (Source(h, size, region), Align(size) + FOOTER);
    GoodOf(e);
    FitIsLowest(e.free, need);
    assert e.free[FirstFit(e.free, need)] in e.free;
  }

  /** The pages of a growth are the least power of two that serves the request. */
  lemma {:induction false} PagesAreLeast(size: nat, o: nat) returns (r: nat)
    requires o == 0 || Pow(o - 1) * PAGE_SIZE < size + HEADER + FOOTER
    ensures r >= o && PagesFor(size, Pow(o)) == Pow(r) && Pow(r) * PAGE_SIZE >= size + HEADER + FOOTER
    ensures r == 0 || Pow(r - 1) * PAGE_SIZE < size + HEADER + FOOTER
    decreases if Pow(o) * PAGE_SIZE < size + HEADER + FOOTER then size + HEADER + FOOTER - Pow(o) * PAGE_SIZE else 0
  {
    if Pow(o) * PAGE_SIZE >= size + HEADER + FOOTER { r := o; } else { r := PagesAreLeast(size, o + 1); }
  }
}
