/** The binary buddy allocator (kernel/mm/pmm.c) as functions of the page metadata and the free lists. */
module Buddy {
  import opened Common
  import opened BuddyMath

  /** Per page: free head, order, reference count. `lists[o]` are the heads of the free blocks of order `o`, first first. */
  datatype Mem = Mem(isFree: seq<bool>, order: seq<nat>, refs: seq<nat>, lists: seq<seq<nat>>, count: int)

  ghost predicate Shape(m: Mem) { |m.order| == |m.refs| == |m.isFree| && |m.lists| > 0 }

  function Add(lists: seq<seq<nat>>, o: nat, h: nat): seq<seq<nat>>
    requires o < |lists|
  { lists[o := [h] + lists[o]] }

  function Del(lists: seq<seq<nat>>, o: nat, h: nat): seq<seq<nat>>
    requires o < |lists|
  { lists[o := Without(lists[o], h)] }

  /** `pmm_free_buddy_internal`: merge with the buddy as long as it is free and of the same order. */
  function FreeInsert(m: Mem, h: nat, o: nat): Mem
    requires Shape(m) && h < |m.isFree| && o < |m.lists|
    decreases |m.lists| - o
  {
    if CanMerge(m, h, o) then FreeInsert(Absorb(m, BuddyOf(h, o), o), Min(h, BuddyOf(h, o)), o + 1)
    else m.(isFree := m.isFree[h := true], order := m.order[h := o], lists := Add(m.lists, o, h))
  }

  predicate CanMerge(m: Mem, h: nat, o: nat)
    requires |m.order| == |m.isFree|
  {
    var b := BuddyOf(h, o);
    o + 1 < |m.lists| && b < |m.isFree| && m.isFree[b] && m.order[b] == o
  }

  /** The buddy leaves its list and stops being a head. */
  function Absorb(m: Mem, b: nat, o: nat): Mem
    requires b < |m.isFree| == |m.order| && o < |m.lists|
  { m.(lists := Del(m.lists, o, b), isFree := m.isFree[b := false], order := m.order[b := 0]) }

  /** The first non-empty list from order `o` up. */
  function FirstList(m: Mem, o: nat): (r: nat)
    requires o <= |m.lists|
    ensures o <= r <= |m.lists| && (r < |m.lists| ==> m.lists[r] != []) && forall k | o <= k < r :: m.lists[k] == []
    decreases |m.lists| - o
  { if o == |m.lists| || m.lists[o] != [] then o else FirstList(m, o + 1) }

  /** The least order whose block holds `pages`, or one past the largest. */
  function OrderFor(pages: nat, from: nat, orders: nat): (r: nat)
    requires from <= orders && forall k | 0 <= k < from :: Pow(k) < pages
    ensures r <= orders && (r < orders ==> Pow(r) >= pages) && forall k | 0 <= k < r :: Pow(k) < pages
    decreases orders - from
  { if from == orders || Pow(from) >= pages then from else OrderFor(pages, from + 1, orders) }

  /** Give back upper halves until the block has the wanted order. */
  function SplitDown(m: Mem, h: nat, o: nat, target: nat): Mem
    requires Shape(m) && target <= o < |m.lists| && h + Pow(o) <= |m.isFree|
    decreases o
  {
    if o == target then m
    else SplitDown(GiveUpper(m, h + Pow(o - 1), o - 1), h, o - 1, target)
  }

  function GiveUpper(m: Mem, b: nat, o: nat): Mem
    requires Shape(m) && b < |m.isFree| && o < |m.lists|
  {
    Mem(m.isFree[b := true], m.order[b := o], m.refs[b := 0], Add(m.lists, o, b), m.count + Pow(o))
  }

  /** A listed block lies inside memory. */
  ghost predicate Fits(m: Mem) { forall o: nat, h | o < |m.lists| && h in m.lists[o] :: h + Pow(o) <= |m.isFree| }

  /** The block leaves its list. */
  function Detached(m: Mem, h: nat, o: nat): Mem
    requires h < |m.isFree| && o < |m.lists|
  { m.(isFree := m.isFree[h := false], lists := Del(m.lists, o, h), count := m.count - Pow(o)) }

  function Alloc(m: Mem, pages: nat): (Mem, Option<nat>)
    requires Shape(m) && Fits(m)
  {
    var t := OrderFor(pages, 0, |m.lists|);
    if pages == 0 || t == |m.lists| || FirstList(m, t) == |m.lists| then (m, None)
    else
      var o := FirstList(m, t);
      var h := m.lists[o][0];
      assert h in m.lists[o];
      var d := Detached(m, h, o);
      var r := SplitDown(d, h, o, t);
      SplitShape(d, h, o, t);
      (r.(order := r.order[h := t], refs := r.refs[h := 1]), Some(h))
  }

  lemma {:induction false} SplitShape(m: Mem, h: nat, o: nat, target: nat)
    requires Shape(m) && target <= o < |m.lists| && h + Pow(o) <= |m.isFree|
    ensures var r := SplitDown(m, h, o, target); Shape(r) && |r.isFree| == |m.isFree| && |r.lists| == |m.lists|
    decreases o
  {
    if o > target { SplitShape(GiveUpper(m, h + Pow(o - 1), o - 1), h, o - 1, target); }
  }

  datatype FreeEnd = Ignored | DoubleFree | ZeroRef | StillHeld | Freed

  /** `pmm_free_pages`; the panics leave the allocator as it is. */
  function Free(m: Mem, reserved: seq<bool>, p: nat): (Mem, FreeEnd)
    requires Shape(m) && |reserved| == |m.isFree|
    requires forall h | 0 <= h < |m.isFree| && m.refs[h] > 0 :: m.order[h] < |m.lists|
  {
    if p >= |m.isFree| || reserved[p] then (m, Ignored)
    else if m.isFree[p] then (m, DoubleFree)
    else if m.refs[p] == 0 then (m, ZeroRef)
    else
      var d := m.(refs := m.refs[p := m.refs[p] - 1]);
      if d.refs[p] > 0 then (d, StillHeld)
      else (FreeInsert(d.(count := d.count + Pow(d.order[p])), p, d.order[p]), Freed)
  }

  const REF_MAX := 65535

  datatype HoldEnd = HoldIgnored | HoldFree | Overflow | Held

  function Hold(m: Mem, reserved: seq<bool>, p: nat): (Mem, HoldEnd)
    requires Shape(m) && |reserved| == |m.isFree|
  {
    if p >= |m.isFree| || reserved[p] then (m, HoldIgnored)
    else if m.isFree[p] then (m, HoldFree)
    else if m.refs[p] == REF_MAX then (m, Overflow)
    else (m.(refs := m.refs[p := m.refs[p] + 1]), Held)
  }
}

/** Reserved pages, free blocks and allocated blocks partition memory, at every step of every operation. */
module BuddySafety {
  import opened Common
  import opened BuddyMath
  import opened Buddy

  /** The block a page belongs to. */
  datatype Cover = Cover(head: nat, order: nat)

  ghost predicate Within(h: nat, o: nat, p: nat) { h <= p < h + Pow(o) }

  /** A free block, an allocated block, or the block an operation has in its hand. */
  ghost predicate IsBlock(m: Mem, hand: Option<Cover>, h: nat, o: nat) {
    || (h < |m.isFree| == |m.order| == |m.refs| && m.order[h] == o && (m.isFree[h] || m.refs[h] > 0))
    || hand == Some(Cover(h, o))
  }

  ghost predicate Placed(m: Mem, hand: Option<Cover>, upto: nat) {
    forall h: nat, o: nat | IsBlock(m, hand, h, o) :: o < |m.lists| && Aligned(h, o) && h + Pow(o) <= upto
  }

  ghost predicate Covers(m: Mem, hand: Option<Cover>, res: seq<bool>, cov: seq<Cover>)
    requires |res| == |cov|
  {
    forall h: nat, o: nat, p: nat | IsBlock(m, hand, h, o) && Within(h, o, p) :: p < |res| && !res[p] && cov[p] == Cover(h, o)
  }

  ghost predicate Covered(m: Mem, hand: Option<Cover>, res: seq<bool>, cov: seq<Cover>, upto: nat)
    requires |res| == |cov| && upto <= |res|
  {
    forall p | 0 <= p < upto && !res[p] :: IsBlock(m, hand, cov[p].head, cov[p].order) && Within(cov[p].head, cov[p].order, p)
  }

  /** Every unreserved page below `upto` is in exactly one block, every block is aligned to its size. */
  ghost predicate Partition(m: Mem, res: seq<bool>, cov: seq<Cover>, upto: nat, hand: Option<Cover>) {
    && Shape(m) && |res| == |cov| == |m.isFree| && upto <= |res|
    && Placed(m, hand, upto) && Covers(m, hand, res, cov) && Covered(m, hand, res, cov, upto)
    && (forall h | 0 <= h < |m.isFree| && m.isFree[h] :: m.refs[h] == 0)
    && (hand.Some? ==> hand.value.head < |m.isFree| && !m.isFree[hand.value.head] && m.refs[hand.value.head] == 0)
  }

  /** No two equal-order buddies below the largest order are both free. */
  ghost predicate Coalesced(m: Mem)
    requires Shape(m)
  {
    forall h | 0 <= h < |m.isFree| && m.isFree[h] && m.order[h] + 1 < |m.lists| :: !CanMerge(m, h, m.order[h])
  }

  ghost predicate OnList(m: Mem, o: nat, h: nat) { o < |m.lists| && h in m.lists[o] }

  ghost predicate FreeAt(m: Mem, o: nat, h: nat) { h < |m.isFree| == |m.order| && m.isFree[h] && m.order[h] == o }

  /** The lists hold exactly the free heads, each once. */
  ghost predicate Listed(m: Mem)
    requires Shape(m)
  {
    && (forall o | 0 <= o < |m.lists| :: Distinct(m.lists[o]))
    && (forall o: nat, h: nat | o < |m.lists| :: OnList(m, o, h) <==> FreeAt(m, o, h))
  }

  /** Pages on the lists from order `o` up. */
  ghost function Total(lists: seq<seq<nat>>, o: nat): nat
    requires o <= |lists|
    decreases |lists| - o
  { if o == |lists| then 0 else |lists[o]| * Pow(o) + Total(lists, o + 1) }

  ghost predicate Inv(m: Mem, res: seq<bool>, cov: seq<Cover>) {
    Partition(m, res, cov, |res|, None) && Coalesced(m) && Listed(m) && m.count == Total(m.lists, 0)
  }

  // ---------------------------------------------------------------- the moves an operation is made of

  ghost function Recover(cov: seq<Cover>, h: nat, o: nat): seq<Cover> {
    seq(|cov|, p requires 0 <= p < |cov| => if Within(h, o, p) then Cover(h, o) else cov[p])
  }

  /** The blocks after a merge are the merged one and those that were neither half. */
  lemma AbsorbBlocks(m: Mem, m': Mem, res: seq<bool>, cov: seq<Cover>, upto: nat, h: nat, o: nat, b: nat, g: nat)
    requires Partition(m, res, cov, upto, Some(Cover(h, o))) && CanMerge(m, h, o)
    requires b == BuddyOf(h, o) && m' == Absorb(m, b, o)
    ensures forall x: nat, k: nat :: IsBlock(m', Some(Cover(g, o + 1)), x, k) <==>
              Cover(x, k) == Cover(g, o + 1) || (IsBlock(m, Some(Cover(h, o)), x, k) && x != h && x != b)
  {
    HandIsAlone(m, res, cov, upto, h, o);
    hide Aligned;
  }

  lemma AbsorbKeepsPartition(m: Mem, res: seq<bool>, cov: seq<Cover>, upto: nat, h: nat, o: nat)
    requires Partition(m, res, cov, upto, Some(Cover(h, o))) && CanMerge(m, h, o)
    ensures var b := BuddyOf(h, o);
            Partition(Absorb(m, b, o), res, Recover(cov, Min(h, b), o + 1), upto, Some(Cover(Min(h, b), o + 1)))
  {
    var (b, hand) := (BuddyOf(h, o), Some(Cover(h, o)));
    assert IsBlock(m, hand, h, o) && IsBlock(m, hand, b, o);
    BuddyFacts(h, o);
    var (g, m', cov') := (Min(h, b), Absorb(m, b, o), Recover(cov, Min(h, b), o + 1));
    var hand' := Some(Cover(g, o + 1));
    AbsorbBlocks(m, m', res, cov, upto, h, o, b, g);
    hide IsBlock, Aligned;
    assert |m'.lists| == |m.lists| && !m'.isFree[g] && m'.refs[g] == 0;
    assert forall x | 0 <= x < |m'.isFree| && m'.isFree[x] :: m'.refs[x] == 0;
    forall x: nat, k: nat | IsBlock(m', hand', x, k) ensures k < |m'.lists| && Aligned(x, k) && x + Pow(k) <= upto {
      if Cover(x, k) != Cover(g, o + 1) { assert IsBlock(m, hand, x, k); }
    }
    assert forall p: nat :: Within(g, o + 1, p) <==> Within(h, o, p) || Within(b, o, p);
    forall x: nat, k: nat, p: nat | IsBlock(m', hand', x, k) && Within(x, k, p) ensures p < |res| && !res[p] && cov'[p] == Cover(x, k) {
      if hand' != Some(Cover(x, k)) {
        assert cov[p] == Cover(x, k);
        assert !Within(h, o, p) && !Within(b, o, p);
      } else {
        assert Within(h, o, p) || Within(b, o, p);
      }
    }
    forall p | 0 <= p < upto && !res[p] ensures IsBlock(m', hand', cov'[p].head, cov'[p].order) && Within(cov'[p].head, cov'[p].order, p) {
      if !Within(g, o + 1, p) {
        assert IsBlock(m, hand, cov[p].head, cov[p].order) && Within(cov[p].head, cov[p].order, p);
        HeadsTell(m, res, cov, upto, hand, p, h, o);
        HeadsTell(m, res, cov, upto, hand, p, b, o);
      }
    }
  }

  /** A page outside a block is not covered by its head. */
  lemma HeadsTell(m: Mem, res: seq<bool>, cov: seq<Cover>, upto: nat, hand: Option<Cover>, p: nat, h: nat, o: nat)
    requires Partition(m, res, cov, upto, hand) && IsBlock(m, hand, h, o) && p < upto && !res[p] && !Within(h, o, p)
    ensures cov[p].head != h
  {
    assert Within(h, o, h) && cov[h] == Cover(h, o);
    assert IsBlock(m, hand, cov[p].head, cov[p].order) && Within(cov[p].head, cov[p].order, cov[p].head);
  }

  /** The block in the hand becomes a free one. */
  lemma FinalKeepsPartition(m: Mem, m': Mem, res: seq<bool>, cov: seq<Cover>, upto: nat, h: nat, o: nat)
    requires Partition(m, res, cov, upto, Some(Cover(h, o)))
    requires m' == m.(isFree := m.isFree[h := true], order := m.order[h := o], lists := m'.lists) && |m'.lists| == |m.lists|
    ensures Partition(m', res, cov, upto, None)
  {
    assert forall x: nat, k: nat :: IsBlock(m', None, x, k) <==> IsBlock(m, Some(Cover(h, o)), x, k) by {
      HandIsAlone(m, res, cov, upto, h, o);
    }
  }

  /** The head of the block in the hand heads no other block. */
  lemma HandIsAlone(m: Mem, res: seq<bool>, cov: seq<Cover>, upto: nat, h: nat, o: nat)
    requires Partition(m, res, cov, upto, Some(Cover(h, o)))
    ensures forall k: nat | IsBlock(m, Some(Cover(h, o)), h, k) :: k == o
  {
    assert IsBlock(m, Some(Cover(h, o)), h, o) && Within(h, o, h);
    assert forall k: nat | IsBlock(m, Some(Cover(h, o)), h, k) :: Within(h, k, h);
  }

  /** A free block is taken off its list, or an allocated one loses its last reference. */
  lemma TakeKeepsPartition(m: Mem, m': Mem, res: seq<bool>, cov: seq<Cover>, upto: nat, h: nat)
    requires Partition(m, res, cov, upto, None) && h < |m.isFree| && (m.isFree[h] || m.refs[h] > 0)
    requires m' == m.(isFree := m.isFree[h := false], refs := m.refs[h := 0], lists := m'.lists, count := m'.count)
    requires |m'.lists| == |m.lists|
    ensures Partition(m', res, cov, upto, Some(Cover(h, m.order[h])))
  {
    assert forall x: nat, k: nat :: IsBlock(m', Some(Cover(h, m.order[h])), x, k) <==> IsBlock(m, None, x, k);
    assert IsBlock(m, None, h, m.order[h]);
  }

  /** The upper half heads no block before the split. */
  lemma UpperIsNew(m: Mem, res: seq<bool>, cov: seq<Cover>, upto: nat, h: nat, o: nat)
    requires Partition(m, res, cov, upto, Some(Cover(h, o + 1)))
    ensures Aligned(h, o + 1) && o < |m.lists|
    ensures h + Pow(o) < |m.isFree| && !m.isFree[h + Pow(o)] && m.refs[h + Pow(o)] == 0
  {
    var (b, hand) := (h + Pow(o), Some(Cover(h, o + 1)));
    assert IsBlock(m, hand, h, o + 1) && Within(h, o + 1, b);
    assert cov[b] == Cover(h, o + 1);
    assert IsBlock(m, hand, b, m.order[b]) ==> Within(b, m.order[b], b);
  }

  /** The blocks after the split are the two halves and the others. */
  lemma UpperBlocks(m: Mem, res: seq<bool>, cov: seq<Cover>, upto: nat, h: nat, o: nat)
    requires Partition(m, res, cov, upto, Some(Cover(h, o + 1))) && h + Pow(o) < |m.isFree| && o < |m.lists|
    requires !m.isFree[h + Pow(o)] && m.refs[h + Pow(o)] == 0
    ensures forall x: nat, k: nat :: IsBlock(GiveUpper(m, h + Pow(o), o), Some(Cover(h, o)), x, k) <==>
              Cover(x, k) == Cover(h, o) || Cover(x, k) == Cover(h + Pow(o), o) || (IsBlock(m, Some(Cover(h, o + 1)), x, k) && x != h)
  {
    HandIsAlone(m, res, cov, upto, h, o + 1);
    assert Shape(m) && h < |m.isFree| && !m.isFree[h] && m.refs[h] == 0;
    hide Partition;
    var (b, m') := (h + Pow(o), GiveUpper(m, h + Pow(o), o));
    forall x: nat, k: nat
      ensures IsBlock(m', Some(Cover(h, o)), x, k) <==>
                Cover(x, k) == Cover(h, o) || Cover(x, k) == Cover(b, o) || (IsBlock(m, Some(Cover(h, o + 1)), x, k) && x != h)
    {
      assert x != b ==> x < |m.isFree| ==> m'.isFree[x] == m.isFree[x] && m'.order[x] == m.order[x] && m'.refs[x] == m.refs[x];
    }
  }

  /** After the split every page of a block is covered by it, ... */
  lemma UpperCovers(m: Mem, res: seq<bool>, cov: seq<Cover>, upto: nat, h: nat, o: nat, x: nat, k: nat, p: nat)
    requires Partition(m, res, cov, upto, Some(Cover(h, o + 1)))
    requires Within(x, k, p)
    requires Cover(x, k) == Cover(h, o) || Cover(x, k) == Cover(h + Pow(o), o) || (IsBlock(m, Some(Cover(h, o + 1)), x, k) && x != h)
    ensures p < |res| && !res[p] && Recover(Recover(cov, h, o), h + Pow(o), o)[p] == Cover(x, k)
  {
    assert IsBlock(m, Some(Cover(h, o + 1)), h, o + 1) && Pow(o + 1) == 2 * Pow(o);
    assert Cover(x, k) == Cover(h, o) || Cover(x, k) == Cover(h + Pow(o), o) ==> Within(h, o + 1, p);
    assert IsBlock(m, Some(Cover(h, o + 1)), x, k) ==> cov[p] == Cover(x, k);
    assert Within(h, o + 1, p) ==> cov[p] == Cover(h, o + 1);
  }

  /** ... and every page is in the block that covers it. */
  lemma UpperCovered(m: Mem, res: seq<bool>, cov: seq<Cover>, upto: nat, h: nat, o: nat, p: nat)
    requires Partition(m, res, cov, upto, Some(Cover(h, o + 1))) && p < upto && !res[p]
    ensures var c := Recover(Recover(cov, h, o), h + Pow(o), o)[p];
            && Within(c.head, c.order, p)
            && (c == Cover(h, o) || c == Cover(h + Pow(o), o) || (IsBlock(m, Some(Cover(h, o + 1)), c.head, c.order) && c.head != h))
  {
    HandIsAlone(m, res, cov, upto, h, o + 1);
    assert Pow(o + 1) == 2 * Pow(o);
    assert Within(h, o + 1, p) <==> Within(h, o, p) || Within(h + Pow(o), o, p);
    assert cov[p].order == o + 1 || cov[p].head != h;
  }

  lemma UpperPlaced(m: Mem, res: seq<bool>, cov: seq<Cover>, upto: nat, h: nat, o: nat, x: nat, k: nat)
    requires Partition(m, res, cov, upto, Some(Cover(h, o + 1)))
    requires Cover(x, k) == Cover(h, o) || Cover(x, k) == Cover(h + Pow(o), o) || (IsBlock(m, Some(Cover(h, o + 1)), x, k) && x != h)
    ensures k < |m.lists| && Aligned(x, k) && x + Pow(k) <= upto
  {
    hide Covers, Covered;
    assert IsBlock(m, Some(Cover(h, o + 1)), h, o + 1) && Pow(o + 1) == 2 * Pow(o);
    HalfFacts(h, o);
  }

  /** The upper half of the block in the hand becomes a free block. */
  lemma UpperKeepsPartition(m: Mem, res: seq<bool>, cov: seq<Cover>, upto: nat, h: nat, o: nat)
    requires Partition(m, res, cov, upto, Some(Cover(h, o + 1))) && h + Pow(o) < |m.isFree| && o < |m.lists|
    requires !m.isFree[h + Pow(o)] && m.refs[h + Pow(o)] == 0
    ensures Partition(GiveUpper(m, h + Pow(o), o), res, Recover(Recover(cov, h, o), h + Pow(o), o), upto, Some(Cover(h, o)))
  {
    var (b, hand, hand') := (h + Pow(o), Some(Cover(h, o + 1)), Some(Cover(h, o)));
    var (m', cov') := (GiveUpper(m, b, o), Recover(Recover(cov, h, o), b, o));
    UpperBlocks(m, res, cov, upto, h, o);
    hide IsBlock, Aligned;
    assert Placed(m', hand', upto) by {
      forall x: nat, k: nat | IsBlock(m', hand', x, k) ensures k < |m.lists| && Aligned(x, k) && x + Pow(k) <= upto {
        UpperPlaced(m, res, cov, upto, h, o, x, k);
      }
    }
    assert Covers(m', hand', res, cov') by {
      forall x: nat, k: nat, p: nat | IsBlock(m', hand', x, k) && Within(x, k, p) ensures p < |res| && !res[p] && cov'[p] == Cover(x, k) {
        UpperCovers(m, res, cov, upto, h, o, x, k, p);
      }
    }
    assert Covered(m', hand', res, cov', upto) by {
      forall p | 0 <= p < upto && !res[p] ensures IsBlock(m', hand', cov'[p].head, cov'[p].order) && Within(cov'[p].head, cov'[p].order, p) {
        UpperCovered(m, res, cov, upto, h, o, p);
      }
    }
    hide Placed, Covers, Covered;
  }

  /** The block in the hand becomes an allocated one. */
  lemma GrantKeepsPartition(m: Mem, res: seq<bool>, cov: seq<Cover>, upto: nat, h: nat, o: nat)
    requires Partition(m, res, cov, upto, Some(Cover(h, o)))
    ensures Partition(m.(order := m.order[h := o], refs := m.refs[h := 1]), res, cov, upto, None)
  {
    var m' := m.(order := m.order[h := o], refs := m.refs[h := 1]);
    HandIsAlone(m, res, cov, upto, h, o);
    assert forall x: nat, k: nat :: IsBlock(m', None, x, k) <==> IsBlock(m, Some(Cover(h, o)), x, k);
  }

  // ---------------------------------------------------------------- lists and totals

  lemma {:induction false} TotalUpdate(lists: seq<seq<nat>>, from: nat, o: nat, l: seq<nat>)
    requires from <= o < |lists|
    ensures Total(lists[o := l], from) == Total(lists, from) + (|l| - |lists[o]|) * Pow(o)
    decreases o - from
  {
    if from < o { TotalUpdate(lists, from + 1, o, l); } else { TotalAbove(lists, from + 1, o, l); }
  }

  lemma {:induction false} TotalAbove(lists: seq<seq<nat>>, from: nat, o: nat, l: seq<nat>)
    requires o < from <= |lists|
    ensures Total(lists[o := l], from) == Total(lists, from)
    decreases |lists| - from
  {
    if from < |lists| { TotalAbove(lists, from + 1, o, l); }
  }

  /** A head leaves its list. */
  lemma DelKeepsListed(m: Mem, m': Mem, h: nat, o: nat)
    requires Shape(m) && Listed(m) && h < |m.isFree| && m.isFree[h] && m.order[h] == o < |m.lists|
    requires Shape(m') && m'.isFree == m.isFree[h := false] && m'.lists == Del(m.lists, o, h)
    requires |m'.order| == |m.order| && forall x | 0 <= x < |m.order| && x != h :: m'.order[x] == m.order[x]
    ensures Listed(m')
  {
    WithoutDistinct(m.lists[o], h);
    forall k: nat, x: nat | k < |m.lists| ensures OnList(m', k, x) <==> FreeAt(m', k, x) {
      assert OnList(m, k, x) <==> FreeAt(m, k, x);
    }
  }

  lemma ListedSame(m: Mem, m': Mem)
    requires Shape(m) && Listed(m) && Shape(m') && m'.isFree == m.isFree && m'.lists == m.lists
    requires forall x | 0 <= x < |m.isFree| && m.isFree[x] :: m'.order[x] == m.order[x]
    ensures Listed(m')
  {
    forall k: nat, x: nat | k < |m.lists| ensures OnList(m', k, x) <==> FreeAt(m', k, x) {
      assert OnList(m, k, x) <==> FreeAt(m, k, x);
    }
  }

  lemma DelTotal(lists: seq<seq<nat>>, h: nat, o: nat)
    requires o < |lists| && Distinct(lists[o]) && h in lists[o]
    ensures Total(Del(lists, o, h), 0) == Total(lists, 0) - Pow(o)
  {
    hide Total, Distinct;
    var l := Without(lists[o], h);
    WithoutLength(lists[o], h);
    TotalUpdate(lists, 0, o, l);
    assert (|l| - |lists[o]|) * Pow(o) == -1 * Pow(o);
  }

  /** A page that headed no free block heads one. */
  lemma AddKeepsListed(m: Mem, m': Mem, h: nat, o: nat)
    requires Shape(m) && Listed(m) && h < |m.isFree| && !m.isFree[h] && o < |m.lists|
    requires Shape(m') && m'.isFree == m.isFree[h := true] && m'.order == m.order[h := o] && m'.lists == Add(m.lists, o, h)
    ensures Listed(m')
  {
    assert !OnList(m, o, h);
    assert forall i | 0 < i < |m'.lists[o]| :: m'.lists[o][i] == m.lists[o][i - 1];
    forall k: nat, x: nat | k < |m.lists| ensures OnList(m', k, x) <==> FreeAt(m', k, x) {
      assert OnList(m, k, x) <==> FreeAt(m, k, x);
    }
  }

  lemma AddTotal(lists: seq<seq<nat>>, h: nat, o: nat)
    requires o < |lists|
    ensures Total(Add(lists, o, h), 0) == Total(lists, 0) + Pow(o)
  {
    hide Total, Pow;
    TotalUpdate(lists, 0, o, [h] + lists[o]);
    assert |[h] + lists[o]| - |lists[o]| == 1 && 1 * Pow(o) == Pow(o);
  }

  // ---------------------------------------------------------------- freeing

  lemma FinalKeepsCoalesced(m: Mem, m': Mem, res: seq<bool>, cov: seq<Cover>, upto: nat, h: nat, o: nat)
    requires Partition(m, res, cov, upto, Some(Cover(h, o))) && Coalesced(m) && !CanMerge(m, h, o)
    requires m' == m.(isFree := m.isFree[h := true], order := m.order[h := o], lists := m'.lists) && |m'.lists| == |m.lists|
    ensures Coalesced(m')
  {
    assert IsBlock(m, Some(Cover(h, o)), h, o);
    BuddyFacts(h, o);
    forall x | 0 <= x < |m'.isFree| && m'.isFree[x] && m'.order[x] + 1 < |m'.lists| ensures !CanMerge(m', x, m'.order[x]) {
      if x != h {
        var k := m.order[x];
        assert IsBlock(m, Some(Cover(h, o)), x, k);
        BuddyFacts(x, k);
        assert !CanMerge(m, x, k);
      }
    }
  }

  /** Freeing merges as far as it can and keeps every allocated block as it was. */
  lemma {:induction false} InsertKeeps(m: Mem, res: seq<bool>, cov: seq<Cover>, upto: nat, h: nat, o: nat) returns (cov': seq<Cover>)
    requires Partition(m, res, cov, upto, Some(Cover(h, o))) && Coalesced(m) && Listed(m) && o < |m.lists|
    ensures var r := FreeInsert(m, h, o);
            && Partition(r, res, cov', upto, None) && Coalesced(r) && Listed(r)
            && Total(r.lists, 0) == Total(m.lists, 0) + Pow(o) && r.refs == m.refs && r.count == m.count
            && (forall x | 0 <= x < |m.refs| && m.refs[x] > 0 :: r.order[x] == m.order[x])
    decreases |m.lists| - o
  {
    if CanMerge(m, h, o) {
      var b := BuddyOf(h, o);
      var m1 := Absorb(m, b, o);
      AbsorbKeepsPartition(m, res, cov, upto, h, o);
      DelKeepsListed(m, m1, b, o);
      assert OnList(m, o, b);
      DelTotal(m.lists, b, o);
      hide Partition, Listed;
      cov' := InsertKeeps(m1, res, Recover(cov, Min(h, b), o + 1), upto, Min(h, b), o + 1);
    } else {
      var r := FreeInsert(m, h, o);
      cov' := cov;
      FinalKeepsPartition(m, r, res, cov, upto, h, o);
      FinalKeepsCoalesced(m, r, res, cov, upto, h, o);
      AddKeepsListed(m, r, h, o);
      AddTotal(m.lists, h, o);
    }
  }

  // ---------------------------------------------------------------- allocating

  /** One split. */
  lemma UpperKeeps(m: Mem, res: seq<bool>, cov: seq<Cover>, upto: nat, h: nat, o: nat) returns (m1: Mem, cov1: seq<Cover>)
    requires Partition(m, res, cov, upto, Some(Cover(h, o + 1))) && Coalesced(m) && Listed(m) && o + 1 < |m.lists|
    ensures h + 2 * Pow(o) <= |m.isFree| && m1 == GiveUpper(m, h + Pow(o), o)
    ensures Partition(m1, res, cov1, upto, Some(Cover(h, o))) && Coalesced(m1) && Listed(m1)
    ensures |m1.isFree| == |m.isFree| && |m1.lists| == |m.lists| && m1.count - Total(m1.lists, 0) == m.count - Total(m.lists, 0)
    ensures m1.refs == m.refs && forall x | 0 <= x < |m.refs| && m.refs[x] > 0 :: m1.order[x] == m.order[x]
  {
    var b := h + Pow(o);
    assert IsBlock(m, Some(Cover(h, o + 1)), h, o + 1);
    UpperIsNew(m, res, cov, upto, h, o);
    UpperKeepsPartition(m, res, cov, upto, h, o);
    UpperKeepsCoalesced(m, res, cov, upto, h, o);
    m1, cov1 := GiveUpper(m, b, o), Recover(Recover(cov, h, o), b, o);
    assert Shape(m) && h + Pow(o + 1) <= upto <= |m.isFree|;
    hide Partition, Coalesced, IsBlock, Aligned;
    AddKeepsListed(m, m1, b, o);
    AddTotal(m.lists, b, o);
  }

  /** Handing back upper halves keeps the lower part in the hand and disturbs no allocated block. */
  lemma {:induction false} SplitKeeps(m: Mem, res: seq<bool>, cov: seq<Cover>, upto: nat, h: nat, o: nat, target: nat)
    returns (cov': seq<Cover>)
    requires Partition(m, res, cov, upto, Some(Cover(h, o))) && Coalesced(m) && Listed(m) && target <= o < |m.lists|
    requires h + Pow(o) <= |m.isFree|
    ensures var r := SplitDown(m, h, o, target);
            && Partition(r, res, cov', upto, Some(Cover(h, target))) && Coalesced(r) && Listed(r)
            && r.count - Total(r.lists, 0) == m.count - Total(m.lists, 0) && r.refs == m.refs
            && (forall x | 0 <= x < |m.refs| && m.refs[x] > 0 :: r.order[x] == m.order[x])
    decreases o
  {
    assert Shape(m);
    hide Partition, Coalesced, Listed, Aligned, Total;
    if o == target {
      cov' := cov;
    } else {
      var m1, cov1 := UpperKeeps(m, res, cov, upto, h, o - 1);
      assert SplitDown(m, h, o, target) == SplitDown(m1, h, o - 1, target);
      cov' := SplitKeeps(m1, res, cov1, upto, h, o - 1, target);
    }
  }

  lemma UpperKeepsCoalesced(m: Mem, res: seq<bool>, cov: seq<Cover>, upto: nat, h: nat, o: nat)
    requires Partition(m, res, cov, upto, Some(Cover(h, o + 1))) && Coalesced(m)
    requires h + Pow(o) < |m.isFree| && o < |m.lists| && !m.isFree[h + Pow(o)] && Aligned(h, o + 1)
    ensures Coalesced(GiveUpper(m, h + Pow(o), o))
  {
    var (b, hand) := (h + Pow(o), Some(Cover(h, o + 1)));
    var m' := GiveUpper(m, b, o);
    HalfFacts(h, o);
    assert !m.isFree[h] && !CanMerge(m', b, o);
    forall x | 0 <= x < |m'.isFree| && m'.isFree[x] && m'.order[x] + 1 < |m'.lists| ensures !CanMerge(m', x, m'.order[x]) {
      if x != b {
        assert IsBlock(m, hand, x, m.order[x]);
        LonelyStays(m, m', x, h, o);
      }
    }
  }

  /** The new half is no other block's buddy. */
  lemma LonelyStays(m: Mem, m': Mem, x: nat, h: nat, o: nat)
    requires Shape(m) && Coalesced(m) && x < |m.isFree| && m.isFree[x] && Aligned(x, m.order[x]) && m.order[x] + 1 < |m.lists|
    requires h + Pow(o) < |m.isFree| && o < |m.lists| && x != h && BuddyOf(h + Pow(o), o) == h && m' == GiveUpper(m, h + Pow(o), o) && x != h + Pow(o)
    ensures !CanMerge(m', x, m'.order[x])
  {
    BuddyFacts(x, m.order[x]);
    assert !CanMerge(m, x, m.order[x]);
  }

  /** The allocator's inputs are within bounds. */
  lemma InvFits(m: Mem, res: seq<bool>, cov: seq<Cover>)
    requires Inv(m, res, cov)
    ensures Fits(m) && forall h | 0 <= h < |m.refs| && m.refs[h] > 0 :: m.order[h] < |m.lists|
    ensures Shape(m) && Listed(m) && |res| == |m.isFree|
  {
    forall o: nat, h | o < |m.lists| && h in m.lists[o] ensures h + Pow(o) <= |m.isFree| { assert OnList(m, o, h) && IsBlock(m, None, h, o); }
    forall h | 0 <= h < |m.refs| && m.refs[h] > 0 ensures m.order[h] < |m.lists| { assert IsBlock(m, None, h, m.order[h]); }
  }

  /** Allocation fails only when no free block is large enough; otherwise it returns a block of the least sufficient order,
      cut out of free memory, and touches no other allocated block. */
  lemma AllocKeeps(m: Mem, res: seq<bool>, cov: seq<Cover>, pages: nat) returns (cov': seq<Cover>)
    requires Inv(m, res, cov) && Fits(m)
    ensures var (r, got) := Alloc(m, pages);
            && Inv(r, res, cov')
            && (got.None? <==> pages == 0 || forall h | 0 <= h < |m.isFree| && m.isFree[h] :: Pow(m.order[h]) < pages)
            && (got.None? ==> r == m)
            && (got.Some? ==>
                  var h := got.value;
                  && h < |m.refs| && m.refs[h] == 0 && r.refs[h] == 1
                  && r.order[h] == OrderFor(pages, 0, |m.lists|) < |m.lists|
                  && (forall x | 0 <= x < |m.refs| && m.refs[x] > 0 :: r.refs[x] == m.refs[x] && r.order[x] == m.order[x])
                  && (forall x | 0 <= x < |m.refs| && x != h && r.refs[x] > 0 :: m.refs[x] > 0))
  {
    var t := OrderFor(pages, 0, |m.lists|);
    NoneFree(m, res, cov, pages, t);
    if pages == 0 || t == |m.lists| || FirstList(m, t) == |m.lists| {
      cov' := cov;
    } else {
      var o := FirstList(m, t);
      var h := m.lists[o][0];
      assert OnList(m, o, h) && FreeAt(m, o, h);
      var d := Detached(m, h, o);
      TakeKeepsPartition(m, d, res, cov, |res|, h);
      DelKeepsListed(m, d, h, o);
      DelTotal(m.lists, h, o);
      assert Coalesced(d);
      SplitShape(d, h, o, t);
      cov' := SplitKeeps(d, res, cov, |res|, h, o, t);
      GrantKeepsAll(SplitDown(d, h, o, t), res, cov', h, t);
    }
  }

  lemma GrantKeepsAll(m: Mem, res: seq<bool>, cov: seq<Cover>, h: nat, o: nat)
    requires Partition(m, res, cov, |res|, Some(Cover(h, o))) && Coalesced(m) && Listed(m) && m.count == Total(m.lists, 0)
    ensures Inv(m.(order := m.order[h := o], refs := m.refs[h := 1]), res, cov)
  {
    GrantKeepsPartition(m, res, cov, |res|, h, o);
    var r := m.(order := m.order[h := o], refs := m.refs[h := 1]);
    ListedSame(m, r);
    forall x | 0 <= x < |r.isFree| && r.isFree[x] && r.order[x] + 1 < |r.lists| ensures !CanMerge(r, x, r.order[x]) {
      assert !CanMerge(m, x, m.order[x]);
    }
  }

  /** The search finds no list exactly when every free block is too small. */
  lemma NoneFree(m: Mem, res: seq<bool>, cov: seq<Cover>, pages: nat, t: nat)
    requires Inv(m, res, cov) && t == OrderFor(pages, 0, |m.lists|)
    ensures t == |m.lists| || FirstList(m, t) == |m.lists| <==> forall h | 0 <= h < |m.isFree| && m.isFree[h] :: Pow(m.order[h]) < pages
  {
    forall h | 0 <= h < |m.isFree| && m.isFree[h] ensures m.order[h] < |m.lists| && h in m.lists[m.order[h]] {
      assert IsBlock(m, None, h, m.order[h]) && FreeAt(m, m.order[h], h);
    }
    if t < |m.lists| {
      var o := FirstList(m, t);
      if o < |m.lists| {
        PowMonotone(t, o);
        var h := m.lists[o][0];
        assert OnList(m, o, h) && FreeAt(m, o, h);
      } else {
        forall h | 0 <= h < |m.isFree| && m.isFree[h] ensures Pow(m.order[h]) < pages {
          assert m.order[h] < t;
        }
      }
    }
  }

  lemma LastRefKeeps(m: Mem, res: seq<bool>, cov: seq<Cover>, p: nat) returns (cov': seq<Cover>)
    requires Inv(m, res, cov) && p < |m.refs| && m.refs[p] == 1 && m.order[p] < |m.lists|
    ensures var d := m.(refs := m.refs[p := 0], count := m.count + Pow(m.order[p]));
            var r := FreeInsert(d, p, m.order[p]);
            && Inv(r, res, cov') && r.count == d.count && r.refs == d.refs
            && (forall x | 0 <= x < |m.refs| && x != p && m.refs[x] > 0 :: r.order[x] == m.order[x])
  {
    var d := m.(refs := m.refs[p := 0], count := m.count + Pow(m.order[p]));
    assert !m.isFree[p];
    TakeKeepsPartition(m, d, res, cov, |res|, p);
    assert Coalesced(d) by {
      forall h | 0 <= h < |d.isFree| && d.isFree[h] && d.order[h] + 1 < |d.lists| ensures !CanMerge(d, h, d.order[h]) {
        assert !CanMerge(m, h, m.order[h]);
      }
    }
    ListedSame(m, d);
    hide Partition;
    cov' := InsertKeeps(d, res, cov, |res|, p, m.order[p]);
  }

  /** Freeing: the panics fire exactly on a free head and on a page that heads no allocated block; the last reference returns
      the whole block. */
  lemma FreeKeeps(m: Mem, res: seq<bool>, cov: seq<Cover>, p: nat) returns (cov': seq<Cover>)
    requires Inv(m, res, cov) && |res| == |m.isFree|
    requires forall h | 0 <= h < |m.isFree| && m.refs[h] > 0 :: m.order[h] < |m.lists|
    ensures var (r, e) := Free(m, res, p);
            && Inv(r, res, cov')
            && (e == Ignored <==> p >= |res| || res[p])
            && (e == DoubleFree <==> p < |res| && m.isFree[p])
            && (e == ZeroRef <==> p < |res| && !res[p] && !m.isFree[p] && m.refs[p] == 0)
            && (e == Freed <==> p < |m.refs| && m.refs[p] == 1)
            && (e == StillHeld <==> p < |m.refs| && m.refs[p] > 1)
            && (e == Freed ==> r.count == m.count + Pow(m.order[p]) && r.refs == m.refs[p := 0])
            && (e == Freed ==> forall x: nat | Within(p, m.order[p], x) :: x < |cov'| && cov'[x].head < |res| && r.isFree[cov'[x].head])
            && (e == StillHeld ==> r == m.(refs := m.refs[p := m.refs[p] - 1]))
            && (e in {Ignored, DoubleFree, ZeroRef} ==> r == m)
            && (forall x | 0 <= x < |m.refs| && x != p && m.refs[x] > 0 :: r.refs[x] == m.refs[x] && r.order[x] == m.order[x])
  {
    cov' := cov;
    assert p < |res| && m.isFree[p] ==> IsBlock(m, None, p, m.order[p]) && Within(p, m.order[p], p);
    if p < |m.refs| && m.refs[p] > 0 {
      assert IsBlock(m, None, p, m.order[p]) && Within(p, m.order[p], p);
      if m.refs[p] == 1 {
        cov' := LastRefKeeps(m, res, cov, p);
        FreedIsFree(m, Free(m, res, p).0, res, cov, cov', p);
      } else {
        RefsKeep(m, res, cov, p, m.refs[p] - 1);
      }
    }
  }

  lemma FreeInv(m: Mem, res: seq<bool>, cov: seq<Cover>, p: nat) returns (cov': seq<Cover>)
    requires Inv(m, res, cov) && |res| == |m.isFree|
    requires forall h | 0 <= h < |m.isFree| && m.refs[h] > 0 :: m.order[h] < |m.lists|
    ensures Inv(Free(m, res, p).0, res, cov')
  {
    cov' := FreeKeeps(m, res, cov, p);
  }

  /** Once its block is returned, every page of it is in a free block. */
  lemma FreedIsFree(m: Mem, r: Mem, res: seq<bool>, cov: seq<Cover>, cov': seq<Cover>, p: nat)
    requires Inv(m, res, cov) && Inv(r, res, cov') && p < |m.refs| && m.refs[p] == 1 && r.refs == m.refs[p := 0]
    requires forall x | 0 <= x < |m.refs| && x != p && m.refs[x] > 0 :: r.order[x] == m.order[x]
    ensures forall x: nat | Within(p, m.order[p], x) :: x < |cov'| && cov'[x].head < |res| && r.isFree[cov'[x].head]
  {
    hide Coalesced, Listed, Total;
    forall x: nat | Within(p, m.order[p], x) ensures x < |cov'| && cov'[x].head < |res| && r.isFree[cov'[x].head] {
      assert IsBlock(m, None, p, m.order[p]);
      var c := cov'[x];
      assert IsBlock(r, None, c.head, c.order) && Within(c.head, c.order, x);
      assert c.head < |m.refs| && r.refs[c.head] > 0 ==> IsBlock(m, None, c.head, c.order);
    }
  }

  /** Only the count of an allocated head changes. */
  lemma RefsKeep(m: Mem, res: seq<bool>, cov: seq<Cover>, p: nat, k: nat)
    requires Inv(m, res, cov) && p < |m.refs| && m.refs[p] > 0 && k > 0
    ensures Inv(m.(refs := m.refs[p := k]), res, cov)
  {
    var r := m.(refs := m.refs[p := k]);
    assert forall x: nat, o: nat :: IsBlock(r, None, x, o) <==> IsBlock(m, None, x, o);
    assert forall h, o | 0 <= h < |m.isFree| :: CanMerge(r, h, o) == CanMerge(m, h, o);
    ListedSame(m, r);
  }

  /** Holding keeps the invariant exactly when the page is outside memory, reserved, a free head or an allocated head: holding
      any other page, one inside a block, would make it look like the head of a block of its own. */
  lemma HoldKeepsIff(m: Mem, res: seq<bool>, cov: seq<Cover>, p: nat)
    requires Inv(m, res, cov)
    ensures var (r, e) := Hold(m, res, p);
            (exists cov' :: Inv(r, res, cov')) <==> p >= |m.refs| || res[p] || m.isFree[p] || m.refs[p] > 0
  {
    var (r, e) := Hold(m, res, p);
    if e != Held {
      assert Inv(r, res, cov);
    } else if m.refs[p] > 0 {
      RefsKeep(m, res, cov, p, m.refs[p] + 1);
    } else if exists cov' :: Inv(r, res, cov') {
      var cov' :| Inv(r, res, cov');
      InsideIsNoHead(m, r, res, cov, cov', p);
    }
  }

  /** An allocated block of two pages: holding the second succeeds and leaves memory no partition describes. */
  lemma HoldInside()
    ensures var (m, res) := (Mem([false, false], [1, 0], [1, 0], [[], []], 0), [false, false]);
            && Inv(m, res, [Cover(0, 1), Cover(0, 1)]) && Hold(m, res, 1).1 == Held
            && forall cov' :: !Inv(Hold(m, res, 1).0, res, cov')
  {
    var (m, res, cov) := (Mem([false, false], [1, 0], [1, 0], [[], []], 0), [false, false], [Cover(0, 1), Cover(0, 1)]);
    assert Pow(1) == 2 * Pow(0) == 2;
    assert forall h: nat, o: nat :: IsBlock(m, None, h, o) <==> h == 0 && o == 1;
    assert Total(m.lists, 2) == 0;
    assert Inv(m, res, cov);
    HoldKeepsIff(m, res, cov, 1);
  }

  lemma InsideIsNoHead(m: Mem, r: Mem, res: seq<bool>, cov: seq<Cover>, cov': seq<Cover>, p: nat)
    requires Inv(m, res, cov) && p < |m.refs| && !res[p] && !m.isFree[p] && m.refs[p] == 0
    requires r == m.(refs := m.refs[p := 1])
    ensures !Inv(r, res, cov')
  {
    var c := cov[p];
    assert IsBlock(m, None, c.head, c.order) && Within(c.head, c.order, p) && c.head != p;
    assert IsBlock(r, None, c.head, c.order) && IsBlock(r, None, p, r.order[p]) && Within(p, r.order[p], p);
  }

  /** Each outcome of a hold, and what it leaves. */
  lemma HoldMeaning(m: Mem, res: seq<bool>, p: nat)
    requires Shape(m) && |res| == |m.isFree|
    ensures var (r, e) := Hold(m, res, p);
            && (e == HoldIgnored <==> p >= |res| || res[p])
            && (e == HoldFree <==> p < |res| && !res[p] && m.isFree[p])
            && (e == Overflow <==> p < |res| && !res[p] && !m.isFree[p] && m.refs[p] == REF_MAX)
            && (e == Held ==> p < |m.refs| && r == m.(refs := m.refs[p := m.refs[p] + 1]))
            && (e != Held ==> r == m)
  {
  }

  /** A free undoes a hold of an allocated block. */
  lemma HoldThenFree(m: Mem, res: seq<bool>, cov: seq<Cover>, p: nat)
    requires Inv(m, res, cov) && p < |m.refs| && 0 < m.refs[p] < REF_MAX
    ensures var (held, e) := Hold(m, res, p);
            e == Held && Shape(held) && (forall h | 0 <= h < |held.isFree| && held.refs[h] > 0 :: held.order[h] < |held.lists|)
            && Free(held, res, p) == (m, StillHeld)
  {
    assert IsBlock(m, None, p, m.order[p]) && Within(p, m.order[p], p);
    assert m.refs[p := m.refs[p] + 1][p := m.refs[p]] == m.refs;
    forall h | 0 <= h < |m.isFree| && m.refs[h] > 0 ensures m.order[h] < |m.lists| { assert IsBlock(m, None, h, m.order[h]); }
  }

  // ---------------------------------------------------------------- every run

  ghost predicate DoAlloc(m: Mem, m': Mem, pages: nat) { Shape(m) && Fits(m) && m' == Alloc(m, pages).0 }

  ghost predicate DoFree(m: Mem, m': Mem, res: seq<bool>, p: nat) {
    && Shape(m) && |res| == |m.isFree| && (forall h | 0 <= h < |m.isFree| && m.refs[h] > 0 :: m.order[h] < |m.lists|)
    && m' == Free(m, res, p).0
  }

  /** Callers hold only pages they got from the allocator. */
  ghost predicate DoHold(m: Mem, m': Mem, res: seq<bool>, p: nat) {
    Shape(m) && |res| == |m.isFree| && (p < |m.refs| ==> m.refs[p] > 0 || m.isFree[p] || res[p]) && m' == Hold(m, res, p).0
  }

  ghost predicate Next(m: Mem, m': Mem, res: seq<bool>) {
    (exists pages :: DoAlloc(m, m', pages)) || (exists p :: DoFree(m, m', res, p)) || (exists p :: DoHold(m, m', res, p))
  }

  ghost predicate IsRun(trace: seq<Mem>, res: seq<bool>, cov: seq<Cover>) {
    |trace| > 0 && Inv(trace[0], res, cov) && forall i | 0 <= i < |trace| - 1 :: Next(trace[i], trace[i + 1], res)
  }

  /** From a memory that boot distributed, every sequence of allocations, frees and holds keeps the partition, the coalescing,
      the lists and the page count. */
  lemma {:induction false} RunKeepsInv(trace: seq<Mem>, res: seq<bool>, cov: seq<Cover>, i: nat) returns (cov': seq<Cover>)
    requires IsRun(trace, res, cov) && i < |trace|
    ensures Inv(trace[i], res, cov')
  {
    if i == 0 {
      cov' := cov;
    } else {
      var c := RunKeepsInv(trace, res, cov, i - 1);
      var (m, m') := (trace[i - 1], trace[i]);
      assert Next(m, m', res) by { assert Next(trace[i - 1], trace[i - 1 + 1], res); }
      if pages :| DoAlloc(m, m', pages) {
        cov' := AllocKeeps(m, res, c, pages);
      } else if p :| DoFree(m, m', res, p) {
        cov' := FreeKeeps(m, res, c, p);
      } else {
        var p :| DoHold(m, m', res, p);
        HoldKeepsIff(m, res, c, p);
        cov' :| Inv(m', res, cov');
      }
    }
  }

  // ---------------------------------------------------------------- the account of one block

  datatype Op = OpAlloc(pages: nat) | OpFree(page: nat) | OpHold(page: nat)

  ghost predicate Does(m: Mem, m': Mem, res: seq<bool>, op: Op) {
    match op
    case OpAlloc(pages) => DoAlloc(m, m', pages)
    case OpFree(p) => DoFree(m, m', res, p)
    case OpHold(p) => DoHold(m, m', res, p)
  }

  ghost predicate IsOpRun(trace: seq<Mem>, ops: seq<Op>, res: seq<bool>, cov: seq<Cover>) {
    && |trace| == |ops| + 1 && Inv(trace[0], res, cov)
    && forall i | 0 <= i < |ops| :: Does(trace[i], trace[i + 1], res, ops[i])
  }

  lemma OpRunIsRun(trace: seq<Mem>, ops: seq<Op>, res: seq<bool>, cov: seq<Cover>)
    requires IsOpRun(trace, ops, res, cov)
    ensures IsRun(trace, res, cov)
  {
    hide DoAlloc, DoFree, DoHold;
    forall i | 0 <= i < |trace| - 1 ensures Next(trace[i], trace[i + 1], res) { assert Does(trace[i], trace[i + 1], res, ops[i]); }
  }

  /** Frees of `p` among the operations. */
  function Frees(ops: seq<Op>, p: nat): nat {
    if ops == [] then 0 else Frees(ops[..|ops| - 1], p) + if ops[|ops| - 1] == OpFree(p) then 1 else 0
  }

  /** Holds of `p` from step `a` to step `b`, those refused because the count is full left out. */
  ghost function Helds(trace: seq<Mem>, ops: seq<Op>, a: nat, b: nat, p: nat): nat
    requires a <= b <= |ops| == |trace| - 1
  {
    if a == b then 0
    else Helds(trace, ops, a, b - 1, p)
         + if ops[b - 1] == OpHold(p) && p < |trace[b - 1].refs| && trace[b - 1].refs[p] != REF_MAX then 1 else 0
  }

  /** One operation moves the count of an allocated block by its own hold or free and by nothing else. */
  lemma StepMoves(m: Mem, m': Mem, res: seq<bool>, cov: seq<Cover>, op: Op, p: nat)
    requires Inv(m, res, cov) && Does(m, m', res, op) && p < |m.refs| && m.refs[p] > 0
    ensures |m'.refs| == |m.refs|
    ensures m'.refs[p] == m.refs[p] + (if op == OpHold(p) && m.refs[p] != REF_MAX then 1 else 0) - if op == OpFree(p) then 1 else 0
  {
    assert IsBlock(m, None, p, m.order[p]) && Within(p, m.order[p], p);
    match op {
      case OpAlloc(pages) => var c := AllocKeeps(m, res, cov, pages);
      case OpFree(q) => var c := FreeKeeps(m, res, cov, q);
      case OpHold(q) => HoldMeaning(m, res, q);
    }
  }

  lemma OpRunLength(trace: seq<Mem>, ops: seq<Op>, res: seq<bool>, cov: seq<Cover>)
    requires IsOpRun(trace, ops, res, cov)
    ensures |trace| == |ops| + 1
  {
  }

  lemma RunMoves(trace: seq<Mem>, ops: seq<Op>, res: seq<bool>, cov: seq<Cover>, i: nat, p: nat)
    requires IsOpRun(trace, ops, res, cov) && i < |ops| && p < |trace[i].refs| && trace[i].refs[p] > 0
    ensures |trace[i + 1].refs| == |trace[i].refs|
    ensures trace[i + 1].refs[p] == trace[i].refs[p] + (if ops[i] == OpHold(p) && trace[i].refs[p] != REF_MAX then 1 else 0)
                                    - if ops[i] == OpFree(p) then 1 else 0
  {
    hide Inv, Does, IsRun;
    OpRunIsRun(trace, ops, res, cov);
    var c := RunKeepsInv(trace, res, cov, i);
    assert Does(trace[i], trace[i + 1], res, ops[i]);
    hide IsOpRun;
    StepMoves(trace[i], trace[i + 1], res, c, ops[i], p);
  }

  /** While a block is allocated its count is what it was, plus the holds taken, less the frees, whatever else is allocated,
      held or freed meanwhile: so it is returned by exactly as many frees as it had references and got holds. */
  lemma {:induction false} CountIsAccount(trace: seq<Mem>, ops: seq<Op>, res: seq<bool>, cov: seq<Cover>, a: nat, b: nat, p: nat)
    requires IsOpRun(trace, ops, res, cov) && a <= b <= |ops|
    requires forall i | a <= i < b :: p < |trace[i].refs| && trace[i].refs[p] > 0
    requires p < |trace[a].refs|
    ensures p < |trace[b].refs| && trace[b].refs[p] + Frees(ops[a..b], p) == trace[a].refs[p] + Helds(trace, ops, a, b, p)
  {
    hide IsOpRun;
    assert |trace| == |ops| + 1 by { OpRunLength(trace, ops, res, cov); }
    if a < b {
      CountIsAccount(trace, ops, res, cov, a, b - 1, p);
      RunMoves(trace, ops, res, cov, b - 1, p);
      assert ops[a..b][..b - 1 - a] == ops[a..b - 1];
    }
  }

  /** So a block allocated at `a`, with one reference, is returned at `b` exactly if there has been one free more than holds,
      and then by that free: every earlier one left it held. */
  lemma ReturnedByTheLast(trace: seq<Mem>, ops: seq<Op>, res: seq<bool>, cov: seq<Cover>, a: nat, b: nat, p: nat)
    requires IsOpRun(trace, ops, res, cov) && a < b <= |ops|
    requires forall i | a <= i < b :: p < |trace[i].refs| && trace[i].refs[p] > 0
    requires trace[a].refs[p] == 1
    ensures p < |trace[b].refs| && (trace[b].refs[p] == 0 <==> Frees(ops[a..b], p) == Helds(trace, ops, a, b, p) + 1)
    ensures trace[b].refs[p] == 0 ==> ops[b - 1] == OpFree(p)
    ensures forall i | a < i < b :: Frees(ops[a..i], p) <= Helds(trace, ops, a, i, p)
  {
    hide IsOpRun, Frees, Helds;
    OpRunLength(trace, ops, res, cov);
    CountIsAccount(trace, ops, res, cov, a, b, p);
    RunMoves(trace, ops, res, cov, b - 1, p);
    forall i | a < i < b ensures Frees(ops[a..i], p) <= Helds(trace, ops, a, i, p) {
      CountIsAccount(trace, ops, res, cov, a, i, p);
    }
  }

  // ---------------------------------------------------------------- boot

  /** The pages below `upto` are distributed. */
  ghost predicate BootInv(m: Mem, res: seq<bool>, cov: seq<Cover>, upto: nat) {
    Partition(m, res, cov, upto, None) && Coalesced(m) && Listed(m) && m.count == Total(m.lists, 0)
  }

  lemma BootSkips(m: Mem, res: seq<bool>, cov: seq<Cover>, upto: nat)
    requires BootInv(m, res, cov, upto) && upto < |res| && res[upto]
    ensures BootInv(m, res, cov, upto + 1)
  {
  }

  /** The next aligned block without a reserved page joins the free ones. */
  lemma BootInserts(m: Mem, res: seq<bool>, cov: seq<Cover>, upto: nat, o: nat) returns (cov': seq<Cover>)
    requires BootInv(m, res, cov, upto) && o < |m.lists| && Aligned(upto, o) && upto + Pow(o) <= |res|
    requires forall p: nat | Within(upto, o, p) :: !res[p]
    ensures BootInv(FreeInsert(m.(count := m.count + Pow(o)), upto, o), res, cov', upto + Pow(o))
  {
    var d := m.(count := m.count + Pow(o));
    var cov1 := Recover(cov, upto, o);
    BootHands(m, d, res, cov, upto, o);
    assert Coalesced(d) by {
      forall h | 0 <= h < |d.isFree| && d.isFree[h] && d.order[h] + 1 < |d.lists| ensures !CanMerge(d, h, d.order[h]) {
        assert !CanMerge(m, h, m.order[h]);
      }
    }
    ListedSame(m, d);
    hide Partition;
    cov' := InsertKeeps(d, res, cov1, upto + Pow(o), upto, o);
  }

  lemma BootBlocks(m: Mem, d: Mem, res: seq<bool>, cov: seq<Cover>, upto: nat, o: nat)
    requires Partition(m, res, cov, upto, None) && upto + Pow(o) <= |res| && d == m.(count := d.count)
    ensures !m.isFree[upto] && m.refs[upto] == 0
    ensures forall x: nat, k: nat :: IsBlock(d, Some(Cover(upto, o)), x, k) <==> IsBlock(m, None, x, k) || Cover(x, k) == Cover(upto, o)
  {
    assert IsBlock(m, None, upto, m.order[upto]) ==> upto + Pow(m.order[upto]) <= upto;
  }

  lemma BootPlaced(m: Mem, d: Mem, res: seq<bool>, cov: seq<Cover>, upto: nat, o: nat)
    requires Partition(m, res, cov, upto, None) && o < |m.lists| && Aligned(upto, o) && upto + Pow(o) <= |res| && d == m.(count := d.count)
    ensures Placed(d, Some(Cover(upto, o)), upto + Pow(o))
  {
    hide Aligned, IsBlock, Covers, Covered;
    BootBlocks(m, d, res, cov, upto, o);
  }

  lemma BootCovers(m: Mem, res: seq<bool>, cov: seq<Cover>, upto: nat, o: nat, x: nat, k: nat, p: nat)
    requires Partition(m, res, cov, upto, None) && upto + Pow(o) <= |res| && Within(x, k, p)
    requires IsBlock(m, None, x, k) || (Cover(x, k) == Cover(upto, o) && !res[p])
    ensures p < |res| && !res[p] && Recover(cov, upto, o)[p] == Cover(x, k)
  {
  }

  lemma BootCovered(m: Mem, res: seq<bool>, cov: seq<Cover>, upto: nat, o: nat, p: nat)
    requires Partition(m, res, cov, upto, None) && upto + Pow(o) <= |res| && p < upto + Pow(o) && !res[p]
    ensures var c := Recover(cov, upto, o)[p]; Within(c.head, c.order, p) && (IsBlock(m, None, c.head, c.order) || c == Cover(upto, o))
  {
    assert p >= upto ==> Within(upto, o, p);
  }

  lemma BootHands(m: Mem, d: Mem, res: seq<bool>, cov: seq<Cover>, upto: nat, o: nat)
    requires Partition(m, res, cov, upto, None) && o < |m.lists| && Aligned(upto, o) && upto + Pow(o) <= |res|
    requires (forall p: nat | Within(upto, o, p) :: !res[p]) && d == m.(count := d.count)
    ensures Partition(d, res, Recover(cov, upto, o), upto + Pow(o), Some(Cover(upto, o)))
  {
    hide IsBlock, Aligned, Pow;
    var (hand, cov') := (Some(Cover(upto, o)), Recover(cov, upto, o));
    BootBlocks(m, d, res, cov, upto, o);
    BootPlaced(m, d, res, cov, upto, o);
    assert Covers(d, hand, res, cov') by {
      hide Placed, Covered;
      forall x: nat, k: nat, p: nat | IsBlock(d, hand, x, k) && Within(x, k, p) ensures p < |res| && !res[p] && cov'[p] == Cover(x, k) {
        BootCovers(m, res, cov, upto, o, x, k, p);
      }
    }
    assert Covered(d, hand, res, cov', upto + Pow(o)) by {
      hide Placed, Covers;
      forall p | 0 <= p < upto + Pow(o) && !res[p]
        ensures IsBlock(d, hand, cov'[p].head, cov'[p].order) && Within(cov'[p].head, cov'[p].order, p)
      {
        BootCovered(m, res, cov, upto, o, p);
      }
    }
    hide Placed, Covers, Covered;
  }

  lemma BootReady(m: Mem, res: seq<bool>, cov: seq<Cover>, upto: nat, o: nat)
    requires BootInv(m, res, cov, upto) && upto + Pow(o) <= |res|
    ensures Shape(m) && Listed(m) && |m.isFree| == |res| && !m.isFree[upto]
  {
    BootBlocks(m, m, res, cov, upto, o);
  }

  /** When every page is distributed, the allocator's invariant holds. */
  lemma BootDone(m: Mem, res: seq<bool>, cov: seq<Cover>)
    requires BootInv(m, res, cov, |res|)
    ensures Inv(m, res, cov)
  {
  }
}
