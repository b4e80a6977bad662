/** Lists as the kernel links them, both ways, through link fields indexed by page or entry number. */
module FreeList {
  import opened Common

  const NULL := -1

  /** `l` is what following `nx` from `head` finds, and `pv` points back along it. */
  ghost predicate Chain(l: seq<nat>, head: int, nx: seq<int>, pv: seq<int>) {
    && |nx| == |pv| && Distinct(l) && (forall i | 0 <= i < |l| :: l[i] < |nx|)
    && head == (if l == [] then NULL else l[0])
    && (forall i, j | 0 <= i < j < |l| && j == i + 1 :: nx[l[i]] == l[j] && pv[l[j]] == l[i])
    && (l != [] ==> nx[l[|l| - 1]] == NULL && pv[l[0]] == NULL)
  }

  /** `pmm_list_add`. */
  lemma AddChain(l: seq<nat>, head: int, nx: seq<int>, pv: seq<int>, h: nat, nx': seq<int>, pv': seq<int>)
    requires Chain(l, head, nx, pv) && h < |nx| && h !in l
    requires nx' == nx[h := head] && pv' == if head == NULL then pv[h := NULL] else pv[h := NULL][head := h]
    ensures Chain([h] + l, h, nx', pv')
  {
    var r := [h] + l;
    assert forall i | 0 < i < |r| :: r[i] == l[i - 1];
    forall i, j | 0 <= i < j < |r| && j == i + 1 ensures nx'[r[i]] == r[j] && pv'[r[j]] == r[i] {
      if i > 0 { assert r[i] == l[i - 1] && r[j] == l[i]; }
    }
    assert l != [] ==> r[|r| - 1] == l[|l| - 1];
  }

  /** `pmm_list_del`. */
  lemma DelChain(l: seq<nat>, head: int, nx: seq<int>, pv: seq<int>, i: nat, head': int, nx': seq<int>, pv': seq<int>)
    requires Chain(l, head, nx, pv) && i < |l|
    requires var h := l[i];
             && head' == (if i == 0 then nx[h] else head)
             && nx' == (if i == 0 then nx else nx[l[i - 1] := nx[h]])[h := NULL]
             && pv' == (if i + 1 == |l| then pv else pv[l[i + 1] := pv[h]])[h := NULL]
    ensures Chain(l[..i] + l[i + 1..], head', nx', pv')
  {
    var r := l[..i] + l[i + 1..];
    assert forall k | 0 <= k < |r| :: r[k] == l[if k < i then k else k + 1];
    forall a, b | 0 <= a < b < |r| && b == a + 1 ensures nx'[r[a]] == r[b] && pv'[r[b]] == r[a] {
      DelLink(l, head, nx, pv, i, nx', pv', a);
    }
    assert r != [] ==> r[|r| - 1] == l[if i + 1 == |l| then |l| - 2 else |l| - 1];
  }

  lemma DelLink(l: seq<nat>, head: int, nx: seq<int>, pv: seq<int>, i: nat, nx': seq<int>, pv': seq<int>, a: nat)
    requires Chain(l, head, nx, pv) && i < |l| && a + 2 < |l|
    requires var h := l[i];
             && nx' == (if i == 0 then nx else nx[l[i - 1] := nx[h]])[h := NULL]
             && pv' == (if i + 1 == |l| then pv else pv[l[i + 1] := pv[h]])[h := NULL]
    ensures var x := l[if a < i then a else a + 1];
            var y := l[if a + 1 < i then a + 1 else a + 2];
            nx'[x] == y && pv'[y] == x
  {
    assert nx[l[a]] == l[a + 1] && pv[l[a + 1]] == l[a] && nx[l[a + 1]] == l[a + 2] && pv[l[a + 2]] == l[a + 1];
  }

  /** A list that shares no page with the ones written is still what it was. */
  lemma OtherChain(l: seq<nat>, head: int, nx: seq<int>, pv: seq<int>, nx': seq<int>, pv': seq<int>)
    requires Chain(l, head, nx, pv) && |nx'| == |pv'| == |nx|
    requires forall x | x in l :: nx'[x] == nx[x] && pv'[x] == pv[x]
    ensures Chain(l, head, nx', pv')
  {
    forall i | 0 <= i < |l| ensures nx'[l[i]] == nx[l[i]] && pv'[l[i]] == pv[l[i]] { assert l[i] in l; }
  }

  ghost predicate Chains(lists: seq<seq<nat>>, heads: seq<int>, nx: seq<int>, pv: seq<int>) {
    |heads| == |lists| && forall o | 0 <= o < |lists| :: Chain(lists[o], heads[o], nx, pv)
  }

  /** No page is on list `o` and on another. */
  ghost predicate Alone(lists: seq<seq<nat>>, o: nat)
    requires o < |lists|
  { forall p, x | 0 <= p < |lists| && p != o && x in lists[p] :: x !in lists[o] }

  lemma DelKeepsChains(lists: seq<seq<nat>>, heads: seq<int>, nx: seq<int>, pv: seq<int>, o: nat, i: nat,
                       heads': seq<int>, nx': seq<int>, pv': seq<int>)
    requires Chains(lists, heads, nx, pv) && o < |lists| && i < |lists[o]| && Alone(lists, o)
    requires var (l, h) := (lists[o], lists[o][i]);
             && h < |nx| == |pv| && (forall k | 0 <= k < |l| :: l[k] < |nx|)
             && heads' == heads[o := if i == 0 then nx[h] else heads[o]]
             && nx' == (if i == 0 then nx else nx[l[i - 1] := nx[h]])[h := NULL]
             && pv' == (if i + 1 == |l| then pv else pv[l[i + 1] := pv[h]])[h := NULL]
    ensures Chains(lists[o := Without(lists[o], lists[o][i])], heads', nx', pv')
  {
    var (l, h) := (lists[o], lists[o][i]);
    assert Chain(l, heads[o], nx, pv);
    WithoutAt(l, i);
    DelChain(l, heads[o], nx, pv, i, heads'[o], nx', pv');
    hide Chain, Without;
    forall p | 0 <= p < |lists| && p != o ensures Chain(lists[p], heads'[p], nx', pv') {
      DelOther(lists, heads, nx, pv, o, i, nx', pv', p);
    }
  }

  lemma DelOther(lists: seq<seq<nat>>, heads: seq<int>, nx: seq<int>, pv: seq<int>, o: nat, i: nat, nx': seq<int>, pv': seq<int>, p: nat)
    requires Chains(lists, heads, nx, pv) && o < |lists| && i < |lists[o]| && Alone(lists, o) && p < |lists| && p != o
    requires var (l, h) := (lists[o], lists[o][i]);
             && h < |nx| == |pv| && (forall k | 0 <= k < |l| :: l[k] < |nx|)
             && nx' == (if i == 0 then nx else nx[l[i - 1] := nx[h]])[h := NULL]
             && pv' == (if i + 1 == |l| then pv else pv[l[i + 1] := pv[h]])[h := NULL]
    ensures p < |heads| && Chain(lists[p], heads[p], nx', pv')
  {
    var l := lists[o];
    assert Chain(lists[p], heads[p], nx, pv);
    hide Chain;
    assert l[i] in l && (i > 0 ==> l[i - 1] in l) && (i + 1 < |l| ==> l[i + 1] in l);
    OtherChain(lists[p], heads[p], nx, pv, nx', pv');
  }

  lemma {:induction false} WithoutAt(l: seq<nat>, i: nat)
    requires Distinct(l) && i < |l|
    ensures Without(l, l[i]) == l[..i] + l[i + 1..]
  {
    TailKeeps(l);
    if i == 0 {
      WithoutNone(l[1..], l[0]);
    } else {
      WithoutAt(l[1..], i - 1);
      assert l[1..][i - 1] == l[i] && l[1..][..i - 1] == l[1..i] && l[1..][i..] == l[i + 1..];
      assert l[..i] == [l[0]] + l[1..i];
    }
  }

  lemma {:induction false} WithoutNone(l: seq<nat>, t: nat)
    requires t !in l
    ensures Without(l, t) == l
  {
    if l != [] { WithoutNone(l[1..], t); }
  }
}

/** Which pages are set aside before the allocator starts (kernel/mm/pmm.c). */
module Reserved {
  const PAGE_SIZE := 4096

  /** A byte range; it claims every page it touches. */
  datatype Range = Range(start: nat, end: nat)

  function FirstPage(r: Range): nat { r.start / PAGE_SIZE }

  function EndPage(r: Range, n: nat): nat {
    var e := (r.end + PAGE_SIZE - 1) / PAGE_SIZE;
    if e > n then n else e
  }

  predicate Hits(r: Range, n: nat, a: nat, b: nat) {
    FirstPage(r) < n && FirstPage(r) < EndPage(r, n) && a < EndPage(r, n) && FirstPage(r) < b
  }

  ghost predicate Overlaps(ranges: seq<Range>, n: nat, a: nat, b: nat) {
    exists i :: 0 <= i < |ranges| && Hits(ranges[i], n, a, b)
  }

  ghost predicate IsReserved(ranges: seq<Range>, n: nat, p: nat) { Overlaps(ranges, n, p, p + 1) }

  /** A run of pages overlaps the ranges exactly when one of its pages does. */
  lemma OverlapsPageByPage(ranges: seq<Range>, n: nat, a: nat, b: nat)
    requires a < b <= n
    ensures Overlaps(ranges, n, a, b) <==> exists p :: a <= p < b && IsReserved(ranges, n, p)
  {
    if Overlaps(ranges, n, a, b) {
      var i :| 0 <= i < |ranges| && Hits(ranges[i], n, a, b);
      var p := if a < FirstPage(ranges[i]) then FirstPage(ranges[i]) else a;
      assert Hits(ranges[i], n, p, p + 1);
      assert a <= p < b && IsReserved(ranges, n, p);
    }
    if p :| a <= p < b && IsReserved(ranges, n, p) {
      var i :| 0 <= i < |ranges| && Hits(ranges[i], n, p, p + 1);
      assert Hits(ranges[i], n, a, b);
    }
  }

  method RangeOverlaps(ranges: seq<Range>, n: nat, a: nat, b: nat) returns (r: bool)
    ensures r == Overlaps(ranges, n, a, b)
  {
    var i := 0;
    while i < |ranges|
      invariant 0 <= i <= |ranges| && forall k | 0 <= k < i :: !Hits(ranges[k], n, a, b)
    {
      if Hits(ranges[i], n, a, b) { return true; }
      i := i + 1;
    }
    return false;
  }

  ghost predicate Claims(ranges: seq<Range>, byte: nat) {
    exists i :: 0 <= i < |ranges| && ranges[i].start <= byte < ranges[i].end
  }

  /** Ranges that neither overlap nor touch. */
  ghost predicate Apart(ranges: seq<Range>) {
    && (forall i | 0 <= i < |ranges| :: ranges[i].start < ranges[i].end)
    && (forall i, j | 0 <= i < |ranges| && 0 <= j < |ranges| && i != j ::
          ranges[i].end < ranges[j].start || ranges[j].end < ranges[i].start)
  }

  predicate Meets(a: Range, b: Range) { (a.start < b.end && b.start < a.end) || a.end == b.start || a.start == b.end }

  function Join(a: Range, b: Range): Range {
    Range(if b.start < a.start then b.start else a.start, if b.end > a.end then b.end else a.end)
  }

  /** One pass of the merging scan: swallow the first range that meets the new one, moving the last into its slot. */
  method Swallow(ranges: seq<Range>, new_: Range) returns (rest: seq<Range>, grown: Range, merged: bool)
    requires Apart(ranges) && new_.start < new_.end
    ensures Apart(rest) && grown.start < grown.end
    ensures merged ==> |rest| == |ranges| - 1
    ensures !merged ==> rest == ranges && grown == new_ && forall i | 0 <= i < |ranges| :: !Meets(new_, ranges[i])
    ensures forall byte: nat :: Claims(rest, byte) || grown.start <= byte < grown.end <==>
                                Claims(ranges, byte) || new_.start <= byte < new_.end
  {
    var i := 0;
    while i < |ranges|
      invariant 0 <= i <= |ranges| && forall k | 0 <= k < i :: !Meets(new_, ranges[k])
    {
      if Meets(new_, ranges[i]) {
        var last := |ranges| - 1;
        rest, grown, merged := ranges[i := ranges[last]][..last], Join(new_, ranges[i]), true;
        assert forall k | 0 <= k < last :: rest[k] == ranges[if k == i then last else k];
        SwallowClaims(ranges, rest, new_, i);
        return;
      }
      i := i + 1;
    }
    return ranges, new_, false;
  }

  lemma SwallowClaims(ranges: seq<Range>, rest: seq<Range>, r: Range, i: nat)
    requires i < |ranges| && Meets(r, ranges[i]) && r.start < r.end && ranges[i].start < ranges[i].end
    requires |rest| == |ranges| - 1 && forall k | 0 <= k < |rest| :: rest[k] == ranges[if k == i then |rest| else k]
    ensures forall byte: nat :: Claims(rest, byte) || Join(r, ranges[i]).start <= byte < Join(r, ranges[i]).end <==>
                                Claims(ranges, byte) || r.start <= byte < r.end
  {
    forall byte: nat
      ensures Claims(rest, byte) || Join(r, ranges[i]).start <= byte < Join(r, ranges[i]).end <==>
              Claims(ranges, byte) || r.start <= byte < r.end
    {
      if Claims(ranges, byte) {
        var k :| 0 <= k < |ranges| && ranges[k].start <= byte < ranges[k].end;
        if k != i { assert rest[if k == |rest| then i else k] == ranges[k]; }
      }
      if Claims(rest, byte) {
        var k :| 0 <= k < |rest| && rest[k].start <= byte < rest[k].end;
        assert ranges[if k == i then |rest| else k] == rest[k];
      }
    }
  }

  /** `pmm_reserve_range`: the table claims the old bytes and the new ones, and its ranges stay apart and in bounds; it panics
      exactly when there is something to reserve and the table is full or the allocator already runs. */
  method ReserveRange(ranges: seq<Range>, max: nat, ready: bool, start: nat, size: nat) returns (table: seq<Range>, panic: bool)
    requires Apart(ranges) && |ranges| <= max
    ensures Apart(table) && |table| <= max
    ensures panic <==> size > 0 && (|ranges| == max || ready)
    ensures forall byte: nat :: Claims(table, byte) <==> Claims(ranges, byte) || (!panic && start <= byte < start + size)
  {
    if size == 0 { return ranges, false; }
    if |ranges| >= max || ready { return ranges, true; }
    panic := false;
    var (rest, r, merged) := (ranges, Range(start, start + size), true);
    while merged
      invariant Apart(rest) && |rest| <= |ranges| && r.start < r.end
      invariant forall byte: nat :: Claims(rest, byte) || r.start <= byte < r.end <==>
                                    Claims(ranges, byte) || start <= byte < start + size
      invariant !merged ==> forall i | 0 <= i < |rest| :: !Meets(r, rest[i])
      decreases |rest|, merged
    {
      rest, r, merged := Swallow(rest, r);
    }
    table := rest + [r];
    assert forall byte: nat | r.start <= byte < r.end :: Claims(table, byte) by { assert table[|rest|] == r; }
    assert forall byte: nat | Claims(rest, byte) :: Claims(table, byte) by { assert forall i | 0 <= i < |rest| :: table[i] == rest[i]; }
  }
}

/** The page allocator as the kernel keeps it: one metadata record per page, and list heads per order (kernel/mm/pmm.c). */
module Pmm {
  import opened Common
  import opened BuddyMath
  import opened Buddy
  import opened BuddySafety
  import opened FreeList
  import Reserved

  class Allocator {
    const isFree: array<bool>
    const order: array<nat>
    const refs: array<nat>
    const next: array<int>
    const prev: array<int>
    const heads: array<int>
    var count: int
    ghost var lists: seq<seq<nat>>

    ghost function View(): Mem
      reads this, isFree, order, refs
    { Mem(isFree[..], order[..], refs[..], lists, count) }

    /** Every list is linked as its value says. */
    ghost predicate Linked()
      reads this, next, prev, heads
    {
      && next != prev && next != heads && prev != heads && order != refs
      && isFree.Length == order.Length == refs.Length == next.Length == prev.Length
      && heads.Length == |lists| > 0
      && Chains(lists, heads[..], next[..], prev[..])
    }

    method ListAdd(o: nat, h: nat)
      requires Linked() && o < heads.Length && h < next.Length && forall p | 0 <= p < |lists| :: h !in lists[p]
      requires Alone(lists, o)
      modifies this`lists, next, prev, heads
      ensures Linked() && lists == Add(old(lists), o, h)
    {
      ghost var (nx, pv, head) := (next[..], prev[..], heads[o]);
      prev[h] := NULL;
      next[h] := heads[o];
      if next[h] != NULL {
        assert heads[o] == lists[o][0];
        prev[next[h]] := h;
      }
      heads[o] := h;
      ghost var was := lists;
      lists := Add(lists, o, h);
      AddChain(was[o], head, nx, pv, h, next[..], prev[..]);
      forall p | 0 <= p < |lists| && p != o ensures Chain(lists[p], heads[p], next[..], prev[..]) {
        assert head != NULL ==> head in was[o];
        OtherChain(was[p], heads[p], nx, pv, next[..], prev[..]);
      }
    }

    /** The stores of `pmm_list_del`, given where the page stands. */
    method Unhook(o: nat, h: nat, ghost l: seq<nat>, ghost i: nat)
      requires next != prev && next != heads && prev != heads && next.Length == prev.Length && o < heads.Length
      requires Chain(l, heads[o], next[..], prev[..]) && i < |l| && l[i] == h
      modifies next, prev, heads
      ensures heads[..] == old(heads[..])[o := if i == 0 then old(next[h]) else old(heads[o])]
      ensures next[..] == (if i == 0 then old(next[..]) else old(next[..])[l[i - 1] := old(next[h])])[h := NULL]
      ensures prev[..] == (if i + 1 == |l| then old(prev[..]) else old(prev[..])[l[i + 1] := old(prev[h])])[h := NULL]
    {
      assert prev[h] == if i == 0 then NULL else l[i - 1];
      assert next[h] == if i + 1 == |l| then NULL else l[i + 1];
      if prev[h] == NULL {
        assert heads[o] == h;
        heads[o] := next[h];
      } else {
        next[prev[h]] := next[h];
      }
      if next[h] != NULL {
        prev[next[h]] := prev[h];
      }
      next[h] := NULL;
      prev[h] := NULL;
    }

    method ListDel(o: nat, h: nat)
      requires Linked() && o < heads.Length && h in lists[o]
      requires Alone(lists, o)
      modifies this`lists, next, prev, heads
      ensures Linked() && lists == Del(old(lists), o, h)
    {
      ghost var (nx, pv, hd) := (next[..], prev[..], heads[..]);
      ghost var i :| 0 <= i < |lists[o]| && lists[o][i] == h;
      assert Chain(lists[o], hd[o], nx, pv);
      Unhook(o, h, lists[o], i);
      DelKeepsChains(lists, hd, nx, pv, o, i, heads[..], next[..], prev[..]);
      lists := Del(lists, o, h);
    }

    /** Pages of different orders are on different lists. */
    lemma ListedAlone(o: nat)
      requires Shape(View()) && Listed(View()) && o < |lists|
      ensures Alone(lists, o)
    {
      var m := View();
      forall p, x | 0 <= p < |lists| && p != o && x in lists[p] ensures x !in lists[o] {
        assert OnList(m, p, x) && FreeAt(m, p, x) && !FreeAt(m, o, x);
        assert OnList(m, o, x) <==> FreeAt(m, o, x);
      }
    }

    /** One turn of the merging loop. */
    method AbsorbBuddy(b: nat, o: nat)
      requires Linked() && Listed(View()) && b < isFree.Length && isFree[b] && order[b] == o < |lists|
      modifies this`lists, next, prev, heads, isFree, order
      ensures Linked() && View() == Absorb(old(View()), b, o) && Listed(View())
    {
      ghost var m := View();
      ListedAlone(o);
      assert OnList(m, o, b) by { assert FreeAt(m, o, b); }
      ListDel(o, b);
      isFree[b] := false;
      order[b] := 0;
      DelKeepsListed(m, View(), b, o);
    }

    /** The merged block goes on its list. */
    method PutFree(h: nat, o: nat)
      requires Linked() && Listed(View()) && h < isFree.Length && !isFree[h] && o < |lists|
      modifies this`lists, next, prev, heads, isFree, order
      ensures Linked() && Listed(View())
      ensures View() == old(View()).(isFree := old(isFree[..])[h := true], order := old(order[..])[h := o], lists := Add(old(lists), o, h))
    {
      ghost var m := View();
      ListedAlone(o);
      forall p: nat | p < |lists| ensures h !in lists[p] { assert !FreeAt(m, p, h) && (OnList(m, p, h) <==> FreeAt(m, p, h)); }
      isFree[h] := true;
      order[h] := o;
      ListAdd(o, h);
      AddKeepsListed(m, View(), h, o);
    }

    method FreeBuddyInternal(pfn: nat, ord: nat)
      requires Linked() && Listed(View()) && pfn < isFree.Length && !isFree[pfn] && ord < |lists|
      modifies this`lists, next, prev, heads, isFree, order
      ensures Linked() && Listed(View()) && View() == FreeInsert(old(View()), pfn, ord)
    {
      hide Listed;
      var h: nat, o: nat := pfn, ord;
      while o + 1 < heads.Length
        invariant Linked() && Listed(View()) && h < isFree.Length && !isFree[h] && ord <= o < |lists|
        invariant FreeInsert(View(), h, o) == FreeInsert(old(View()), pfn, ord)
        decreases |lists| - o
      {
        var b := BuddyOf(h, o);
        if b >= isFree.Length || !isFree[b] || order[b] != o { break; }
        assert CanMerge(View(), h, o);
        AbsorbBuddy(b, o);
        h, o := Min(h, b), o + 1;
      }
      PutFree(h, o);
    }

    // ---------------------------------------------------------------- boot

    constructor (pages: nat, orders: nat)
      requires orders > 0
      ensures Linked() && fresh(isFree) && fresh(order) && fresh(refs) && fresh(next) && fresh(prev) && fresh(heads)
      ensures isFree.Length == pages && |lists| == orders
      ensures forall res, cov: seq<Cover> | |res| == |cov| == pages :: BootInv(View(), res, cov, 0)
    {
      isFree := new bool[pages](_ => false);
      order := new nat[pages](_ => 0);
      refs := new nat[pages](_ => 0);
      next := new int[pages](_ => NULL);
      prev := new int[pages](_ => NULL);
      heads := new int[orders](_ => NULL);
      count := 0;
      lists := seq(orders, _ => []);
      new;
      EmptyTotal(lists, 0);
      EmptyBoot(View());
    }

    static lemma {:induction false} EmptyTotal(lists: seq<seq<nat>>, o: nat)
      requires o <= |lists| && forall k | 0 <= k < |lists| :: lists[k] == []
      ensures Total(lists, o) == 0
      decreases |lists| - o
    {
      if o < |lists| { EmptyTotal(lists, o + 1); }
    }

    static lemma EmptyBoot(m: Mem)
      requires Shape(m) && m.count == Total(m.lists, 0) && forall o | 0 <= o < |m.lists| :: m.lists[o] == []
      requires forall h | 0 <= h < |m.isFree| :: !m.isFree[h] && m.refs[h] == 0
      ensures forall res, cov: seq<Cover> | |res| == |cov| == |m.isFree| :: BootInv(m, res, cov, 0)
    {
      assert Listed(m) by { assert forall o: nat, h: nat | o < |m.lists| :: !OnList(m, o, h) && !FreeAt(m, o, h); }
    }

    /** The largest aligned block at `pfn` that stays clear of the end of memory and of reserved ranges. */
    method BlockAt(pfn: nat, ranges: seq<Reserved.Range>) returns (o: nat)
      requires Linked() && pfn < isFree.Length && !Reserved.Overlaps(ranges, isFree.Length, pfn, pfn + 1)
      ensures o < |lists| && Aligned(pfn, o) && pfn + Pow(o) <= isFree.Length
      ensures !Reserved.Overlaps(ranges, isFree.Length, pfn, pfn + Pow(o))
      ensures forall k | o < k < |lists| ::
                !Aligned(pfn, k) || pfn + Pow(k) > isFree.Length || Reserved.Overlaps(ranges, isFree.Length, pfn, pfn + Pow(k))
    {
      o := heads.Length - 1;
      while o > 0
        invariant o < |lists|
        invariant forall k | o < k < |lists| ::
                    !Aligned(pfn, k) || pfn + Pow(k) > isFree.Length || Reserved.Overlaps(ranges, isFree.Length, pfn, pfn + Pow(k))
      {
        var hit := Reserved.RangeOverlaps(ranges, isFree.Length, pfn, pfn + Pow(o));
        if Aligned(pfn, o) && pfn + Pow(o) <= isFree.Length && !hit { break; }
        o := o - 1;
      }
    }

    /** The distribution loop of `pmm_init`. */
    method Distribute(ranges: seq<Reserved.Range>) returns (ghost res: seq<bool>, ghost cov: seq<Cover>)
      requires Linked() && forall r, c: seq<Cover> | |r| == |c| == isFree.Length :: BootInv(View(), r, c, 0)
      modifies this`lists, this`count, next, prev, heads, isFree, order
      ensures |res| == isFree.Length && forall p | 0 <= p < |res| :: res[p] == Reserved.IsReserved(ranges, |res|, p)
      ensures Valid(res, cov)
    {
      hide BootInv, Pow, Aligned, Inv;
      res := seq(isFree.Length, p requires 0 <= p => Reserved.IsReserved(ranges, isFree.Length, p));
      cov := seq(isFree.Length, _ => Cover(0, 0));
      var pfn := 0;
      while pfn < isFree.Length
        invariant Linked() && 0 <= pfn <= isFree.Length && BootInv(View(), res, cov, pfn) && |res| == isFree.Length
      {
        var hit := Reserved.RangeOverlaps(ranges, isFree.Length, pfn, pfn + 1);
        if hit {
          BootSkips(View(), res, cov, pfn);
          pfn := pfn + 1;
        } else {
          var o := BlockAt(pfn, ranges);
          Reserved.OverlapsPageByPage(ranges, isFree.Length, pfn, pfn + Pow(o));
          cov := InsertNext(pfn, o, res, cov);
          pfn := pfn + Pow(o);
        }
      }
      BootDone(View(), res, cov);
    }

    method InsertNext(pfn: nat, o: nat, ghost res: seq<bool>, ghost cov: seq<Cover>) returns (ghost cov': seq<Cover>)
      requires Linked() && BootInv(View(), res, cov, pfn) && o < |lists| && Aligned(pfn, o) && pfn + Pow(o) <= |res|
      requires forall p | pfn <= p < pfn + Pow(o) :: !res[p]
      modifies this`lists, this`count, next, prev, heads, isFree, order
      ensures Linked() && BootInv(View(), res, cov', pfn + Pow(o))
    {
      hide BootInv, Aligned, Pow, Listed, Chains, FreeInsert;
      ghost var m := View();
      BootReady(m, res, cov, pfn, o);
      cov' := BootInserts(m, res, cov, pfn, o);
      count := count + Pow(o);
      ListedSame(m, View());
      FreeBuddyInternal(pfn, o);
    }

    // ---------------------------------------------------------------- the operations

    ghost predicate Valid(res: seq<bool>, cov: seq<Cover>)
      reads this, isFree, order, refs, next, prev, heads
    { Linked() && Inv(View(), res, cov) }

    /** The least order whose block holds `pages`. */
    method GetOrder(pages: nat) returns (o: nat)
      requires Linked()
      ensures o == OrderFor(pages, 0, |lists|)
    {
      var size := 1;
      o := 0;
      while size < pages
        invariant o < |lists| && size == Pow(o) && forall k | 0 <= k < o :: Pow(k) < pages
        invariant OrderFor(pages, 0, |lists|) == OrderFor(pages, o, |lists|)
        decreases |lists| - o
      {
        if o + 1 >= heads.Length { return o + 1; }
        size := size * 2;
        o := o + 1;
      }
    }

    /** The splitting loop of allocation. */
    method Split(h: nat, from: nat, target: nat, ghost res: seq<bool>, ghost cov: seq<Cover>)
      requires Linked() && target <= from < |lists| && h + Pow(from) <= isFree.Length
      requires Partition(View(), res, cov, |res|, Some(Cover(h, from))) && Coalesced(View()) && Listed(View())
      modifies this`lists, this`count, next, prev, heads, isFree, order, refs
      ensures Linked() && View() == SplitDown(old(View()), h, from, target)
    {
      hide Partition, Coalesced, Listed, Aligned;
      var o := from;
      ghost var c := cov;
      while o > target
        invariant Linked() && target <= o <= from && |lists| == |old(lists)| && h + Pow(o) <= isFree.Length
        invariant Partition(View(), res, c, |res|, Some(Cover(h, o))) && Coalesced(View()) && Listed(View())
        invariant SplitDown(View(), h, o, target) == SplitDown(old(View()), h, from, target)
      {
        o := o - 1;
        c := GiveHalf(h, o, res, c);
      }
    }

    method GiveHalf(h: nat, o: nat, ghost res: seq<bool>, ghost cov: seq<Cover>) returns (ghost cov': seq<Cover>)
      requires Linked() && o + 1 < |lists|
      requires Partition(View(), res, cov, |res|, Some(Cover(h, o + 1))) && Coalesced(View()) && Listed(View())
      modifies this`lists, this`count, next, prev, heads, isFree, order, refs
      ensures Linked() && |lists| == |old(lists)| && h + 2 * Pow(o) <= isFree.Length
      ensures View() == GiveUpper(old(View()), h + Pow(o), o)
      ensures Partition(View(), res, cov', |res|, Some(Cover(h, o))) && Coalesced(View()) && Listed(View())
    {
      ghost var m := View();
      UpperIsNew(m, res, cov, |res|, h, o);
      ghost var m1;
      m1, cov' := UpperKeeps(m, res, cov, |res|, h, o);
      hide Partition, Coalesced;
      var b := h + Pow(o);
      refs[b] := 0;
      ListedSame(m, View());
      PutFree(b, o);
      count := count + Pow(o);
      assert View() == m1;
    }

    method AllocPages(pages: nat, ghost res: seq<bool>, ghost cov: seq<Cover>) returns (r: Option<nat>, ghost cov': seq<Cover>)
      requires Valid(res, cov)
      modifies this`lists, this`count, next, prev, heads, isFree, order, refs
      ensures Fits(old(View())) && (View(), r) == Alloc(old(View()), pages) && Valid(res, cov')
    {
      ghost var m := View();
      InvFits(m, res, cov);
      cov' := AllocKeeps(m, res, cov, pages);
      if pages == 0 { return None, cov'; }
      var t := GetOrder(pages);
      if t >= heads.Length { return None, cov'; }
      var o := t;
      while o < heads.Length && heads[o] == NULL
        invariant t <= o <= |lists| && FirstList(m, o) == FirstList(m, t)
        decreases |lists| - o
      {
        assert Chain(lists[o], heads[o], next[..], prev[..]);
        o := o + 1;
      }
      if o == heads.Length { return None, cov'; }
      assert Chain(lists[o], heads[o], next[..], prev[..]) && o == FirstList(m, t);
      var h := heads[o];
      TakeOff(h, o, res, cov);
      Split(h, o, t, res, cov);
      SplitShape(Detached(m, h, o), h, o, t);
      order[h] := t;
      refs[h] := 1;
      assert View() == Alloc(m, pages).0;
      return Some(h), cov';
    }

    /** The first free block of a list is taken. */
    method TakeOff(h: nat, o: nat, ghost res: seq<bool>, ghost cov: seq<Cover>)
      requires Valid(res, cov) && o < |lists| && h in lists[o]
      modifies this`lists, this`count, next, prev, heads, isFree
      ensures Linked() && h < isFree.Length && View() == Detached(old(View()), h, o) && |lists| == |old(lists)|
      ensures h + Pow(o) <= isFree.Length && Partition(View(), res, cov, |res|, Some(Cover(h, o))) && Coalesced(View()) && Listed(View())
    {
      ghost var m := View();
      assert OnList(m, o, h) && FreeAt(m, o, h) && IsBlock(m, None, h, o);
      ListedAlone(o);
      ListDel(o, h);
      isFree[h] := false;
      count := count - Pow(o);
      ghost var d := View();
      assert d.refs == m.refs[h := 0];
      TakeKeepsPartition(m, d, res, cov, |res|, h);
      DelKeepsListed(m, d, h, o);
    }

    method FreePages(p: nat, ghost res: seq<bool>, reserved: bool, ghost cov: seq<Cover>) returns (e: FreeEnd, ghost cov': seq<Cover>)
      requires Valid(res, cov) && (p < |res| ==> reserved == res[p])
      modifies this`lists, this`count, next, prev, heads, isFree, order, refs
      ensures forall h | 0 <= h < |old(View()).isFree| && old(View()).refs[h] > 0 :: old(View()).order[h] < |old(View()).lists|
      ensures (View(), e) == Free(old(View()), res, p) && Valid(res, cov')
    {
      hide Inv, Partition, Listed, Coalesced, Fits, Chains, FreeInsert;
      ghost var m := View();
      InvFits(m, res, cov);
      cov' := FreeInv(m, res, cov, p);
      if p >= isFree.Length || reserved { return Ignored, cov'; }
      if isFree[p] { return DoubleFree, cov'; }
      if refs[p] == 0 { return ZeroRef, cov'; }
      refs[p] := refs[p] - 1;
      ListedSame(m, View());
      if refs[p] > 0 {
        assert View() == m.(refs := m.refs[p := m.refs[p] - 1]);
        return StillHeld, cov';
      }
      count := count + Pow(order[p]);
      ListedSame(m, View());
      FreeBuddyInternal(p, order[p]);
      return Freed, cov';
    }

    method HoldPage(p: nat, ghost res: seq<bool>, reserved: bool, ghost cov: seq<Cover>) returns (e: HoldEnd)
      requires Valid(res, cov) && (p < |res| ==> reserved == res[p])
      modifies refs
      ensures (View(), e) == Hold(old(View()), res, p) && Linked()
      ensures e == HoldIgnored <==> p >= |res| || res[p]
      ensures e == HoldFree <==> p < |res| && !res[p] && old(View()).isFree[p]
      ensures e == Overflow <==> p < |res| && !res[p] && !old(View()).isFree[p] && old(View()).refs[p] == REF_MAX
      ensures View() == if e == Held then old(View()).(refs := old(View()).refs[p := old(View()).refs[p] + 1]) else old(View())
      ensures e != Held || old(View()).refs[p] > 0 ==> Valid(res, cov)
    {
      ghost var m := View();
      if p >= isFree.Length || reserved { return HoldIgnored; }
      if isFree[p] { return HoldFree; }
      if refs[p] == REF_MAX { return Overflow; }
      if refs[p] > 0 { RefsKeep(m, res, cov, p, refs[p] + 1); }
      refs[p] := refs[p] + 1;
      assert View() == m.(refs := m.refs[p := m.refs[p] + 1]);
      return Held;
    }
  }
}
