/** Cluster chains in a file allocation table (kernel/fs/fat32.c), as values. `fat[c]` is the masked entry of cluster `c`. */
module FatChain {
  import opened Common

  const MASK := 0x1000_0000
  const EOC := 0x0FFF_FFFF
  const CLUSTER_MAX := 0x0FFF_FFF6

  predicate Valid(fat: seq<nat>, c: nat) { 2 <= c < |fat| }

  /** A well-formed chain: clusters of the data area, each once, each naming the next, the last naming no cluster. */
  ghost predicate IsChain(fat: seq<nat>, cs: seq<nat>) {
    && cs != [] && Distinct(cs) && (forall i | 0 <= i < |cs| :: Valid(fat, cs[i]))
    && (forall i, j | 0 <= i < j < |cs| && j == i + 1 :: fat[cs[i]] == cs[j])
    && !Valid(fat, fat[cs[|cs| - 1]]) && fat[cs[|cs| - 1]] != 0
  }

  ghost predicate Apart(cs: seq<nat>, ds: seq<nat>) { forall c | c in cs :: c !in ds }

  /** No entry of a chain is free. */
  lemma ChainIsAllocated(fat: seq<nat>, cs: seq<nat>, c: nat)
    requires IsChain(fat, cs) && c in cs
    ensures Valid(fat, c) && fat[c] != 0
  {
    var i :| 0 <= i < |cs| && cs[i] == c;
    if i + 1 < |cs| { assert fat[cs[i]] == cs[i + 1]; }
  }

  /** A chain is still one after writes elsewhere in the table. */
  lemma ChainElsewhere(fat: seq<nat>, fat': seq<nat>, cs: seq<nat>)
    requires IsChain(fat, cs) && |fat'| == |fat| && forall c | c in cs :: fat'[c] == fat[c]
    ensures IsChain(fat', cs)
  {
    forall i | 0 <= i < |cs| ensures fat'[cs[i]] == fat[cs[i]] { assert cs[i] in cs; }
  }

  /** The walk from a cluster determines its chain. */
  lemma {:induction false} ChainIsUnique(fat: seq<nat>, cs: seq<nat>, ds: seq<nat>, i: nat)
    requires IsChain(fat, cs) && IsChain(fat, ds) && cs[0] == ds[0] && i < |cs|
    ensures i < |ds| && cs[i] == ds[i]
  {
    if i > 0 {
      ChainIsUnique(fat, cs, ds, i - 1);
      assert fat[cs[i - 1]] == cs[i];
      assert i < |ds| ==> fat[ds[i - 1]] == ds[i];
    }
  }

  lemma SameChain(fat: seq<nat>, cs: seq<nat>, ds: seq<nat>)
    requires IsChain(fat, cs) && IsChain(fat, ds) && cs[0] == ds[0]
    ensures cs == ds
  {
    ChainIsUnique(fat, cs, ds, |cs| - 1);
    forall i | 0 <= i < |cs| ensures cs[i] == ds[i] { ChainIsUnique(fat, cs, ds, i); }
    ChainIsUnique(fat, ds, cs, |ds| - 1);
  }

  /** Cutting a chain and ending it leaves the kept part a chain. */
  lemma CutIsChain(fat: seq<nat>, fat': seq<nat>, cs: seq<nat>, k: nat)
    requires IsChain(fat, cs) && 0 < k <= |cs| && |fat'| == |fat| <= EOC && fat'[cs[k - 1]] == EOC
    requires forall i | 0 <= i < k - 1 :: fat'[cs[i]] == fat[cs[i]]
    ensures IsChain(fat', cs[..k])
  {
  }

  /** Linking a free cluster behind the last extends exactly this chain. */
  lemma ExtendIsChain(fat: seq<nat>, fat': seq<nat>, cs: seq<nat>, c: nat)
    requires IsChain(fat, cs) && Valid(fat, c) && fat[c] == 0 && |fat| <= EOC
    requires fat' == fat[c := EOC][cs[|cs| - 1] := c]
    ensures IsChain(fat', cs + [c])
    ensures forall ds | IsChain(fat, ds) && Apart(ds, cs) :: IsChain(fat', ds) && Apart(ds, cs + [c])
  {
    if c in cs { ChainIsAllocated(fat, cs, c); }
    assert forall i | 0 <= i < |cs| :: cs[i] in cs;
    forall ds | IsChain(fat, ds) && Apart(ds, cs) ensures IsChain(fat', ds) && Apart(ds, cs + [c]) {
      if c in ds { ChainIsAllocated(fat, ds, c); }
      assert cs[|cs| - 1] in cs;
      ChainElsewhere(fat, fat', ds);
    }
  }

  // ---------------------------------------------------------------- the hinted search

  /** The `n`-th cluster the search looks at. */
  function Visit(hint: nat, max: nat, n: nat): nat {
    if hint + n > max then 2 + (hint + n - max - 1) else hint + n
  }

  /** Every cluster is looked at exactly once, from any hint. */
  lemma VisitsAll(hint: nat, max: nat, c: nat) returns (n: nat)
    requires 2 <= hint <= max && 2 <= c <= max
    ensures n < max - 1 && Visit(hint, max, n) == c
    ensures forall k: nat | k < max - 1 && Visit(hint, max, k) == c :: k == n
  {
    n := if c >= hint then c - hint else c - 2 + max + 1 - hint;
  }

  /** Where the search starts: a stale hint falls back to the first cluster. */
  function Start(hint: nat, max: nat): nat { if hint < 2 || hint > max then 2 else hint }

  ghost predicate IsTaken(fat: seq<nat>, c: nat) { Valid(fat, c) && fat[c] != 0 }

  /** The first `n` clusters the search looks at are taken, the next is `c` and free. */
  ghost predicate FoundAfter(fat: seq<nat>, start: nat, max: nat, n: nat, c: nat) {
    Valid(fat, c) && fat[c] == 0 && Visit(start, max, n) == c && forall k: nat | k < n :: IsTaken(fat, Visit(start, max, k))
  }

  ghost predicate FirstFree(fat: seq<nat>, start: nat, max: nat, c: nat) { exists n :: FoundAfter(fat, start, max, n, c) }

  /** The next free cluster from the hint on, or from the first if the hint is stale, going on from the first after the last:
      every cluster passed on the way is taken. */
  ghost predicate NextFree(fat: seq<nat>, hint: nat, c: nat) {
    && Valid(fat, c) && fat[c] == 0
    && var from := if Valid(fat, hint) then hint else 2;
       forall x: nat | Valid(fat, x) && (if from <= c then from <= x < c else from <= x || x < c) :: fat[x] != 0
  }

  lemma FirstIsNext(fat: seq<nat>, hint: nat, c: nat)
    requires |fat| >= 3 && FirstFree(fat, Start(hint, |fat| - 1), |fat| - 1, c)
    ensures NextFree(fat, hint, c)
  {
    var (from, max) := (Start(hint, |fat| - 1), |fat| - 1);
    var n :| FoundAfter(fat, from, max, n, c);
    forall x: nat | Valid(fat, x) && (if from <= c then from <= x < c else from <= x || x < c) ensures fat[x] != 0 {
      var k := VisitsAll(from, max, x);
      if k < n {
        assert IsTaken(fat, Visit(from, max, k));
      } else {
        var j := VisitsAll(from, max, c);
      }
    }
  }

  // ---------------------------------------------------------------- releasing a chain

  function Zeroed(fat: seq<nat>, cs: seq<nat>): (r: seq<nat>)
    ensures |r| == |fat| && forall c | 0 <= c < |fat| :: r[c] == if c in cs then 0 else fat[c]
  { seq(|fat|, c requires 0 <= c < |fat| => if c in cs then 0 else fat[c]) }

  /** How many entries are not free: what bounds the releasing loop on any table, a cyclic one included. */
  ghost function Taken(fat: seq<nat>): nat {
    if fat == [] then 0 else (if fat[0] != 0 then 1 else 0) + Taken(fat[1..])
  }

  lemma {:induction false} TakenDrops(fat: seq<nat>, c: nat)
    requires c < |fat| && fat[c] != 0
    ensures Taken(fat[c := 0]) == Taken(fat) - 1
  {
    if c > 0 {
      TakenDrops(fat[1..], c - 1);
      assert fat[c := 0][1..] == fat[1..][c - 1 := 0];
    } else {
      assert fat[c := 0][1..] == fat[1..];
    }
  }

  /** The table after `fat32_free_cluster_chain`, whatever the table. */
  ghost function Released(fat: seq<nat>, c: nat): seq<nat>
    decreases Taken(fat)
  {
    if !Valid(fat, c) then fat
    else if fat[c] == 0 then fat
    else TakenDrops(fat, c); Released(fat[c := 0], fat[c])
  }

  /** On a well-formed chain the loop frees that chain and nothing else. */
  lemma {:induction false} ReleasedIsZeroed(fat: seq<nat>, cs: seq<nat>, i: nat)
    requires IsChain(fat, cs) && i < |cs|
    ensures Released(Zeroed(fat, cs[..i]), cs[i]) == Zeroed(fat, cs)
    decreases |cs| - i
  {
    var z := Zeroed(fat, cs[..i]);
    assert cs[i] !in cs[..i];
    ChainIsAllocated(fat, cs, cs[i]);
    assert z[cs[i]] == fat[cs[i]] != 0;
    TakenDrops(z, cs[i]);
    assert z[cs[i] := 0] == Zeroed(fat, cs[..i + 1]) by { assert cs[..i + 1] == cs[..i] + [cs[i]]; }
    if i + 1 < |cs| {
      assert fat[cs[i]] == cs[i + 1];
      ReleasedIsZeroed(fat, cs, i + 1);
    } else {
      assert cs[..i + 1] == cs;
    }
  }

  /** Releasing never takes a cluster; it only frees. */
  lemma {:induction false} ReleasedOnlyFrees(fat: seq<nat>, c: nat)
    ensures |Released(fat, c)| == |fat| && forall x | 0 <= x < |fat| :: Released(fat, c)[x] == fat[x] || Released(fat, c)[x] == 0
    decreases Taken(fat)
  {
    if Valid(fat, c) && fat[c] != 0 {
      TakenDrops(fat, c);
      ReleasedOnlyFrees(fat[c := 0], fat[c]);
    }
  }
}

/** The table on disk: one or two copies of raw 32-bit entries, the first one read (kernel/fs/fat32.c). */
module FatTable {
  import opened Common
  import opened FatChain

  class Table {
    const entries: array2<nat>
    var hint: nat

    ghost predicate Sound()
      reads this, entries
    {
      && entries.Length0 > 0 && 3 <= entries.Length1 <= CLUSTER_MAX + 1
      && forall i, c | 0 <= i < entries.Length0 && 0 <= c < entries.Length1 :: entries[i, c] % MASK == entries[0, c] % MASK
    }

    /** A mounted table: every copy the same, the search for free clusters at the first. */
    constructor (image: seq<nat>, copies: nat)
      requires copies > 0 && 3 <= |image| <= CLUSTER_MAX + 1
      ensures Sound() && fresh(entries) && hint == 2 && |View()| == |image| && forall c | 0 <= c < |image| :: View()[c] == image[c] % MASK
    {
      entries := new nat[copies, |image|]((i, c) requires 0 <= c < |image| => image[c]);
      hint := 2;
    }

    /** The masked entries, the same in every copy. */
    ghost function View(): (f: seq<nat>)
      requires entries.Length0 > 0
      reads this, entries
      ensures |f| == entries.Length1 && forall c | 0 <= c < |f| :: f[c] == entries[0, c] % MASK
    { seq(entries.Length1, c requires 0 <= c < entries.Length1 reads this, entries => entries[0, c] % MASK) }

    predicate InRange(c: nat) { 2 <= c < entries.Length1 }

    method GetNext(c: nat) returns (r: nat)
      requires Sound()
      ensures r == if Valid(View(), c) then View()[c] else EOC
    {
      if !InRange(c) { return EOC; }
      return entries[0, c] % MASK;
    }

    /** Every copy gets the entry, the first one first. */
    method SetEntry(c: nat, v: nat) returns (ok: bool)
      requires Sound() && v < MASK
      modifies entries
      ensures Sound() && ok == Valid(old(View()), c)
      ensures View() == if ok then old(View())[c := v] else old(View())
    {
      if !InRange(c) { return false; }
      var i := 0;
      while i < entries.Length0
        invariant 0 <= i <= entries.Length0
        invariant forall k, x | 0 <= k < entries.Length0 && 0 <= x < entries.Length1 ::
                    entries[k, x] == if k < i && x == c then v else old(entries[k, x])
      {
        entries[i, c] := v;
        i := i + 1;
      }
      return true;
    }

    /** The first free cluster from the hint on, around the end: 0 only when the table is full. */
    method AllocateCluster() returns (c: nat)
      requires Sound()
      modifies this`hint, entries
      ensures Sound()
      ensures c == 0 <==> forall x | 2 <= x < |old(View())| :: old(View())[x] != 0
      ensures c == 0 ==> View() == old(View())
      ensures c != 0 ==> NextFree(old(View()), old(hint), c) && View() == old(View())[c := EOC]
      ensures hint == if c == 0 then (if Valid(View(), old(hint)) then old(hint) else 2) else if Valid(View(), c + 1) then c + 1 else 2
    {
      var max := entries.Length1 - 1;
      if hint < 2 || hint > max { hint := 2; }
      var n := 0;
      while n < max - 1
        invariant 0 <= n <= max - 1 && hint == Start(old(hint), max) && View() == old(View())
        invariant forall k: nat | k < n :: IsTaken(View(), Visit(hint, max, k))
      {
        c := Visit(hint, max, n);
        var entry := entries[0, c] % MASK;
        if entry == 0 {
          assert FoundAfter(View(), hint, max, n, c);
          FirstIsNext(View(), old(hint), c);
          var ok := SetEntry(c, EOC);
          hint := if c < max then c + 1 else 2;
          return;
        }
        n := n + 1;
      }
      forall x | 2 <= x < |old(View())| ensures old(View())[x] != 0 {
        var k := VisitsAll(hint, max, x);
        assert IsTaken(View(), Visit(hint, max, k));
      }
      return 0;
    }

    /** `extend_cluster_chain`: the new cluster goes behind `last`, or stands alone for 0; a `last` outside the table is refused
        and the allocation taken back. */
    method ExtendChain(last: nat) returns (c: nat)
      requires Sound()
      modifies this`hint, entries
      ensures Sound()
      ensures c == 0 <==> (last != 0 && !Valid(old(View()), last)) || forall x | 2 <= x < |old(View())| :: old(View())[x] != 0
      ensures c == 0 ==> View() == old(View())
      ensures c != 0 ==>
                && NextFree(old(View()), old(hint), c)
                && View() == if last == 0 then old(View())[c := EOC] else old(View())[c := EOC][last := c]
      ensures c != 0 && last == 0 ==> IsChain(View(), [c]) && forall ds | IsChain(old(View()), ds) :: IsChain(View(), ds) && c !in ds
      ensures c != 0 ==> forall cs | IsChain(old(View()), cs) && last == cs[|cs| - 1] ::
                && IsChain(View(), cs + [c])
                && forall ds | IsChain(old(View()), ds) && Apart(ds, cs) :: IsChain(View(), ds) && Apart(ds, cs + [c])
    {
      ghost var was := View();
      c := AllocateCluster();
      if c == 0 { return; }
      if last != 0 {
        var ok := SetEntry(last, c);
        if !ok {
          ok := SetEntry(c, 0);
          return 0;
        }
        forall cs | IsChain(was, cs) && last == cs[|cs| - 1]
          ensures IsChain(View(), cs + [c])
          ensures forall ds | IsChain(was, ds) && Apart(ds, cs) :: IsChain(View(), ds) && Apart(ds, cs + [c])
        {
          ExtendIsChain(was, View(), cs, c);
        }
      } else {
        NewChain(was, View(), c);
      }
    }

    static lemma NewChain(fat: seq<nat>, fat': seq<nat>, c: nat)
      requires Valid(fat, c) && fat[c] == 0 && fat' == fat[c := EOC] && |fat| <= EOC
      ensures IsChain(fat', [c]) && forall ds | IsChain(fat, ds) :: IsChain(fat', ds) && c !in ds
    {
      forall ds | IsChain(fat, ds) ensures IsChain(fat', ds) && c !in ds {
        if c in ds { ChainIsAllocated(fat, ds, c); }
        ChainElsewhere(fat, fat', ds);
      }
    }

    /** `fat32_free_cluster_chain`: ends on every table. */
    method FreeChain(start: nat)
      requires Sound()
      modifies entries
      ensures Sound() && View() == Released(old(View()), start)
      ensures forall cs | IsChain(old(View()), cs) && cs[0] == start :: View() == Zeroed(old(View()), cs)
    {
      var c := start;
      while InRange(c)
        invariant Sound() && Released(View(), c) == Released(old(View()), start)
        decreases Taken(View()), InRange(c)
      {
        var next := GetNext(c);
        ghost var f := View();
        if f[c] != 0 { TakenDrops(f, c); } else { assert f[c := 0] == f; }
        var ok := SetEntry(c, 0);
        c := next;
      }
      forall cs | IsChain(old(View()), cs) && cs[0] == start ensures View() == Zeroed(old(View()), cs) {
        ReleasedIsZeroed(old(View()), cs, 0);
        assert Zeroed(old(View()), cs[..0]) == old(View());
      }
    }
  }
}
