/** What is on disk after every single sector write of unlink, rmdir, shrinking truncate and rename (kernel/fs/fat32.c). */
module FatCrash {
  import opened Common
  import opened FatChain

  /** A directory slot: its sector and its place in it. */
  datatype Slot = Slot(lba: nat, index: nat)

  /** The boot sector names the root directory as a slot names any other; no walk comes here. */
  const ROOT := Slot(0, 0)

  /** A slot's contents. `End` and `Deleted` are free; `Dot` stands for "." and "..". */
  datatype Entry = End | Deleted | Lfn | Dot(parent: nat) | Live(dir: bool, cluster: nat, size: nat, name: string)

  /** Every copy of the table, and every directory slot. */
  datatype Disk = Disk(fats: seq<seq<nat>>, slots: map<Slot, Entry>)

  ghost predicate LiveAt(d: Disk, s: Slot) { s in d.slots && d.slots[s].Live? }

  ghost predicate ChainFrom(fat: seq<nat>, c: nat, cs: seq<nat>) { IsChain(fat, cs) && cs[0] == c }

  /** The entry's chain is well formed, so reaches no free cluster, and covers the recorded size. */
  ghost predicate Backed(fat: seq<nat>, e: Entry, bpc: nat)
    requires e.Live?
  {
    if e.cluster == 0 then e.size == 0 && !e.dir
    else exists cs :: ChainFrom(fat, e.cluster, cs) && (e.dir || e.size <= |cs| * bpc)
  }

  /** Two entries share clusters only if they name the same file. */
  ghost predicate Disjoint(fat: seq<nat>, slots: map<Slot, Entry>) {
    forall s, t, cs, ds | s in slots && t in slots && slots[s].Live? && slots[t].Live? && slots[s].cluster != slots[t].cluster
                          && ChainFrom(fat, slots[s].cluster, cs) && ChainFrom(fat, slots[t].cluster, ds) :: Apart(cs, ds)
  }

  ghost predicate SafeIn(fat: seq<nat>, slots: map<Slot, Entry>, bpc: nat) {
    (forall s | s in slots && slots[s].Live? :: Backed(fat, slots[s], bpc)) && Disjoint(fat, slots)
  }

  /** A disk a crash may leave behind: safe by any copy of the table. */
  ghost predicate Safe(d: Disk, bpc: nat) {
    forall k | 0 <= k < |d.fats| :: |d.fats[k]| <= CLUSTER_MAX + 1 && SafeIn(d.fats[k], d.slots, bpc)
  }

  // ---------------------------------------------------------------- one sector write at a time

  /** Every live entry of the new slots was there before, with at least its size. */
  ghost predicate Fewer(slots: map<Slot, Entry>, slots': map<Slot, Entry>) {
    forall s | s in slots' && slots'[s].Live? :: exists t :: t in slots && Shrunk(slots[t], slots'[s])
  }

  ghost predicate Shrunk(e: Entry, e': Entry) {
    e.Live? && e'.Live? && e'.cluster == e.cluster && e'.dir == e.dir && e'.size <= e.size
  }

  /** A directory write that adds no live entry keeps the disk safe. */
  lemma SlotWriteKeepsSafe(d: Disk, d': Disk, bpc: nat)
    requires Safe(d, bpc) && d'.fats == d.fats && Fewer(d.slots, d'.slots)
    ensures Safe(d', bpc)
  {
    forall k | 0 <= k < |d.fats| ensures SafeIn(d'.fats[k], d'.slots, bpc) {
      forall s | s in d'.slots && d'.slots[s].Live? ensures Backed(d.fats[k], d'.slots[s], bpc) {
        var t :| t in d.slots && Shrunk(d.slots[t], d'.slots[s]);
      }
      forall s, t, cs, ds | s in d'.slots && t in d'.slots && d'.slots[s].Live? && d'.slots[t].Live? && d'.slots[s].cluster != d'.slots[t].cluster
                            && ChainFrom(d.fats[k], d'.slots[s].cluster, cs) && ChainFrom(d.fats[k], d'.slots[t].cluster, ds)
        ensures Apart(cs, ds)
      {
        var s0 :| s0 in d.slots && Shrunk(d.slots[s0], d'.slots[s]);
        var t0 :| t0 in d.slots && Shrunk(d.slots[t0], d'.slots[t]);
      }
    }
  }

  /** No live entry's chain, by this copy, meets `doomed`. */
  ghost predicate ClearOf(fat: seq<nat>, slots: map<Slot, Entry>, doomed: seq<nat>) {
    forall s, cs | s in slots && slots[s].Live? && ChainFrom(fat, slots[s].cluster, cs) :: Apart(cs, doomed)
  }

  ghost predicate Clear(d: Disk, doomed: seq<nat>) {
    forall k | 0 <= k < |d.fats| :: ClearOf(d.fats[k], d.slots, doomed)
  }

  /** A table write to a cluster outside every live chain leaves those chains as they are. */
  lemma FatWriteSame(fat: seq<nat>, fat': seq<nat>, slots: map<Slot, Entry>, bpc: nat, doomed: seq<nat>, c: nat, v: nat)
    requires SafeIn(fat, slots, bpc) && ClearOf(fat, slots, doomed) && c in doomed && c < |fat| && fat' == fat[c := v]
    ensures forall s, cs | s in slots && slots[s].Live? :: ChainFrom(fat', slots[s].cluster, cs) <==> ChainFrom(fat, slots[s].cluster, cs)
  {
    forall s, cs | s in slots && slots[s].Live?
      ensures ChainFrom(fat', slots[s].cluster, cs) <==> ChainFrom(fat, slots[s].cluster, cs)
    {
      var a := slots[s].cluster;
      if ChainFrom(fat, a, cs) {
        assert Apart(cs, doomed);
        ChainElsewhere(fat, fat', cs);
      } else if ChainFrom(fat', a, cs) {
        assert Backed(fat, slots[s], bpc) && Valid(fat, cs[0]);
        var ds :| ChainFrom(fat, a, ds);
        assert Apart(ds, doomed);
        ChainElsewhere(fat, fat', ds);
        SameChain(fat', cs, ds);
      }
    }
  }

  lemma FatWriteKeepsSafe(fat: seq<nat>, fat': seq<nat>, slots: map<Slot, Entry>, bpc: nat, doomed: seq<nat>, c: nat, v: nat)
    requires SafeIn(fat, slots, bpc) && ClearOf(fat, slots, doomed) && c in doomed && c < |fat| && fat' == fat[c := v]
    ensures SafeIn(fat', slots, bpc) && ClearOf(fat', slots, doomed)
  {
    FatWriteSame(fat, fat', slots, bpc, doomed, c, v);
    forall s | s in slots && slots[s].Live? ensures Backed(fat', slots[s], bpc) {
      if slots[s].cluster != 0 {
        var cs :| ChainFrom(fat, slots[s].cluster, cs) && (slots[s].dir || slots[s].size <= |cs| * bpc);
        assert ChainFrom(fat', slots[s].cluster, cs);
      }
    }
  }

  /** No other slot names the file. */
  ghost predicate OnlyName(d: Disk, s: Slot)
    requires LiveAt(d, s)
  {
    d.slots[s].cluster != 0 ==> forall t | LiveAt(d, t) && t != s :: d.slots[t].cluster != d.slots[s].cluster
  }

  /** No two slots name the same file. */
  ghost predicate Unique(d: Disk) {
    forall s, t | LiveAt(d, s) && LiveAt(d, t) && s != t :: d.slots[s].cluster == d.slots[t].cluster ==> d.slots[s].cluster == 0
  }

  /** Once its only name is gone, nothing live meets the file's chain. */
  lemma NamelessIsClear(d: Disk, d': Disk, s: Slot, bpc: nat, cs: seq<nat>)
    requires Safe(d, bpc) && LiveAt(d, s) && OnlyName(d, s) && d.slots[s].cluster != 0
    requires d'.fats == d.fats && (forall k | 0 <= k < |d.fats| :: ChainFrom(d.fats[k], d.slots[s].cluster, cs))
    requires forall t | LiveAt(d', t) :: exists u :: u != s && LiveAt(d, u) && d.slots[u].cluster == d'.slots[t].cluster
    ensures Clear(d', cs)
  {
    forall k | 0 <= k < |d'.fats| ensures ClearOf(d'.fats[k], d'.slots, cs) {
      forall t, ds | t in d'.slots && d'.slots[t].Live? && ChainFrom(d'.fats[k], d'.slots[t].cluster, ds) ensures Apart(ds, cs) {
        assert LiveAt(d', t);
        var u :| u != s && LiveAt(d, u) && d.slots[u].cluster == d'.slots[t].cluster;
        assert ChainFrom(d.fats[k], d.slots[s].cluster, cs) && SafeIn(d.fats[k], d.slots, bpc);
      }
    }
  }

  /** A live entry whose chain has been freed is not backed. */
  lemma FreedIsUnsafe(d: Disk, u: Slot, bpc: nat, fat: seq<nat>, cs: seq<nat>)
    requires d.fats != [] && LiveAt(d, u) && ChainFrom(fat, d.slots[u].cluster, cs) && d.fats[0] == Zeroed(fat, cs)
    ensures !Safe(d, bpc)
  {
    if Safe(d, bpc) {
      assert SafeIn(d.fats[0], d.slots, bpc) && Backed(d.fats[0], d.slots[u], bpc) && Valid(fat, cs[0]);
      var ds :| ChainFrom(d.fats[0], d.slots[u].cluster, ds);
      assert ds[0] in cs && ds[0] in ds;
      ChainIsAllocated(d.fats[0], ds, ds[0]);
    }
  }

  /** Between the two directory writes of a rename the disk is safe, but the file has two names; freeing its chain with one of
      them, as an unlink after a crash there does, leaves an unsafe disk. */
  lemma SharedIsUnsafe(d: Disk, s: Slot, t: Slot, name: string, bpc: nat, cs: seq<nat>)
    requires Safe(d, bpc) && d.fats != [] && LiveAt(d, s) && d.slots[s].cluster != 0 && s != t && ChainFrom(d.fats[0], d.slots[s].cluster, cs)
    ensures var mid := d.(slots := d.slots[t := d.slots[s].(name := name)]);
            && Safe(mid, bpc) && !Unique(mid)
            && forall fats | fats != [] && fats[0] == Zeroed(d.fats[0], cs) :: !Safe(Disk(fats, mid.slots[s := Deleted]), bpc)
  {
    var mid := d.(slots := d.slots[t := d.slots[s].(name := name)]);
    forall x | x in mid.slots && mid.slots[x].Live? ensures exists y :: y in d.slots && Shrunk(d.slots[y], mid.slots[x]) {
      assert Shrunk(d.slots[if x == t then s else x], mid.slots[x]);
    }
    SlotWriteKeepsSafe(d, mid, bpc);
    assert LiveAt(mid, s) && LiveAt(mid, t);
    forall fats | fats != [] && fats[0] == Zeroed(d.fats[0], cs) ensures !Safe(Disk(fats, mid.slots[s := Deleted]), bpc) {
      FreedIsUnsafe(Disk(fats, mid.slots[s := Deleted]), t, bpc, d.fats[0], cs);
    }
  }

  // ---------------------------------------------------------------- cutting a chain

  lemma CutSame(fat: seq<nat>, fat': seq<nat>, slots: map<Slot, Entry>, bpc: nat, s: Slot, cs: seq<nat>, m: nat)
    requires SafeIn(fat, slots, bpc) && s in slots && slots[s].Live? && ChainFrom(fat, slots[s].cluster, cs) && |fat| <= CLUSTER_MAX + 1
    requires 0 < m <= |cs| && fat' == fat[cs[m - 1] := EOC]
    ensures ChainFrom(fat', slots[s].cluster, cs[..m])
    ensures forall t, ds | t in slots && slots[t].Live? && slots[t].cluster != slots[s].cluster ::
              ChainFrom(fat', slots[t].cluster, ds) <==> ChainFrom(fat, slots[t].cluster, ds)
  {
    CutIsChain(fat, fat', cs, m);
    var c := cs[m - 1];
    forall t, ds | t in slots && slots[t].Live? && slots[t].cluster != slots[s].cluster
      ensures ChainFrom(fat', slots[t].cluster, ds) <==> ChainFrom(fat, slots[t].cluster, ds)
    {
      var a := slots[t].cluster;
      assert c in cs;
      if ChainFrom(fat, a, ds) {
        assert Apart(ds, cs);
        ChainElsewhere(fat, fat', ds);
      } else if ChainFrom(fat', a, ds) {
        assert Backed(fat, slots[t], bpc) && Valid(fat, ds[0]);
        var es :| ChainFrom(fat, a, es);
        assert Apart(es, cs);
        ChainElsewhere(fat, fat', es);
        SameChain(fat', ds, es);
      }
    }
  }

  /** What every chain is after the cut: the file's is its first part, and the others are what they were. */
  lemma CutChains(fat: seq<nat>, fat': seq<nat>, slots: map<Slot, Entry>, bpc: nat, s: Slot, cs: seq<nat>, m: nat, t: Slot, ds: seq<nat>)
    requires SafeIn(fat, slots, bpc) && s in slots && slots[s].Live? && ChainFrom(fat, slots[s].cluster, cs) && |fat| <= CLUSTER_MAX + 1
    requires 0 < m <= |cs| && fat' == fat[cs[m - 1] := EOC]
    requires t in slots && slots[t].Live? && ChainFrom(fat', slots[t].cluster, ds)
    ensures if slots[t].cluster == slots[s].cluster then ds == cs[..m] else ChainFrom(fat, slots[t].cluster, ds) && Apart(ds, cs) && Apart(cs, ds)
  {
    CutSame(fat, fat', slots, bpc, s, cs, m);
    if slots[t].cluster == slots[s].cluster { SameChain(fat', ds, cs[..m]); }
  }

  lemma CutBacked(fat: seq<nat>, fat': seq<nat>, slots: map<Slot, Entry>, bpc: nat, s: Slot, cs: seq<nat>, m: nat, t: Slot)
    requires SafeIn(fat, slots, bpc) && s in slots && slots[s].Live? && ChainFrom(fat, slots[s].cluster, cs) && |fat| <= CLUSTER_MAX + 1
    requires 0 < m <= |cs| && fat' == fat[cs[m - 1] := EOC]
    requires t in slots && slots[t].Live? && (slots[t].cluster == slots[s].cluster ==> slots[t].dir || slots[t].size <= m * bpc)
    ensures Backed(fat', slots[t], bpc)
  {
    CutSame(fat, fat', slots, bpc, s, cs, m);
    if slots[t].cluster == slots[s].cluster {
      assert |cs[..m]| == m;
    } else if slots[t].cluster != 0 {
      var ds :| ChainFrom(fat, slots[t].cluster, ds) && (slots[t].dir || slots[t].size <= |ds| * bpc);
      assert ChainFrom(fat', slots[t].cluster, ds);
    }
  }

  /** Every name of the file at `s` says at most `m` clusters. */
  ghost predicate SizesFit(slots: map<Slot, Entry>, s: Slot, m: nat, bpc: nat)
    requires s in slots && slots[s].Live?
  {
    forall t | t in slots && slots[t].Live? && slots[t].cluster == slots[s].cluster :: slots[t].dir || slots[t].size <= m * bpc
  }

  /** Ending a chain early is safe once the size under every one of its names says so; the cut-off part is then clear. */
  lemma CutKeepsSafe(fat: seq<nat>, fat': seq<nat>, slots: map<Slot, Entry>, bpc: nat, s: Slot, cs: seq<nat>, m: nat)
    requires SafeIn(fat, slots, bpc) && s in slots && slots[s].Live? && ChainFrom(fat, slots[s].cluster, cs) && |fat| <= CLUSTER_MAX + 1
    requires 0 < m <= |cs| && fat' == fat[cs[m - 1] := EOC] && SizesFit(slots, s, m, bpc)
    ensures SafeIn(fat', slots, bpc) && ClearOf(fat', slots, cs[m..])
  {
    assert Distinct(cs);
    hide ChainFrom, IsChain, Backed, SafeIn, Disjoint;
    assert forall c | c in cs[..m] :: c in cs && c !in cs[m..];
    assert forall c | c in cs[m..] :: c in cs;
    forall t | t in slots && slots[t].Live? ensures Backed(fat', slots[t], bpc) {
      CutBacked(fat, fat', slots, bpc, s, cs, m, t);
    }
    assert Disjoint(fat', slots) by { CutDisjoint(fat, fat', slots, bpc, s, cs, m); }
    forall t, ds | t in slots && slots[t].Live? && ChainFrom(fat', slots[t].cluster, ds) ensures Apart(ds, cs[m..]) {
      CutChains(fat, fat', slots, bpc, s, cs, m, t, ds);
    }
    SafeFromParts(fat', slots, bpc);
  }

  lemma SafeFromParts(fat: seq<nat>, slots: map<Slot, Entry>, bpc: nat)
    requires (forall s | s in slots && slots[s].Live? :: Backed(fat, slots[s], bpc)) && Disjoint(fat, slots)
    ensures SafeIn(fat, slots, bpc)
  {
  }

  lemma CutDisjoint(fat: seq<nat>, fat': seq<nat>, slots: map<Slot, Entry>, bpc: nat, s: Slot, cs: seq<nat>, m: nat)
    requires SafeIn(fat, slots, bpc) && s in slots && slots[s].Live? && ChainFrom(fat, slots[s].cluster, cs) && |fat| <= CLUSTER_MAX + 1
    requires 0 < m <= |cs| && fat' == fat[cs[m - 1] := EOC]
    ensures Disjoint(fat', slots)
  {
    hide IsChain, Backed;
    assert forall c | c in cs[..m] :: c in cs;
    forall t, u, ds, es | t in slots && u in slots && slots[t].Live? && slots[u].Live? && slots[t].cluster != slots[u].cluster
                          && ChainFrom(fat', slots[t].cluster, ds) && ChainFrom(fat', slots[u].cluster, es)
      ensures Apart(ds, es)
    {
      CutChains(fat, fat', slots, bpc, s, cs, m, t, ds);
      CutChains(fat, fat', slots, bpc, s, cs, m, u, es);
    }
  }

  /** A name that says more than the kept clusters is not backed by them. */
  lemma CutIsUnsafe(d: Disk, u: Slot, bpc: nat, fat: seq<nat>, cs: seq<nat>, m: nat)
    requires d.fats != [] && LiveAt(d, u) && ChainFrom(fat, d.slots[u].cluster, cs) && |fat| <= CLUSTER_MAX + 1 && 0 < m <= |cs|
    requires d.fats[0] == Zeroed(fat[cs[m - 1] := EOC], cs[m..]) && !d.slots[u].dir && d.slots[u].size > m * bpc
    ensures !Safe(d, bpc)
  {
    var (cut, kept) := (fat[cs[m - 1] := EOC], cs[..m]);
    CutIsChain(fat, cut, cs, m);
    assert forall c | c in kept :: c !in cs[m..];
    ChainElsewhere(cut, d.fats[0], kept);
    if Safe(d, bpc) {
      assert SafeIn(d.fats[0], d.slots, bpc) && Backed(d.fats[0], d.slots[u], bpc) && Valid(fat, cs[0]);
      var ds :| ChainFrom(d.fats[0], d.slots[u].cluster, ds) && d.slots[u].size <= |ds| * bpc;
      SameChain(d.fats[0], ds, kept);
    }
  }
}
