/** The operations themselves, writing sector by sector (kernel/fs/fat32.c). The directory walk is left out: each operation
    is given the slots its walk found. */
module FatOps {
  import opened Common
  import opened FatChain
  import opened FatCrash

  datatype Outcome = Done | NotDir | IsDir | NotEmpty | NotSupported

  /** `cs` from `m` on is a chain of its own. */
  lemma SuffixIsChain(fat: seq<nat>, fat': seq<nat>, cs: seq<nat>, m: nat)
    requires IsChain(fat, cs) && 0 < m < |cs| && |fat'| == |fat| && forall c | c in cs[m..] :: fat'[c] == fat[c]
    ensures IsChain(fat', cs[m..])
  {
    var r := cs[m..];
    assert forall i | 0 <= i < |r| :: r[i] == cs[m + i] && r[i] in r;
  }

  class Volume {
    const bpc: nat
    var fats: seq<seq<nat>>
    var slots: map<Slot, Entry>
    /** The disk after each sector write so far. */
    ghost var log: seq<Disk>

    ghost function Now(): Disk
      reads this
    { Disk(fats, slots) }

    ghost predicate Mirrored()
      reads this
    { fats != [] && bpc > 0 && forall k | 0 <= k < |fats| :: fats[k] == fats[0] }

    /** A volume as it is mounted, every copy of its table the same. */
    constructor (bytesPerCluster: nat, table: seq<nat>, copies: nat, dirs: map<Slot, Entry>)
      requires bytesPerCluster > 0 && copies > 0
      ensures Mirrored() && bpc == bytesPerCluster && slots == dirs && log == [] && |fats| == copies && fats[0] == table
    {
      bpc, slots, log := bytesPerCluster, dirs, [];
      fats := seq(copies, _ => table);
    }

    /** Every write since `n` left a safe disk. */
    ghost predicate SafeSince(n: nat)
      reads this
    { n <= |log| && forall i | n <= i < |log| :: Safe(log[i], bpc) }

    predicate InRange(c: nat)
      requires fats != []
      reads this
    { 2 <= c < |fats[0]| }

    /** One directory sector goes out. */
    method PutSector(changes: map<Slot, Entry>)
      requires forall s, t | s in changes && t in changes :: s.lba == t.lba
      modifies this`slots, this`log
      ensures slots == old(slots) + changes && log == old(log) + [Now()]
    {
      slots := slots + changes;
      log := log + [Now()];
    }

    /** `set_fat_entry`: one sector write per copy. */
    method SetEntry(c: nat, v: nat)
      requires Mirrored() && 2 <= c < |fats[0]|
      modifies this`fats, this`log
      ensures Mirrored() && |fats| == |old(fats)| && fats[0] == old(fats[0])[c := v]
      ensures old(log) <= log
      ensures forall i | |old(log)| <= i < |log| :: Between(old(Now()), Now(), log[i])
    {
      var k := 0;
      ghost var (n, fat) := (|fats|, fats[0]);
      while k < |fats|
        invariant 0 <= k <= |fats| == n && old(log) <= log
        invariant forall j | 0 <= j < n :: fats[j] == if j < k then fat[c := v] else fat
        invariant forall i | |old(log)| <= i < |log| :: Mixed(fat, fat[c := v], n, slots, log[i])
      {
        var fat': seq<nat> := fats[k][c := v];
        fats := fats[k := fat'];
        log := log + [Now()];
        k := k + 1;
      }
    }

    /** One table write after another; while no live chain is touched, safe throughout. */
    method SetDoomed(c: nat, ghost doomed: seq<nat>)
      requires Mirrored() && 2 <= c < |fats[0]| && c in doomed
      modifies this`fats, this`log
      ensures Mirrored() && |fats| == |old(fats)| && fats[0] == old(fats[0])[c := 0] && old(log) <= log
      ensures old(Safe(Now(), bpc) && Clear(Now(), doomed)) ==> Safe(Now(), bpc) && Clear(Now(), doomed) && SafeSince(|old(log)|)
      ensures forall i | |old(log)| <= i < |log| :: log[i].slots == slots
    {
      ghost var d := Now();
      SetEntry(c, 0);
      ghost var d' := Now();
      if Safe(d, bpc) && Clear(d, doomed) {
        forall k | 0 <= k < |d'.fats|
          ensures SafeIn(d'.fats[k], d'.slots, bpc) && ClearOf(d'.fats[k], d'.slots, doomed) && |d'.fats[k]| <= CLUSTER_MAX + 1
        {
          assert SafeIn(d.fats[k], d.slots, bpc) && ClearOf(d.fats[k], d.slots, doomed) && d.fats[k] == d.fats[0];
          FatWriteKeepsSafe(d.fats[k], d'.fats[k], d.slots, bpc, doomed, c, 0);
        }
        forall i | |old(log)| <= i < |log| ensures Safe(log[i], bpc) { BetweenIsSafe(d, d', log[i], bpc); }
      }
    }

    /** `fat32_free_cluster_chain`: exactly the chain is freed, and if no live entry meets it every write is safe. */
    method FreeChain(start: nat, ghost doomed: seq<nat>)
      requires Mirrored() && ChainFrom(fats[0], start, doomed)
      modifies this`fats, this`log
      ensures Mirrored() && |fats| == |old(fats)| && fats[0] == Zeroed(old(fats[0]), doomed) && old(log) <= log
      ensures old(Safe(Now(), bpc) && Clear(Now(), doomed)) ==> Safe(Now(), bpc) && SafeSince(|old(log)|)
      ensures forall i | |old(log)| <= i < |log| :: log[i].slots == slots
    {
      var c := start;
      ghost var (i, fat, good) := (0, fats[0], Safe(Now(), bpc) && Clear(Now(), doomed));
      hide Safe, Clear;
      while InRange(c)
        invariant 0 <= i <= |doomed| && Mirrored() && |fats| == |old(fats)| && fats[0] == Zeroed(fat, doomed[..i])
        invariant good ==> Safe(Now(), bpc) && Clear(Now(), doomed) && SafeSince(|old(log)|)
        invariant if i < |doomed| then c == doomed[i] else !Valid(fat, c)
        invariant old(log) <= log
        invariant forall k | |old(log)| <= k < |log| :: log[k].slots == slots
        decreases |doomed| - i
      {
        assert doomed[i] !in doomed[..i] && doomed[..i + 1] == doomed[..i] + [doomed[i]];
        var next := fats[0][c];
        assert i + 1 < |doomed| ==> fat[doomed[i]] == doomed[i + 1];
        SetDoomed(c, doomed);
        assert fats[0] == Zeroed(fat, doomed[..i + 1]);
        c := next;
        i := i + 1;
      }
      assert doomed[..i] == doomed;
    }

    // ---------------------------------------------------------------- directory sectors

    /** A sector that makes no slot live goes out. */
    method PutQuiet(changes: map<Slot, Entry>)
      requires forall x, y | x in changes && y in changes :: x.lba == y.lba
      requires Safe(Now(), bpc) && forall x | x in changes :: !changes[x].Live?
      modifies this`slots, this`log
      ensures slots == old(slots) + changes && log == old(log) + [Now()] && Safe(Now(), bpc)
    {
      ghost var d := Now();
      PutSector(changes);
      QuietIsFewer(d.slots, changes);
      SlotWriteKeepsSafe(d, Now(), bpc);
    }

    /** Marks slots deleted, one sector write each. */
    method Wipe(ls: seq<Slot>)
      requires Safe(Now(), bpc)
      modifies this`slots, this`log
      ensures slots == Wiped(old(slots), ls) && Safe(Now(), bpc)
      ensures old(log) <= log && SafeSince(|old(log)|)
      ensures forall i | |old(log)| <= i < |log| :: Keeps(old(slots), log[i], ls)
    {
      hide Safe, Wiped, Keeps;
      WipedNone(slots);
      assert ls[..0] == [];
      var i := 0;
      while i < |ls|
        invariant 0 <= i <= |ls| && slots == Wiped(old(slots), ls[..i]) && Safe(Now(), bpc)
        invariant old(log) <= log && SafeSince(|old(log)|)
        invariant forall k | |old(log)| <= k < |log| :: Keeps(old(slots), log[k], ls)
      {
        assert ls[..i + 1] == ls[..i] + [ls[i]];
        WipedOnce(old(slots), ls[..i], ls[i]);
        PutQuiet(map[ls[i] := Deleted]);
        WipedKeeps(old(slots), ls, i + 1, Now());
        i := i + 1;
      }
      assert ls[..i] == ls;
    }

    // ---------------------------------------------------------------- unlink and rmdir

    /** The name goes: its long-name slots in other sectors, then its entry together with those in the entry's sector. */
    method WipeEntry(s: Slot, own: seq<Slot>, others: seq<Slot>)
      requires Safe(Now(), bpc) && forall l | l in own :: l.lba == s.lba
      modifies this`slots, this`log
      ensures slots == Wiped(old(slots), others + own + [s]) && Safe(Now(), bpc)
      ensures old(log) <= log && SafeSince(|old(log)|)
    {
      hide Safe, Wiped;
      Wipe(others);
      WipedTwice(old(slots), others, own + [s]);
      assert others + (own + [s]) == others + own + [s];
      PutQuiet(map x | x in own + [s] :: Deleted);
    }

    /** `fat32_remove_entry`: the long-name slots in other sectors, then the entry with those in its own, then the chain. Every
        write leaves a safe disk if and only if no chain is freed or the entry was its only name. */
    method Remove(s: Slot, own: seq<Slot>, others: seq<Slot>, wantDir: bool, empty: bool, open: bool) returns (r: Outcome)
      requires Mirrored() && Safe(Now(), bpc) && LiveAt(Now(), s) && s != ROOT
      requires (forall l | l in own :: l.lba == s.lba && l in slots && slots[l] == Lfn) && forall l | l in others :: l in slots && slots[l] == Lfn
      modifies this`fats, this`slots, this`log
      ensures Mirrored() && old(log) <= log
      ensures r == (if wantDir && !old(slots)[s].dir then NotDir else if !wantDir && old(slots)[s].dir then IsDir
                    else if wantDir && !empty then NotEmpty else Done)
      ensures Safe(Now(), bpc) <==> r != Done || open || old(slots)[s].cluster < 2 || OnlyName(old(Now()), s)
      ensures Safe(Now(), bpc) ==> SafeSince(|old(log)|)
      ensures Unique(old(Now())) ==> Unique(Now())
      ensures RootKept(old(slots), slots)
      ensures r != Done ==> Now() == old(Now())
      ensures r == Done ==> slots == Wiped(old(slots), others + own + [s])
      ensures r == Done && (open || old(slots)[s].cluster < 2) ==> fats == old(fats)
      ensures r == Done && !open && old(slots)[s].cluster >= 2 ==>
                forall cs | ChainFrom(old(fats)[0], old(slots)[s].cluster, cs) :: fats[0] == Zeroed(old(fats)[0], cs)
    {
      var e := slots[s];
      if wantDir && !e.dir { return NotDir; }
      if !wantDir && e.dir { return IsDir; }
      if wantDir && !empty { return NotEmpty; }
      hide Safe, OnlyName, Wiped, Zeroed, Unique, RootKept;
      Unname(s, own, others, open);
      return Done;
    }

    /** The removal, once its refusals are out of the way. */
    method Unname(s: Slot, own: seq<Slot>, others: seq<Slot>, open: bool)
      requires Mirrored() && Safe(Now(), bpc) && LiveAt(Now(), s) && s != ROOT
      requires (forall l | l in own :: l.lba == s.lba && l in slots && slots[l] == Lfn) && forall l | l in others :: l in slots && slots[l] == Lfn
      modifies this`fats, this`slots, this`log
      ensures Mirrored() && old(log) <= log && slots == Wiped(old(slots), others + own + [s])
      ensures Safe(Now(), bpc) <==> open || old(slots)[s].cluster < 2 || OnlyName(old(Now()), s)
      ensures Safe(Now(), bpc) ==> SafeSince(|old(log)|)
      ensures (Unique(old(Now())) ==> Unique(Now())) && RootKept(old(slots), slots)
      ensures open || old(slots)[s].cluster < 2 ==> fats == old(fats)
      ensures !open && old(slots)[s].cluster >= 2 ==>
                forall cs | ChainFrom(old(fats)[0], old(slots)[s].cluster, cs) :: fats[0] == Zeroed(old(fats)[0], cs)
    {
      hide Safe, OnlyName, Wiped, Zeroed, Unique, Clear, RootKept;
      var e := slots[s];
      ghost var (d, lfns) := (Now(), others + own);
      ghost var cs := HasChain(d, s, bpc);
      WipedStaysUnique(d, lfns + [s]);
      RootWiped(d.slots, lfns, s);
      WipeEntry(s, own, others);
      ghost var mid := Now();
      if e.cluster >= 2 && !open {
        if OnlyName(d, s) { WipedIsClear(d, mid, s, lfns + [s], bpc, cs); }
        FreeChain(e.cluster, cs);
        if !OnlyName(d, s) { RemovedIsUnsafe(d, Now(), s, lfns, bpc, cs); }
        SameNames(mid, Now());
      }
    }

    // ---------------------------------------------------------------- shrinking

    /** The cluster that holds byte `length - 1`: the walk of `fat32_truncate`. */
    method LastKept(start: nat, length: nat, ghost cs: seq<nat>) returns (tail: nat, doomed: nat, ghost m: nat)
      requires Mirrored() && ChainFrom(fats[0], start, cs) && length <= |cs| * bpc
      ensures m == KeptClusters(length, bpc) <= |cs| && tail == cs[m - 1] && length <= m * bpc && (length > 0 ==> length > (m - 1) * bpc)
      ensures doomed == (if m < |cs| then cs[m] else 0)
    {
      tail, m := start, 1;
      if length > 0 {
        var index := (length - 1) / bpc;
        IndexFits(length, bpc, |cs|);
        var i := 0;
        while i < index
          invariant 0 <= i <= index < |cs| && tail == cs[i]
        {
          assert fats[0][cs[i]] == cs[i + 1];
          tail := fats[0][tail];
          i := i + 1;
        }
        m := index + 1;
      }
      var next := fats[0][tail];
      assert m < |cs| ==> fats[0][cs[m - 1]] == cs[m];
      doomed := if InRange(next) then next else 0;
    }

    /** Both copies of the table end the chain at `tail`; safe when the size under every name of the file says so. */
    method EndChain(tail: nat, s: Slot, ghost cs: seq<nat>, ghost m: nat)
      requires Mirrored() && LiveAt(Now(), s) && slots[s].cluster != 0
      requires ChainFrom(fats[0], slots[s].cluster, cs) && 0 < m <= |cs| && tail == cs[m - 1]
      modifies this`fats, this`log
      ensures Mirrored() && |fats| == |old(fats)| && fats[0] == old(fats[0])[tail := EOC] && old(log) <= log
      ensures old(Safe(Now(), bpc)) && SizesFit(slots, s, m, bpc) ==> Safe(Now(), bpc) && Clear(Now(), cs[m..]) && SafeSince(|old(log)|)
    {
      ghost var d := Now();
      SetEntry(tail, EOC);
      ghost var d' := Now();
      if Safe(d, bpc) && SizesFit(slots, s, m, bpc) {
        forall k | 0 <= k < |d'.fats|
          ensures SafeIn(d'.fats[k], d'.slots, bpc) && ClearOf(d'.fats[k], d'.slots, cs[m..]) && |d'.fats[k]| <= CLUSTER_MAX + 1
        {
          assert SafeIn(d.fats[k], d.slots, bpc) && d.fats[k] == d.fats[0];
          CutKeepsSafe(d.fats[k], d'.fats[k], d.slots, bpc, s, cs, m);
        }
        forall i | |old(log)| <= i < |log| ensures Safe(log[i], bpc) { BetweenIsSafe(d, d', log[i], bpc); }
      }
    }

    /** `fat32_truncate`: the entry shrinks before its chain does. Every write leaves a safe disk if and only if no other name of
        the file says more than the kept clusters. */
    method Truncate(s: Slot, length: nat) returns (r: Outcome)
      requires Mirrored() && Safe(Now(), bpc) && LiveAt(Now(), s) && !slots[s].dir && s != ROOT
      modifies this`fats, this`slots, this`log
      ensures Mirrored() && old(log) <= log
      ensures r == if length > old(slots)[s].size then NotSupported else Done
      ensures Safe(Now(), bpc) <==>
              length >= old(slots)[s].size || OthersFit(old(slots), s, KeptClusters(length, bpc), bpc)
      ensures Safe(Now(), bpc) ==> SafeSince(|old(log)|)
      ensures Unique(old(Now())) ==> Unique(Now())
      ensures RootKept(old(slots), slots)
      ensures length >= old(slots)[s].size ==> Now() == old(Now())
      ensures length < old(slots)[s].size ==>
                && slots == old(slots)[s := old(slots)[s].(size := length)]
                && forall cs | ChainFrom(old(fats)[0], old(slots)[s].cluster, cs) ::
                     var m := KeptClusters(length, bpc);
                     m <= |cs| && fats[0] == Zeroed(old(fats)[0][cs[m - 1] := EOC], cs[m..])
    {
      var e := slots[s];
      if length > e.size { return NotSupported; }
      if length == e.size { return Done; }
      hide Safe, Unique, RootKept, OthersFit, Zeroed;
      Shrink(s, length);
      return Done;
    }

    /** The shrinking itself. */
    method Shrink(s: Slot, length: nat)
      requires Mirrored() && Safe(Now(), bpc) && LiveAt(Now(), s) && !slots[s].dir && s != ROOT && length < slots[s].size
      modifies this`fats, this`slots, this`log
      ensures Mirrored() && old(log) <= log && slots == old(slots)[s := old(slots)[s].(size := length)]
      ensures Safe(Now(), bpc) <==> OthersFit(old(slots), s, KeptClusters(length, bpc), bpc)
      ensures Safe(Now(), bpc) ==> SafeSince(|old(log)|)
      ensures (Unique(old(Now())) ==> Unique(Now())) && RootKept(old(slots), slots)
      ensures forall cs | ChainFrom(old(fats)[0], old(slots)[s].cluster, cs) ::
                var m := KeptClusters(length, bpc);
                m <= |cs| && fats[0] == Zeroed(old(fats)[0][cs[m - 1] := EOC], cs[m..])
    {
      hide Safe, Unique, Clear, SizesFit, OthersFit, Zeroed;
      var e := slots[s];
      ghost var d := Now();
      TablesFit(d, bpc);
      ghost var cs := HasChain(d, s, bpc);
      SizedHasCluster(d, s, bpc);
      var tail, doomed;
      ghost var m;
      tail, doomed, m := LastKept(e.cluster, length, cs);
      PutShrunk(s, length);
      OthersFitIs(d.slots, s, length, m, bpc);
      EndChain(tail, s, cs, m);
      ghost var cut := fats[0];
      if doomed != 0 {
        CutSuffix(d.fats[0], cut, cs, m);
        FreeChain(doomed, cs[m..]);
      } else {
        ZeroedNone(cut, cs[m..]);
      }
      if !OthersFit(d.slots, s, m, bpc) { TruncatedIsUnsafe(d, Now(), s, length, m, bpc, cs); }
      ShrunkStaysUnique(d, Now(), s, length);
    }

    /** The entry's new size goes out. */
    method PutShrunk(s: Slot, length: nat)
      requires Safe(Now(), bpc) && LiveAt(Now(), s) && length <= slots[s].size
      modifies this`slots, this`log
      ensures slots == old(slots)[s := old(slots)[s].(size := length)] && log == old(log) + [Now()] && Safe(Now(), bpc)
    {
      ghost var d := Now();
      hide Safe;
      PutSector(map[s := slots[s].(size := length)]);
      assert slots == d.slots[s := d.slots[s].(size := length)];
      CopyIsFewer(d.slots, s, s, d.slots[s].(size := length));
      SlotWriteKeepsSafe(d, Now(), bpc);
    }

    // ---------------------------------------------------------------- rename

    /** A slot takes a copy of an entry that is on disk already. */
    method PutCopy(t: Slot, s: Slot, name: string)
      requires Safe(Now(), bpc) && LiveAt(Now(), s)
      modifies this`slots, this`log
      ensures slots == old(slots)[t := old(slots)[s].(name := name)] && log == old(log) + [Now()] && Safe(Now(), bpc)
    {
      ghost var d := Now();
      hide Safe;
      PutSector(map[t := slots[s].(name := name)]);
      assert slots == d.slots[t := d.slots[s].(name := name)];
      CopyIsFewer(d.slots, t, s, d.slots[s].(name := name));
      SlotWriteKeepsSafe(d, Now(), bpc);
    }

    /** The old name goes: its entry first, then its long-name slots. */
    method DropOld(s: Slot, lfns: seq<Slot>, t: Slot)
      requires Safe(Now(), bpc) && LiveAt(Now(), t) && t != s && t !in lfns
      modifies this`slots, this`log
      ensures slots == Wiped(old(slots), [s] + lfns) && Safe(Now(), bpc)
      ensures old(log) <= log && SafeSince(|old(log)|)
      ensures forall i | |old(log)| <= i < |log| :: t in log[i].slots && log[i].slots[t] == old(slots)[t]
    {
      hide Safe, Wiped;
      WipedNone(slots);
      WipedOnce(slots, [], s);
      assert [] + [s] == [s];
      PutQuiet(map[s := Deleted]);
      ghost var mid := slots;
      Wipe(lfns);
      WipedMore(old(slots), [s], lfns);
    }

    /** The new name goes out, then the old one goes: at every moment the file has one of them. */
    method Exchange(s: Slot, lfns: seq<Slot>, t: Slot, name: string)
      requires Safe(Now(), bpc) && LiveAt(Now(), s) && t != s && t !in lfns
      modifies this`slots, this`log
      ensures slots == Wiped(old(slots)[t := old(slots)[s].(name := name)], [s] + lfns) && Safe(Now(), bpc)
      ensures t in slots && slots[t] == old(slots)[s].(name := name)
      ensures old(log) <= log && SafeSince(|old(log)|)
      ensures forall i | |old(log)| <= i < |log| :: UnderAName(log[i], s, old(slots)[s], t, old(slots)[s].(name := name))
    {
      hide Safe, Wiped;
      PutCopy(t, s, name);
      ghost var mid := slots;
      DropOld(s, lfns, t);
      WipedKeepsOne(mid, [s] + lfns, t);
    }

    /** Taking over an existing target: the target's slot becomes the source's entry under the target's name, the source's slot
        goes, and the replaced chain is released last. Every write leaves a safe disk if and only if no chain is released or no
        third entry names it. */
    method RenameOver(s: Slot, lfns: seq<Slot>, t: Slot, empty: bool, open: bool) returns (r: Outcome)
      requires Mirrored() && Safe(Now(), bpc) && LiveAt(Now(), s) && LiveAt(Now(), t) && s != t && s != ROOT && t != ROOT
      requires forall l | l in lfns :: l in slots && slots[l] == Lfn
      modifies this`fats, this`slots, this`log
      ensures Mirrored() && old(log) <= log
      ensures r == (if old(slots)[s].dir && !old(slots)[t].dir then NotDir else if !old(slots)[s].dir && old(slots)[t].dir then IsDir
                    else if old(slots)[t].dir && !empty then NotEmpty else Done)
      ensures var g := old(slots)[t];
              var frees := r == Done && !open && g.cluster >= 2 && g.cluster != old(slots)[s].cluster;
              && (Safe(Now(), bpc) <==> !frees || NoThird(old(Now()), s, t))
              && if frees then forall cs | ChainFrom(old(fats)[0], g.cluster, cs) :: fats[0] == Zeroed(old(fats)[0], cs)
                 else fats == old(fats)
      ensures Safe(Now(), bpc) ==> SafeSince(|old(log)|)
      ensures Unique(old(Now())) ==> Unique(Now())
      ensures RootKept(old(slots), slots)
      ensures r != Done ==> Now() == old(Now())
      ensures r == Done ==> slots == Wiped(old(slots)[t := old(slots)[s].(name := old(slots)[t].name)], [s] + lfns)
      ensures forall i | |old(log)| <= i < |log| :: UnderAName(log[i], s, old(slots)[s], t, old(slots)[s].(name := old(slots)[t].name))
    {
      var (e, g) := (slots[s], slots[t]);
      if e.dir != g.dir { return if e.dir then NotDir else IsDir; }
      if g.dir && !empty { return NotEmpty; }
      hide Safe, Wiped, Zeroed, Unique, NoThird, RootKept;
      Replace(s, lfns, t, open);
      return Done;
    }

    /** The replacement itself. */
    method Replace(s: Slot, lfns: seq<Slot>, t: Slot, open: bool)
      requires Mirrored() && Safe(Now(), bpc) && LiveAt(Now(), s) && LiveAt(Now(), t) && s != t && s != ROOT && t != ROOT
      requires forall l | l in lfns :: l in slots && slots[l] == Lfn
      modifies this`fats, this`slots, this`log
      ensures Mirrored() && old(log) <= log
      ensures slots == Wiped(old(slots)[t := old(slots)[s].(name := old(slots)[t].name)], [s] + lfns)
      ensures var g := old(slots)[t];
              var frees := !open && g.cluster >= 2 && g.cluster != old(slots)[s].cluster;
              && (Safe(Now(), bpc) <==> !frees || NoThird(old(Now()), s, t))
              && if frees then forall cs | ChainFrom(old(fats)[0], g.cluster, cs) :: fats[0] == Zeroed(old(fats)[0], cs)
                 else fats == old(fats)
      ensures Safe(Now(), bpc) ==> SafeSince(|old(log)|)
      ensures (Unique(old(Now())) ==> Unique(Now())) && RootKept(old(slots), slots)
      ensures forall i | |old(log)| <= i < |log| :: UnderAName(log[i], s, old(slots)[s], t, old(slots)[s].(name := old(slots)[t].name))
    {
      hide Safe, Wiped, Zeroed, Unique, NoThird, RootKept, Clear;
      var (e, g) := (slots[s], slots[t]);
      ghost var d := Now();
      ghost var cs := HasChain(d, t, bpc);
      MovedStaysUnique(d, s, t, lfns, g.name);
      RootMoved(d.slots, lfns, s, t, e.(name := g.name));
      Exchange(s, lfns, t, g.name);
      ghost var moved := Now();
      if g.cluster >= 2 && g.cluster != e.cluster && !open {
        if NoThird(d, s, t) { ReplacedIsClear(d, moved, s, t, lfns, bpc, cs); }
        FreeChain(g.cluster, cs);
        if !NoThird(d, s, t) { ReplacedIsUnsafe(d, Now(), s, t, lfns, bpc, cs); }
        SameNames(moved, Now());
      }
    }

    /** A free run of slots takes the new name: markers are claimed, then long-name slots, then the entry; then the old name goes. */
    method RenameNew(s: Slot, lfns: seq<Slot>, run: seq<Slot>, name: string)
      requires Mirrored() && Safe(Now(), bpc) && LiveAt(Now(), s) && run != [] && Distinct(run)
      requires forall l | l in lfns :: l in slots && slots[l] == Lfn
      requires forall x | x in run :: x in slots && (slots[x] == End || slots[x] == Deleted)
      requires s != ROOT
      modifies this`slots, this`log
      ensures Safe(Now(), bpc) && old(log) <= log && SafeSince(|old(log)|)
      ensures (Unique(old(Now())) ==> Unique(Now())) && RootKept(old(slots), slots)
      ensures Renamed(slots, s, lfns, run, old(slots)[s].(name := name)) && Keeps(old(slots), Now(), run + lfns + [s])
      ensures forall i | |old(log)| <= i < |log| ::
                UnderAName(log[i], s, old(slots)[s], run[|run| - 1], old(slots)[s].(name := name))
    {
      ghost var e := slots[s];
      var t := run[|run| - 1];
      assert t in run;
      Stage(run, s);
      hide Safe, Wiped, Keeps;
      ghost var mid := slots;
      Exchange(s, lfns, t, name);
      assert Keeps(old(slots), Disk([], mid), run) by { KeepsSlots(old(slots), Disk(fats, mid), Disk([], mid), run); }
      ExchangeKeeps(old(slots), mid, Now(), s, lfns, run, e.(name := name));
      ExchangeRenames(mid, s, lfns, run, e.(name := name));
      assert old(slots)[s] == e;
      RenamedStaysUnique(Disk(fats, old(slots)), Now(), s, lfns, run, e.(name := name));
    }

    method Stage(run: seq<Slot>, s: Slot)
      requires Safe(Now(), bpc) && run != [] && Distinct(run) && s in slots && s !in run
      requires forall x | x in run :: x in slots && !slots[x].Live?
      modifies this`slots, this`log
      ensures Safe(Now(), bpc) && old(log) <= log && SafeSince(|old(log)|)
      ensures Keeps(old(slots), Now(), run) && LfnsAt(slots, run, |run| - 1)
      ensures forall i | |old(log)| <= i < |log| :: s in log[i].slots && log[i].slots[s] == old(slots)[s]
    {
      hide Safe;
      ClaimMarkers(run, s);
      PutLfns(run, s);
    }

    /** End markers inside the run become deleted slots while it is searched for. */
    method ClaimMarkers(run: seq<Slot>, s: Slot)
      requires Safe(Now(), bpc) && run != [] && s in slots && s !in run
      requires forall x | x in run :: x in slots && !slots[x].Live?
      modifies this`slots, this`log
      ensures Safe(Now(), bpc) && old(log) <= log && SafeSince(|old(log)|)
      ensures Keeps(old(slots), Now(), run) && forall x | x in run :: x in slots && !slots[x].Live?
      ensures forall i | |old(log)| <= i < |log| :: Keeps(old(slots), log[i], run)
    {
      hide Safe;
      var i := 0;
      while i < |run| - 1
        invariant 0 <= i <= |run| - 1 && Safe(Now(), bpc)
        invariant old(log) <= log && SafeSince(|old(log)|)
        invariant Keeps(old(slots), Now(), run) && forall x | x in run :: x in slots && !slots[x].Live?
        invariant forall k | |old(log)| <= k < |log| :: Keeps(old(slots), log[k], run)
      {
        assert run[i] in run;
        if slots[run[i]] == End { PutQuiet(map[run[i] := Deleted]); }
        i := i + 1;
      }
    }

    /** The long-name slots go out before the entry they name. */
    method PutLfns(run: seq<Slot>, s: Slot)
      requires Safe(Now(), bpc) && run != [] && Distinct(run) && s in slots && s !in run
      requires forall x | x in run :: x in slots && !slots[x].Live?
      modifies this`slots, this`log
      ensures Safe(Now(), bpc) && old(log) <= log && SafeSince(|old(log)|)
      ensures Keeps(old(slots), Now(), run) && LfnsAt(slots, run, |run| - 1)
      ensures forall i | |old(log)| <= i < |log| :: Keeps(old(slots), log[i], run)
    {
      hide Safe;
      var i := 0;
      while i < |run| - 1
        invariant 0 <= i <= |run| - 1 && Safe(Now(), bpc)
        invariant old(log) <= log && SafeSince(|old(log)|)
        invariant Keeps(old(slots), Now(), run) && LfnsAt(slots, run, i)
        invariant forall k | |old(log)| <= k < |log| :: Keeps(old(slots), log[k], run)
      {
        assert run[i] in run;
        PutQuiet(map[run[i] := Lfn]);
        i := i + 1;
      }
    }

    /** Any sequence of operations, each on slots its walk found, from a safe disk on which no two entries name the same file: every
        sector write of every one of them leaves a safe disk, names stay unique, and each does what it is for. `between` are the
        disks from one operation to the next. */
    method PerformAll(ops: seq<Op>) returns (done: nat, ghost between: seq<Disk>)
      requires Mirrored() && Safe(Now(), bpc) && Unique(Now())
      modifies this`fats, this`slots, this`log
      ensures Mirrored() && Safe(Now(), bpc) && Unique(Now()) && old(log) <= log && SafeSince(|old(log)|) && RootKept(old(slots), slots)
      ensures done <= |ops| && (done < |ops| ==> !Fits(slots, ops[done]))
      ensures |between| == done + 1 && between[0] == old(Now()) && between[done] == Now()
      ensures forall i | 0 <= i < done :: Effect(between[i], between[i + 1], ops[i], bpc)
    {
      hide Safe, Unique, RootKept, Fits, Effect;
      RootStays(slots);
      done, between := 0, [Now()];
      while done < |ops|
        invariant 0 <= done <= |ops| && Mirrored() && Safe(Now(), bpc) && Unique(Now())
        invariant old(log) <= log && SafeSince(|old(log)|) && RootKept(old(slots), slots)
        invariant |between| == done + 1 && between[0] == old(Now()) && between[done] == Now()
        invariant forall i | 0 <= i < done :: Effect(between[i], between[i + 1], ops[i], bpc)
      {
        if !Fits(slots, ops[done]) { return; }
        ghost var was := slots;
        Perform(ops[done]);
        RootTwice(old(slots), was, slots);
        between := between + [Now()];
        done := done + 1;
      }
    }

    method Perform(op: Op)
      requires Mirrored() && Safe(Now(), bpc) && Unique(Now()) && Fits(slots, op)
      modifies this`fats, this`slots, this`log
      ensures Mirrored() && Safe(Now(), bpc) && Unique(Now()) && old(log) <= log && SafeSince(|old(log)|) && RootKept(old(slots), slots)
      ensures Effect(old(Now()), Now(), op, bpc)
    {
      ghost var d := Now();
      hide Safe, Unique, RootKept, OnlyName, NoThird, OthersFit, Wiped, Zeroed, Effect, Freed, Renamed, Keeps, ChainFrom;
      match op {
        case DoRemove(s, own, others, wantDir, empty, open) =>
          UniqueIsEnough(d, s, s, 1, bpc);
          var r := Remove(s, own, others, wantDir, empty, open);
          RemoveEffect(d, Now(), op, r, bpc);
        case DoTruncate(s, length) =>
          UniqueIsEnough(d, s, s, KeptClusters(length, bpc), bpc);
          if length < slots[s].size { SizedHasCluster(d, s, bpc); }
          var r := Truncate(s, length);
          TruncateEffect(d, Now(), op, bpc);
        case DoRenameOver(s, lfns, t, empty, open) =>
          UniqueIsEnough(d, s, t, 1, bpc);
          var r := RenameOver(s, lfns, t, empty, open);
          RenameEffect(d, Now(), op, r, bpc);
        case DoRenameNew(s, lfns, run, name) =>
          RenameNew(s, lfns, run, name);
          OtherEffect(d, Now(), op, bpc);
        case DoDotDot(s, parent) =>
          SetDotDot(s, parent);
          OtherEffect(d, Now(), op, bpc);
      }
    }

    /** A moved directory's ".." names its new parent. */
    method SetDotDot(s: Slot, parent: nat)
      requires Safe(Now(), bpc) && s in slots
      modifies this`slots, this`log
      ensures Safe(Now(), bpc) && old(log) <= log && SafeSince(|old(log)|)
      ensures (Unique(old(Now())) ==> Unique(Now())) && RootKept(old(slots), slots)
      ensures slots == if old(slots)[s].Dot? then old(slots)[s := Dot(parent)] else old(slots)
    {
      if slots[s].Dot? { PutQuiet(map[s := Dot(parent)]); }
    }
  }

  // ---------------------------------------------------------------- what the conditions mean

  /** The clusters that hold the first `length` bytes; an emptied file keeps one. */
  function KeptClusters(length: nat, bpc: nat): nat
    requires bpc > 0
  { if length == 0 then 1 else (length - 1) / bpc + 1 }

  /** No other name of the file at `s` says more than `m` clusters. */
  ghost predicate OthersFit(slots: map<Slot, Entry>, s: Slot, m: nat, bpc: nat)
    requires s in slots && slots[s].Live?
  {
    forall t | t in slots && slots[t].Live? && t != s && slots[t].cluster == slots[s].cluster :: slots[t].dir || slots[t].size <= m * bpc
  }

  /** Besides `s` and `t`, nobody names the file at `t`. */
  ghost predicate NoThird(d: Disk, s: Slot, t: Slot)
    requires LiveAt(d, t)
  { forall u | LiveAt(d, u) && u != s && u != t :: d.slots[u].cluster != d.slots[t].cluster }

  /** The root directory is named as before. */
  ghost predicate RootKept(slots: map<Slot, Entry>, slots': map<Slot, Entry>) {
    ROOT in slots && slots[ROOT].Live? ==> ROOT in slots' && slots'[ROOT] == slots[ROOT]
  }

  /** With unique names every condition above holds, so every operation is safe throughout and leaves names unique. */
  lemma UniqueIsEnough(d: Disk, s: Slot, t: Slot, m: nat, bpc: nat)
    requires Unique(d) && LiveAt(d, s) && LiveAt(d, t)
    ensures OnlyName(d, s) && (d.slots[s].cluster != 0 ==> OthersFit(d.slots, s, m, bpc)) && (d.slots[t].cluster != 0 ==> NoThird(d, s, t))
  {
    assert forall u | u in d.slots && d.slots[u].Live? :: LiveAt(d, u);
  }

  lemma OthersFitIs(slots: map<Slot, Entry>, s: Slot, length: nat, m: nat, bpc: nat)
    requires s in slots && slots[s].Live? && length <= m * bpc
    ensures OthersFit(slots, s, m, bpc) <==> SizesFit(slots[s := slots[s].(size := length)], s, m, bpc)
  {
    var now := slots[s := slots[s].(size := length)];
    assert forall t | t != s :: t in now && now[t].Live? <==> t in slots && slots[t].Live?;
  }

  lemma TablesFit(d: Disk, bpc: nat)
    requires Safe(d, bpc) && d.fats != []
    ensures |d.fats[0]| <= CLUSTER_MAX + 1
  {
  }

  lemma SizedHasCluster(d: Disk, s: Slot, bpc: nat)
    requires Safe(d, bpc) && d.fats != [] && LiveAt(d, s) && d.slots[s].size > 0
    ensures d.slots[s].cluster != 0
  {
    assert SafeIn(d.fats[0], d.slots, bpc) && Backed(d.fats[0], d.slots[s], bpc);
  }

  lemma ZeroedNone(fat: seq<nat>, cs: seq<nat>)
    requires cs == []
    ensures Zeroed(fat, cs) == fat
  {
  }

  lemma TruncatedIsUnsafe(d: Disk, d': Disk, s: Slot, length: nat, m: nat, bpc: nat, cs: seq<nat>)
    requires LiveAt(d, s) && d.fats != [] && d'.fats != [] && |d.fats[0]| <= CLUSTER_MAX + 1 && !OthersFit(d.slots, s, m, bpc)
    requires ChainFrom(d.fats[0], d.slots[s].cluster, cs) && 0 < m <= |cs| && d'.fats[0] == Zeroed(d.fats[0][cs[m - 1] := EOC], cs[m..])
    requires d'.slots == d.slots[s := d.slots[s].(size := length)]
    ensures !Safe(d', bpc)
  {
    var u :| u in d.slots && d.slots[u].Live? && u != s && d.slots[u].cluster == d.slots[s].cluster && !d.slots[u].dir && d.slots[u].size > m * bpc;
    CutIsUnsafe(d', u, bpc, d.fats[0], cs, m);
  }

  lemma RemovedIsUnsafe(d: Disk, d': Disk, s: Slot, lfns: seq<Slot>, bpc: nat, cs: seq<nat>)
    requires LiveAt(d, s) && !OnlyName(d, s) && (forall l | l in lfns :: l in d.slots && d.slots[l] == Lfn) && d.fats != [] && d'.fats != []
    requires ChainFrom(d.fats[0], d.slots[s].cluster, cs) && d'.fats[0] == Zeroed(d.fats[0], cs) && d'.slots == Wiped(d.slots, lfns + [s])
    ensures !Safe(d', bpc)
  {
    var u :| LiveAt(d, u) && u != s && d.slots[u].cluster == d.slots[s].cluster;
    assert u !in lfns + [s];
    WipedKeepsOne(d.slots, lfns + [s], u);
    hide Wiped;
    FreedIsUnsafe(d', u, bpc, d.fats[0], cs);
  }

  lemma ReplacedIsUnsafe(d: Disk, d': Disk, s: Slot, t: Slot, lfns: seq<Slot>, bpc: nat, cs: seq<nat>)
    requires LiveAt(d, s) && LiveAt(d, t) && s != t && !NoThird(d, s, t) && (forall l | l in lfns :: l in d.slots && d.slots[l] == Lfn)
    requires d.fats != [] && d'.fats != [] && ChainFrom(d.fats[0], d.slots[t].cluster, cs) && d'.fats[0] == Zeroed(d.fats[0], cs)
    requires d'.slots == Wiped(d.slots[t := d.slots[s].(name := d.slots[t].name)], [s] + lfns)
    ensures !Safe(d', bpc)
  {
    var u :| LiveAt(d, u) && u != s && u != t && d.slots[u].cluster == d.slots[t].cluster;
    assert u !in [s] + lfns;
    WipedKeepsOne(d.slots[t := d.slots[s].(name := d.slots[t].name)], [s] + lfns, u);
    hide Wiped;
    FreedIsUnsafe(d', u, bpc, d.fats[0], cs);
  }

  // ---------------------------------------------------------------- names stay unique

  lemma SameNames(d: Disk, d': Disk)
    requires d'.slots == d.slots
    ensures Unique(d) <==> Unique(d')
  {
    assert forall x :: LiveAt(d, x) <==> LiveAt(d', x);
  }

  lemma WipedStaysUnique(d: Disk, ls: seq<Slot>)
    ensures Unique(d) ==> Unique(d.(slots := Wiped(d.slots, ls)))
  {
    var d' := d.(slots := Wiped(d.slots, ls));
    assert forall x | LiveAt(d', x) :: LiveAt(d, x) && d'.slots[x] == d.slots[x];
  }

  lemma ShrunkStaysUnique(d: Disk, d': Disk, s: Slot, length: nat)
    requires LiveAt(d, s) && d'.slots == d.slots[s := d.slots[s].(size := length)]
    ensures Unique(d) ==> Unique(d')
  {
    assert forall x | LiveAt(d', x) :: LiveAt(d, x) && d'.slots[x].cluster == d.slots[x].cluster;
  }

  lemma MovedStaysUnique(d: Disk, s: Slot, t: Slot, lfns: seq<Slot>, name: string)
    requires LiveAt(d, s) && s != t
    ensures Unique(d) ==> Unique(d.(slots := Wiped(d.slots[t := d.slots[s].(name := name)], [s] + lfns)))
  {
    var d' := d.(slots := Wiped(d.slots[t := d.slots[s].(name := name)], [s] + lfns));
    assert forall x | LiveAt(d', x) :: x != s && LiveAt(d, if x == t then s else x)
                                       && d'.slots[x].cluster == d.slots[if x == t then s else x].cluster;
  }

  lemma RenamedStaysUnique(d: Disk, d': Disk, s: Slot, lfns: seq<Slot>, run: seq<Slot>, e: Entry)
    requires LiveAt(d, s) && s != ROOT && s !in run && e.Live? && e.cluster == d.slots[s].cluster && (forall l | l in lfns :: l in d.slots && d.slots[l] == Lfn)
    requires (forall x | x in run :: x in d.slots && !d.slots[x].Live?)
    requires Renamed(d'.slots, s, lfns, run, e) && Keeps(d.slots, d', run + lfns + [s])
    ensures (Unique(d) ==> Unique(d')) && RootKept(d.slots, d'.slots)
  {
    var t := run[|run| - 1];
    forall x | LiveAt(d', x) ensures x != s && (x == t || (LiveAt(d, x) && d'.slots[x] == d.slots[x])) {
      assert x !in [s] + lfns;
      if x in run { var k :| 0 <= k < |run| && run[k] == x; }
    }
    assert d'.slots[t] == e;
    assert ROOT in d.slots && d.slots[ROOT].Live? ==> ROOT !in run + lfns + [s];
  }

  lemma RootStays(slots: map<Slot, Entry>)
    ensures RootKept(slots, slots)
  {
  }

  lemma RootTwice(a: map<Slot, Entry>, b: map<Slot, Entry>, c: map<Slot, Entry>)
    requires RootKept(a, b) && RootKept(b, c)
    ensures RootKept(a, c)
  {
  }

  lemma RootWiped(slots: map<Slot, Entry>, lfns: seq<Slot>, s: Slot)
    requires s != ROOT && forall l | l in lfns :: l in slots && slots[l] == Lfn
    ensures RootKept(slots, Wiped(slots, lfns + [s]))
  {
    hide Wiped;
    if ROOT in slots && slots[ROOT].Live? {
      assert ROOT !in lfns + [s];
      WipedKeepsOne(slots, lfns + [s], ROOT);
    }
  }

  lemma RootMoved(slots: map<Slot, Entry>, lfns: seq<Slot>, s: Slot, t: Slot, e: Entry)
    requires s != ROOT && t != ROOT && forall l | l in lfns :: l in slots && slots[l] == Lfn
    ensures RootKept(slots, Wiped(slots[t := e], [s] + lfns))
  {
    hide Wiped;
    if ROOT in slots && slots[ROOT].Live? {
      assert ROOT !in [s] + lfns;
      WipedKeepsOne(slots[t := e], [s] + lfns, ROOT);
    }
  }

  // ---------------------------------------------------------------- sequences of operations

  /** An operation with the slots its walk found. */
  datatype Op =
    | DoRemove(s: Slot, own: seq<Slot>, others: seq<Slot>, wantDir: bool, empty: bool, open: bool)
    | DoTruncate(s: Slot, length: nat)
    | DoRenameOver(s: Slot, lfns: seq<Slot>, t: Slot, empty: bool, open: bool)
    | DoRenameNew(s: Slot, lfns: seq<Slot>, run: seq<Slot>, name: string)
    | DoDotDot(s: Slot, parent: nat)

  predicate IsLive(slots: map<Slot, Entry>, s: Slot) { s in slots && slots[s].Live? && s != ROOT }

  predicate AreLfns(slots: map<Slot, Entry>, ls: seq<Slot>) { forall l | l in ls :: l in slots && slots[l] == Lfn }

  /** The slots an operation is given are what its walk would have found. */
  predicate Fits(slots: map<Slot, Entry>, op: Op) {
    match op
    case DoRemove(s, own, others, _, _, _) =>
      IsLive(slots, s) && AreLfns(slots, own) && AreLfns(slots, others) && forall l | l in own :: l.lba == s.lba
    case DoTruncate(s, _) => IsLive(slots, s) && !slots[s].dir
    case DoRenameOver(s, lfns, t, _, _) => IsLive(slots, s) && IsLive(slots, t) && s != t && AreLfns(slots, lfns)
    case DoRenameNew(s, lfns, run, _) =>
      && IsLive(slots, s) && AreLfns(slots, lfns) && run != [] && (forall i, j | 0 <= i < j < |run| :: run[i] != run[j])
      && forall x | x in run :: x in slots && (slots[x] == End || slots[x] == Deleted)
    case DoDotDot(s, _) => s in slots
  }

  /** Exactly the chain at `c` is freed, and nothing when there is none to free. */
  ghost predicate Freed(d: Disk, d': Disk, c: nat, frees: bool) {
    if frees && c >= 2 then d.fats != [] && d'.fats != [] && forall cs | ChainFrom(d.fats[0], c, cs) :: d'.fats[0] == Zeroed(d.fats[0], cs)
    else d'.fats == d.fats
  }

  /** What an operation is for, done or refused. */
  ghost predicate Effect(d: Disk, d': Disk, op: Op, bpc: nat) {
    Fits(d.slots, op) &&
    match op
    case DoRemove(s, own, others, wantDir, empty, open) =>
      if d.slots[s].dir != wantDir || (wantDir && !empty) then d' == d
      else d'.slots == Wiped(d.slots, others + own + [s]) && Freed(d, d', d.slots[s].cluster, !open)
    case DoTruncate(s, length) =>
      if length >= d.slots[s].size then d' == d
      else
        && d'.slots == d.slots[s := d.slots[s].(size := length)] && d.fats != [] && d'.fats != []
        && forall cs | ChainFrom(d.fats[0], d.slots[s].cluster, cs) ::
             exists m: nat :: 0 < m <= |cs| && length <= m * bpc && (m == 1 || length > (m - 1) * bpc)
                              && d'.fats[0] == Zeroed(d.fats[0][cs[m - 1] := EOC], cs[m..])
    case DoRenameOver(s, lfns, t, empty, open) =>
      if d.slots[s].dir != d.slots[t].dir || (d.slots[t].dir && !empty) then d' == d
      else
        && d'.slots == Wiped(d.slots[t := d.slots[s].(name := d.slots[t].name)], [s] + lfns)
        && Freed(d, d', d.slots[t].cluster, !open && d.slots[t].cluster != d.slots[s].cluster)
    case DoRenameNew(s, lfns, run, name) =>
      Renamed(d'.slots, s, lfns, run, d.slots[s].(name := name)) && Keeps(d.slots, d', run + lfns + [s]) && d'.fats == d.fats
    case DoDotDot(s, parent) =>
      d' == if d.slots[s].Dot? then d.(slots := d.slots[s := Dot(parent)]) else d
  }

  lemma RemoveEffect(d: Disk, d': Disk, op: Op, r: Outcome, bpc: nat)
    requires op.DoRemove? && Fits(d.slots, op) && d.fats != [] && d'.fats != []
    requires var (s, e) := (op.s, d.slots[op.s]);
             && r == (if op.wantDir && !e.dir then NotDir else if !op.wantDir && e.dir then IsDir else if op.wantDir && !op.empty then NotEmpty else Done)
             && (r != Done ==> d' == d) && (r == Done ==> d'.slots == Wiped(d.slots, op.others + op.own + [s]))
             && (r == Done && (op.open || e.cluster < 2) ==> d'.fats == d.fats)
             && (r == Done && !op.open && e.cluster >= 2 ==> forall cs | ChainFrom(d.fats[0], e.cluster, cs) :: d'.fats[0] == Zeroed(d.fats[0], cs))
    ensures Effect(d, d', op, bpc)
  {
  }

  lemma TruncateEffect(d: Disk, d': Disk, op: Op, bpc: nat)
    requires op.DoTruncate? && Fits(d.slots, op) && d.fats != [] && d'.fats != [] && bpc > 0
    requires op.length >= d.slots[op.s].size ==> d' == d
    requires op.length < d.slots[op.s].size ==>
               && d'.slots == d.slots[op.s := d.slots[op.s].(size := op.length)]
               && forall cs | ChainFrom(d.fats[0], d.slots[op.s].cluster, cs) ::
                    var m := KeptClusters(op.length, bpc);
                    m <= |cs| && d'.fats[0] == Zeroed(d.fats[0][cs[m - 1] := EOC], cs[m..])
    ensures Effect(d, d', op, bpc)
  {
    var m := KeptClusters(op.length, bpc);
    assert op.length <= m * bpc && (m == 1 || op.length > (m - 1) * bpc) by { KeptIs(op.length, bpc); }
  }

  /** The clusters kept are as many as the bytes kept need, and at least one. */
  lemma KeptIs(length: nat, bpc: nat)
    requires bpc > 0
    ensures var m := KeptClusters(length, bpc); m > 0 && length <= m * bpc && (m == 1 || length > (m - 1) * bpc)
  {
    if length > 0 {
      var (q, r) := ((length - 1) / bpc, (length - 1) % bpc);
      assert length - 1 == q * bpc + r && (q + 1) * bpc == q * bpc + bpc;
    }
  }

  lemma RenameEffect(d: Disk, d': Disk, op: Op, r: Outcome, bpc: nat)
    requires op.DoRenameOver? && Fits(d.slots, op) && d.fats != [] && d'.fats != []
    requires var (e, g) := (d.slots[op.s], d.slots[op.t]);
             var frees := r == Done && !op.open && g.cluster >= 2 && g.cluster != e.cluster;
             && r == (if e.dir && !g.dir then NotDir else if !e.dir && g.dir then IsDir else if g.dir && !op.empty then NotEmpty else Done)
             && (r != Done ==> d' == d) && (r == Done ==> d'.slots == Wiped(d.slots[op.t := e.(name := g.name)], [op.s] + op.lfns))
             && if frees then forall cs | ChainFrom(d.fats[0], g.cluster, cs) :: d'.fats[0] == Zeroed(d.fats[0], cs) else d'.fats == d.fats
    ensures Effect(d, d', op, bpc)
  {
  }

  lemma OtherEffect(d: Disk, d': Disk, op: Op, bpc: nat)
    requires Fits(d.slots, op) && d'.fats == d.fats
    requires op.DoDotDot? || op.DoRenameNew?
    requires op.DoDotDot? ==> d'.slots == if d.slots[op.s].Dot? then d.slots[op.s := Dot(op.parent)] else d.slots
    requires op.DoRenameNew? ==> Renamed(d'.slots, op.s, op.lfns, op.run, d.slots[op.s].(name := op.name)) && Keeps(d.slots, d', op.run + op.lfns + [op.s])
    ensures Effect(d, d', op, bpc)
  {
  }

  lemma KeepsSlots(slots: map<Slot, Entry>, d: Disk, d': Disk, ls: seq<Slot>)
    requires Keeps(slots, d, ls) && d'.slots == d.slots
    ensures Keeps(slots, d', ls)
  {
  }

  ghost predicate LfnsAt(slots: map<Slot, Entry>, run: seq<Slot>, n: nat) {
    forall k | 0 <= k < n && k < |run| :: run[k] in slots && slots[run[k]] == Lfn
  }

  /** The new entry ends its run behind its long-name slots; the old entry and its long-name slots are deleted. */
  ghost predicate Renamed(slots: map<Slot, Entry>, s: Slot, lfns: seq<Slot>, run: seq<Slot>, e: Entry) {
    && run != [] && LfnsAt(slots, run, |run| - 1) && run[|run| - 1] in slots && slots[run[|run| - 1]] == e
    && forall x | x in [s] + lfns :: x in slots && slots[x] == Deleted
  }

  lemma ExchangeRenames(mid: map<Slot, Entry>, s: Slot, lfns: seq<Slot>, run: seq<Slot>, e: Entry)
    requires run != [] && Distinct(run) && LfnsAt(mid, run, |run| - 1) && forall x | x in run :: x != s && x !in lfns
    ensures Renamed(Wiped(mid[run[|run| - 1] := e], [s] + lfns), s, lfns, run, e)
  {
    hide Wiped;
    var (t, gone) := (run[|run| - 1], [s] + lfns);
    forall x | x in gone ensures x in Wiped(mid[t := e], gone) && Wiped(mid[t := e], gone)[x] == Deleted {
      WipedDrops(mid[t := e], gone, x);
    }
    forall k | 0 <= k < |run| ensures run[k] in Wiped(mid[t := e], gone)
                              ensures Wiped(mid[t := e], gone)[run[k]] == if k < |run| - 1 then Lfn else e {
      assert run[k] in run;
      WipedKeepsOne(mid[t := e], gone, run[k]);
    }
  }

  lemma ExchangeKeeps(slots: map<Slot, Entry>, mid: map<Slot, Entry>, d: Disk, s: Slot, lfns: seq<Slot>, run: seq<Slot>, e: Entry)
    requires run != [] && Keeps(slots, Disk([], mid), run) && d.slots == Wiped(mid[run[|run| - 1] := e], [s] + lfns)
    ensures Keeps(slots, d, run + lfns + [s])
  {
    forall x | x in slots && x !in run + lfns + [s] ensures x in d.slots && d.slots[x] == slots[x] {
      assert x != run[|run| - 1];
      WipedKeepsOne(mid[run[|run| - 1] := e], [s] + lfns, x);
    }
  }

  lemma WipedDrops(slots: map<Slot, Entry>, ls: seq<Slot>, x: Slot)
    requires x in ls
    ensures x in Wiped(slots, ls) && Wiped(slots, ls)[x] == Deleted
  {
  }

  /** The file is reachable under its old name or its new one. */
  ghost predicate UnderAName(d: Disk, s: Slot, was: Entry, t: Slot, now: Entry) {
    (s in d.slots && d.slots[s] == was) || (t in d.slots && d.slots[t] == now)
  }

  lemma WipedMore(slots: map<Slot, Entry>, a: seq<Slot>, b: seq<Slot>)
    ensures Wiped(Wiped(slots, a), b) == Wiped(slots, a + b)
  {
  }

  lemma ReplacedIsClear(d: Disk, d': Disk, s: Slot, t: Slot, lfns: seq<Slot>, bpc: nat, cs: seq<nat>)
    requires Safe(d, bpc) && LiveAt(d, s) && LiveAt(d, t) && s != t && d.slots[t].cluster != 0 && d.slots[t].cluster != d.slots[s].cluster
    requires NoThird(d, s, t)
    requires forall k | 0 <= k < |d.fats| :: ChainFrom(d.fats[k], d.slots[t].cluster, cs)
    requires d'.fats == d.fats && d'.slots == Wiped(d.slots[t := d.slots[s].(name := d.slots[t].name)], [s] + lfns)
    ensures Clear(d', cs)
  {
    forall x | LiveAt(d', x) ensures exists u :: u != t && LiveAt(d, u) && d.slots[u].cluster == d'.slots[x].cluster {
      if x == t { assert LiveAt(d, s); } else { assert LiveAt(d, x); }
    }
    NamelessIsClear(d, d', t, bpc, cs);
  }

  lemma IndexFits(length: nat, bpc: nat, n: nat)
    requires 0 < length <= n * bpc && bpc > 0
    ensures (length - 1) / bpc < n && length <= ((length - 1) / bpc + 1) * bpc && length > (length - 1) / bpc * bpc
  {
    var q := (length - 1) / bpc;
    assert q * bpc <= length - 1 < (q + 1) * bpc;
    assert q >= n ==> q * bpc >= n * bpc;
  }

  lemma CutSuffix(fat: seq<nat>, cut: seq<nat>, cs: seq<nat>, m: nat)
    requires IsChain(fat, cs) && 0 < m < |cs| && cut == fat[cs[m - 1] := EOC]
    ensures ChainFrom(cut, cs[m], cs[m..])
  {
    forall c | c in cs[m..] ensures cut[c] == fat[c] {
      var i :| 0 <= i < |cs[m..]| && cs[m..][i] == c;
      assert c == cs[m + i];
    }
    SuffixIsChain(fat, cut, cs, m);
  }

  /** The slots with some of them deleted. */
  function Wiped(slots: map<Slot, Entry>, ls: seq<Slot>): map<Slot, Entry> {
    (map x | x in slots :: if x in ls then Deleted else slots[x]) + (map x | x in ls :: Deleted)
  }

  /** A slot outside `ls` is what it was. */
  ghost predicate Keeps(slots: map<Slot, Entry>, d: Disk, ls: seq<Slot>) {
    forall x | x !in ls :: (x in d.slots <==> x in slots) && (x in slots ==> d.slots[x] == slots[x])
  }

  lemma WipedKeeps(slots: map<Slot, Entry>, ls: seq<Slot>, n: nat, d: Disk)
    requires n <= |ls| && d.slots == Wiped(slots, ls[..n])
    ensures Keeps(slots, d, ls)
  {
  }

  lemma WipedNone(slots: map<Slot, Entry>)
    ensures Wiped(slots, []) == slots
  {
  }

  lemma WipedKeepsOne(slots: map<Slot, Entry>, ls: seq<Slot>, x: Slot)
    requires x in slots && x !in ls
    ensures x in Wiped(slots, ls) && Wiped(slots, ls)[x] == slots[x]
  {
  }

  lemma WipedTwice(slots: map<Slot, Entry>, a: seq<Slot>, b: seq<Slot>)
    ensures Wiped(slots, a) + (map x | x in b :: Deleted) == Wiped(slots, a + b)
  {
  }

  lemma WipedOnce(slots: map<Slot, Entry>, a: seq<Slot>, l: Slot)
    ensures Wiped(slots, a) + map[l := Deleted] == Wiped(slots, a + [l])
  {
  }

  lemma CopyIsFewer(slots: map<Slot, Entry>, t: Slot, s: Slot, e: Entry)
    requires s in slots && Shrunk(slots[s], e)
    ensures Fewer(slots, slots[t := e])
  {
    var slots' := slots[t := e];
    forall x | x in slots' && slots'[x].Live? ensures exists y :: y in slots && Shrunk(slots[y], slots'[x]) {
      if x != t { assert x in slots && Shrunk(slots[x], slots'[x]); }
    }
  }

  lemma QuietIsFewer(slots: map<Slot, Entry>, changes: map<Slot, Entry>)
    requires forall x | x in changes :: !changes[x].Live?
    ensures Fewer(slots, slots + changes)
  {
    forall x | x in slots + changes && (slots + changes)[x].Live? ensures exists t :: t in slots && Shrunk(slots[t], (slots + changes)[x]) {
      assert x in slots && Shrunk(slots[x], (slots + changes)[x]);
    }
  }

  /** A live entry with a cluster has one chain, in every copy when they agree. */
  lemma HasChain(d: Disk, s: Slot, bpc: nat) returns (cs: seq<nat>)
    requires Safe(d, bpc) && LiveAt(d, s) && d.fats != [] && forall k | 0 <= k < |d.fats| :: d.fats[k] == d.fats[0]
    ensures d.slots[s].cluster != 0 ==>
              && (forall k | 0 <= k < |d.fats| :: ChainFrom(d.fats[k], d.slots[s].cluster, cs))
              && (d.slots[s].dir || d.slots[s].size <= |cs| * bpc)
              && forall ds | ChainFrom(d.fats[0], d.slots[s].cluster, ds) :: ds == cs
  {
    cs := [];
    assert SafeIn(d.fats[0], d.slots, bpc) && Backed(d.fats[0], d.slots[s], bpc);
    if d.slots[s].cluster != 0 {
      cs :| ChainFrom(d.fats[0], d.slots[s].cluster, cs) && (d.slots[s].dir || d.slots[s].size <= |cs| * bpc);
      forall ds | ChainFrom(d.fats[0], d.slots[s].cluster, ds) ensures ds == cs { SameChain(d.fats[0], ds, cs); }
    }
  }

  lemma WipedIsClear(d: Disk, d': Disk, s: Slot, ls: seq<Slot>, bpc: nat, cs: seq<nat>)
    requires Safe(d, bpc) && LiveAt(d, s) && OnlyName(d, s) && s in ls && d' == d.(slots := Wiped(d.slots, ls))
    requires d.slots[s].cluster != 0 && forall k | 0 <= k < |d.fats| :: ChainFrom(d.fats[k], d.slots[s].cluster, cs)
    ensures Clear(d', cs)
  {
    forall t | LiveAt(d', t) ensures exists u :: u != s && LiveAt(d, u) && d.slots[u].cluster == d'.slots[t].cluster {
      assert t != s && LiveAt(d, t);
    }
    NamelessIsClear(d, d', s, bpc, cs);
  }

  /** Each copy of `m` is the one of `d` or the one of `d'`. */
  ghost predicate Between(d: Disk, d': Disk, m: Disk) {
    && |m.fats| == |d.fats| == |d'.fats| && m.slots == d.slots == d'.slots
    && forall k | 0 <= k < |m.fats| :: m.fats[k] == d.fats[k] || m.fats[k] == d'.fats[k]
  }

  ghost predicate Mixed(fat: seq<nat>, fat': seq<nat>, n: nat, slots: map<Slot, Entry>, m: Disk) {
    |m.fats| == n && m.slots == slots && forall k | 0 <= k < n :: m.fats[k] == fat || m.fats[k] == fat'
  }

  lemma BetweenIsSafe(d: Disk, d': Disk, m: Disk, bpc: nat)
    requires Safe(d, bpc) && Safe(d', bpc) && Between(d, d', m)
    ensures Safe(m, bpc)
  {
  }
}
