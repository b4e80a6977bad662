/** Copy-on-write address spaces (kernel/mm/mmu.c with the reference counts of kernel/mm/pmm.c), as interleaved
    atomic steps of any number of processes and fault handlers. */
module Cow {
  import opened Common

  const PAGE: nat := 4096       // bytes per page
  const MAX_REFS: nat := 65535  // a 16-bit reference count; one hold more panics

  /** A page of an address space: which space, which virtual page. */
  datatype Key = Key(space: nat, page: nat)

  /** A 4 KB leaf entry: the frame, whether AP_RO is clear, the copy-on-write bit, and every other bit. */
  datatype Leaf = Leaf(frame: nat, writable: bool, cow: bool, attrs: int)

  datatype Frame = Frame(bytes: seq<int>, refs: nat)

  /** A fault handler between its two critical sections: it holds `src`, and once allocated also `copy`. */
  datatype Fault = Fault(key: Key, src: nat, copy: Option<nat>, copied: nat)

  /** `loose` are references whose `pmm_free_page` has been decided but not yet executed. */
  datatype Mem = Mem(spaces: set<nat>, leaves: map<Key, Leaf>, frames: map<nat, Frame>,
                     faults: map<nat, Fault>, loose: multiset<nat>)

  // ---------------------------------------------------------------- counting references

  ghost function LeafRefs(leaves: map<Key, Leaf>, f: nat): set<Key> { set k | k in leaves && leaves[k].frame == f }

  ghost function SpaceRefs(leaves: map<Key, Leaf>, s: nat, pages: iset<nat>, f: nat): set<Key> {
    set k | k in leaves && leaves[k].frame == f && k.space == s && k.page in pages
  }

  ghost function SrcRefs(faults: map<nat, Fault>, f: nat): set<nat> { set t | t in faults && faults[t].src == f }

  ghost function CopyRefs(faults: map<nat, Fault>, f: nat): set<nat> { set t | t in faults && faults[t].copy == Some(f) }

  /** Leaf entries naming the frame, plus holds in flight. */
  ghost function Refs(m: Mem, f: nat): nat {
    |LeafRefs(m.leaves, f)| + |SrcRefs(m.faults, f)| + |CopyRefs(m.faults, f)| + m.loose[f]
  }

  lemma LeafSet(leaves: map<Key, Leaf>, k: Key, l: Leaf, f: nat)
    ensures |LeafRefs(leaves[k := l], f)|
         == |LeafRefs(leaves, f)| - (if k in leaves && leaves[k].frame == f then 1 else 0) + (if l.frame == f then 1 else 0)
  {
    var was, now := LeafRefs(leaves, f), LeafRefs(leaves[k := l], f);
    if l.frame == f { assert now == was + {k}; } else { assert now == was - {k}; }
  }

  lemma LeafDrop(leaves: map<Key, Leaf>, k: Key, f: nat)
    requires k in leaves
    ensures |LeafRefs(leaves - {k}, f)| == |LeafRefs(leaves, f)| - (if leaves[k].frame == f then 1 else 0)
  {
    assert LeafRefs(leaves - {k}, f) == LeafRefs(leaves, f) - {k};
  }

  lemma SrcSet(faults: map<nat, Fault>, t: nat, x: Fault, f: nat)
    ensures |SrcRefs(faults[t := x], f)|
         == |SrcRefs(faults, f)| - (if t in faults && faults[t].src == f then 1 else 0) + (if x.src == f then 1 else 0)
  {
    var was, now := SrcRefs(faults, f), SrcRefs(faults[t := x], f);
    if x.src == f { assert now == was + {t}; } else { assert now == was - {t}; }
  }

  lemma CopySet(faults: map<nat, Fault>, t: nat, x: Fault, f: nat)
    ensures |CopyRefs(faults[t := x], f)|
         == |CopyRefs(faults, f)| - (if t in faults && faults[t].copy == Some(f) then 1 else 0)
            + (if x.copy == Some(f) then 1 else 0)
  {
    var was, now := CopyRefs(faults, f), CopyRefs(faults[t := x], f);
    if x.copy == Some(f) { assert now == was + {t}; } else { assert now == was - {t}; }
  }

  lemma FaultSet(faults: map<nat, Fault>, t: nat, x: Fault, f: nat)
    ensures |SrcRefs(faults[t := x], f)|
         == |SrcRefs(faults, f)| - (if t in faults && faults[t].src == f then 1 else 0) + (if x.src == f then 1 else 0)
    ensures |CopyRefs(faults[t := x], f)|
         == |CopyRefs(faults, f)| - (if t in faults && faults[t].copy == Some(f) then 1 else 0)
            + (if x.copy == Some(f) then 1 else 0)
  {
    SrcSet(faults, t, x, f);
    CopySet(faults, t, x, f);
  }

  lemma FaultDrop(faults: map<nat, Fault>, t: nat, f: nat)
    requires t in faults
    ensures |SrcRefs(faults - {t}, f)| == |SrcRefs(faults, f)| - (if faults[t].src == f then 1 else 0)
    ensures |CopyRefs(faults - {t}, f)| == |CopyRefs(faults, f)| - (if faults[t].copy == Some(f) then 1 else 0)
  {
    assert SrcRefs(faults - {t}, f) == SrcRefs(faults, f) - {t};
    assert CopyRefs(faults - {t}, f) == CopyRefs(faults, f) - {t};
  }

  ghost const ALL: iset<nat> := iset n: nat | true

  // ---------------------------------------------------------------- what user code can see: the eager machine

  /** A private page: what it holds, whether a store may succeed, its other attributes. */
  datatype Page = Page(bytes: seq<int>, mayWrite: bool, attrs: int)

  /** The machine in which fork duplicates every page at once. */
  datatype Eager = Eager(spaces: set<nat>, pages: map<Key, Page>)

  datatype Op =
    | Create(s: nat)
    | Map(k: Key, bytes: seq<int>, mayWrite: bool, attrs: int)
    | Unmap(k: Key)
    | Fork(parent: nat, child: nat)
    | Destroy(s: nat)
    | Store(k: Key, off: nat, byte: int)
    | Internal

  ghost function EagerStep(e: Eager, op: Op): Eager {
    match op
    case Create(s) => e.(spaces := e.spaces + {s})
    case Map(k, bytes, w, a) => e.(pages := e.pages[k := Page(bytes, w, a)])
    case Unmap(k) => e.(pages := e.pages - {k})
    case Fork(p, c) =>
      Eager(e.spaces + {c},
            e.pages + map k | k in Mirrored(e.pages.Keys, p, c) && Key(p, k.page) in e.pages :: e.pages[Key(p, k.page)])
    case Destroy(s) => Eager(e.spaces - {s}, map k | k in e.pages && k.space != s :: e.pages[k])
    case Store(k, off, b) =>
      if k in e.pages && off < |e.pages[k].bytes|
      then e.(pages := e.pages[k := e.pages[k].(bytes := e.pages[k].bytes[off := b])]) else e
    case Internal => e
  }

  ghost function EagerRun(ops: seq<Op>): Eager {
    if ops == [] then Eager({}, map[]) else EagerStep(EagerRun(ops[..|ops| - 1]), ops[|ops| - 1])
  }

  ghost predicate Backed(m: Mem) {
    forall k | k in m.leaves :: m.leaves[k].frame in m.frames
  }

  /** What a lazily shared state looks like from outside. */
  ghost function View(m: Mem): Eager
    requires Backed(m)
  {
    Eager(m.spaces, map k | k in m.leaves :: PageAt(m, k))
  }

  ghost function PageAt(m: Mem, k: Key): Page
    requires k in m.leaves && m.leaves[k].frame in m.frames
  {
    Page(m.frames[m.leaves[k].frame].bytes, m.leaves[k].writable || m.leaves[k].cow, m.leaves[k].attrs)
  }

  // ---------------------------------------------------------------- the steps

  ghost predicate Init(m: Mem) {
    m == Mem({}, map[], map[], map[], multiset{})
  }

  ghost predicate DoCreate(m: Mem, m': Mem, s: nat) {
    s !in m.spaces && m' == m.(spaces := m.spaces + {s})
  }

  /** `mmu_user_map_page` with a page the caller owns; a displaced page loses its reference. */
  ghost predicate DoMap(m: Mem, m': Mem, k: Key, f: nat, bytes: seq<int>, w: bool, a: int) {
    && k.space in m.spaces && f !in m.frames && |bytes| == PAGE
    && m' == m.(leaves := m.leaves[k := Leaf(f, w, false, a)], frames := m.frames[f := Frame(bytes, 1)],
                loose := if k in m.leaves then m.loose + multiset{m.leaves[k].frame} else m.loose)
  }

  ghost predicate DoUnmap(m: Mem, m': Mem, k: Key) {
    m' == if k in m.leaves
          then m.(leaves := m.leaves - {k}, loose := m.loose + multiset{m.leaves[k].frame})
          else m
  }

  /** Sharing a leaf: a writable entry becomes read-only and copy-on-write, any other is kept. */
  function Shared(l: Leaf): Leaf {
    if l.writable then l.(writable := false, cow := true) else l
  }

  ghost predicate Holds(m: Mem, m': Mem, s: nat, pages: iset<nat>) {
    && m'.frames.Keys == m.frames.Keys
    && forall f | f in m.frames ::
         m'.frames[f] == m.frames[f].(refs := m.frames[f].refs + |SpaceRefs(m.leaves, s, pages, f)|)
         && m'.frames[f].refs <= MAX_REFS
  }

  /** `mmu_copy_user_pgd`: under the lock, every leaf of the parent is shared with the child. */
  ghost predicate DoFork(m: Mem, m': Mem, p: nat, c: nat) {
    && p in m.spaces && c !in m.spaces && m'.spaces == m.spaces + {c}
    && m'.faults == m.faults && m'.loose == m.loose && Holds(m, m', p, ALL)
    && ForkedLeaves(m.leaves, m'.leaves, p, c)
  }

  ghost predicate ForkedLeaves(was: map<Key, Leaf>, now: map<Key, Leaf>, p: nat, c: nat) {
    && (forall k :: k in now <==> k in was || (k.space == c && Key(p, k.page) in was))
    && (forall k | k in was && k.space != c :: now[k] == if k.space == p then Shared(was[k]) else was[k])
    && forall k | k in was && k.space == p :: now[Key(c, k.page)] == Shared(was[k])
  }

  /** The keys of one space, moved to another. */
  ghost function Mirrored(keys: set<Key>, p: nat, c: nat): set<Key> {
    set k | k in keys && k.space == p :: Key(c, k.page)
  }

  /** A fork that runs out of memory: the pages reached so far stay marked, the child's references are dropped. */
  ghost predicate DoForkFail(m: Mem, m': Mem, p: nat, done: iset<nat>) {
    && p in m.spaces && m'.spaces == m.spaces && m'.faults == m.faults && Holds(m, m', p, done)
    && (forall f :: m'.loose[f] == m.loose[f] + |SpaceRefs(m.leaves, p, done, f)|)
    && m'.leaves == map k | k in m.leaves ::
         if k.space == p && k.page in done then Shared(m.leaves[k]) else m.leaves[k]
  }

  /** `mmu_destroy_user_pgd`: the table is private by now; its references go one by one. */
  ghost predicate DoDestroy(m: Mem, m': Mem, s: nat) {
    && s in m.spaces && m'.spaces == m.spaces - {s} && m'.frames == m.frames && m'.faults == m.faults
    && m'.leaves == (map k | k in m.leaves && k.space != s :: m.leaves[k])
    && forall f :: m'.loose[f] == m.loose[f] + |SpaceRefs(m.leaves, s, ALL, f)|
  }

  /** `pmm_free_page`: the last reference returns the frame. */
  ghost predicate DoFree(m: Mem, m': Mem, f: nat) {
    && f in m.loose && f in m.frames && m.frames[f].refs > 0
    && m' == m.(loose := m.loose - multiset{f},
                frames := if m.frames[f].refs == 1 then m.frames - {f}
                          else m.frames[f := m.frames[f].(refs := m.frames[f].refs - 1)])
  }

  /** A user store through a writable leaf. */
  ghost predicate DoStore(m: Mem, m': Mem, k: Key, off: nat, b: int) {
    && k in m.leaves && m.leaves[k].writable && m.leaves[k].frame in m.frames
    && var f := m.leaves[k].frame;
       off < |m.frames[f].bytes|
       && m' == m.(frames := m.frames[f := m.frames[f].(bytes := m.frames[f].bytes[off := b])])
  }

  /** First critical section of `mmu_handle_cow`, sole owner: promote in place. */
  ghost predicate FaultPromote(m: Mem, m': Mem, k: Key) {
    && k in m.leaves && m.leaves[k].cow && m.leaves[k].frame in m.frames && m.frames[m.leaves[k].frame].refs <= 1
    && m' == m.(leaves := m.leaves[k := m.leaves[k].(writable := true, cow := false)])
  }

  /** First critical section, shared page: take a hold and leave the lock. */
  ghost predicate FaultHold(m: Mem, m': Mem, t: nat, k: Key) {
    && k in m.leaves && m.leaves[k].cow && m.leaves[k].frame in m.frames && t !in m.faults
    && var f := m.leaves[k].frame;
       1 < m.frames[f].refs < MAX_REFS
       && m' == m.(frames := m.frames[f := m.frames[f].(refs := m.frames[f].refs + 1)],
                   faults := m.faults[t := Fault(k, f, None, 0)])
  }

  ghost predicate FaultNoMemory(m: Mem, m': Mem, t: nat) {
    && t in m.faults && m.faults[t].copy.None?
    && m' == m.(faults := m.faults - {t}, loose := m.loose + multiset{m.faults[t].src})
  }

  /** The new page comes with whatever its last owner left in it. */
  ghost predicate FaultAlloc(m: Mem, m': Mem, t: nat, f: nat, junk: seq<int>) {
    && t in m.faults && m.faults[t].copy.None? && f !in m.frames && |junk| == PAGE
    && m' == m.(frames := m.frames[f := Frame(junk, 1)],
                faults := m.faults[t := m.faults[t].(copy := Some(f), copied := 0)])
  }

  /** One byte of the copy, outside the lock. */
  ghost predicate FaultCopy(m: Mem, m': Mem, t: nat) {
    && t in m.faults && m.faults[t].copy.Some? && m.faults[t].copied < PAGE
    && m.faults[t].src in m.frames && m.faults[t].copy.value in m.frames
    && var (o, f, i) := (m.faults[t].src, m.faults[t].copy.value, m.faults[t].copied);
       && |m.frames[o].bytes| == |m.frames[f].bytes| == PAGE
       && m' == m.(frames := m.frames[f := m.frames[f].(bytes := m.frames[f].bytes[i := m.frames[o].bytes[i]])],
                   faults := m.faults[t := m.faults[t].(copied := i + 1)])
  }

  /** Second critical section: install the copy if the entry still names the source, otherwise drop it. */
  ghost predicate FaultFinish(m: Mem, m': Mem, t: nat) {
    && t in m.faults && m.faults[t].copy.Some? && m.faults[t].copied == PAGE
    && var (k, o, f) := (m.faults[t].key, m.faults[t].src, m.faults[t].copy.value);
       m' == if k in m.leaves && m.leaves[k].cow && m.leaves[k].frame == o
             then m.(leaves := m.leaves[k := Leaf(f, true, false, m.leaves[k].attrs)],
                     faults := m.faults - {t}, loose := m.loose + multiset{o, o})
             else m.(faults := m.faults - {t}, loose := m.loose + multiset{f, o})
  }

  ghost predicate Step(m: Mem, m': Mem, op: Op) {
    match op
    case Create(s) => DoCreate(m, m', s)
    case Map(k, bytes, w, a) => exists f :: DoMap(m, m', k, f, bytes, w, a)
    case Unmap(k) => DoUnmap(m, m', k)
    case Fork(p, c) => DoFork(m, m', p, c)
    case Destroy(s) => DoDestroy(m, m', s)
    case Store(k, off, b) => DoStore(m, m', k, off, b)
    case Internal =>
      || (exists p, done :: DoForkFail(m, m', p, done))
      || (exists f :: DoFree(m, m', f))
      || (exists k :: FaultPromote(m, m', k))
      || (exists t, k :: FaultHold(m, m', t, k))
      || (exists t :: FaultNoMemory(m, m', t) || FaultCopy(m, m', t) || FaultFinish(m, m', t))
      || (exists t, f, junk :: FaultAlloc(m, m', t, f, junk))
  }

  ghost predicate IsRun(trace: seq<Mem>, ops: seq<Op>) {
    && |trace| == |ops| + 1 && Init(trace[0])
    && forall i | 0 <= i < |ops| :: Step(trace[i], trace[i + 1], ops[i])
  }

  // ---------------------------------------------------------------- the invariant

  /** A frame's reference count is exactly the entries naming it plus the holds in flight. */
  ghost predicate Counted(m: Mem) {
    && (forall f | f in m.frames :: m.frames[f].refs == Refs(m, f) && m.frames[f].refs > 0 && |m.frames[f].bytes| == PAGE)
    && (forall f | f !in m.frames :: Refs(m, f) == 0)
  }

  /** A page with a writable leaf has one reference. */
  ghost predicate SoleWriter(m: Mem) {
    forall k | k in m.leaves && m.leaves[k].writable ::
      !m.leaves[k].cow && m.leaves[k].frame in m.frames && m.frames[m.leaves[k].frame].refs == 1
  }

  /** What a fault handler has copied so far is what the held source contains. */
  ghost predicate Copying(m: Mem) {
    forall t | t in m.faults && m.faults[t].copy.Some? ::
      && m.faults[t].copied <= PAGE && m.faults[t].src in m.frames && m.faults[t].copy.value in m.frames
      && m.frames[m.faults[t].copy.value].refs == 1
      && (var dup, src := m.frames[m.faults[t].copy.value].bytes, m.frames[m.faults[t].src].bytes;
          |dup| == |src| == PAGE && forall i | 0 <= i < m.faults[t].copied :: dup[i] == src[i])
  }

  ghost predicate Inv(m: Mem) {
    Counted(m) && SoleWriter(m) && Copying(m) && forall k | k in m.leaves :: k.space in m.spaces
  }

  /** Anything referenced is allocated. */
  lemma Allocated(m: Mem)
    requires Counted(m)
    ensures Backed(m)
    ensures forall t | t in m.faults :: m.faults[t].src in m.frames
    ensures forall t | t in m.faults && m.faults[t].copy.Some? :: m.faults[t].copy.value in m.frames
    ensures forall f | f in m.loose :: f in m.frames
  {
    forall k | k in m.leaves ensures m.leaves[k].frame in m.frames { assert k in LeafRefs(m.leaves, m.leaves[k].frame); }
    forall t | t in m.faults ensures m.faults[t].src in m.frames { assert t in SrcRefs(m.faults, m.faults[t].src); }
    forall t | t in m.faults && m.faults[t].copy.Some? ensures m.faults[t].copy.value in m.frames {
      assert t in CopyRefs(m.faults, m.faults[t].copy.value);
    }
  }

  /** With one reference there is one user of the frame. */
  lemma SoleLeaf(m: Mem, k: Key)
    requires Counted(m) && k in m.leaves && m.leaves[k].frame in m.frames && m.frames[m.leaves[k].frame].refs == 1
    ensures forall j | j in m.leaves && j != k :: m.leaves[j].frame != m.leaves[k].frame
    ensures forall t | t in m.faults :: m.faults[t].src != m.leaves[k].frame && m.faults[t].copy != Some(m.leaves[k].frame)
    ensures m.leaves[k].frame !in m.loose
  {
    var f := m.leaves[k].frame;
    assert k in LeafRefs(m.leaves, f);
    forall j | j in m.leaves && j != k ensures m.leaves[j].frame != f {
      if m.leaves[j].frame == f {
        assert {j, k} <= LeafRefs(m.leaves, f);
        SubsetSize({j, k}, LeafRefs(m.leaves, f));
      }
    }
    forall t | t in m.faults ensures m.faults[t].src != f && m.faults[t].copy != Some(f) {
      assert m.faults[t].src == f ==> t in SrcRefs(m.faults, f);
      assert m.faults[t].copy == Some(f) ==> t in CopyRefs(m.faults, f);
    }
  }

  lemma SoleCopy(m: Mem, t: nat)
    requires Counted(m) && t in m.faults && m.faults[t].copy.Some?
    requires m.faults[t].copy.value in m.frames && m.frames[m.faults[t].copy.value].refs == 1
    ensures forall j | j in m.leaves :: m.leaves[j].frame != m.faults[t].copy.value
    ensures forall u | u in m.faults :: m.faults[u].src != m.faults[t].copy.value
                                        && (u != t ==> m.faults[u].copy != m.faults[t].copy)
    ensures m.faults[t].copy.value !in m.loose
  {
    var f := m.faults[t].copy.value;
    assert t in CopyRefs(m.faults, f);
    forall j | j in m.leaves ensures m.leaves[j].frame != f {
      assert m.leaves[j].frame == f ==> j in LeafRefs(m.leaves, f);
    }
    forall u | u in m.faults ensures m.faults[u].src != f && (u != t ==> m.faults[u].copy != m.faults[t].copy) {
      assert m.faults[u].src == f ==> u in SrcRefs(m.faults, f);
      if u != t && m.faults[u].copy == Some(f) {
        assert {u, t} <= CopyRefs(m.faults, f);
        SubsetSize({u, t}, CopyRefs(m.faults, f));
      }
    }
  }

  lemma SubsetSize<T>(a: set<T>, b: set<T>)
    requires a <= b
    ensures |a| <= |b|
  {
    assert b == a + (b - a);
  }

  // ---------------------------------------------------------------- each step keeps it and refines eager copying

  /** A step that changes no leaf, fault or loose reference changes no count. */
  lemma SameRefs(m: Mem, m': Mem)
    requires m'.leaves == m.leaves && m'.faults == m.faults && m'.loose == m.loose
    ensures forall f :: Refs(m', f) == Refs(m, f)
  {
  }

  lemma RefsMap(m: Mem, m': Mem, k: Key, f: nat, bytes: seq<int>, w: bool, a: int, g: nat)
    requires Inv(m) && DoMap(m, m', k, f, bytes, w, a)
    ensures Refs(m', g) == if g == f then 1 else Refs(m, g)
  {
    assert Refs(m, f) == 0;
    LeafSet(m.leaves, k, Leaf(f, w, false, a), g);
    if k in m.leaves { assert k in LeafRefs(m.leaves, m.leaves[k].frame); }
  }

  lemma StepMap(m: Mem, m': Mem, k: Key, f: nat, bytes: seq<int>, w: bool, a: int)
    requires Inv(m) && DoMap(m, m', k, f, bytes, w, a)
    ensures Inv(m')
  {
    hide Refs;
    Allocated(m);
    forall g ensures Refs(m', g) == if g == f then 1 else Refs(m, g) { RefsMap(m, m', k, f, bytes, w, a, g); }
  }

  lemma StepUnmap(m: Mem, m': Mem, k: Key)
    requires Inv(m) && DoUnmap(m, m', k)
    ensures Inv(m')
  {
    if k in m.leaves {
      forall g ensures Refs(m', g) == Refs(m, g) { LeafDrop(m.leaves, k, g); }
    }
    hide Refs;
  }

  lemma StepStore(m: Mem, m': Mem, k: Key, off: nat, b: int)
    requires Inv(m) && DoStore(m, m', k, off, b)
    ensures Inv(m')
    ensures forall j | j in m.leaves && j != k :: m.leaves[j].frame != m.leaves[k].frame
  {
    hide Refs;
    SameRefs(m, m');
    SoleLeaf(m, k);
  }

  lemma RefsFree(m: Mem, m': Mem, f: nat, g: nat)
    requires DoFree(m, m', f)
    ensures Refs(m', g) == if g == f then Refs(m, g) - 1 else Refs(m, g)
  {
  }

  /** The frame being freed is nobody's private page. */
  lemma LooseIsNotSole(m: Mem, f: nat)
    requires Inv(m) && f in m.loose
    ensures forall k | k in m.leaves && m.leaves[k].writable :: m.leaves[k].frame != f
    ensures forall t | t in m.faults && m.faults[t].copy.Some? :: m.faults[t].copy.value != f
  {
    hide Refs;
    forall k | k in m.leaves && m.leaves[k].writable ensures m.leaves[k].frame != f { SoleLeaf(m, k); }
    forall t | t in m.faults && m.faults[t].copy.Some? ensures m.faults[t].copy.value != f { SoleCopy(m, t); }
  }

  lemma FreeCounted(m: Mem, m': Mem, f: nat)
    requires Inv(m) && DoFree(m, m', f)
    ensures Counted(m')
  {
    hide Refs, Copying, SoleWriter;
    forall g ensures Refs(m', g) == if g == f then Refs(m, g) - 1 else Refs(m, g) { RefsFree(m, m', f, g); }
  }

  lemma StepFree(m: Mem, m': Mem, f: nat)
    requires Inv(m) && DoFree(m, m', f)
    ensures Inv(m')
    ensures forall k | k in m.leaves :: m.leaves[k].frame in m'.frames
                                        && m'.frames[m.leaves[k].frame].bytes == m.frames[m.leaves[k].frame].bytes
  {
    hide Counted;
    FreeCounted(m, m', f);
    LooseIsNotSole(m, f);
    Allocated(m);
    Allocated(m');
    assert SoleWriter(m');
    hide SoleWriter;
  }

  lemma StepPromote(m: Mem, m': Mem, k: Key)
    requires Inv(m) && FaultPromote(m, m', k)
    ensures Inv(m')
  {
    forall g ensures Refs(m', g) == Refs(m, g) { LeafSet(m.leaves, k, m'.leaves[k], g); }
    hide Refs;
  }

  lemma RefsHold(m: Mem, m': Mem, t: nat, k: Key, g: nat)
    requires FaultHold(m, m', t, k)
    ensures Refs(m', g) == if g == m.leaves[k].frame then Refs(m, g) + 1 else Refs(m, g)
  {
    FaultSet(m.faults, t, m'.faults[t], g);
  }

  lemma StepHold(m: Mem, m': Mem, t: nat, k: Key)
    requires Inv(m) && FaultHold(m, m', t, k)
    ensures Inv(m')
  {
    hide Refs;
    var f := m.leaves[k].frame;
    forall g ensures Refs(m', g) == if g == f then Refs(m, g) + 1 else Refs(m, g) { RefsHold(m, m', t, k, g); }
    forall j | j in m.leaves && m.leaves[j].writable ensures m.leaves[j].frame != f { SoleLeaf(m, j); }
    forall u | u in m.faults && m.faults[u].copy.Some? ensures m.faults[u].copy.value != f { SoleCopy(m, u); }
  }

  lemma StepNoMemory(m: Mem, m': Mem, t: nat)
    requires Inv(m) && FaultNoMemory(m, m', t)
    ensures Inv(m')
  {
    forall g ensures Refs(m', g) == Refs(m, g) { FaultDrop(m.faults, t, g); }
    hide Refs;
  }

  lemma RefsAlloc(m: Mem, m': Mem, t: nat, f: nat, junk: seq<int>, g: nat)
    requires Inv(m) && FaultAlloc(m, m', t, f, junk)
    ensures Refs(m', g) == if g == f then 1 else Refs(m, g)
  {
    assert Refs(m, f) == 0;
    FaultSet(m.faults, t, m'.faults[t], g);
  }

  lemma StepAlloc(m: Mem, m': Mem, t: nat, f: nat, junk: seq<int>)
    requires Inv(m) && FaultAlloc(m, m', t, f, junk)
    ensures Inv(m')
  {
    hide Refs;
    Allocated(m);
    forall g ensures Refs(m', g) == if g == f then 1 else Refs(m, g) { RefsAlloc(m, m', t, f, junk, g); }
  }

  lemma RefsCopy(m: Mem, m': Mem, t: nat, g: nat)
    requires FaultCopy(m, m', t)
    ensures Refs(m', g) == Refs(m, g)
  {
    FaultSet(m.faults, t, m'.faults[t], g);
  }

  lemma StepCopy(m: Mem, m': Mem, t: nat)
    requires Inv(m) && FaultCopy(m, m', t)
    ensures Inv(m')
    ensures forall j | j in m.leaves :: m.leaves[j].frame != m.faults[t].copy.value
  {
    hide Refs;
    forall g ensures Refs(m', g) == Refs(m, g) { RefsCopy(m, m', t, g); }
    SoleCopy(m, t);
  }

  lemma RefsFinish(m: Mem, m': Mem, t: nat, g: nat)
    requires FaultFinish(m, m', t)
    ensures Refs(m', g) == Refs(m, g)
  {
    FaultDrop(m.faults, t, g);
    LeafSet(m.leaves, m.faults[t].key, Leaf(m.faults[t].copy.value, true, false, 0), g);
    if m.faults[t].key in m.leaves {
      LeafSet(m.leaves, m.faults[t].key, Leaf(m.faults[t].copy.value, true, false, m.leaves[m.faults[t].key].attrs), g);
    }
  }

  lemma StepFinish(m: Mem, m': Mem, t: nat)
    requires Inv(m) && FaultFinish(m, m', t)
    ensures Inv(m')
    ensures m.frames[m.faults[t].copy.value].bytes == m.frames[m.faults[t].src].bytes
  {
    hide Refs;
    forall g ensures Refs(m', g) == Refs(m, g) { RefsFinish(m, m', t, g); }
    SoleCopy(m, t);
  }

  lemma {:induction false} MirroredSize(keys: set<Key>, p: nat, c: nat)
    requires forall k | k in keys :: k.space == p
    ensures |Mirrored(keys, p, c)| == |keys|
  {
    if keys == {} {
      assert Mirrored(keys, p, c) == {};
    } else {
      var k :| k in keys;
      MirroredSize(keys - {k}, p, c);
      assert Mirrored(keys, p, c) == Mirrored(keys - {k}, p, c) + {Key(c, k.page)};
      assert Key(c, k.page) !in Mirrored(keys - {k}, p, c);
    }
  }

  lemma LeafFork(was: map<Key, Leaf>, now: map<Key, Leaf>, p: nat, c: nat, g: nat)
    requires ForkedLeaves(was, now, p, c) && p != c && forall k | k in was :: k.space != c
    ensures |LeafRefs(now, g)| == |LeafRefs(was, g)| + |SpaceRefs(was, p, ALL, g)|
  {
    var mine := SpaceRefs(was, p, ALL, g);
    MirroredSize(mine, p, c);
    forall k | k in LeafRefs(now, g) && k !in was ensures k in Mirrored(mine, p, c) {
      assert Key(p, k.page) in mine && Key(c, Key(p, k.page).page) == k;
    }
    assert LeafRefs(now, g) == LeafRefs(was, g) + Mirrored(mine, p, c);
    assert LeafRefs(was, g) !! Mirrored(mine, p, c);
  }

  lemma RefsFork(m: Mem, m': Mem, p: nat, c: nat, g: nat)
    requires Inv(m) && DoFork(m, m', p, c)
    ensures Refs(m', g) == Refs(m, g) + |SpaceRefs(m.leaves, p, ALL, g)|
  {
    LeafFork(m.leaves, m'.leaves, p, c, g);
  }

  /** A frame with a single user outside the forked space is not held by the fork. */
  lemma ForkSpares(m: Mem, p: nat, done: iset<nat>)
    requires Inv(m)
    ensures forall k | k in m.leaves && m.leaves[k].writable && !(k.space == p && k.page in done) ::
              SpaceRefs(m.leaves, p, done, m.leaves[k].frame) == {}
    ensures forall t | t in m.faults && m.faults[t].copy.Some? ::
              SpaceRefs(m.leaves, p, done, m.faults[t].copy.value) == {}
  {
    hide Refs;
    forall k | k in m.leaves && m.leaves[k].writable && !(k.space == p && k.page in done)
      ensures SpaceRefs(m.leaves, p, done, m.leaves[k].frame) == {}
    {
      SoleLeaf(m, k);
    }
    forall t | t in m.faults && m.faults[t].copy.Some? ensures SpaceRefs(m.leaves, p, done, m.faults[t].copy.value) == {} {
      SoleCopy(m, t);
    }
  }

  /** The counting and copying half of a fork, complete or not. */
  lemma HoldsKeeps(m: Mem, m': Mem, p: nat, done: iset<nat>)
    requires Inv(m) && Holds(m, m', p, done) && m'.faults == m.faults
    requires forall g :: Refs(m', g) == Refs(m, g) + |SpaceRefs(m.leaves, p, done, g)|
    ensures Counted(m') && Copying(m')
  {
    hide Refs, SoleWriter;
    ForkSpares(m, p, done);
    Allocated(m);
    forall g | g !in m.frames ensures SpaceRefs(m.leaves, p, done, g) == {} {
    }
    hide SpaceRefs;
    assert Counted(m');
    hide Counted;
    forall t | t in m.faults && m.faults[t].copy.Some?
      ensures m'.frames[m.faults[t].copy.value] == m.frames[m.faults[t].copy.value]
    {
      assert |SpaceRefs(m.leaves, p, done, m.faults[t].copy.value)| == 0;
    }
  }

  lemma StepFork(m: Mem, m': Mem, p: nat, c: nat)
    requires Inv(m) && DoFork(m, m', p, c)
    ensures Inv(m')
  {
    hide Refs;
    forall g ensures Refs(m', g) == Refs(m, g) + |SpaceRefs(m.leaves, p, ALL, g)| { RefsFork(m, m', p, c, g); }
    HoldsKeeps(m, m', p, ALL);
    ForkSpares(m, p, ALL);
    hide Counted, Copying;
    forall k | k in m'.leaves && m'.leaves[k].writable
      ensures !m'.leaves[k].cow && m'.leaves[k].frame in m'.frames && m'.frames[m'.leaves[k].frame].refs == 1
    {
      assert k in m.leaves && k.space != p && k.space != c;
    }
  }

  lemma RefsForkFail(m: Mem, m': Mem, p: nat, done: iset<nat>, g: nat)
    requires DoForkFail(m, m', p, done)
    ensures Refs(m', g) == Refs(m, g) + |SpaceRefs(m.leaves, p, done, g)|
  {
    assert LeafRefs(m'.leaves, g) == LeafRefs(m.leaves, g);
  }

  lemma StepForkFail(m: Mem, m': Mem, p: nat, done: iset<nat>)
    requires Inv(m) && DoForkFail(m, m', p, done)
    ensures Inv(m')
  {
    hide Refs;
    forall g ensures Refs(m', g) == Refs(m, g) + |SpaceRefs(m.leaves, p, done, g)| { RefsForkFail(m, m', p, done, g); }
    HoldsKeeps(m, m', p, done);
    ForkSpares(m, p, done);
    hide Counted, Copying;
  }

  lemma RefsDestroy(m: Mem, m': Mem, s: nat, g: nat)
    requires DoDestroy(m, m', s)
    ensures Refs(m', g) == Refs(m, g)
  {
    var gone := SpaceRefs(m.leaves, s, ALL, g);
    assert LeafRefs(m'.leaves, g) == LeafRefs(m.leaves, g) - gone;
    assert gone <= LeafRefs(m.leaves, g);
  }

  lemma StepDestroy(m: Mem, m': Mem, s: nat)
    requires Inv(m) && DoDestroy(m, m', s)
    ensures Inv(m')
  {
    hide Refs;
    forall g ensures Refs(m', g) == Refs(m, g) { RefsDestroy(m, m', s, g); }
  }

  // ---------------------------------------------------------------- refinement

  lemma ForkView(m: Mem, m': Mem, p: nat, c: nat)
    requires Backed(m) && Backed(m') && p != c && m'.spaces == m.spaces + {c} && ForkedLeaves(m.leaves, m'.leaves, p, c)
    requires forall f | f in m.frames :: f in m'.frames && m'.frames[f].bytes == m.frames[f].bytes
    requires forall k | k in m.leaves :: k.space != c
    ensures View(m') == EagerStep(View(m), Fork(p, c))
  {
    var (had, got) := (View(m).pages, View(m').pages);
    var want := EagerStep(View(m), Fork(p, c)).pages;
    forall k ensures k in got <==> k in want {
      if k.space == c && Key(p, k.page) in had {
        assert Key(c, Key(p, k.page).page) in Mirrored(had.Keys, p, c);
      }
    }
    forall k | k in got ensures got[k] == want[k] {
      if k.space == c {
        assert k in Mirrored(had.Keys, p, c) && k !in had;
        assert PageAt(m', k) == PageAt(m, Key(p, k.page));
      } else {
        assert PageAt(m', k) == PageAt(m, k);
      }
    }
  }

  lemma MapView(m: Mem, m': Mem, k: Key, f: nat, bytes: seq<int>, w: bool, a: int)
    requires Backed(m) && Backed(m') && DoMap(m, m', k, f, bytes, w, a)
    ensures View(m') == EagerStep(View(m), Map(k, bytes, w, a))
  {
    forall j | j in m'.leaves ensures PageAt(m', j) == if j == k then Page(bytes, w, a) else PageAt(m, j) {
    }
    hide PageAt, Backed;
    assert View(m').pages == View(m).pages[k := Page(bytes, w, a)];
  }

  lemma RemoveView(m: Mem, m': Mem, op: Op)
    requires Backed(m) && Backed(m')
    requires (op.Unmap? && DoUnmap(m, m', op.k)) || (op.Destroy? && DoDestroy(m, m', op.s))
    ensures View(m') == EagerStep(View(m), op)
  {
    assert forall j | j in m'.leaves :: PageAt(m', j) == PageAt(m, j);
    assert View(m').pages == EagerStep(View(m), op).pages;
  }

  lemma StoreView(m: Mem, m': Mem, k: Key, off: nat, b: int)
    requires Backed(m) && Backed(m') && DoStore(m, m', k, off, b)
    requires forall j | j in m.leaves && j != k :: m.leaves[j].frame != m.leaves[k].frame
    requires m.leaves[k].writable
    ensures View(m') == EagerStep(View(m), Store(k, off, b))
  {
    assert forall j | j in m.leaves && j != k :: PageAt(m', j) == PageAt(m, j);
    assert View(m').pages == EagerStep(View(m), Store(k, off, b)).pages;
  }

  lemma VisibleStep(m: Mem, m': Mem, op: Op)
    requires Inv(m) && !op.Internal? && Step(m, m', op)
    ensures Inv(m') && Backed(m) && Backed(m') && View(m') == EagerStep(View(m), op)
  {
    hide Refs, View, EagerStep;
    Allocated(m);
    match op {
      case Create(s) =>
        SameRefs(m, m');
        CreateView(m, m', s);
      case Map(k, bytes, w, a) =>
        var f :| DoMap(m, m', k, f, bytes, w, a);
        StepMap(m, m', k, f, bytes, w, a);
        Allocated(m');
        MapView(m, m', k, f, bytes, w, a);
      case Unmap(k) =>
        StepUnmap(m, m', k);
        Allocated(m');
        RemoveView(m, m', op);
      case Fork(p, c) =>
        StepFork(m, m', p, c);
        Allocated(m');
        ForkView(m, m', p, c);
      case Destroy(s) =>
        StepDestroy(m, m', s);
        Allocated(m');
        RemoveView(m, m', op);
      case Store(k, off, b) =>
        StepStore(m, m', k, off, b);
        Allocated(m');
        StoreView(m, m', k, off, b);
    }
  }

  lemma CreateView(m: Mem, m': Mem, s: nat)
    requires Backed(m) && DoCreate(m, m', s)
    ensures Backed(m') && View(m') == EagerStep(View(m), Create(s))
  {
    assert forall j | j in m.leaves :: PageAt(m', j) == PageAt(m, j);
  }

  /** States that agree on every page look the same from outside. */
  lemma SameView(m: Mem, m': Mem)
    requires Backed(m) && Backed(m') && m'.spaces == m.spaces && m'.leaves.Keys == m.leaves.Keys
    requires forall k | k in m.leaves :: PageAt(m', k) == PageAt(m, k)
    ensures View(m') == View(m)
  {
  }

  /** Installing the copy shows the same bytes: it equals the page it replaces. */
  lemma FinishView(m: Mem, m': Mem, t: nat)
    requires Backed(m) && Backed(m') && FaultFinish(m, m', t)
    requires m.faults[t].src in m.frames && m.faults[t].copy.value in m.frames
    requires m.frames[m.faults[t].copy.value].bytes == m.frames[m.faults[t].src].bytes
    ensures View(m') == View(m)
  {
    SameView(m, m');
  }

  lemma CopyView(m: Mem, m': Mem, t: nat)
    requires Backed(m) && Backed(m') && FaultCopy(m, m', t)
    requires forall j | j in m.leaves :: m.leaves[j].frame != m.faults[t].copy.value
    ensures View(m') == View(m)
  {
    SameView(m, m');
  }

  lemma FaultStep(m: Mem, m': Mem, t: nat)
    requires Inv(m) && (FaultNoMemory(m, m', t) || FaultCopy(m, m', t) || FaultFinish(m, m', t))
    ensures Inv(m') && Backed(m) && Backed(m') && View(m') == View(m)
  {
    hide Refs, View, Copying, SoleWriter;
    Allocated(m);
    if FaultNoMemory(m, m', t) {
      StepNoMemory(m, m', t);
      SameView(m, m');
    } else if FaultCopy(m, m', t) {
      StepCopy(m, m', t);
      CopyView(m, m', t);
    } else {
      StepFinish(m, m', t);
      Allocated(m');
      FinishView(m, m', t);
    }
  }

  lemma OtherInternalStep(m: Mem, m': Mem, t: nat, f: nat, k: Key, junk: seq<int>)
    requires Inv(m)
    requires DoFree(m, m', f) || FaultPromote(m, m', k) || FaultHold(m, m', t, k) || FaultAlloc(m, m', t, f, junk)
    ensures Inv(m') && Backed(m) && Backed(m') && View(m') == View(m)
  {
    hide Refs, View;
    Allocated(m);
    if DoFree(m, m', f) { StepFree(m, m', f); }
    else if FaultPromote(m, m', k) { StepPromote(m, m', k); }
    else if FaultHold(m, m', t, k) { StepHold(m, m', t, k); }
    else { StepAlloc(m, m', t, f, junk); }
    Allocated(m');
    hide Counted, Copying, SoleWriter;
    SameView(m, m');
  }

  lemma ForkFailStep(m: Mem, m': Mem, p: nat, done: iset<nat>)
    requires Inv(m) && DoForkFail(m, m', p, done)
    ensures Inv(m') && Backed(m) && Backed(m') && View(m') == View(m)
  {
    hide Refs, View;
    StepForkFail(m, m', p, done);
    Allocated(m);
    Allocated(m');
    hide Counted, Copying, SoleWriter;
    SameView(m, m');
  }

  lemma InternalStep(m: Mem, m': Mem)
    requires Inv(m) && Step(m, m', Internal)
    ensures Inv(m') && Backed(m) && Backed(m') && View(m') == View(m)
  {
    hide Inv, View, DoFree, FaultPromote, FaultHold, FaultAlloc, FaultNoMemory, FaultCopy, FaultFinish, DoForkFail;
    if p, done :| DoForkFail(m, m', p, done) { ForkFailStep(m, m', p, done); }
    else if f :| DoFree(m, m', f) { OtherInternalStep(m, m', 0, f, Key(0, 0), []); }
    else if k :| FaultPromote(m, m', k) { OtherInternalStep(m, m', 0, 0, k, []); }
    else if t, k :| FaultHold(m, m', t, k) { OtherInternalStep(m, m', t, 0, k, []); }
    else if t :| FaultNoMemory(m, m', t) || FaultCopy(m, m', t) || FaultFinish(m, m', t) { FaultStep(m, m', t); }
    else {
      var t, f, junk :| FaultAlloc(m, m', t, f, junk);
      OtherInternalStep(m, m', t, f, Key(0, 0), junk);
    }
  }

  /** Every step keeps the invariant, and from outside is one step of the machine that copies eagerly. */
  lemma StepRefines(m: Mem, m': Mem, op: Op)
    requires Inv(m) && Step(m, m', op)
    ensures Inv(m') && Backed(m) && Backed(m') && View(m') == EagerStep(View(m), op)
  {
    hide Inv, Step, View;
    if op.Internal? { InternalStep(m, m'); } else { VisibleStep(m, m', op); }
  }

  lemma {:induction false} RunRefines(trace: seq<Mem>, ops: seq<Op>, i: nat)
    requires IsRun(trace, ops) && i <= |ops|
    ensures Inv(trace[i]) && Backed(trace[i]) && View(trace[i]) == EagerRun(ops[..i])
  {
    if i > 0 {
      hide Inv, Step, View, EagerStep;
      RunRefines(trace, ops, i - 1);
      StepRefines(trace[i - 1], trace[i], ops[i - 1]);
      assert ops[..i][..i - 1] == ops[..i - 1];
    }
  }

  /** Copy-on-write is eager copy: after any run, a load from any page of any space gives the byte it would give
      had every fork duplicated the pages, and a store is permitted on exactly the same pages. */
  lemma LoadsAgree(trace: seq<Mem>, ops: seq<Op>, i: nat, k: Key, off: nat)
    requires IsRun(trace, ops) && i <= |ops| && off < PAGE
    ensures var (m, e) := (trace[i], EagerRun(ops[..i]));
            && (k in m.leaves <==> k in e.pages)
            && (k in m.leaves ==>
                  && m.leaves[k].frame in m.frames && |m.frames[m.leaves[k].frame].bytes| == PAGE
                  && |e.pages[k].bytes| == PAGE
                  && m.frames[m.leaves[k].frame].bytes[off] == e.pages[k].bytes[off]
                  && (m.leaves[k].writable || m.leaves[k].cow <==> e.pages[k].mayWrite))
  {
    hide Refs, EagerRun;
    RunRefines(trace, ops, i);
  }
}
