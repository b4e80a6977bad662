/** What a handled copy-on-write fault is for: the store that faulted goes through. */
module CowProgress {
  import opened Common
  import opened Cow

  ghost predicate StoreEnabled(m: Mem, k: Key, off: nat, b: int) { exists m' :: DoStore(m, m', k, off, b) }

  /** A store of any byte anywhere in the page is enabled. */
  ghost predicate StoresTo(m: Mem, k: Key) {
    forall off: nat, b: int | off < PAGE :: StoreEnabled(m, k, off, b)
  }

  /** The page's entry alone changed: it is writable, no longer copy-on-write, and keeps its other attributes. */
  ghost predicate Opened(m: Mem, m': Mem, k: Key) {
    && k in m.leaves && k in m'.leaves && m'.leaves == m.leaves[k := m'.leaves[k]]
    && m'.leaves[k].writable && !m'.leaves[k].cow && m'.leaves[k].attrs == m.leaves[k].attrs
    && StoresTo(m', k)
  }

  lemma WritableStores(m: Mem, k: Key)
    requires Inv(m) && k in m.leaves
    ensures StoresTo(m, k) <==> m.leaves[k].writable
  {
    hide Refs;
    Allocated(m);
    if m.leaves[k].writable {
      forall off: nat, b: int | off < PAGE ensures StoreEnabled(m, k, off, b) {
        var f := m.leaves[k].frame;
        assert DoStore(m, m.(frames := m.frames[f := m.frames[f].(bytes := m.frames[f].bytes[off := b])]), k, off, b);
      }
    } else {
      assert !StoreEnabled(m, k, 0, 0);
    }
  }

  /** Promotion in place opens the page on the frame it had. */
  lemma PromoteOpens(m: Mem, m': Mem, k: Key)
    requires Inv(m) && FaultPromote(m, m', k)
    ensures Inv(m') && Opened(m, m', k) && m'.leaves[k].frame == m.leaves[k].frame
    ensures m'.frames == m.frames && m'.faults == m.faults && m'.loose == m.loose
  {
    hide Refs;
    StepPromote(m, m', k);
    WritableStores(m', k);
  }

  /** The second section opens the page on the copy, exactly when the entry is still the one that faulted; otherwise
      no entry changes. */
  lemma FinishOpens(m: Mem, m': Mem, t: nat)
    requires Inv(m) && FaultFinish(m, m', t)
    ensures Inv(m') && t !in m'.faults
    ensures var (k, x) := (m.faults[t].key, m.faults[t]);
            if k in m.leaves && m.leaves[k].cow && m.leaves[k].frame == x.src
            then Opened(m, m', k) && Some(m'.leaves[k].frame) == x.copy
            else m'.leaves == m.leaves
  {
    hide Refs;
    StepFinish(m, m', t);
    var k := m.faults[t].key;
    if k in m.leaves && m.leaves[k].cow && m.leaves[k].frame == m.faults[t].src { WritableStores(m', k); }
  }

  // ---------------------------------------------------------------- one handler, from the fault to its end

  /** A step of handler `t` on page `k`. */
  ghost predicate HandlerStep(m: Mem, m': Mem, t: nat, k: Key) {
    || FaultPromote(m, m', k) || FaultHold(m, m', t, k) || FaultNoMemory(m, m', t) || FaultCopy(m, m', t)
    || FaultFinish(m, m', t) || exists f, junk :: FaultAlloc(m, m', t, f, junk)
  }

  ghost predicate HandlerRun(run: seq<Mem>, t: nat, k: Key) {
    |run| > 0 && forall i | 0 <= i < |run| - 1 :: HandlerStep(run[i], run[i + 1], t, k)
  }

  /** Handler `t` alone leads from this state to one in which stores to the page go through. */
  ghost predicate HandlerOpens(m: Mem, t: nat, k: Key) {
    exists run: seq<Mem> :: HandlerRun(run, t, k) && run[0] == m && k in run[|run| - 1].leaves && StoresTo(run[|run| - 1], k)
  }

  lemma Then(m: Mem, m': Mem, t: nat, k: Key)
    requires HandlerStep(m, m', t, k) && HandlerOpens(m', t, k)
    ensures HandlerOpens(m, t, k)
  {
    hide HandlerStep, StoresTo;
    var run: seq<Mem> :| HandlerRun(run, t, k) && run[0] == m' && k in run[|run| - 1].leaves && StoresTo(run[|run| - 1], k);
    var longer := [m] + run;
    assert longer[|longer| - 1] == run[|run| - 1];
    assert HandlerRun(longer, t, k);
  }

  lemma Already(m: Mem, t: nat, k: Key)
    requires k in m.leaves && StoresTo(m, k)
    ensures HandlerOpens(m, t, k)
  {
    hide HandlerStep, StoresTo;
    assert HandlerRun([m], t, k);
  }

  /** The copying loop, byte by byte, then the second section. */
  lemma {:induction false} CopiesAndOpens(m: Mem, t: nat, k: Key)
    requires Inv(m) && t in m.faults && m.faults[t].key == k && m.faults[t].copy.Some?
    requires k in m.leaves && m.leaves[k].cow && m.leaves[k].frame == m.faults[t].src
    ensures HandlerOpens(m, t, k)
    decreases PAGE - m.faults[t].copied
  {
    hide Refs, HandlerOpens, StoresTo;
    Allocated(m);
    var (o, f, i) := (m.faults[t].src, m.faults[t].copy.value, m.faults[t].copied);
    if i < PAGE {
      var m' := m.(frames := m.frames[f := m.frames[f].(bytes := m.frames[f].bytes[i := m.frames[o].bytes[i]])],
                   faults := m.faults[t := m.faults[t].(copied := i + 1)]);
      StepCopy(m, m', t);
      hide Counted, Copying, SoleWriter;
      CopiesAndOpens(m', t, k);
      Then(m, m', t, k);
    } else {
      var m' := m.(leaves := m.leaves[k := Leaf(f, true, false, m.leaves[k].attrs)],
                   faults := m.faults - {t}, loose := m.loose + multiset{o, o});
      FinishOpens(m, m', t);
      hide Counted, Copying, SoleWriter;
      Already(m', t, k);
      Then(m, m', t, k);
    }
  }

  lemma {:induction false} FreshFrame(frames: set<nat>) returns (f: nat)
    ensures forall g | g in frames :: g < f
  {
    if frames == {} {
      f := 0;
    } else {
      var g :| g in frames;
      var h := FreshFrame(frames - {g});
      f := if g < h then h else g + 1;
      assert frames == (frames - {g}) + {g};
    }
  }

  lemma HoldsAndOpens(m: Mem, t: nat, k: Key)
    requires Inv(m) && t !in m.faults && k in m.leaves && m.leaves[k].cow && m.leaves[k].frame in m.frames
    requires 1 < m.frames[m.leaves[k].frame].refs < MAX_REFS
    ensures HandlerOpens(m, t, k)
  {
    hide Refs, HandlerOpens, StoresTo, Copying, SoleWriter;
    var o := m.leaves[k].frame;
    var held := m.(frames := m.frames[o := m.frames[o].(refs := m.frames[o].refs + 1)],
                   faults := m.faults[t := Fault(k, o, None, 0)]);
    StepHold(m, held, t, k);
    var f := FreshFrame(held.frames.Keys);
    var junk := seq(PAGE, i => 0);
    var ready := held.(frames := held.frames[f := Frame(junk, 1)],
                       faults := held.faults[t := held.faults[t].(copy := Some(f), copied := 0)]);
    assert FaultAlloc(held, ready, t, f, junk);
    StepAlloc(held, ready, t, f, junk);
    hide Counted;
    CopiesAndOpens(ready, t, k);
    Then(held, ready, t, k);
    Then(m, held, t, k);
  }

  lemma FirstMove(run: seq<Mem>, t: nat, k: Key)
    requires HandlerRun(run, t, k) && |run| > 1
    ensures exists m' :: HandlerStep(run[0], m', t, k)
  {
    assert HandlerStep(run[0], run[0 + 1], t, k);
  }

  /** From a page that is neither writable nor copy-on-write, or whose frame has no reference left to take, the handler
      cannot move at all. */
  lemma HandlerIsStuck(m: Mem, t: nat, k: Key)
    requires Inv(m) && t !in m.faults && (k in m.leaves ==> !m.leaves[k].writable)
    requires k in m.leaves && m.leaves[k].cow ==> m.leaves[k].frame in m.frames && m.frames[m.leaves[k].frame].refs >= MAX_REFS
    ensures !HandlerOpens(m, t, k)
  {
    hide Refs;
    assert forall m' :: !HandlerStep(m, m', t, k);
    hide HandlerStep;
    if run: seq<Mem> :| HandlerRun(run, t, k) && run[0] == m && k in run[|run| - 1].leaves && StoresTo(run[|run| - 1], k) {
      if |run| > 1 { FirstMove(run, t, k); } else { WritableStores(m, k); }
    }
  }

  /** When the handler can open a page: it is mapped and may be written, and its frame, where it must be held, still has
      a reference to give. */
  ghost predicate CanOpen(m: Mem, k: Key) {
    && k in m.leaves && (m.leaves[k].writable || m.leaves[k].cow)
    && (m.leaves[k].writable || (m.leaves[k].frame in m.frames && m.frames[m.leaves[k].frame].refs < MAX_REFS))
  }

  lemma HandlerOpensIff(m: Mem, t: nat, k: Key)
    requires Inv(m) && t !in m.faults
    ensures HandlerOpens(m, t, k) <==> CanOpen(m, k)
  {
    hide Refs, HandlerOpens, StoresTo, Copying;
    Allocated(m);
    if k in m.leaves && m.leaves[k].writable {
      WritableStores(m, k);
      Already(m, t, k);
    } else if CanOpen(m, k) {
      if m.frames[m.leaves[k].frame].refs <= 1 {
        var m' := m.(leaves := m.leaves[k := m.leaves[k].(writable := true, cow := false)]);
        PromoteOpens(m, m', k);
        Already(m', t, k);
        Then(m, m', t, k);
      } else {
        HoldsAndOpens(m, t, k);
      }
    } else {
      HandlerIsStuck(m, t, k);
    }
  }

  /** After any run: a page the eager machine lets its owner write reaches, by one fault handler's steps alone, a state
      in which every store to it goes through, exactly unless it is shared by as many holders as a count can hold; and
      no other page ever does. */
  lemma StoreReachable(trace: seq<Mem>, ops: seq<Op>, i: nat, k: Key, t: nat)
    requires IsRun(trace, ops) && i <= |ops| && t !in trace[i].faults
    ensures var (m, e) := (trace[i], EagerRun(ops[..i]));
            HandlerOpens(m, t, k) <==>
              && k in e.pages && e.pages[k].mayWrite && k in m.leaves && m.leaves[k].frame in m.frames
              && (m.leaves[k].writable || m.frames[m.leaves[k].frame].refs < MAX_REFS)
  {
    hide Refs, EagerRun, HandlerOpens;
    RunRefines(trace, ops, i);
    Allocated(trace[i]);
    HandlerOpensIff(trace[i], t, k);
  }
}
