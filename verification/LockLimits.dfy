/** What the spinlocks guarantee, and exactly how many the validator can vouch for. */
module LockLimits {
  import opened LockGraph
  import opened Lockdep
  import opened LockOrder

  // ---------------------------------------------------------------- mutual exclusion

  /** A context of the core, running or interrupted, has the lock and is not still waiting for it. */
  ghost predicate Inside(m: System, c: nat, l: Lock) {
    && c < |m.v.held| == |m.want| == |m.stack| && l in m.v.held[c] && m.want[c] != Waits(l)
    && forall i | 0 <= i < |m.stack[c]| :: m.stack[c][i].want != Waits(l)
  }

  /** Whoever is inside owns the lock, and a lock being freed is no longer counted as held. */
  ghost predicate Entered(m: System) {
    && (forall c: nat, l: Lock | Inside(m, c, l) :: l in m.owner && m.owner[l] == c)
    && (forall c | 0 <= c < |m.want| && c < |m.v.held| && m.want[c].Frees? :: m.want[c].lock !in m.v.held[c])
  }

  lemma RequestKeeps(k: Limits, m: System, m': System, c: nat, l: Lock)
    requires Inv(k, m) && Entered(m) && Request(k, m, m', c, l)
    ensures Entered(m')
  {
    assert HeldOk(k, m.v, m.obs, c);
    AcquireExact(k, m.v, m.obs, c, l);
    hide Acquire, Seen, Exact, HeldOk, WantOk, StackOk;
    forall d: nat, x: Lock | Inside(m', d, x) ensures x in m'.owner && m'.owner[x] == d { assert Inside(m, d, x); }
  }

  lemma ForgetKeeps(k: Limits, m: System, m': System, c: nat, l: Lock)
    requires Inv(k, m) && Entered(m) && Forget(m, m', c, l)
    ensures Entered(m')
  {
    var hs := m.v.held[c];
    assert HeldOk(k, m.v, m.obs, c) && l in hs;
    hide Exact, WantOk, StackOk;
    var i :| 0 <= i < |hs| && hs[i] == l;
    WithoutAt(hs, l, i);
    assert forall x | x in hs[..i] + hs[i + 1..] :: x in hs && x != l;
    forall d: nat, x: Lock | Inside(m', d, x) ensures x in m'.owner && m'.owner[x] == d { assert Inside(m, d, x); }
  }

  lemma OwnerKeeps(k: Limits, m: System, m': System, c: nat)
    requires Inv(k, m) && Entered(m) && (Take(m, m', c) || Store(m, m', c))
    ensures Entered(m')
  {
    assert WantOk(m, c);
    hide Exact, HeldOk, StackOk;
    forall d: nat, x: Lock | Inside(m', d, x) ensures x in m'.owner && m'.owner[x] == d {
      assert (Take(m, m', c) && d == c && x == m.want[c].lock) || Inside(m, d, x);
    }
  }

  lemma ContextKeeps(k: Limits, m: System, m': System, c: nat)
    requires Inv(k, m) && Entered(m) && ((OutsideWindow(m, c) && Interrupt(m, m', c)) || Return(m, m', c))
    ensures Entered(m')
  {
    assert StackOk(m, c);
    hide Exact, HeldOk, WantOk;
    if Return(m, m', c) {
      var n := |m.stack[c]| - 1;
      assert FrameOk(m, c, m.stack[c], n, Above(m.stack[c], n, m.v.held[c]));
    }
    hide StackOk;
    forall d: nat, x: Lock | Inside(m', d, x) ensures x in m'.owner && m'.owner[x] == d {
      if Return(m, m', c) { ReturnInside(m, m', c, d, x); } else { InterruptInside(m, m', c, d, x); }
    }
  }

  lemma ReturnInside(m: System, m': System, c: nat, d: nat, x: Lock)
    requires Return(m, m', c) && Inside(m', d, x)
    ensures Inside(m, d, x)
  {
    if d == c {
      var n := |m.stack[c]| - 1;
      forall i | 0 <= i < |m.stack[c]| ensures m.stack[c][i].want != Waits(x) {
        assert i < n ==> m'.stack[c][i] == m.stack[c][i];
      }
    } else {
      assert m'.stack[d] == m.stack[d];
    }
  }

  lemma InterruptInside(m: System, m': System, c: nat, d: nat, x: Lock)
    requires Interrupt(m, m', c) && Inside(m', d, x)
    ensures Inside(m, d, x)
  {
    if d == c {
      assert m'.stack[c][|m.stack[c]|].want == m.want[c];
      forall i | 0 <= i < |m.stack[c]| ensures m.stack[c][i].want != Waits(x) { assert m'.stack[c][i] == m.stack[c][i]; }
    } else {
      assert m'.stack[d] == m.stack[d];
    }
  }

  lemma {:induction false} RunKeepsEntered(k: Limits, trace: seq<System>, i: nat)
    requires IsRun(k, trace) && i < |trace|
    ensures Entered(trace[i])
  {
    if i > 0 {
      var (m, m') := (trace[i - 1], trace[i]);
      RunKeepsEntered(k, trace, i - 1);
      RunKeepsInv(k, trace, i - 1);
      assert Next(k, m, m') by { assert Next(k, trace[i - 1], trace[i - 1 + 1]); }
      hide Inv, Entered, IsRun, Request, Forget, Take, Store, Interrupt, Return;
      if c, l :| Request(k, m, m', c, l) || Forget(m, m', c, l) {
        if Request(k, m, m', c, l) { RequestKeeps(k, m, m', c, l); } else { ForgetKeeps(k, m, m', c, l); }
      } else {
        var c :| Take(m, m', c) || Store(m, m', c) || (OutsideWindow(m, c) && Interrupt(m, m', c)) || Return(m, m', c);
        if Take(m, m', c) || Store(m, m', c) { OwnerKeeps(k, m, m', c); } else { ContextKeeps(k, m, m', c); }
      }
    }
  }

  /** In every run no two cores are inside the same lock. */
  lemma OneInside(k: Limits, trace: seq<System>, i: nat, c: nat, d: nat, l: Lock)
    requires IsRun(k, trace) && i < |trace| && Inside(trace[i], c, l) && Inside(trace[i], d, l)
    ensures c == d
  {
    RunKeepsEntered(k, trace, i);
  }

  // ---------------------------------------------------------------- how many locks the validator can vouch for

  ghost predicate Only(m: System, ls: set<Lock>) { forall c, l | 0 <= c < |m.v.held| && l in m.v.held[c] :: l in ls }

  ghost predicate UsesOnly(trace: seq<System>, ls: set<Lock>) { forall i | 0 <= i < |trace| :: Only(trace[i], ls) }

  /** The table has no lock twice and none but those in use. */
  ghost predicate TableOk(nodes: seq<Lock>, ls: set<Lock>) {
    (forall i, j | 0 <= i < j < |nodes| :: nodes[i] != nodes[j]) && forall n | n in nodes :: n in ls
  }

  lemma {:induction false} TableSize(nodes: seq<Lock>, ls: set<Lock>)
    requires TableOk(nodes, ls)
    ensures |nodes| <= |ls| && (|nodes| >= |ls| ==> forall l | l in ls :: l in nodes)
  {
    if nodes == [] {
      assert |ls| == 0 ==> ls == {};
    } else {
      var (n, front) := (nodes[|nodes| - 1], nodes[..|nodes| - 1]);
      assert n !in front;
      TableSize(front, ls - {n});
      assert ls == (ls - {n}) + {n};
    }
  }

  lemma {:induction false} RunKeepsTable(k: Limits, trace: seq<System>, i: nat, ls: set<Lock>)
    requires IsRun(k, trace) && i < |trace| && UsesOnly(trace, ls)
    ensures TableOk(trace[i].v.nodes, ls)
  {
    if i > 0 {
      var (m, m') := (trace[i - 1], trace[i]);
      RunKeepsTable(k, trace, i - 1, ls);
      RunKeepsInv(k, trace, i - 1);
      assert Next(k, m, m') by { assert Next(k, trace[i - 1], trace[i - 1 + 1]); }
      assert Only(trace[i], ls);
      hide IsRun, UsesOnly, Exact, StackOk, WantOk;
      if c: nat, l :| Request(k, m, m', c, l) {
        assert HeldOk(k, m.v, m.obs, c);
        AcquireExact(k, m.v, m.obs, c, l);
        assert m'.v.held[c][|m.v.held[c]|] == l && l in m'.v.held[c];
      }
    }
  }

  /** As many locks as the table has rows are all tracked. */
  lemma FewAreTracked(k: Limits, trace: seq<System>, i: nat, ls: set<Lock>)
    requires IsRun(k, trace) && i < |trace| && UsesOnly(trace, ls) && |ls| <= k.maxNodes
    ensures AllTracked(trace[i])
  {
    RunKeepsTable(k, trace, i, ls);
    RunKeepsInv(k, trace, i);
    var m := trace[i];
    TableSize(m.v.nodes, ls);
    forall c, l | 0 <= c < |m.v.held| && l in m.v.held[c] ensures l in m.v.nodes {
      assert HeldOk(k, m.v, m.obs, c) && Only(m, ls);
    }
  }

  // ---------------------------------------------------------------- one lock more

  /** All cores idle, the table holding `nodes`, nothing observed. */
  ghost function Idle(cores: nat, nodes: seq<Lock>): System {
    System(State(nodes, {}, seq(cores, _ => [])), {}, map[], seq(cores, _ => Nothing), seq(cores, _ => []))
  }

  /** The locks numbered below `n`. */
  ghost function Numbered(n: nat): seq<Lock> { seq(n, i => i) }

  ghost function Below(n: nat): set<Lock> { if n == 0 then {} else Below(n - 1) + {n - 1} }

  lemma {:induction false} BelowSize(n: nat)
    ensures |Below(n)| == n && forall l :: l in Below(n) <==> 0 <= l < n
  {
    if n > 0 { BelowSize(n - 1); }
  }

  /** A core that holds nothing, or only locks outside the table, is accepted whatever it asks for, and nothing is observed. */
  lemma UntrackedIsAccepted(k: Limits, v: State, c: nat, l: Lock)
    requires c < |v.held| && |v.held[c]| < k.maxHeld && l !in v.held[c] && |v.held[c]| <= 1
    requires v.held[c] == [] || (v.held[c][0] !in v.nodes && |v.nodes| >= k.maxNodes) || (l !in v.nodes && |v.nodes| >= k.maxNodes)
    ensures Acquire(v, c, l, k.maxNodes, k.maxHeld)
            == (Accepted, State(Intern(v.nodes, l, k.maxNodes), v.matrix, v.held[c := v.held[c] + [l]]))
    ensures Seen(k, v, c, l) == {}
  {
    var (hs, nodes) := (v.held[c], Intern(v.nodes, l, k.maxNodes));
    if l in nodes {
      assert NewPairs(nodes, hs, l) == {};
      if hs != [] {
        assert hs[1..] == [] && Record(nodes, v.matrix, hs[1..], l, k.maxNodes) == Recorded(nodes, v.matrix, false);
      }
    }
  }

  lemma Append(k: Limits, trace: seq<System>, m: System, ls: set<Lock>)
    requires IsRun(k, trace) && UsesOnly(trace, ls) && Next(k, trace[|trace| - 1], m) && Only(m, ls)
    ensures IsRun(k, trace + [m]) && UsesOnly(trace + [m], ls)
  {
    hide Next, Only, Init;
    var longer := trace + [m];
    assert forall i | 0 <= i < |trace| :: longer[i] == trace[i];
    forall i | 0 <= i < |longer| - 1 ensures Next(k, longer[i], longer[i + 1]) {
      assert i < |trace| - 1 ==> Next(k, trace[i], trace[i + 1]);
    }
  }

  /** From a state in which core `c` wants and holds nothing: it takes `l`. */
  lemma Takes(k: Limits, trace: seq<System>, m: System, c: nat, l: Lock, ls: set<Lock>) returns (run: seq<System>)
    requires IsRun(k, trace) && UsesOnly(trace, ls) && m == trace[|trace| - 1] && l in ls && k.maxHeld > 0
    requires c < |m.want| == |m.v.held| && m.want[c] == Nothing && m.v.held[c] == [] && l !in m.owner
    ensures IsRun(k, run) && UsesOnly(run, ls) && |run| == |trace| + 2 && run[0] == trace[0]
    ensures run[|run| - 1] == System(State(Intern(m.v.nodes, l, k.maxNodes), m.v.matrix, m.v.held[c := [l]]), m.obs,
                                     m.owner[l := c], m.want[c := Nothing], m.stack)
  {
    UntrackedIsAccepted(k, m.v, c, l);
    var none: seq<Lock> := [];
    assert none + [l] == [l] && m.obs + {} == m.obs;
    var m1 := System(State(Intern(m.v.nodes, l, k.maxNodes), m.v.matrix, m.v.held[c := [l]]), m.obs, m.owner, m.want[c := Waits(l)], m.stack);
    assert Request(k, m, m1, c, l);
    var m2 := m1.(owner := m.owner[l := c], want := m.want[c := Nothing]);
    assert m1.want[c := Nothing] == m2.want && Take(m1, m2, c);
    assert Only(m, ls);
    hide Acquire, Seen, IsRun, UsesOnly, Request, Take;
    Append(k, trace, m1, ls);
    Append(k, trace + [m1], m2, ls);
    run := trace + [m1] + [m2];
    assert run[0] == trace[0] by { RunStarts(k, trace); }
  }

  lemma RunStarts(k: Limits, trace: seq<System>)
    requires IsRun(k, trace)
    ensures |trace| > 0 && Init(trace[0])
  {
  }

  /** The core gives the only lock it holds back. */
  lemma Drops(k: Limits, trace: seq<System>, m: System, c: nat, l: Lock, ls: set<Lock>) returns (run: seq<System>)
    requires IsRun(k, trace) && UsesOnly(trace, ls) && m == trace[|trace| - 1]
    requires c < |m.want| == |m.v.held| == |m.stack| && m.want[c] == Nothing && m.v.held[c] == [l] && m.stack[c] == []
    requires l in m.owner && m.owner[l] == c
    ensures IsRun(k, run) && UsesOnly(run, ls) && |run| == |trace| + 2 && run[0] == trace[0]
    ensures run[|run| - 1] == m.(v := m.v.(held := m.v.held[c := []]), owner := m.owner - {l})
  {
    var m1 := m.(v := m.v.(held := m.v.held[c := []]), want := m.want[c := Frees(l)]);
    assert Lockdep.Without([l], l) == [] && Forget(m, m1, c, l);
    var m2 := m1.(owner := m.owner - {l}, want := m.want);
    assert m1.want[c := Nothing] == m.want && Store(m1, m2, c);
    assert Only(m, ls);
    RunStarts(k, trace);
    hide IsRun, UsesOnly, Forget, Store;
    Append(k, trace, m1, ls);
    Append(k, trace + [m1], m2, ls);
    run := trace + [m1] + [m2];
  }

  /** A run that fills the table up to row `n`. */
  lemma {:induction false} Fills(k: Limits, cores: nat, n: nat, ls: set<Lock>) returns (trace: seq<System>)
    requires n <= k.maxNodes && cores >= 2 && k.maxHeld > 0 && forall l | 0 <= l < n :: l in ls
    ensures IsRun(k, trace) && UsesOnly(trace, ls) && trace[0] == Idle(cores, []) && trace[|trace| - 1] == Idle(cores, Numbered(n))
  {
    if n == 0 {
      trace := [Idle(cores, [])];
      assert Numbered(0) == [];
    } else {
      var run := Fills(k, cores, n - 1, ls);
      var (m, l) := (Idle(cores, Numbered(n - 1)), n - 1);
      hide IsRun, UsesOnly;
      run := Takes(k, run, m, 0, l, ls);
      assert Intern(Numbered(n - 1), l, k.maxNodes) == Numbered(n);
      var m1 := run[|run| - 1];
      run := Drops(k, run, m1, 0, l, ls);
      assert m1.v.held[0 := []] == m.v.held && m1.owner - {l} == m.owner && m1.want == m.want;
      trace := run;
    }
  }

  /** With one lock more than the table has rows: two cores take a tracked and an untracked lock in opposite orders, neither
      order is observed, and they wait for each other. */
  lemma OneMoreDeadlocks(k: Limits, cores: nat) returns (trace: seq<System>)
    requires k.maxNodes > 0 && k.maxHeld >= 2 && cores >= 2
    ensures IsRun(k, trace) && UsesOnly(trace, Below(k.maxNodes + 1)) && |trace[0].want| == cores
    ensures CircularWait(trace[|trace| - 1], [0, 1])
  {
    var (n, ls) := (k.maxNodes, Below(k.maxNodes + 1));
    BelowSize(n + 1);
    var run := Fills(k, cores, n, ls);
    var (m, nodes) := (Idle(cores, Numbered(n)), Numbered(n));
    hide IsRun, UsesOnly, Below;
    assert nodes[0] == 0 && Intern(nodes, 0, n) == nodes && n !in nodes && Intern(nodes, n, n) == nodes;
    run := Takes(k, run, m, 0, 0, ls);
    var m2 := run[|run| - 1];
    run := Takes(k, run, m2, 1, n, ls);
    var m4 := run[|run| - 1];
    assert m4.v.held[0] == [0] && m4.v.held[1] == [n] && m4.owner == map[0 := 0, n := 1];
    run := Opposite(k, run, m4, ls);
    trace := run;
  }

  lemma Opposite(k: Limits, trace: seq<System>, m: System, ls: set<Lock>) returns (run: seq<System>)
    requires IsRun(k, trace) && UsesOnly(trace, ls) && m == trace[|trace| - 1] && k.maxNodes > 0 && k.maxHeld >= 2
    requires |m.want| == |m.v.held| >= 2 && m.v.held[0] == [0] && m.v.held[1] == [k.maxNodes]
    requires m.owner == map[0 := 0, k.maxNodes := 1]
    requires m.want[0] == m.want[1] == Nothing && m.v.nodes == Numbered(k.maxNodes) && 0 in ls && k.maxNodes in ls
    ensures IsRun(k, run) && UsesOnly(run, ls) && |run| > 0 && run[0] == trace[0] && CircularWait(run[|run| - 1], [0, 1])
  {
    var (n, nodes) := (k.maxNodes, m.v.nodes);
    assert n !in nodes && 0 == nodes[0];
    UntrackedIsAccepted(k, m.v, 0, n);
    var m1 := System(State(nodes, m.v.matrix, m.v.held[0 := [0, n]]), m.obs, m.owner, m.want[0 := Waits(n)], m.stack);
    assert [0] + [n] == [0, n] && m.obs + {} == m.obs;
    assert Request(k, m, m1, 0, n);
    UntrackedIsAccepted(k, m1.v, 1, 0);
    var m2 := System(State(nodes, m.v.matrix, m1.v.held[1 := [n, 0]]), m.obs, m.owner, m1.want[1 := Waits(0)], m.stack);
    assert [n] + [0] == [n, 0] && m1.obs + {} == m1.obs;
    assert Request(k, m1, m2, 1, 0);
    assert Only(m, ls);
    RunStarts(k, trace);
    hide IsRun, UsesOnly, Request, Acquire, Seen;
    Append(k, trace, m1, ls);
    Append(k, trace + [m1], m2, ls);
    run := trace + [m1] + [m2];
    assert run[|run| - 1] == m2;
  }

  /** A run of that many cores over at most `n` locks. */
  ghost predicate OnFew(k: Limits, trace: seq<System>, cores: nat, n: nat) {
    IsRun(k, trace) && |trace[0].want| == cores && exists ls :: UsesOnly(trace, ls) && |ls| <= n
  }

  ghost predicate DeadlockFree(k: Limits, cores: nat, n: nat) {
    forall trace: seq<System>, i: nat, cs | OnFew(k, trace, cores, n) && i < |trace| :: !CircularWait(trace[i], cs)
  }

  /** Main theorem: two or more cores, each allowed two locks, never deadlock if and only if there are no more locks than the
      validator's table has rows. */
  lemma DeadlockFreeIff(k: Limits, cores: nat, n: nat)
    requires k.maxNodes > 0 && k.maxHeld >= 2 && cores >= 2
    ensures DeadlockFree(k, cores, n) <==> n <= k.maxNodes
  {
    hide IsRun, UsesOnly, CircularWait, Below;
    if n <= k.maxNodes {
      forall trace: seq<System>, i: nat, cs | OnFew(k, trace, cores, n) && i < |trace| ensures !CircularWait(trace[i], cs) {
        var ls :| UsesOnly(trace, ls) && |ls| <= n;
        FewAreTracked(k, trace, i, ls);
        RunNeverDeadlocks(k, trace, i, cs);
      }
    } else {
      var trace := OneMoreDeadlocks(k, cores);
      BelowSize(k.maxNodes + 1);
      RunStarts(k, trace);
      assert OnFew(k, trace, cores, n) && CircularWait(trace[|trace| - 1], [0, 1]);
    }
  }
}
