/** Cores taking and releasing spinlocks under the validator: exactness over runs and no circular wait. */
module LockOrder {
  import opened LockGraph
  import opened Lockdep

  datatype Want = Nothing | Waits(lock: Lock) | Frees(lock: Lock)

  /** What an interrupt put aside: what the core wanted, and its held list. */
  datatype Frame = Frame(want: Want, held: seq<Lock>)

  /** `obs` is the history of held-then-acquired pairs; `owner` says which core's store-exclusive won each lock; `stack` are
      each core's interrupted contexts, outermost first. */
  datatype System = System(v: State, obs: Pairs, owner: map<Lock, nat>, want: seq<Want>, stack: seq<seq<Frame>>)

  datatype Limits = Limits(maxNodes: nat, maxHeld: nat)

  ghost predicate Init(m: System) {
    && m.v.nodes == [] && m.v.matrix == {} && m.obs == {} && m.owner == map[]
    && |m.want| == |m.v.held| == |m.stack|
    && forall c | 0 <= c < |m.want| :: m.want[c] == Nothing && m.v.held[c] == [] && m.stack[c] == []
  }

  /** `spin_lock` up to its wait loop: the validator accepts the lock before it is taken. */
  ghost predicate Request(k: Limits, m: System, m': System, c: nat, l: Lock) {
    && c < |m.want| && |m.want| == |m.v.held| && m.want[c].Nothing?
    && Acquire(m.v, c, l, k.maxNodes, k.maxHeld).0.Accepted?
    && m' == System(Acquire(m.v, c, l, k.maxNodes, k.maxHeld).1,
                    m.obs + Seen(k, m.v, c, l), m.owner, m.want[c := Waits(l)], m.stack)
  }

  ghost function Seen(k: Limits, v: State, c: nat, l: Lock): Pairs
    requires c < |v.held|
  {
    var nodes := Intern(v.nodes, l, k.maxNodes);
    if l in nodes then NewPairs(nodes, v.held[c], l) else {}
  }

  /** The store-exclusive succeeds: nobody else has the lock. */
  ghost predicate Take(m: System, m': System, c: nat) {
    && c < |m.want| && m.want[c].Waits? && m.want[c].lock !in m.owner
    && m' == m.(owner := m.owner[m.want[c].lock := c], want := m.want[c := Nothing])
  }

  /** The locks the running context of a core found held when it began. */
  function Inherited(stack: seq<Frame>): seq<Lock> { if stack == [] then [] else stack[|stack| - 1].held }

  /** `spin_unlock`, of a lock the running context took: the validator forgets the lock first ... */
  ghost predicate Forget(m: System, m': System, c: nat, l: Lock) {
    && c < |m.want| && |m.want| == |m.v.held| == |m.stack| && m.want[c].Nothing? && l in m.owner && m.owner[l] == c
    && l !in Inherited(m.stack[c])
    && m' == m.(v := m.v.(held := m.v.held[c := Without(m.v.held[c], l)]), want := m.want[c := Frees(l)])
  }

  /** ... then the store makes it free. */
  ghost predicate Store(m: System, m': System, c: nat) {
    && c < |m.want| && m.want[c].Frees?
    && m' == m.(owner := m.owner - {m.want[c].lock}, want := m.want[c := Nothing])
  }

  /** An interrupt: its handler may take locks of its own, whatever the core was doing. */
  ghost predicate Interrupt(m: System, m': System, c: nat) {
    && c < |m.want| && |m.want| == |m.v.held| == |m.stack|
    && m' == m.(want := m.want[c := Nothing], stack := m.stack[c := m.stack[c] + [Frame(m.want[c], m.v.held[c])]])
  }

  /** The handler returns, having released what it took. */
  ghost predicate Return(m: System, m': System, c: nat) {
    && c < |m.want| && |m.want| == |m.v.held| == |m.stack| && m.stack[c] != [] && m.want[c].Nothing?
    && m.v.held[c] == Inherited(m.stack[c])
    && m' == m.(want := m.want[c := m.stack[c][|m.stack[c]| - 1].want], stack := m.stack[c := m.stack[c][..|m.stack[c]| - 1]])
  }

  /** Not between the validator's release and the store that frees the lock. */
  ghost predicate OutsideWindow(m: System, c: nat) { c < |m.want| && !m.want[c].Frees? }

  ghost predicate Next(k: Limits, m: System, m': System) {
    || (exists c, l :: Request(k, m, m', c, l) || Forget(m, m', c, l))
    || (exists c :: Take(m, m', c) || Store(m, m', c) || (OutsideWindow(m, c) && Interrupt(m, m', c)) || Return(m, m', c))
  }

  ghost predicate IsRun(k: Limits, trace: seq<System>) {
    |trace| > 0 && Init(trace[0]) && forall i | 0 <= i < |trace| - 1 :: Next(k, trace[i], trace[i + 1])
  }

  // ---------------------------------------------------------------- invariants

  /** The matrix is exactly the closure of what was observed, and has no cycle. */
  ghost predicate Exact(m: System) {
    Closes(m.obs, m.v.matrix) && Acyclic(m.obs)
  }

  ghost predicate HeldOk(k: Limits, v: State, obs: Pairs, c: nat)
    requires c < |v.held|
  {
    && (forall i, j | 0 <= i < j < |v.held[c]| :: v.held[c][i] != v.held[c][j])
    && (forall h | h in v.held[c] :: h in v.nodes || |v.nodes| >= k.maxNodes)
    && (forall i, j | 0 <= i < j < |v.held[c]| && v.held[c][i] in v.nodes && v.held[c][j] in v.nodes ::
          (v.held[c][i], v.held[c][j]) in obs)
  }

  ghost predicate WantOk(m: System, c: nat)
    requires c < |m.want| && |m.want| == |m.v.held| == |m.stack|
  {
    match m.want[c]
    case Nothing => true
    case Waits(l) => WaitOk(m, c, l, m.v.held[c], Inherited(m.stack[c]))
    case Frees(l) => l in m.owner && m.owner[l] == c
  }

  /** A lock waited for is the last of its context's, and not the core's yet. */
  ghost predicate WaitOk(m: System, c: nat, l: Lock, held: seq<Lock>, before: seq<Lock>) {
    |held| > |before| && held[|held| - 1] == l && !(l in m.owner && m.owner[l] == c)
  }

  /** Contexts nest: each began with what the one below it held. */
  ghost predicate FrameOk(m: System, c: nat, stack: seq<Frame>, i: nat, above: seq<Lock>)
    requires i < |stack|
  {
    var f := stack[i];
    f.held <= above && !f.want.Frees? && (f.want.Waits? ==> WaitOk(m, c, f.want.lock, f.held, Inherited(stack[..i])))
  }

  ghost function Above(stack: seq<Frame>, i: nat, held: seq<Lock>): seq<Lock>
    requires i < |stack|
  { if i + 1 < |stack| then stack[i + 1].held else held }

  ghost predicate StackOk(m: System, c: nat)
    requires c < |m.stack| && |m.stack| == |m.v.held|
  { forall i: nat | i < |m.stack[c]| :: FrameOk(m, c, m.stack[c], i, Above(m.stack[c], i, m.v.held[c])) }

  ghost predicate Inv(k: Limits, m: System) {
    && |m.want| == |m.v.held| == |m.stack| && Exact(m)
    && (forall c | 0 <= c < |m.want| :: HeldOk(k, m.v, m.obs, c) && WantOk(m, c) && StackOk(m, c))
    && (forall l | l in m.owner :: m.owner[l] < |m.want|
                                   && (l in m.v.held[m.owner[l]] || m.want[m.owner[l]] == Frees(l)))
  }

  /** A set of cores each waiting for a lock the next one has. */
  ghost predicate CircularWait(m: System, cs: seq<nat>) {
    |cs| > 0 && forall i | 0 <= i < |cs| ::
      && cs[i] < |m.want| && m.want[cs[i]].Waits?
      && m.want[cs[i]].lock in m.owner && m.owner[m.want[cs[i]].lock] == cs[After(cs, i)]
  }

  function After(cs: seq<nat>, i: nat): (j: nat)
    requires i < |cs|
  {
    if i + 1 == |cs| then 0 else i + 1
  }

  ghost predicate AllTracked(m: System) {
    forall c, l | 0 <= c < |m.v.held| && l in m.v.held[c] :: l in m.v.nodes
  }

  // ---------------------------------------------------------------- proofs

  /** What one accepted or refused acquisition does to an exact validator. */
  lemma AcquireExact(k: Limits, v: State, obs: Pairs, c: nat, l: Lock)
    requires c < |v.held| && Closes(obs, v.matrix) && Acyclic(obs) && HeldOk(k, v, obs, c)
    ensures var r := Acquire(v, c, l, k.maxNodes, k.maxHeld);
            var more := obs + Seen(k, v, c, l);
            && (r.0.Accepted? ==> Closes(more, r.1.matrix) && Acyclic(more)
                                  && r.1.nodes == Intern(v.nodes, l, k.maxNodes)
                                  && r.1.held == v.held[c := v.held[c] + [l]] && l !in v.held[c])
            && (|v.held[c]| < k.maxHeld && l !in v.held[c] ==> (r.0.CycleFound? <==> !Acyclic(more)))
            && (r.0.TooManyHeld? <==> |v.held[c]| >= k.maxHeld)
            && (r.0.RecursiveLock? <==> |v.held[c]| < k.maxHeld && l in v.held[c])
  {
    var nodes := Intern(v.nodes, l, k.maxNodes);
    assert obs + {} == obs;
    if l !in v.held[c] && l in nodes {
      assert forall h | h in v.held[c] :: h in nodes || |nodes| >= k.maxNodes;
      RecordExact(obs, nodes, v.matrix, v.held[c], l, k.maxNodes);
    }
  }

  /** What an outer context held, the running one inherited. */
  lemma {:induction false} FramePrefix(m: System, c: nat, i: nat)
    requires c < |m.stack| && |m.stack| == |m.v.held| && StackOk(m, c) && i < |m.stack[c]|
    ensures m.stack[c][i].held <= Inherited(m.stack[c]) <= m.v.held[c]
    decreases |m.stack[c]| - i
  {
    assert FrameOk(m, c, m.stack[c], i, Above(m.stack[c], i, m.v.held[c]));
    if i + 1 < |m.stack[c]| { FramePrefix(m, c, i + 1); }
  }

  /** Contexts put aside stay in order while what they held stays held and nothing they wait for becomes the core's. */
  lemma StackKept(m: System, m': System, d: nat)
    requires d < |m.stack| && |m.stack| == |m.v.held| == |m'.stack| == |m'.v.held| && StackOk(m, d) && m'.stack[d] == m.stack[d]
    requires Inherited(m.stack[d]) <= m'.v.held[d]
    requires forall i | 0 <= i < |m.stack[d]| && m.stack[d][i].want.Waits? ::
               !(m.stack[d][i].want.lock in m'.owner && m'.owner[m.stack[d][i].want.lock] == d)
    ensures StackOk(m', d)
  {
    forall i: nat | i < |m.stack[d]| ensures FrameOk(m', d, m'.stack[d], i, Above(m'.stack[d], i, m'.v.held[d])) {
      assert FrameOk(m, d, m.stack[d], i, Above(m.stack[d], i, m.v.held[d]));
    }
  }

  /** The same when nothing about the core changes but, perhaps, that somebody else owns more or less. */
  lemma StackSame(m: System, m': System, d: nat)
    requires d < |m.stack| && |m.stack| == |m.v.held| == |m'.stack| == |m'.v.held| && StackOk(m, d) && m'.stack[d] == m.stack[d]
    requires m.v.held[d] <= m'.v.held[d] && forall l | l in m'.owner && m'.owner[l] == d :: l in m.owner && m.owner[l] == d
    ensures StackOk(m', d)
  {
    if m.stack[d] != [] { FramePrefix(m, d, |m.stack[d]| - 1); }
    forall i | 0 <= i < |m.stack[d]| && m.stack[d][i].want.Waits?
      ensures !(m.stack[d][i].want.lock in m'.owner && m'.owner[m.stack[d][i].want.lock] == d)
    {
      assert FrameOk(m, d, m.stack[d], i, Above(m.stack[d], i, m.v.held[d]));
    }
    StackKept(m, m', d);
  }

  lemma StepRequest(k: Limits, m: System, m': System, c: nat, l: Lock)
    requires Inv(k, m) && Request(k, m, m', c, l)
    ensures Inv(k, m')
  {
    assert HeldOk(k, m.v, m.obs, c);
    AcquireExact(k, m.v, m.obs, c, l);
    var hs := m.v.held[c];
    if m.stack[c] != [] { FramePrefix(m, c, |m.stack[c]| - 1); }
    forall d | 0 <= d < |m'.want| ensures StackOk(m', d) {
      assert StackOk(m, d);
      StackSame(m, m', d);
    }
    forall d | 0 <= d < |m'.want| ensures HeldOk(k, m'.v, m'.obs, d) && WantOk(m', d) {
      assert HeldOk(k, m.v, m.obs, d) && WantOk(m, d) && StackOk(m, d);
      forall i, j | 0 <= i < j < |m'.v.held[d]| && m'.v.held[d][i] in m'.v.nodes && m'.v.held[d][j] in m'.v.nodes
        ensures (m'.v.held[d][i], m'.v.held[d][j]) in m'.obs
      {
        if d == c && j == |hs| {
          assert hs[i] in hs && (hs[i], l) in Seen(k, m.v, c, l);
        } else {
          assert m.v.held[d][i] in m.v.held[d] && m.v.held[d][j] in m.v.held[d];
        }
      }
    }
    assert l in m.owner && m.owner[l] == c ==> l in hs;
  }

  lemma ForgetKeepsHeld(k: Limits, v: State, v': State, obs: Pairs, c: nat, i: nat)
    requires c < |v.held| && HeldOk(k, v, obs, c) && i < |v.held[c]|
    requires v' == v.(held := v.held[c := v.held[c][..i] + v.held[c][i + 1..]])
    ensures HeldOk(k, v', obs, c)
    ensures forall h | h in v.held[c] && h != v.held[c][i] :: h in v'.held[c]
  {
    var hs, rest := v.held[c], v'.held[c];
    assert forall a | 0 <= a < |rest| :: rest[a] == hs[if a < i then a else a + 1];
    forall h | h in hs && h != hs[i] ensures h in rest {
      var a :| 0 <= a < |hs| && hs[a] == h;
      assert rest[if a < i then a else a - 1] == h;
    }
  }

  lemma StepForget(k: Limits, m: System, m': System, c: nat, l: Lock)
    requires Inv(k, m) && Forget(m, m', c, l)
    ensures Inv(k, m')
  {
    var hs := m.v.held[c];
    assert HeldOk(k, m.v, m.obs, c) && WantOk(m, c) && StackOk(m, c);
    var i :| 0 <= i < |hs| && hs[i] == l;
    WithoutAt(hs, l, i);
    ForgetKeepsHeld(k, m.v, m'.v, m.obs, c, i);
    ForgetKeepsStack(m, m', c, i);
    hide StackOk;
    forall d | 0 <= d < |m'.want| ensures HeldOk(k, m'.v, m'.obs, d) && WantOk(m', d) && StackOk(m', d) {
      assert HeldOk(k, m.v, m.obs, d) && WantOk(m, d) && StackOk(m, d);
      if d != c { StackSame(m, m', d); }
    }
  }

  lemma ForgetKeepsStack(m: System, m': System, c: nat, i: nat)
    requires c < |m.stack| && |m.stack| == |m.v.held| && StackOk(m, c) && i < |m.v.held[c]| && m.v.held[c][i] !in Inherited(m.stack[c])
    requires m'.stack == m.stack && m'.owner == m.owner && m'.v == m.v.(held := m.v.held[c := m.v.held[c][..i] + m.v.held[c][i + 1..]])
    ensures StackOk(m', c)
  {
    var (hs, base) := (m.v.held[c], Inherited(m.stack[c]));
    if m.stack[c] != [] { FramePrefix(m, c, |m.stack[c]| - 1); }
    assert base <= hs && forall j | 0 <= j < |base| :: hs[j] in base;
    assert base <= hs[..i] + hs[i + 1..];
    forall j | 0 <= j < |m.stack[c]| && m.stack[c][j].want.Waits?
      ensures !(m.stack[c][j].want.lock in m.owner && m.owner[m.stack[c][j].want.lock] == c)
    {
      assert FrameOk(m, c, m.stack[c], j, Above(m.stack[c], j, m.v.held[c]));
    }
    StackKept(m, m', c);
  }

  /** What a context put aside waits for is not what the running one takes. */
  lemma TakeKeepsStack(m: System, m': System, c: nat)
    requires c < |m.want| && |m.want| == |m.stack| == |m.v.held| && StackOk(m, c) && WantOk(m, c) && Take(m, m', c)
    requires forall i, j | 0 <= i < j < |m.v.held[c]| :: m.v.held[c][i] != m.v.held[c][j]
    ensures StackOk(m', c)
  {
    if m.stack[c] != [] { FramePrefix(m, c, |m.stack[c]| - 1); }
    forall j | 0 <= j < |m.stack[c]| && m.stack[c][j].want.Waits?
      ensures !(m.stack[c][j].want.lock in m'.owner && m'.owner[m.stack[c][j].want.lock] == c)
    {
      var f := m.stack[c][j];
      assert FrameOk(m, c, m.stack[c], j, Above(m.stack[c], j, m.v.held[c]));
      FramePrefix(m, c, j);
      assert m.v.held[c][|f.held| - 1] == f.want.lock;
    }
    StackKept(m, m', c);
  }

  lemma StepOwner(k: Limits, m: System, m': System, c: nat)
    requires Inv(k, m) && (Take(m, m', c) || Store(m, m', c))
    ensures Inv(k, m')
  {
    assert WantOk(m, c) && StackOk(m, c) && HeldOk(k, m.v, m.obs, c);
    forall d | 0 <= d < |m'.want| ensures StackOk(m', d) {
      assert StackOk(m, d);
      if Take(m, m', c) && d == c { TakeKeepsStack(m, m', c); } else { StackSame(m, m', d); }
    }
    forall d | 0 <= d < |m'.want| ensures HeldOk(k, m'.v, m'.obs, d) && WantOk(m', d) {
      assert HeldOk(k, m.v, m.obs, d) && WantOk(m, d);
    }
  }

  lemma StepInterrupt(k: Limits, m: System, m': System, c: nat)
    requires Inv(k, m) && OutsideWindow(m, c) && Interrupt(m, m', c)
    ensures Inv(k, m')
  {
    assert WantOk(m, c) && StackOk(m, c);
    forall i: nat | i < |m'.stack[c]| ensures FrameOk(m', c, m'.stack[c], i, Above(m'.stack[c], i, m'.v.held[c])) {
      assert m'.stack[c][..i] == m.stack[c][..i];
      if i < |m.stack[c]| {
        assert FrameOk(m, c, m.stack[c], i, Above(m.stack[c], i, m.v.held[c]));
      } else {
        assert m.stack[c][..i] == m.stack[c];
      }
    }
    forall d | 0 <= d < |m'.want| ensures HeldOk(k, m'.v, m'.obs, d) && WantOk(m', d) && StackOk(m', d) {
      assert HeldOk(k, m.v, m.obs, d) && WantOk(m, d) && StackOk(m, d);
      if d != c { StackSame(m, m', d); }
    }
  }

  lemma StepReturn(k: Limits, m: System, m': System, c: nat)
    requires Inv(k, m) && Return(m, m', c)
    ensures Inv(k, m')
  {
    var (st, n) := (m.stack[c], |m.stack[c]| - 1);
    assert StackOk(m, c) && FrameOk(m, c, st, n, Above(st, n, m.v.held[c]));
    forall i: nat | i < n ensures FrameOk(m', c, m'.stack[c], i, Above(m'.stack[c], i, m'.v.held[c])) {
      assert FrameOk(m, c, st, i, Above(st, i, m.v.held[c])) && m'.stack[c][..i] == st[..i];
    }
    forall d | 0 <= d < |m'.want| ensures HeldOk(k, m'.v, m'.obs, d) && WantOk(m', d) && StackOk(m', d) {
      assert HeldOk(k, m.v, m.obs, d) && WantOk(m, d) && StackOk(m, d);
      if d != c { StackSame(m, m', d); }
    }
  }

  lemma {:induction false} RunKeepsInv(k: Limits, trace: seq<System>, i: nat)
    requires IsRun(k, trace) && i < |trace|
    ensures Inv(k, trace[i])
  {
    if i == 0 {
      EmptyCloses();
    } else {
      var m, m' := trace[i - 1], trace[i];
      RunKeepsInv(k, trace, i - 1);
      assert Next(k, m, m');
      if c, l :| Request(k, m, m', c, l) || Forget(m, m', c, l) {
        if Request(k, m, m', c, l) { StepRequest(k, m, m', c, l); } else { StepForget(k, m, m', c, l); }
      } else {
        var c :| Take(m, m', c) || Store(m, m', c) || (OutsideWindow(m, c) && Interrupt(m, m', c)) || Return(m, m', c);
        hide Inv;
        if Take(m, m', c) || Store(m, m', c) { StepOwner(k, m, m', c); }
        else if Return(m, m', c) { StepReturn(k, m, m', c); }
        else { StepInterrupt(k, m, m', c); }
      }
    }
  }

  /** In every state of every panic-free run the bit matrix is exactly the closure of the observed pairs and is
      irreflexive, and the next acquisition panics with a cycle exactly when its new pairs would close one. */
  lemma RunIsExact(k: Limits, trace: seq<System>, i: nat, c: nat, l: Lock)
    requires IsRun(k, trace) && i < |trace| && c < |trace[i].v.held|
    ensures Exact(trace[i])
    ensures var v := trace[i].v;
            |v.held[c]| < k.maxHeld && l !in v.held[c] ==>
              (Acquire(v, c, l, k.maxNodes, k.maxHeld).0.CycleFound? <==> !Acyclic(trace[i].obs + Seen(k, v, c, l)))
  {
    RunKeepsInv(k, trace, i);
    assert HeldOk(k, trace[i].v, trace[i].obs, c);
    AcquireExact(k, trace[i].v, trace[i].obs, c, l);
  }

  /** A core that has one lock and waits for another was seen doing so. */
  lemma WaitIsObserved(k: Limits, m: System, l: Lock, d: nat)
    requires Inv(k, m) && AllTracked(m) && l in m.owner && m.owner[l] == d && d < |m.want| && m.want[d].Waits?
    ensures (l, m.want[d].lock) in m.obs
  {
    var hs := m.v.held[d];
    assert HeldOk(k, m.v, m.obs, d) && WantOk(m, d);
    var a :| 0 <= a < |hs| && hs[a] == l;
    assert hs[a] in hs && hs[|hs| - 1] in hs;
  }

  lemma WaitCycleIsWalk(k: Limits, m: System, cs: seq<nat>, w: seq<Lock>)
    requires Inv(k, m) && AllTracked(m) && CircularWait(m, cs)
    requires |w| == |cs| + 1 && w[|cs|] == w[0] && forall j | 0 <= j < |cs| :: w[j] == m.want[cs[j]].lock
    ensures Walk(m.obs, w, w[0], w[0])
  {
    forall j | 0 <= j < |cs| ensures (w[j], w[j + 1]) in m.obs {
      WaitIsObserved(k, m, w[j], cs[After(cs, j)]);
    }
  }

  /** While every lock is tracked no set of cores is in a circular wait, whatever its size. */
  lemma RunNeverDeadlocks(k: Limits, trace: seq<System>, i: nat, cs: seq<nat>)
    requires IsRun(k, trace) && i < |trace| && AllTracked(trace[i])
    ensures !CircularWait(trace[i], cs)
  {
    RunKeepsInv(k, trace, i);
    var m := trace[i];
    if CircularWait(m, cs) {
      var w := seq(|cs|, j requires 0 <= j < |cs| => m.want[cs[j]].lock) + [m.want[cs[0]].lock];
      WaitCycleIsWalk(k, m, cs, w);
      assert Path(m.obs, w[0], w[0]);
    }
  }

  /** The only lock there is, asked for by the only core, holding nothing. */
  lemma OneLock(k: Limits, nodes: seq<Lock>, l: Lock)
    requires k.maxNodes > 0 && k.maxHeld > 0 && (nodes == [] || nodes == [l])
    ensures var v := State(nodes, {}, [[]]);
            Acquire(v, 0, l, k.maxNodes, k.maxHeld) == (Accepted, State([l], {}, [[l]])) && Seen(k, v, 0, l) == {}
  {
    assert Intern(nodes, l, k.maxNodes) == [l];
    var none: seq<Lock> := [];
    assert none + [l] == [l] && [none][0 := [l]] == [[l]];
  }

  /** An interrupt between the validator's release and the store: its handler asks for the same lock, which the validator no
      longer counts as held, and the core waits for itself. So the restriction on interrupts is needed; taking the lock with
      interrupts masked gives it. */
  lemma WindowDeadlocks(k: Limits, l: Lock) returns (trace: seq<System>)
    requires k.maxNodes > 0 && k.maxHeld > 0
    ensures |trace| == 6 && Init(trace[0]) && (forall i | 0 <= i < 5 && i != 3 :: Next(k, trace[i], trace[i + 1]))
    ensures Interrupt(trace[3], trace[4], 0) && !OutsideWindow(trace[3], 0) && AllTracked(trace[5]) && CircularWait(trace[5], [0])
  {
    hide Acquire, Seen;
    OneLock(k, [], l);
    OneLock(k, [l], l);
    var m0 := System(State([], {}, [[]]), {}, map[], [Nothing], [[]]);
    var m1 := System(State([l], {}, [[l]]), {}, map[], [Waits(l)], [[]]);
    var m2 := m1.(owner := map[l := 0], want := [Nothing]);
    var m3 := System(State([l], {}, [[]]), {}, map[l := 0], [Frees(l)], [[]]);
    var m4 := m3.(want := [Nothing], stack := [[Frame(Frees(l), [])]]);
    var m5 := System(State([l], {}, [[l]]), {}, map[l := 0], [Waits(l)], [[Frame(Frees(l), [])]]);
    assert Next(k, m0, m1) by { assert Request(k, m0, m1, 0, l); }
    assert Next(k, m1, m2) by { assert Take(m1, m2, 0); }
    assert Next(k, m2, m3) by { assert Without([l], l) == [] && Forget(m2, m3, 0, l); }
    assert m3.stack[0] + [Frame(Frees(l), [])] == m4.stack[0] && m3.stack[0 := m4.stack[0]] == m4.stack && m3.want[0 := Nothing] == m4.want;
    assert Interrupt(m3, m4, 0);
    assert Next(k, m4, m5) by { assert Request(k, m4, m5, 0, l); }
    hide Next;
    trace := [m0, m1, m2, m3, m4, m5];
  }
}
