/** How many processes the ASID protocol isolates (kernel/mm/asid.c, kernel/sched/process.c): with fewer processes than ASIDs there
    is no rollover and every run is isolated; with as many, an exec can write an ASID that a rollover has taken from it. */
module AsidLimits {
  import opened Common
  import opened AsidPool
  import opened AsidMachine

  // ---------------------------------------------------------------- fewer processes than ASIDs

  ghost predicate HeldBy(m: Machine, a: nat, p: nat) { p in m.procs && m.procs[p].asid == a }

  /** No rollover yet: every set bit has its holder, and an exec writes the ASID its process has. */
  ghost predicate Early(m: Machine) {
    && m.pool.generation == 1
    && (forall p | p in m.procs && m.procs[p].asid != 0 :: m.procs[p].gen == 1)
    && (forall p | p in m.procs && m.procs[p].phase.ExecLoaded? :: m.procs[p].phase.asid == m.procs[p].asid != 0)
    && (forall a: nat | 0 < a < |m.pool.used| && m.pool.used[a] :: exists p :: HeldBy(m, a, p))
  }

  /** The holders of ASIDs 1 to `k`, one each. */
  lemma {:induction false} Holders(m: Machine, p: nat, k: nat) returns (hs: set<nat>)
    requires Early(m) && p in m.procs && m.procs[p].asid == 0 && k < |m.pool.used| && Full(m.pool.used)
    ensures hs <= m.procs.Keys - {p} && |hs| == k && forall q | q in hs :: 0 < m.procs[q].asid <= k
  {
    if k == 0 {
      hs := {};
    } else {
      var rest := Holders(m, p, k - 1);
      assert m.pool.used[k];
      var q :| HeldBy(m, k, q);
      hs := rest + {q};
    }
  }

  /** A process without an ASID finds one: there are more ASIDs than processes. */
  lemma NotFull(m: Machine, p: nat)
    requires Early(m) && WellFormed(m.pool) && p in m.procs && m.procs[p].asid == 0 && |m.procs| < |m.pool.used|
    ensures !Full(m.pool.used)
  {
    if Full(m.pool.used) {
      var hs := Holders(m, p, |m.pool.used| - 1);
      SubsetSize(hs, m.procs.Keys - {p});
    }
  }

  lemma {:induction false} SubsetSize(a: set<nat>, b: set<nat>)
    requires a <= b
    ensures |a| <= |b|
  {
    if a != {} {
      var x :| x in a;
      SubsetSize(a - {x}, b - {x});
    }
  }

  /** What a grant does while there is room: the pair stays, or the first free ASID of the first generation is taken. */
  lemma EarlyGrant(m: Machine, c: nat, p: nat)
    requires Early(m) && WellFormed(m.pool) && c < |m.pool.coreGen| && p in m.procs && |m.procs| < |m.pool.used|
    ensures var g := GetActive(m.pool, c, m.procs[p].asid, m.procs[p].gen);
            && g.gen == 1 == g.pool.generation && g.asid != 0 && |g.pool.used| == |m.pool.used|
            && (m.procs[p].asid != 0 ==> g.asid == m.procs[p].asid && g.pool.used == m.pool.used)
            && (m.procs[p].asid == 0 ==> g.asid < |m.pool.used| && !m.pool.used[g.asid] && g.pool.used == m.pool.used[g.asid := true])
  {
    if m.procs[p].asid == 0 { NotFull(m, p); }
    GrantMeaning(m.pool, c, m.procs[p].asid, m.procs[p].gen);
  }

  lemma GrantStaysEarly(m: Machine, m': Machine, c: nat, p: nat, phase: Phase)
    requires Early(m) && WellFormed(m.pool) && c < |m.pool.coreGen| && p in m.procs && |m.procs| < |m.pool.used|
    requires phase == m.procs[p].phase || !phase.ExecLoaded?
    requires var g := GetActive(m.pool, c, m.procs[p].asid, m.procs[p].gen);
             m'.pool == g.pool && m'.procs == m.procs[p := m.procs[p].(asid := g.asid, gen := g.gen, phase := phase)]
    ensures Early(m')
  {
    EarlyGrant(m, c, p);
    var g := GetActive(m.pool, c, m.procs[p].asid, m.procs[p].gen);
    hide GetActive;
    forall a: nat | 0 < a < |m'.pool.used| && m'.pool.used[a] ensures exists q :: HeldBy(m', a, q) {
      if a == g.asid {
        assert HeldBy(m', a, p);
      } else {
        var q :| HeldBy(m, a, q);
        assert HeldBy(m', a, q);
      }
    }
  }

  /** A step that grants nothing and frees nothing. */
  lemma QuietStaysEarly(m: Machine, m': Machine)
    requires Early(m) && m'.pool == m.pool && forall p | p in m.procs :: p in m'.procs
    requires forall p | p in m'.procs :: if p in m.procs then m'.procs[p].asid == m.procs[p].asid && m'.procs[p].gen == m.procs[p].gen
                                         else m'.procs[p].asid == 0
    requires forall p | p in m'.procs && m'.procs[p].phase.ExecLoaded? :: m'.procs[p].phase.asid == m'.procs[p].asid != 0
    ensures Early(m')
  {
    forall a: nat | 0 < a < |m'.pool.used| && m'.pool.used[a] ensures exists q :: HeldBy(m', a, q) {
      var q :| HeldBy(m, a, q);
      assert HeldBy(m', a, q);
    }
  }

  lemma FreeStaysEarly(m: Machine, m': Machine, p: nat)
    requires Early(m) && ExitFree(m, m', p)
    ensures Early(m')
  {
    forall a: nat | 0 < a < |m'.pool.used| && m'.pool.used[a] ensures exists q :: HeldBy(m', a, q) {
      var q :| HeldBy(m, a, q);
      assert HeldBy(m', a, q);
    }
  }

  lemma EarlyIsTimely(m: Machine, m': Machine)
    requires Early(m)
    ensures Timely(m, m')
  {
  }

  lemma StepStaysEarly(m: Machine, m': Machine)
    requires Inv(m) && Early(m) && Next(m, m') && |m.procs| < |m.pool.used|
    ensures Early(m') && |m'.pool.used| == |m.pool.used|
  {
    hide Inv, Early, GetActive;
    InvParts(m, 0);
    if c, p :| Pick(m, m', c, p) {
      EarlyGrant(m, c, p);
      GrantStaysEarly(m, m', c, p, m.procs[p].phase);
    } else if c, p :| ExecGet(m, m', c, p) {
      EarlyGrant(m, c, p);
      GrantStaysEarly(m, m', c, p, ExecGot);
    } else if p :| ExitFree(m, m', p) {
      FreeStaysEarly(m, m', p);
    } else {
      OtherStaysEarly(m, m');
    }
  }

  lemma OtherStaysEarly(m: Machine, m': Machine)
    requires Inv(m) && Early(m) && Next(m, m')
    requires (forall c, p :: !Pick(m, m', c, p) && !ExecGet(m, m', c, p)) && forall p :: !ExitFree(m, m', p)
    ensures Early(m') && m'.pool == m.pool
  {
    hide Inv, Pick, ExecGet, ExitFree;
    if c, p :| ExecLoad(m, m', c, p) { InvParts(m, c); }
    QuietStaysEarly(m, m');
  }

  lemma InvParts(m: Machine, c: nat)
    requires Inv(m)
    ensures WellFormed(m.pool) && |m.cores| == |m.pool.coreGen| && (c < |m.cores| ==> Registers(m, c))
  {
  }

  /** At most `k` processes at a time, over a pool that boot left with `n` ASIDs. */
  ghost predicate SizedRun(trace: seq<Machine>, n: nat, k: nat) {
    IsRun(trace) && trace[0].pool.used == OnlyZero(n) && forall j | 0 <= j < |trace| :: |trace[j].procs| <= k
  }

  lemma StartsEarly(m: Machine, n: nat)
    requires Init(m) && m.pool.used == OnlyZero(n)
    ensures Early(m) && Inv(m) && |m.pool.used| == n
  {
  }

  lemma {:induction false} FewStaysEarly(trace: seq<Machine>, n: nat, k: nat, i: nat)
    requires SizedRun(trace, n, k) && k < n && i < |trace|
    ensures Inv(trace[i]) && Early(trace[i]) && |trace[i].pool.used| == n
  {
    if i == 0 {
      StartsEarly(trace[0], n);
    } else {
      FewStaysEarly(trace, n, k, i - 1);
      hide Inv, Early;
      assert Next(trace[i - 1], trace[i - 1 + 1]) && |trace[i - 1].procs| <= k;
      StepStaysEarly(trace[i - 1], trace[i]);
      EarlyIsTimely(trace[i - 1], trace[i]);
      NextKeepsInv(trace[i - 1], trace[i]);
    }
  }

  /** With fewer processes than ASIDs every run is isolated, execs rescheduled anywhere included, and no rollover happens. */
  lemma FewAreIsolated(trace: seq<Machine>, n: nat, k: nat, i: nat)
    requires SizedRun(trace, n, k) && k < n && i < |trace|
    ensures Isolated(trace[i]) && DistinctAsids(trace[i]) && trace[i].pool.generation == 1
  {
    FewStaysEarly(trace, n, k, i);
    InvIsolates(trace[i]);
  }

  // ---------------------------------------------------------------- as many processes as ASIDs

  /** A core runs a process under its own tag with a TLB entry under that tag which another space left. */
  ghost predicate Foreign(m: Machine, c: nat) {
    && c < |m.cores| && m.cores[c].pending.None? && m.cores[c].running.Some? && m.cores[c].running.value in m.procs
    && var p := m.procs[m.cores[c].running.value];
       p.phase.Live? && m.cores[c].ttbr == Some(Tag(p.asid, p.space)) && exists e :: e in m.cores[c].tlb && e.asid == p.asid && e.space != p.space
  }

  lemma ForeignIsNotIsolated(m: Machine, c: nat)
    requires Foreign(m, c)
    ensures !Isolated(m)
  {
  }

  /** ASIDs 0 to `k` taken. */
  function UpTo(n: nat, k: nat): (r: seq<bool>)
    ensures |r| == n && forall i | 0 <= i < n :: r[i] == (i <= k)
  { seq(n, i => i <= k) }

  /** One core, in a run in which a rollover comes between an exec's read and its write. */
  function Late(n: nat, k: nat, gen: nat, procs: map<nat, Proc>, core: Core, next: nat): Machine {
    Machine(Pool(UpTo(n, k), gen, [gen]), procs, [core], next)
  }

  /** Process numbers stay below `n`. */
  ghost predicate LateRun(t: seq<Machine>, n: nat) {
    IsRun(t) && t[0].pool.used == OnlyZero(n) && forall j, p | 0 <= j < |t| && p in t[j].procs :: p < n
  }

  lemma LateStarts(n: nat) returns (t: seq<Machine>)
    requires n >= 2
    ensures LateRun(t, n) && t[|t| - 1] == Late(n, 0, 1, map[], Core(None, None, None, {}), 0)
  {
    assert UpTo(n, 0) == OnlyZero(n);
    t := [Late(n, 0, 1, map[], Core(None, None, None, {}), 0)];
  }

  lemma LateExtends(t: seq<Machine>, n: nat, m: Machine)
    requires LateRun(t, n) && Next(t[|t| - 1], m) && forall p | p in m.procs :: p < n
    ensures LateRun(t + [m], n)
  {
    var r := t + [m];
    forall i | 0 <= i < |r| - 1 ensures Next(r[i], r[i + 1]) {
      if i < |t| - 1 { assert r[i] == t[i] && r[i + 1] == t[i + 1]; }
    }
  }

  lemma LateMeans(t: seq<Machine>, n: nat, m: Machine)
    requires LateRun(t, n) && m == t[|t| - 1]
    ensures |t| > 0 && forall p | p in m.procs :: p < n
  {
  }

  /** Processes 0 to `k - 1`, not run yet. */
  function Newborn(k: nat): (r: map<nat, Proc>)
    ensures forall p: nat :: p in r <==> p < k
    ensures forall p | p in r :: r[p] == Proc(0, 0, p, Live)
  { map p: nat | p < k :: Proc(0, 0, p, Live) }

  lemma {:induction false} CreateAll(n: nat, k: nat) returns (t: seq<Machine>)
    requires n >= 2 && k <= n
    ensures LateRun(t, n) && t[|t| - 1] == Late(n, 0, 1, Newborn(k), Core(None, None, None, {}), k)
  {
    hide LateRun;
    if k == 0 {
      t := LateStarts(n);
      assert Newborn(0) == map[];
    } else {
      t := CreateAll(n, k - 1);
      var m := Late(n, 0, 1, Newborn(k), Core(None, None, None, {}), k);
      LateMeans(t, n, Late(n, 0, 1, Newborn(k - 1), Core(None, None, None, {}), k - 1));
      assert Newborn(k) == Newborn(k - 1)[k - 1 := Proc(0, 0, k - 1, Live)];
      assert Create(t[|t| - 1], m, k - 1);
      LateExtends(t, n, m);
      t := t + [m];
    }
  }

  lemma {:induction false} FirstFreeIs(n: nat, k: nat, from: nat)
    requires from <= n && (from <= k + 1)
    ensures Scan(UpTo(n, k), from) == if k + 1 < n then Some(k + 1) else None
    decreases n - from
  {
    if from < n && from <= k { FirstFreeIs(n, k, from + 1); }
  }

  /** Choosing a process of an older generation on the only core, without a rollover and with one. */
  lemma PickNext(n: nat, k: nat, gen: nat, procs: map<nat, Proc>, core: Core, next: nat, p: nat) returns (m': Machine)
    requires n >= 2 && k < n && core.pending.None? && p in procs && procs[p].phase != Leaving && procs[p].gen < gen
    ensures Pick(Late(n, k, gen, procs, core, next), m', 0, p)
    ensures var full := k + 1 == n;
            var (a, g) := if full then (1, gen + 1) else (k + 1, gen);
            m' == Late(n, a, g, procs[p := procs[p].(asid := a, gen := g)],
                       core.(pending := Some(Chosen(p, Tag(a, procs[p].space))), tlb := if full then {} else core.tlb), next)
  {
    var m := Late(n, k, gen, procs, core, next);
    FirstFreeIs(n, k, 0);
    var g := GetActive(m.pool, 0, procs[p].asid, procs[p].gen);
    var cores := AfterGrant(m.cores, g, 0);
    assert [gen][0 := gen] == [gen] && [gen][0 := gen + 1] == [gen + 1];
    assert g.broadcast ==> OnlyZero(n)[1 := true] == UpTo(n, 1);
    assert !g.broadcast ==> UpTo(n, k)[k + 1 := true] == UpTo(n, k + 1);
    assert cores == [core.(tlb := if g.broadcast then {} else core.tlb)];
    m' := Machine(g.pool, procs[p := procs[p].(asid := g.asid, gen := g.gen)],
                  cores[0 := cores[0].(pending := Some(Chosen(p, Tag(g.asid, procs[p].space))))], next);
  }

  lemma NextPick(m: Machine, m': Machine, c: nat, p: nat)
    requires Pick(m, m', c, p)
    ensures Next(m, m')
  {
  }

  lemma NextInstall(m: Machine, m': Machine)
    requires Install(m, m', 0)
    ensures Next(m, m')
  {
  }

  /** What a chosen process becomes once installed. */
  lemma InstallNext(t: seq<Machine>, n: nat, k: nat, gen: nat, procs: map<nat, Proc>, core: Core, next: nat) returns (r: seq<Machine>)
    requires LateRun(t, n) && t[|t| - 1] == Late(n, k, gen, procs, core, next) && core.pending.Some?
    ensures var ch := core.pending.value;
            LateRun(r, n) && r[|r| - 1] == Late(n, k, gen, procs, Core(Some(ch.proc), Some(ch.tag), None, core.tlb), next)
  {
    hide LateRun;
    LateMeans(t, n, Late(n, k, gen, procs, core, next));
    var ch := core.pending.value;
    var m := Late(n, k, gen, procs, Core(Some(ch.proc), Some(ch.tag), None, core.tlb), next);
    NextInstall(t[|t| - 1], m);
    LateExtends(t, n, m);
    r := t + [m];
  }

  /** A process is chosen and installed. */
  lemma RunNext(t: seq<Machine>, n: nat, k: nat, gen: nat, procs: map<nat, Proc>, core: Core, next: nat, p: nat) returns (r: seq<Machine>)
    requires LateRun(t, n) && t[|t| - 1] == Late(n, k, gen, procs, core, next)
    requires n >= 2 && k < n && core.pending.None? && p in procs && procs[p].phase != Leaving && procs[p].gen < gen
    ensures var full := k + 1 == n;
            var (a, g) := if full then (1, gen + 1) else (k + 1, gen);
            && LateRun(r, n)
            && r[|r| - 1] == Late(n, a, g, procs[p := procs[p].(asid := a, gen := g)],
                                  Core(Some(p), Some(Tag(a, procs[p].space)), None, if full then {} else core.tlb), next)
  {
    hide LateRun, Pick, Late;
    LateMeans(t, n, Late(n, k, gen, procs, core, next));
    var (a, g) := if k + 1 == n then (1, gen + 1) else (k + 1, gen);
    var m := PickNext(n, k, gen, procs, core, next, p);
    NextPick(t[|t| - 1], m, 0, p);
    LateProcs(n, k, gen, procs, core, next);
    LateProcs(n, a, g, m.procs, core, next);
    var picked := core.(pending := Some(Chosen(p, Tag(a, procs[p].space))), tlb := if k + 1 == n then {} else core.tlb);
    LateProcs(n, a, g, procs[p := procs[p].(asid := a, gen := g)], picked, next);
    LateExtends(t, n, m);
    r := InstallNext(t + [m], n, a, g, procs[p := procs[p].(asid := a, gen := g)], picked, next);
  }

  lemma LateProcs(n: nat, k: nat, gen: nat, procs: map<nat, Proc>, core: Core, next: nat)
    ensures Late(n, k, gen, procs, core, next).procs == procs
  {
  }

  /** The running process begins an exec and reads its ASID. */
  lemma ExecNext(t: seq<Machine>, n: nat, k: nat, procs: map<nat, Proc>, core: Core, next: nat, p: nat) returns (r: seq<Machine>)
    requires LateRun(t, n) && t[|t| - 1] == Late(n, k, 1, procs, core, next) && n >= 2
    requires core.pending.None? && core.running == Some(p) && p in procs && procs[p].phase == Live && procs[p].gen == 1 && procs[p].asid != 0
    ensures LateRun(r, n)
    ensures r[|r| - 1] == Late(n, k, 1, procs[p := procs[p].(space := next, phase := ExecLoaded(procs[p].asid))], core, next + 1)
  {
    LateMeans(t, n, t[|t| - 1]);
    var m := t[|t| - 1];
    var m1 := Late(n, k, 1, procs[p := procs[p].(space := next, phase := ExecSwapped)], core, next + 1);
    var m2 := Late(n, k, 1, procs[p := procs[p].(space := next, phase := ExecGot)], core, next + 1);
    var m3 := Late(n, k, 1, procs[p := procs[p].(space := next, phase := ExecLoaded(procs[p].asid))], core, next + 1);
    assert ExecSwap(m, m1, 0, p);
    var g := GetActive(m1.pool, 0, procs[p].asid, 1);
    assert [1][0 := 1] == [1] && AfterGrant(m1.cores, g, 0) == m1.cores;
    assert ExecGet(m1, m2, 0, p) && ExecLoad(m2, m3, 0, p);
    hide LateRun;
    LateExtends(t, n, m1);
    LateExtends(t + [m1], n, m2);
    LateExtends(t + [m1] + [m2], n, m3);
    r := t + [m1] + [m2] + [m3];
  }

  /** Processes 1 to `k - 1` have run and taken ASIDs 2 to `k`; process 0 is in the middle of its exec. */
  function Filled(n: nat, k: nat): (r: map<nat, Proc>)
    ensures forall p: nat :: p in r <==> p < n
    ensures forall p | p in r :: r[p] == if p == 0 then Proc(1, 1, n, ExecLoaded(1)) else if p < k then Proc(p + 1, 1, p, Live) else Proc(0, 0, p, Live)
  { map p: nat | p < n :: if p == 0 then Proc(1, 1, n, ExecLoaded(1)) else if p < k then Proc(p + 1, 1, p, Live) else Proc(0, 0, p, Live) }

  lemma {:induction false} FillAll(n: nat, k: nat) returns (t: seq<Machine>, core: Core)
    requires n >= 3 && 1 <= k < n
    ensures LateRun(t, n) && core.pending.None? && t[|t| - 1] == Late(n, k, 1, Filled(n, k), core, n + 1)
  {
    hide LateRun, Late;
    if k == 1 {
      var idle := Core(None, None, None, {});
      t := CreateAll(n, n);
      t := RunNext(t, n, 0, 1, Newborn(n), idle, n, 0);
      core := Core(Some(0), Some(Tag(1, 0)), None, {});
      var ps := Newborn(n)[0 := Proc(1, 1, 0, Live)];
      t := ExecNext(t, n, 1, ps, core, n, 0);
      assert ps[0 := Proc(1, 1, n, ExecLoaded(1))] == Filled(n, 1);
    } else {
      t, core := FillAll(n, k - 1);
      t := RunNext(t, n, k - 1, 1, Filled(n, k - 1), core, n + 1, k - 1);
      assert Filled(n, k - 1)[k - 1 := Proc(k, 1, k - 1, Live)] == Filled(n, k);
      core := Core(Some(k - 1), Some(Tag(k, k - 1)), None, core.tlb);
    }
  }

  /** The late write: TTBR0 gets ASID 1, which the last process holds by now, and the next access leaves an entry under it. */
  lemma LateWrite(t: seq<Machine>, n: nat, ps: map<nat, Proc>) returns (r: seq<Machine>)
    requires n >= 3 && 0 in ps && ps[0] == Proc(2, 2, n, ExecLoaded(1))
    requires LateRun(t, n) && t[|t| - 1] == Late(n, 2, 2, ps, Core(Some(0), Some(Tag(2, n)), None, {}), n + 1)
    ensures LateRun(r, n)
    ensures r[|r| - 1] == Late(n, 2, 2, ps[0 := Proc(2, 2, n, Live)], Core(Some(0), Some(Tag(1, n)), None, {Tag(1, n)}), n + 1)
  {
    LateMeans(t, n, t[|t| - 1]);
    var m := t[|t| - 1];
    var k := Core(Some(0), Some(Tag(1, n)), None, {});
    var m1 := Late(n, 2, 2, ps[0 := Proc(2, 2, n, ExecInstalled)], k, n + 1);
    var m2 := Late(n, 2, 2, ps[0 := Proc(2, 2, n, ExecReady(2))], k, n + 1);
    var m3 := Late(n, 2, 2, ps[0 := Proc(2, 2, n, Live)], k, n + 1);
    var m4 := Late(n, 2, 2, ps[0 := Proc(2, 2, n, Live)], k.(tlb := {Tag(1, n)}), n + 1);
    assert ExecInstall(m, m1, 0, 0) && ExecRead(m1, m2, 0, 0);
    assert WithoutAsid(m2.cores, 2) == m2.cores by { assert (set e | e in k.tlb && e.asid != 2) == k.tlb; }
    assert ExecFlush(m2, m3, 0, 0);
    assert {} + {Tag(1, n)} == {Tag(1, n)} && Access(m3, m4, 0);
    hide LateRun;
    LateExtends(t, n, m1);
    LateExtends(t + [m1], n, m2);
    LateExtends(t + [m1] + [m2], n, m3);
    LateExtends(t + [m1] + [m2] + [m3], n, m4);
    r := t + [m1] + [m2] + [m3] + [m4];
  }

  /** A process whose pair is current is chosen: nothing is flushed. */
  lemma PickAgain(t: seq<Machine>, n: nat, ps: map<nat, Proc>, core: Core, next: nat, q: nat, s: nat) returns (r: seq<Machine>)
    requires n >= 3 && q in ps && ps[q] == Proc(1, 2, s, Live) && core.pending.None?
    requires LateRun(t, n) && t[|t| - 1] == Late(n, 2, 2, ps, core, next)
    ensures LateRun(r, n) && r[|r| - 1] == Late(n, 2, 2, ps, Core(Some(q), Some(Tag(1, s)), None, core.tlb), next)
  {
    LateMeans(t, n, t[|t| - 1]);
    var m := t[|t| - 1];
    var picked := core.(pending := Some(Chosen(q, Tag(1, s))));
    var m' := Late(n, 2, 2, ps, picked, next);
    var g := GetActive(m.pool, 0, 1, 2);
    assert [2][0 := 2] == [2] && AfterGrant(m.cores, g, 0) == m.cores && ps[q := ps[q].(asid := 1, gen := 2)] == ps;
    assert Pick(m, m', 0, q);
    NextPick(m, m', 0, q);
    hide LateRun, Late, Pick;
    LateProcs(n, 2, 2, ps, picked, next);
    LateProcs(n, 2, 2, ps, core, next);
    LateExtends(t, n, m');
    r := InstallNext(t + [m'], n, 2, 2, ps, picked, next);
  }

  /** The failing run, for any number of ASIDs from 3 on and as many processes: process 0 is rescheduled between its exec's read of
      ASID 1 and the write; the others use the ASIDs up; the last one rolls the generation over and gets 1; process 0 comes back
      with 2, its exec writes 1 and it runs; then the last process runs under 1 with an entry that process 0 left there. */
  lemma LateWriteReachable(n: nat) returns (t: seq<Machine>)
    requires n >= 3
    ensures LateRun(t, n) && Foreign(t[|t| - 1], 0)
  {
    hide LateRun, Late;
    var core;
    t, core := FillAll(n, n - 1);
    t := RunNext(t, n, n - 1, 1, Filled(n, n - 1), core, n + 1, n - 1);
    var ps1 := Filled(n, n - 1)[n - 1 := Proc(1, 2, n - 1, Live)];
    var k1 := Core(Some(n - 1), Some(Tag(1, n - 1)), None, {});
    t := RunNext(t, n, 1, 2, ps1, k1, n + 1, 0);
    var ps2 := ps1[0 := Proc(2, 2, n, ExecLoaded(1))];
    t := LateWrite(t, n, ps2);
    var ps3 := ps2[0 := Proc(2, 2, n, Live)];
    var k3 := Core(Some(0), Some(Tag(1, n)), None, {Tag(1, n)});
    t := PickAgain(t, n, ps3, k3, n + 1, n - 1, n - 1);
    ForeignHere(n, ps3, Core(Some(n - 1), Some(Tag(1, n - 1)), None, {Tag(1, n)}));
  }

  lemma ForeignHere(n: nat, ps: map<nat, Proc>, core: Core)
    requires n >= 3 && n - 1 in ps && ps[n - 1] == Proc(1, 2, n - 1, Live) && core == Core(Some(n - 1), Some(Tag(1, n - 1)), None, {Tag(1, n)})
    ensures Foreign(Late(n, 2, 2, ps, core, n + 1), 0)
  {
    assert Tag(1, n) in core.tlb;
  }

  /** Numbers below `n` are at most `n`. */
  lemma {:induction false} Numbered(ps: set<nat>, n: nat)
    requires forall p | p in ps :: p < n
    ensures |ps| <= n
  {
    if n > 0 {
      Numbered(ps - {n - 1}, n - 1);
    } else {
      assert ps == {};
    }
  }

  /** Exactly when the protocol isolates: with `n` ASIDs, `n` at least 3, all runs of at most `k` processes at a time are isolated
      if and only if `k < n`. */
  lemma IsolatedIffFewer(n: nat, k: nat)
    requires n >= 3
    ensures (forall trace, i | SizedRun(trace, n, k) && 0 <= i < |trace| :: Isolated(trace[i])) <==> k < n
  {
    if k < n {
      forall trace, i | SizedRun(trace, n, k) && 0 <= i < |trace| ensures Isolated(trace[i]) { FewAreIsolated(trace, n, k, i); }
    } else {
      var t := LateWriteReachable(n);
      forall j | 0 <= j < |t| ensures |t[j].procs| <= k { Numbered(t[j].procs.Keys, n); }
      assert SizedRun(t, n, k);
      ForeignIsNotIsolated(t[|t| - 1], 0);
    }
  }
}
