/** Address-space isolation across cores: the ASID protocol with one TLB per core
    (kernel/mm/asid.c, the scheduler's use of it, exec and process exit). */
module AsidMachine {
  import opened Common
  import opened AsidPool

  /** A TLB entry or a TTBR0 value: an ASID and the address space it translates for. */
  datatype Tag = Tag(asid: nat, space: nat)

  /** Where a process is between ordinary running, the stages of exec, and exit. `ExecLoaded` has read the ASID it will write to
      TTBR0, `ExecReady` the one it will flush; exec runs with interrupts on, so the process may be rescheduled in between. */
  datatype Phase = Live | ExecSwapped | ExecGot | ExecLoaded(asid: nat) | ExecInstalled | ExecReady(asid: nat) | Leaving

  datatype Proc = Proc(asid: nat, gen: nat, space: nat, phase: Phase)

  /** A process the scheduler has chosen and whose TTBR0 value it has computed but not yet written. */
  datatype Chosen = Chosen(proc: nat, tag: Tag)

  datatype Core = Core(running: Option<nat>, ttbr: Option<Tag>, pending: Option<Chosen>, tlb: set<Tag>)

  datatype Machine = Machine(pool: Pool, procs: map<nat, Proc>, cores: seq<Core>, nextSpace: nat)

  predicate MidExec(p: Proc) {
    p.phase.ExecSwapped? || p.phase.ExecGot? || p.phase.ExecLoaded? || p.phase.ExecInstalled? || p.phase.ExecReady?
  }

  /** Until its flush an exec may find entries of the old image under its ASID, at the end only under the one it will flush. */
  predicate Licence(p: Proc, asid: nat) { MidExec(p) && (p.phase.ExecReady? ==> asid == p.phase.asid) }

  predicate OnCore(m: Machine, c: nat, p: nat)
    requires c < |m.cores|
  {
    m.cores[c].running == Some(p) || (m.cores[c].pending.Some? && m.cores[c].pending.value.proc == p)
  }

  /** The cores after a grant to core `c`: a broadcast empties every TLB, catching up empties its own. */
  function AfterGrant(cores: seq<Core>, g: Grant, c: nat): (r: seq<Core>)
    ensures |r| == |cores|
  {
    seq(|cores|, i requires 0 <= i < |cores| =>
      if g.broadcast || (i == c && g.localFlush) then cores[i].(tlb := {}) else cores[i])
  }

  /** `tlbi aside1is`: every core drops its entries under one ASID. */
  function WithoutAsid(cores: seq<Core>, asid: nat): (r: seq<Core>)
    ensures |r| == |cores|
  {
    seq(|cores|, i requires 0 <= i < |cores| =>
      cores[i].(tlb := set e | e in cores[i].tlb && e.asid != asid))
  }

  ghost predicate Init(m: Machine) {
    && WellFormed(m.pool) && |m.cores| == |m.pool.coreGen| && m.pool.generation == 1 && m.procs == map[]
    && forall c | 0 <= c < |m.cores| :: m.cores[c] == Core(None, None, None, {})
  }

  // ---------------------------------------------------------------- the steps

  /** Process creation and fork start with no ASID and an address space of their own. */
  ghost predicate Create(m: Machine, m': Machine, p: nat) {
    && p !in m.procs
    && m' == m.(procs := m.procs[p := Proc(0, 0, m.nextSpace, Live)], nextSpace := m.nextSpace + 1)
  }

  /** A user access fills the TLB under whatever TTBR0 holds. */
  ghost predicate Access(m: Machine, m': Machine, c: nat) {
    && c < |m.cores| && m.cores[c].pending.None? && m.cores[c].running.Some?
    && m.cores[c].running.value in m.procs && m.procs[m.cores[c].running.value].phase.Live?
    && m.cores[c].ttbr.Some?
    && m' == m.(cores := m.cores[c := m.cores[c].(tlb := m.cores[c].tlb + {m.cores[c].ttbr.value})])
  }

  /** The scheduler chooses a user process and computes its TTBR0; the process is on no other core. */
  ghost predicate Pick(m: Machine, m': Machine, c: nat, p: nat) {
    && c < |m.cores| && c < |m.pool.coreGen| && WellFormed(m.pool)
    && m.cores[c].pending.None? && p in m.procs && !m.procs[p].phase.Leaving?
    && (forall d | 0 <= d < |m.cores| && d != c :: !OnCore(m, d, p))
    && var g := GetActive(m.pool, c, m.procs[p].asid, m.procs[p].gen);
       var cores := AfterGrant(m.cores, g, c);
       m' == Machine(g.pool, m.procs[p := m.procs[p].(asid := g.asid, gen := g.gen)],
                     cores[c := cores[c].(pending := Some(Chosen(p, Tag(g.asid, m.procs[p].space))))],
                     m.nextSpace)
  }

  /** ... and then writes it and switches to the process. */
  ghost predicate Install(m: Machine, m': Machine, c: nat) {
    && c < |m.cores| && m.cores[c].pending.Some?
    && var ch := m.cores[c].pending.value;
       m' == m.(cores := m.cores[c := Core(Some(ch.proc), Some(ch.tag), None, m.cores[c].tlb)])
  }

  /** A kernel or idle task, or a process without an address space, runs on the empty table. */
  ghost predicate PickKernel(m: Machine, m': Machine, c: nat) {
    && c < |m.cores| && m.cores[c].pending.None?
    && m' == m.(cores := m.cores[c := m.cores[c].(running := None, ttbr := None)])
  }

  ghost predicate RunsHere(m: Machine, c: nat, p: nat, phase: Phase) {
    && c < |m.cores| && m.cores[c].pending.None? && m.cores[c].running == Some(p)
    && p in m.procs && m.procs[p].phase == phase
  }

  /** exec publishes the new page table ... */
  ghost predicate ExecSwap(m: Machine, m': Machine, c: nat, p: nat) {
    && RunsHere(m, c, p, Live)
    && m' == m.(procs := m.procs[p := m.procs[p].(space := m.nextSpace, phase := ExecSwapped)],
                nextSpace := m.nextSpace + 1)
  }

  /** ... makes sure its ASID is current ... */
  ghost predicate ExecGet(m: Machine, m': Machine, c: nat, p: nat) {
    && RunsHere(m, c, p, ExecSwapped) && c < |m.pool.coreGen| && WellFormed(m.pool)
    && var g := GetActive(m.pool, c, m.procs[p].asid, m.procs[p].gen);
       m' == Machine(g.pool, m.procs[p := m.procs[p].(asid := g.asid, gen := g.gen, phase := ExecGot)],
                     AfterGrant(m.cores, g, c), m.nextSpace)
  }

  /** ... reads it for TTBR0 ... */
  ghost predicate ExecLoad(m: Machine, m': Machine, c: nat, p: nat) {
    && RunsHere(m, c, p, ExecGot)
    && m' == m.(procs := m.procs[p := m.procs[p].(phase := ExecLoaded(m.procs[p].asid))])
  }

  /** ... writes TTBR0 with what it read ... */
  ghost predicate ExecInstall(m: Machine, m': Machine, c: nat, p: nat) {
    && c < |m.cores| && m.cores[c].pending.None? && m.cores[c].running == Some(p) && p in m.procs && m.procs[p].phase.ExecLoaded?
    && m' == m.(procs := m.procs[p := m.procs[p].(phase := ExecInstalled)],
                cores := m.cores[c := m.cores[c].(ttbr := Some(Tag(m.procs[p].phase.asid, m.procs[p].space)))])
  }

  /** The ASID an exec writes is still the process's: no rollover has replaced it since it was read. */
  ghost predicate Timely(m: Machine, m': Machine) {
    forall c, p | ExecInstall(m, m', c, p) :: m.procs[p].asid == m.procs[p].phase.asid
  }

  /** ... reads its ASID once more ... */
  ghost predicate ExecRead(m: Machine, m': Machine, c: nat, p: nat) {
    && RunsHere(m, c, p, ExecInstalled)
    && m' == m.(procs := m.procs[p := m.procs[p].(phase := ExecReady(m.procs[p].asid))])
  }

  /** ... and drops what the old image left under it, though by now a rollover may have given the process another. */
  ghost predicate ExecFlush(m: Machine, m': Machine, c: nat, p: nat) {
    && c < |m.cores| && m.cores[c].pending.None? && m.cores[c].running == Some(p) && p in m.procs && m.procs[p].phase.ExecReady?
    && m' == m.(procs := m.procs[p := m.procs[p].(phase := Live)],
                cores := WithoutAsid(m.cores, m.procs[p].phase.asid))
  }

  /** Exit leaves the address space before giving its ASID back ... */
  ghost predicate ExitLeave(m: Machine, m': Machine, c: nat, p: nat) {
    && RunsHere(m, c, p, Live)
    && m' == m.(procs := m.procs[p := m.procs[p].(phase := Leaving)],
                cores := m.cores[c := m.cores[c].(running := None, ttbr := None)])
  }

  /** ... which also invalidates it everywhere when it is of the current generation. */
  ghost predicate ExitFree(m: Machine, m': Machine, p: nat) {
    && p in m.procs && m.procs[p].phase.Leaving?
    && WellFormed(m.pool) && m.procs[p].asid < |m.pool.used|
    && var a := m.procs[p].asid;
       m' == m.(pool := Release(m.pool, a, m.procs[p].gen), procs := m.procs - {p},
                cores := if m.procs[p].gen == m.pool.generation && a != 0
                         then WithoutAsid(m.cores, a) else m.cores)
  }

  ghost predicate Next(m: Machine, m': Machine) {
    || (exists p :: Create(m, m', p))
    || (exists c :: Access(m, m', c) || Install(m, m', c) || PickKernel(m, m', c))
    || (exists c, p :: Pick(m, m', c, p))
    || (exists c, p :: ExecSwap(m, m', c, p) || ExecGet(m, m', c, p) || ExecLoad(m, m', c, p))
    || (exists c, p :: ExecInstall(m, m', c, p) || ExecRead(m, m', c, p) || ExecFlush(m, m', c, p))
    || (exists c, p :: ExitLeave(m, m', c, p))
    || (exists p :: ExitFree(m, m', p))
  }

  ghost predicate IsRun(trace: seq<Machine>) {
    |trace| > 0 && Init(trace[0]) && forall i | 0 <= i < |trace| - 1 :: Next(trace[i], trace[i + 1])
  }

  // ---------------------------------------------------------------- what holds

  /** A core running a process at user level translates for that process's space only: TTBR0 names it and no
      TLB entry under its ASID came from elsewhere. */
  ghost predicate Isolated(m: Machine) {
    forall c | 0 <= c < |m.cores| && m.cores[c].pending.None? && m.cores[c].running.Some? ::
      var p := m.cores[c].running.value;
      p in m.procs && (m.procs[p].phase.Live? ==>
        && m.cores[c].ttbr == Some(Tag(m.procs[p].asid, m.procs[p].space)) && m.procs[p].asid != 0
        && forall e | e in m.cores[c].tlb && e.asid == m.procs[p].asid :: e.space == m.procs[p].space)
  }

  /** Processes holding an ASID of the current generation hold distinct, non-zero, allocated ones. */
  ghost predicate DistinctAsids(m: Machine) {
    && (forall p | p in m.procs :: m.procs[p].gen <= m.pool.generation && m.procs[p].asid < |m.pool.used|)
    && (forall p | p in m.procs && Current(m, p) :: m.pool.used[m.procs[p].asid])
    && (forall p, q | p in m.procs && q in m.procs && p != q && Current(m, p) && Current(m, q) ::
          m.procs[p].asid != m.procs[q].asid)
  }

  ghost predicate Current(m: Machine, p: nat)
    requires p in m.procs
  {
    m.procs[p].gen == m.pool.generation && m.procs[p].asid != 0
  }

  /** A process is on at most one core, and only a process that has not begun to leave. */
  ghost predicate Placed(m: Machine) {
    && (forall c, p | 0 <= c < |m.cores| && OnCore(m, c, p) :: p in m.procs && !m.procs[p].phase.Leaving?)
    && (forall c, d, p | 0 <= c < |m.cores| && 0 <= d < |m.cores| && c != d && OnCore(m, c, p) :: !OnCore(m, d, p))
  }

  ghost predicate Registers(m: Machine, c: nat)
    requires c < |m.cores| && c < |m.pool.coreGen|
  {
    var k := m.cores[c];
    && (k.pending.Some? ==>
          k.pending.value.proc in m.procs
          && var p := m.procs[k.pending.value.proc];
             k.pending.value.tag == Tag(p.asid, p.space) && p.gen == m.pool.coreGen[c] && p.asid != 0)
    && (k.pending.None? && k.running.Some? ==>
          k.running.value in m.procs
          && var p := m.procs[k.running.value];
             && k.ttbr.Some? && p.gen == m.pool.coreGen[c] && p.asid != 0
             && (p.phase.Live? || p.phase.ExecInstalled? || p.phase.ExecReady? ==> k.ttbr.value == Tag(p.asid, p.space)))
  }

  /** A TLB of a caught-up core: every entry belongs to the current holder of its ASID. */
  ghost predicate Owned(m: Machine, e: Tag) {
    exists p :: p in m.procs && Current(m, p) && m.procs[p].asid == e.asid
                && (m.procs[p].space == e.space || Licence(m.procs[p], e.asid))
  }

  /** A TLB of a core that is behind: whatever it holds was filled under the TTBR0 still installed. */
  ghost predicate StaleTlb(m: Machine, c: nat)
    requires c < |m.cores|
  {
    var k := m.cores[c];
    && (k.pending.Some? ==> k.tlb == {})
    && (k.pending.None? && k.ttbr.Some? ==> forall e | e in k.tlb :: e == k.ttbr.value)
    && (k.pending.None? && k.running.Some? && k.running.value in m.procs ==>
          var phase := m.procs[k.running.value].phase;
          phase.ExecGot? || phase.ExecLoaded? || phase.ExecInstalled? || phase.ExecReady? ==> k.tlb == {})
  }

  ghost predicate TlbInv(m: Machine, c: nat)
    requires c < |m.cores| && c < |m.pool.coreGen|
  {
    if m.pool.coreGen[c] == m.pool.generation then forall e | e in m.cores[c].tlb :: Owned(m, e)
    else StaleTlb(m, c)
  }

  ghost predicate Inv(m: Machine) {
    && WellFormed(m.pool) && |m.cores| == |m.pool.coreGen|
    && DistinctAsids(m) && Placed(m)
    && (forall c | 0 <= c < |m.cores| :: Registers(m, c) && TlbInv(m, c))
  }

  // ---------------------------------------------------------------- proofs

  /** What a caught-up TLB holds under the running process's ASID is that process's. */
  lemma InvIsolates(m: Machine)
    requires Inv(m)
    ensures Isolated(m)
  {
    forall c | 0 <= c < |m.cores| && m.cores[c].pending.None? && m.cores[c].running.Some?
      ensures var p := m.cores[c].running.value;
              p in m.procs && (m.procs[p].phase.Live? ==>
                && m.cores[c].ttbr == Some(Tag(m.procs[p].asid, m.procs[p].space)) && m.procs[p].asid != 0
                && forall e | e in m.cores[c].tlb && e.asid == m.procs[p].asid :: e.space == m.procs[p].space)
    {
      assert Registers(m, c) && TlbInv(m, c);
      var p := m.cores[c].running.value;
      if m.procs[p].phase.Live? {
        forall e | e in m.cores[c].tlb && e.asid == m.procs[p].asid
          ensures e.space == m.procs[p].space
        {
          if m.pool.coreGen[c] == m.pool.generation {
            assert Owned(m, e);
            assert Current(m, p);
          }
        }
      }
    }
  }

  /** After a grant the holders of the current generation still differ. */
  lemma GrantKeepsDistinct(m: Machine, m': Machine, c: nat, p: nat, g: Grant, phase: Phase)
    requires Inv(m) && c < |m.cores| && p in m.procs
    requires g == GetActive(m.pool, c, m.procs[p].asid, m.procs[p].gen)
    requires m'.pool == g.pool && m'.procs == m.procs[p := m.procs[p].(asid := g.asid, gen := g.gen, phase := phase)]
    ensures DistinctAsids(m') && WellFormed(m'.pool) && Current(m', p)
  {
    GrantMeaning(m.pool, c, m.procs[p].asid, m.procs[p].gen);
  }

  /** The TLB half of a grant: other cores fall behind exactly when everything was flushed. */
  lemma GrantKeepsTlb(m: Machine, m': Machine, c: nat, p: nat, g: Grant, phase: Phase, d: nat)
    requires Inv(m) && c < |m.cores| && d < |m.cores| && p in m.procs && phase != Leaving
    requires m.procs[p].phase == phase || (m.procs[p].phase == ExecSwapped && phase == ExecGot)
    requires g == GetActive(m.pool, c, m.procs[p].asid, m.procs[p].gen)
    requires m'.pool == g.pool && m'.procs == m.procs[p := m.procs[p].(asid := g.asid, gen := g.gen, phase := phase)]
    requires |m'.cores| == |m.cores| && m'.cores[d].tlb == AfterGrant(m.cores, g, c)[d].tlb
    requires d != c ==> m'.cores[d] == AfterGrant(m.cores, g, c)[d] && !OnCore(m, d, p)
    ensures |m'.pool.coreGen| == |m.cores| && TlbInv(m', d)
  {
    GrantMeaning(m.pool, c, m.procs[p].asid, m.procs[p].gen);
    GrantKeepsDistinct(m, m', c, p, g, phase);
    assert TlbInv(m, d);
    if m'.pool.coreGen[d] == m'.pool.generation {
      forall e | e in m'.cores[d].tlb ensures Owned(m', e) {
        assert !g.broadcast;
        assert Owned(m, e);
        var q :| q in m.procs && Current(m, q) && m.procs[q].asid == e.asid
                 && (m.procs[q].space == e.space || Licence(m.procs[q], e.asid));
        assert Current(m', q);
      }
    }
  }

  lemma StepPick(m: Machine, m': Machine, c: nat, p: nat)
    requires Inv(m) && Pick(m, m', c, p)
    ensures Inv(m')
  {
    var g := GetActive(m.pool, c, m.procs[p].asid, m.procs[p].gen);
    GrantMeaning(m.pool, c, m.procs[p].asid, m.procs[p].gen);
    GrantKeepsDistinct(m, m', c, p, g, m.procs[p].phase);
    forall d | 0 <= d < |m'.cores| ensures Registers(m', d) && TlbInv(m', d) {
      assert Registers(m, d);
      GrantKeepsTlb(m, m', c, p, g, m.procs[p].phase, d);
    }
    assert forall d, q | 0 <= d < |m'.cores| && OnCore(m', d, q) :: OnCore(m, d, q) || (d == c && q == p);
  }

  lemma StepExecGet(m: Machine, m': Machine, c: nat, p: nat)
    requires Inv(m) && ExecGet(m, m', c, p)
    ensures Inv(m')
  {
    var g := GetActive(m.pool, c, m.procs[p].asid, m.procs[p].gen);
    GrantMeaning(m.pool, c, m.procs[p].asid, m.procs[p].gen);
    GrantKeepsDistinct(m, m', c, p, g, ExecGot);
    assert OnCore(m, c, p);
    forall d | 0 <= d < |m'.cores| ensures Registers(m', d) && TlbInv(m', d) {
      assert Registers(m, d);
      assert d != c ==> !OnCore(m, d, p);
      GrantKeepsTlb(m, m', c, p, g, ExecGot, d);
    }
    assert forall d, q | 0 <= d < |m'.cores| && OnCore(m', d, q) :: OnCore(m, d, q);
  }

  /** Ownership survives a change to one process that keeps its ASID and either its space or exec's licence. */
  lemma OwnedAfter(m: Machine, m': Machine, p: nat, e: Tag)
    requires p in m.procs && p in m'.procs && m'.pool == m.pool && m'.procs.Keys >= m.procs.Keys
    requires forall q | q in m.procs && q != p :: m'.procs[q] == m.procs[q]
    requires m'.procs[p].asid == m.procs[p].asid && m'.procs[p].gen == m.procs[p].gen
    requires (e.asid == m.procs[p].asid ==> Licence(m'.procs[p], e.asid))
             || (m'.procs[p].space == m.procs[p].space && !Licence(m.procs[p], e.asid))
    requires Owned(m, e)
    ensures Owned(m', e)
  {
    var q :| q in m.procs && Current(m, q) && m.procs[q].asid == e.asid
             && (m.procs[q].space == e.space || Licence(m.procs[q], e.asid));
    assert Current(m', q);
  }

  lemma StepExecSwap(m: Machine, m': Machine, c: nat, p: nat)
    requires Inv(m) && ExecSwap(m, m', c, p)
    ensures Inv(m')
  {
    assert OnCore(m, c, p);
    assert forall d, q | 0 <= d < |m'.cores| :: OnCore(m', d, q) == OnCore(m, d, q);
    assert forall q | q in m.procs :: Current(m', q) == Current(m, q);
    forall d | 0 <= d < |m'.cores| ensures Registers(m', d) && TlbInv(m', d) {
      assert Registers(m, d) && TlbInv(m, d);
      assert d != c ==> !OnCore(m, d, p);
      if m.pool.coreGen[d] == m.pool.generation {
        forall e | e in m'.cores[d].tlb ensures Owned(m', e) { OwnedAfter(m, m', p, e); }
      }
    }
  }

  lemma StepExecInstall(m: Machine, m': Machine, c: nat, p: nat)
    requires Inv(m) && ExecInstall(m, m', c, p) && Timely(m, m')
    ensures Inv(m')
  {
    assert OnCore(m, c, p);
    assert forall d, q | 0 <= d < |m'.cores| :: OnCore(m', d, q) == OnCore(m, d, q);
    assert forall q | q in m.procs :: Current(m', q) == Current(m, q);
    forall d | 0 <= d < |m'.cores| ensures Registers(m', d) && TlbInv(m', d) {
      assert Registers(m, d) && TlbInv(m, d);
      assert d != c ==> !OnCore(m, d, p);
      if m.pool.coreGen[d] == m.pool.generation {
        forall e | e in m'.cores[d].tlb ensures Owned(m', e) { OwnedAfter(m, m', p, e); }
      }
    }
  }

  lemma StepExecLoad(m: Machine, m': Machine, c: nat, p: nat)
    requires Inv(m) && ExecLoad(m, m', c, p)
    ensures Inv(m')
  {
    assert OnCore(m, c, p);
    assert forall d, q | 0 <= d < |m'.cores| :: OnCore(m', d, q) == OnCore(m, d, q);
    assert forall q | q in m.procs :: Current(m', q) == Current(m, q);
    forall d | 0 <= d < |m'.cores| ensures Registers(m', d) && TlbInv(m', d) {
      assert Registers(m, d) && TlbInv(m, d);
      assert d != c ==> !OnCore(m, d, p);
      if m.pool.coreGen[d] == m.pool.generation {
        forall e | e in m'.cores[d].tlb ensures Owned(m', e) { OwnedAfter(m, m', p, e); }
      }
    }
  }

  lemma StepExecRead(m: Machine, m': Machine, c: nat, p: nat)
    requires Inv(m) && ExecRead(m, m', c, p)
    ensures Inv(m')
  {
    assert OnCore(m, c, p);
    assert forall d, q | 0 <= d < |m'.cores| :: OnCore(m', d, q) == OnCore(m, d, q);
    assert forall q | q in m.procs :: Current(m', q) == Current(m, q);
    forall d | 0 <= d < |m'.cores| ensures Registers(m', d) && TlbInv(m', d) {
      assert Registers(m, d) && TlbInv(m, d);
      assert d != c ==> !OnCore(m, d, p);
      if m.pool.coreGen[d] == m.pool.generation {
        forall e | e in m'.cores[d].tlb ensures Owned(m', e) { OwnedAfter(m, m', p, e); }
      }
    }
  }

  lemma StepExecFlush(m: Machine, m': Machine, c: nat, p: nat)
    requires Inv(m) && ExecFlush(m, m', c, p)
    ensures Inv(m')
  {
    assert OnCore(m, c, p);
    assert forall d, q | 0 <= d < |m'.cores| :: OnCore(m', d, q) == OnCore(m, d, q);
    assert forall q | q in m.procs :: Current(m', q) == Current(m, q);
    forall d | 0 <= d < |m'.cores| ensures Registers(m', d) && TlbInv(m', d) {
      assert Registers(m, d) && TlbInv(m, d);
      assert d != c ==> !OnCore(m, d, p);
      if m.pool.coreGen[d] == m.pool.generation {
        forall e | e in m'.cores[d].tlb ensures Owned(m', e) { OwnedAfter(m, m', p, e); }
      }
    }
  }

  lemma StepLeave(m: Machine, m': Machine, c: nat, p: nat)
    requires Inv(m) && ExitLeave(m, m', c, p)
    ensures Inv(m')
  {
    assert OnCore(m, c, p);
    assert forall d, q | 0 <= d < |m'.cores| && OnCore(m', d, q) :: d != c && OnCore(m, d, q);
    assert forall d | 0 <= d < |m'.cores| && d != c :: !OnCore(m, d, p);
    assert forall q | q in m.procs :: Current(m', q) == Current(m, q);
    forall d | 0 <= d < |m'.cores| ensures Registers(m', d) && TlbInv(m', d) {
      assert Registers(m, d) && TlbInv(m, d);
      if m.pool.coreGen[d] == m.pool.generation {
        forall e | e in m'.cores[d].tlb ensures Owned(m', e) { OwnedAfter(m, m', p, e); }
      }
    }
  }

  lemma StepFree(m: Machine, m': Machine, p: nat)
    requires Inv(m) && ExitFree(m, m', p)
    ensures Inv(m')
  {
    assert forall d, q | 0 <= d < |m'.cores| :: OnCore(m', d, q) == OnCore(m, d, q) && !OnCore(m, d, p);
    assert forall q | q in m'.procs :: Current(m', q) == Current(m, q);
    forall d | 0 <= d < |m'.cores| ensures Registers(m', d) && TlbInv(m', d) {
      assert Registers(m, d) && TlbInv(m, d) && !OnCore(m, d, p);
      if m.pool.coreGen[d] == m.pool.generation {
        forall e | e in m'.cores[d].tlb ensures Owned(m', e) {
          assert Owned(m, e);
          var q :| q in m.procs && Current(m, q) && m.procs[q].asid == e.asid
                   && (m.procs[q].space == e.space || Licence(m.procs[q], e.asid));
          assert q in m'.procs && Current(m', q);
        }
      }
    }
  }

  /** A step that touches no pool, keeps every process and at most shrinks the TLBs. */
  lemma OwnedStill(m: Machine, m': Machine, e: Tag)
    requires m'.pool == m.pool && forall q | q in m.procs :: q in m'.procs && m'.procs[q] == m.procs[q]
    requires Owned(m, e)
    ensures Owned(m', e)
  {
    var q :| q in m.procs && Current(m, q) && m.procs[q].asid == e.asid
             && (m.procs[q].space == e.space || Licence(m.procs[q], e.asid));
    assert Current(m', q);
  }

  lemma StepCreate(m: Machine, m': Machine, p: nat)
    requires Inv(m) && Create(m, m', p)
    ensures Inv(m')
  {
    assert forall d, q | 0 <= d < |m'.cores| :: OnCore(m', d, q) == OnCore(m, d, q);
    assert forall q | q in m.procs :: Current(m', q) == Current(m, q);
    forall d | 0 <= d < |m'.cores| ensures Registers(m', d) && TlbInv(m', d) {
      assert Registers(m, d) && TlbInv(m, d);
      if m.pool.coreGen[d] == m.pool.generation {
        forall e | e in m'.cores[d].tlb ensures Owned(m', e) { OwnedStill(m, m', e); }
      }
    }
  }

  lemma StepAccess(m: Machine, m': Machine, c: nat)
    requires Inv(m) && Access(m, m', c)
    ensures Inv(m')
  {
    assert forall d, q | 0 <= d < |m'.cores| :: OnCore(m', d, q) == OnCore(m, d, q);
    assert forall q | q in m.procs :: Current(m', q) == Current(m, q);
    forall d | 0 <= d < |m'.cores| ensures Registers(m', d) && TlbInv(m', d) {
      assert Registers(m, d) && TlbInv(m, d);
      if m.pool.coreGen[d] == m.pool.generation {
        forall e | e in m'.cores[d].tlb ensures Owned(m', e) {
          if e in m.cores[d].tlb { OwnedStill(m, m', e); } else { assert Current(m', m.cores[c].running.value); }
        }
      }
    }
  }

  lemma StepSwitch(m: Machine, m': Machine, c: nat)
    requires Inv(m) && (Install(m, m', c) || PickKernel(m, m', c))
    ensures Inv(m')
  {
    assert forall d, q | 0 <= d < |m'.cores| && OnCore(m', d, q) :: OnCore(m, d, q);
    assert forall q | q in m.procs :: Current(m', q) == Current(m, q);
    forall d | 0 <= d < |m'.cores| ensures Registers(m', d) && TlbInv(m', d) {
      assert Registers(m, d) && TlbInv(m, d);
      if m.pool.coreGen[d] == m.pool.generation {
        forall e | e in m'.cores[d].tlb ensures Owned(m', e) { OwnedStill(m, m', e); }
      }
    }
  }

  lemma NextKeepsInv(m: Machine, m': Machine)
    requires Inv(m) && Next(m, m') && Timely(m, m')
    ensures Inv(m')
  {
    if p :| Create(m, m', p) { StepCreate(m, m', p); }
    else if c :| Access(m, m', c) || Install(m, m', c) || PickKernel(m, m', c) {
      if Access(m, m', c) { StepAccess(m, m', c); } else { StepSwitch(m, m', c); }
    }
    else if c, p :| Pick(m, m', c, p) { StepPick(m, m', c, p); }
    else if c, p :| ExecSwap(m, m', c, p) || ExecGet(m, m', c, p) || ExecLoad(m, m', c, p) {
      if ExecSwap(m, m', c, p) { StepExecSwap(m, m', c, p); }
      else if ExecGet(m, m', c, p) { StepExecGet(m, m', c, p); }
      else { StepExecLoad(m, m', c, p); }
    }
    else if c, p :| ExecInstall(m, m', c, p) || ExecRead(m, m', c, p) || ExecFlush(m, m', c, p) {
      if ExecInstall(m, m', c, p) { StepExecInstall(m, m', c, p); }
      else if ExecRead(m, m', c, p) { StepExecRead(m, m', c, p); }
      else { StepExecFlush(m, m', c, p); }
    }
    else if c, p :| ExitLeave(m, m', c, p) { StepLeave(m, m', c, p); }
    else {
      var p :| ExitFree(m, m', p);
      StepFree(m, m', p);
    }
  }

  ghost predicate IsTimely(trace: seq<Machine>) { forall i | 0 <= i < |trace| - 1 :: Timely(trace[i], trace[i + 1]) }

  lemma {:induction false} RunKeepsInv(trace: seq<Machine>, i: nat)
    requires IsRun(trace) && IsTimely(trace) && i < |trace|
    ensures Inv(trace[i])
  {
    if i > 0 {
      RunKeepsInv(trace, i - 1);
      assert Next(trace[i - 1], trace[i - 1 + 1]) && Timely(trace[i - 1], trace[i - 1 + 1]);
      NextKeepsInv(trace[i - 1], trace[i]);
    }
  }

  /** Isolation over whole runs: any number of rollovers, migrations, execs and exits, on any number of cores, as long as no
      exec writes an ASID that a rollover has taken from it. */
  lemma RunIsIsolated(trace: seq<Machine>, i: nat)
    requires IsRun(trace) && IsTimely(trace) && i < |trace|
    ensures Isolated(trace[i]) && DistinctAsids(trace[i])
  {
    RunKeepsInv(trace, i);
    InvIsolates(trace[i]);
  }
}
