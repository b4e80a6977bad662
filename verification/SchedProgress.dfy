/** What the scheduler is for: where it looks for work, what it takes, and that no task is left behind. */
module SchedProgress {
  import opened Common
  import opened Sched
  import opened SchedSafety

  // ---------------------------------------------------------------- which queues a search covers

  /** The victims of one search are all the queues, each exactly once. */
  lemma VictimsAll(c: nat, cores: nat, q: nat) returns (tried: nat)
    requires c < cores && q < cores
    ensures 1 <= tried <= cores && Victim(c, tried, cores) == q
    ensures forall k: nat | 1 <= k <= cores && Victim(c, k, cores) == q :: k == tried
    ensures q == c <==> tried == cores
  {
    hide Victim;
    tried := if c < q then q - c else q + cores - c;
    VictimIs(c, tried, cores);
    forall k: nat | 1 <= k <= cores && Victim(c, k, cores) == q ensures k == tried { VictimIs(c, k, cores); }
  }

  lemma VictimIs(c: nat, tried: nat, cores: nat)
    requires c < cores && tried <= cores
    ensures Victim(c, tried, cores) == if c + tried < cores then c + tried else c + tried - cores
  {
    var x := c + tried;
    var (q, r) := (x / cores, x % cores);
    assert x == q * cores + r;
    assert q >= 2 ==> q * cores >= 2 * cores;
  }

  /** No task on this queue could be taken: none is off every core and, for another core's thief, a user task. */
  ghost predicate NothingFor(s: Sched, q: nat, own: bool) {
    q < |s.rq| && forall t | t in s.rq[q] && t in s.tasks && (own || s.tasks[t].pid != 0) :: s.tasks[t].onCore != None
  }

  /** Core `c` looks for work from `a` up to its choice at `b`. */
  ghost predicate Searches(trace: seq<Sched>, c: nat, a: nat, b: nat) {
    && a < b < |trace| && (forall i | a <= i <= b :: c < |trace[i].cores|)
    && trace[a].cores[c].pc == Choosing(0)
    && (forall i | a <= i < b :: trace[i].cores[c].pc.Choosing?) && trace[b].cores[c].pc.Chosen?
  }

  /** While a core searches, only its own two steps move it. */
  lemma SearchSteps(s: Sched, s': Sched, c: nat)
    requires Next(s, s') && c < |s.cores| && s.cores[c].pc.Choosing?
    ensures |s'.cores| == |s.cores| && s'.cores[c].idle == s.cores[c].idle
    ensures s'.cores[c] == s.cores[c] || DequeueNone(s, s', c) || exists i :: Dequeue(s, s', c, i)
  {
    hide Dequeue, DequeueNone;
    if d :| CoreStep(s, s', d) {
      if i :| Dequeue(s, s', d, i) { DequeueMoves(s, s', d, i); }
      else if DequeueNone(s, s', d) { DequeueNoneMoves(s, s', d); }
    }
  }

  lemma DequeueMoves(s: Sched, s': Sched, c: nat, i: nat)
    requires Dequeue(s, s', c, i)
    ensures c < |s.cores| && s'.cores == s.cores[c := s.cores[c].(pc := s'.cores[c].pc)] && s'.cores[c].pc.Chosen?
  {
  }

  lemma DequeueNoneMoves(s: Sched, s': Sched, c: nat)
    requires DequeueNone(s, s', c)
    ensures c < |s.cores| && s'.cores == s.cores[c := s.cores[c].(pc := s'.cores[c].pc)]
    ensures NothingFor(s, Victim(c, s.cores[c].pc.tried, |s.cores|), s.cores[c].pc.tried == 0)
    ensures s'.cores[c].pc == if s.cores[c].pc.tried < |s.cores| then Choosing(s.cores[c].pc.tried + 1) else Chosen(s.cores[c].idle)
  {
  }

  ghost predicate FoundEmpty(trace: seq<Sched>, a: nat, b: nat, q: nat, own: bool) {
    exists j: nat :: a <= j < b && j < |trace| && NothingFor(trace[j], q, own)
  }

  lemma {:induction false} TriedSoFar(trace: seq<Sched>, c: nat, a: nat, b: nat, i: nat)
    requires IsRun(trace) && Searches(trace, c, a, b) && a <= i < b
    ensures |trace[i].cores| == |trace[a].cores| && trace[i].cores[c].pc.tried <= |trace[a].cores|
    ensures forall k: nat | k < trace[i].cores[c].pc.tried :: FoundEmpty(trace, a, i, Victim(c, k, |trace[a].cores|), k == 0)
  {
    hide Next, NothingFor, Victim;
    if i > a {
      TriedSoFar(trace, c, a, b, i - 1);
      var (s, s') := (trace[i - 1], trace[i]);
      assert Next(trace[i - 1], trace[i - 1 + 1]);
      SearchSteps(s, s', c);
      hide DequeueNone, Dequeue;
      if DequeueNone(s, s', c) { DequeueNoneMoves(s, s', c); }
      else if j :| Dequeue(s, s', c, j) { DequeueMoves(s, s', c, j); }
    }
  }

  ghost predicate Dequeues(s: Sched, s': Sched, c: nat) { exists i :: Dequeue(s, s', c, i) }

  /** What a search that ends at `b` last did. */
  lemma SearchEnds(trace: seq<Sched>, c: nat, a: nat, b: nat)
    requires IsRun(trace) && Searches(trace, c, a, b)
    ensures DequeueNone(trace[b - 1], trace[b], c) || Dequeues(trace[b - 1], trace[b], c)
  {
    hide Next, Dequeue, DequeueNone;
    assert Next(trace[b - 1], trace[b - 1 + 1]);
    assert trace[b - 1].cores[c].pc.Choosing?;
    SearchSteps(trace[b - 1], trace[b], c);
  }

  /** What a dequeue takes sits on a queue, so it is nobody's idle task. */
  lemma TakenIsNotIdle(s: Sched, s': Sched, c: nat, i: nat)
    requires Inv(s) && Dequeue(s, s', c, i)
    ensures !IsIdle(s, s'.cores[c].pc.next) && s'.idles == s.idles && s.cores[c].idle in s.idles && s'.cores[c].idle == s.cores[c].idle
  {
    var v := Victim(c, s.cores[c].pc.tried, |s.cores|);
    assert Sits(s, InQueue(v, i), s.rq[v][i]);
  }

  /** A core goes idle only after every queue, its own included, was seen at some moment of the search without a task
      it could take: on its own queue none off every core, on another's none that is also a user task. */
  lemma IdleIsEarned(trace: seq<Sched>, c: nat, a: nat, b: nat, q: nat)
    requires IsRun(trace) && Searches(trace, c, a, b) && q < |trace[a].cores|
    requires trace[b].cores[c].pc.next == trace[b].cores[c].idle
    ensures FoundEmpty(trace, a, b, q, q == c)
  {
    hide Next, NothingFor, Victim, Inv, IsRun, Dequeue, DequeueNone;
    var (s, s') := (trace[b - 1], trace[b]);
    var n := |trace[a].cores|;
    RunIsSafe(trace, b - 1);
    TriedSoFar(trace, c, a, b, b - 1);
    SearchEnds(trace, c, a, b);
    if i :| Dequeue(s, s', c, i) {
      TakenIsNotIdle(s, s', c, i);
    } else {
      DequeueNoneMoves(s, s', c);
      assert s.cores[c].pc.tried == n;
      var tried := VictimsAll(c, n, q);
      VictimIs(c, 0, n);
      var k := if q == c then 0 else tried;
      assert FoundEmpty(trace, a, b - 1, Victim(c, k, n), k == 0);
    }
  }

  /** What a search takes: the first task of some queue that the core may have. It was off every core with its registers
      saved; a kernel task only leaves its own core's queue for that core; and the rest of every queue stays as it was. */
  ghost predicate Took(s: Sched, s': Sched, c: nat, q: nat, i: nat) {
    && c < |s.cores| == |s'.cores| && q < |s.rq| && i < |s.rq[q]| && s'.rq == s.rq[q := s.rq[q][..i] + s.rq[q][i + 1..]] && s'.tasks == s.tasks
    && var t := s.rq[q][i];
       && s'.cores == s.cores[c := s'.cores[c]] && s'.cores[c] == s.cores[c].(pc := Chosen(t))
       && t in s.tasks && s.tasks[t].state == Ready && s.tasks[t].onCore == None && s.tasks[t].saved
       && (q != c ==> s.tasks[t].pid != 0)
       && forall j | 0 <= j < i ::
            s.rq[q][j] in s.tasks ==> s.tasks[s.rq[q][j]].onCore != None || (s.cores[c].pc != Choosing(0) && s.tasks[s.rq[q][j]].pid == 0)
  }

  ghost predicate TookOne(s: Sched, s': Sched, c: nat) { exists q, i :: Took(s, s', c, q, i) }

  lemma DequeueTakes(s: Sched, s': Sched, c: nat, i: nat)
    requires Inv(s) && Dequeue(s, s', c, i)
    ensures Took(s, s', c, Victim(c, s.cores[c].pc.tried, |s.cores|), i)
  {
    hide Cleanups;
    var v := Victim(c, s.cores[c].pc.tried, |s.cores|);
    assert Sits(s, InQueue(v, i), s.rq[v][i]);
    VictimIs(c, 0, |s.cores|);
    hide Victim;
  }

  lemma SearchTakes(trace: seq<Sched>, c: nat, a: nat, b: nat)
    requires IsRun(trace) && Searches(trace, c, a, b)
    requires trace[b].cores[c].pc.next != trace[b].cores[c].idle
    ensures TookOne(trace[b - 1], trace[b], c)
  {
    hide Next, NothingFor, Victim, Inv, IsRun, Dequeue, DequeueNone, Took;
    var (s, s') := (trace[b - 1], trace[b]);
    RunIsSafe(trace, b - 1);
    SearchEnds(trace, c, a, b);
    if i :| Dequeue(s, s', c, i) {
      DequeueTakes(s, s', c, i);
    } else {
      DequeueNoneMoves(s, s', c);
      assert false;
    }
  }

  // ---------------------------------------------------------------- no task is left behind

  /** The core runs the task, or is about to, and is not past the point of giving it up. */
  ghost predicate RunsHere(s: Sched, c: nat, t: nat) {
    && c < |s.cores|
    && var k := s.cores[c];
       || (k.current == t && !(k.pc.Choosing? || k.pc.Chosen? || k.pc.Marked? || k.pc.Promoted?))
       || k.pc == Promoted(t)
  }

  /** The core is to free the task, or still runs it and will look at its state. */
  ghost predicate DiesHere(s: Sched, c: nat, t: nat) {
    && c < |s.cores|
    && var k := s.cores[c];
       k.cleanup == Some(t) || (k.current == t && (k.pc == Outside || k.pc == Entered || k.pc == Cleaned || k.pc.DrainWon? || k.pc == Drained))
  }

  ghost predicate RunsSomewhere(s: Sched, t: nat) { exists c: nat :: RunsHere(s, c, t) }

  ghost predicate DiesSomewhere(s: Sched, t: nat) { exists c: nat :: DiesHere(s, c, t) }

  /** A RUNNING task has a core that has not given it up; a DEAD one has a core that will free it. */
  ghost predicate Attended(s: Sched) {
    forall t | t in s.tasks && !IsIdle(s, t) ::
      && (s.tasks[t].state == Running ==> RunsSomewhere(s, t))
      && (s.tasks[t].state == Dead ==> DiesSomewhere(s, t))
  }

  /** A step by core `c`, or by none, that makes no task but `x` RUNNING or DEAD. */
  lemma StillAttended(s: Sched, s': Sched, c: nat, x: Option<nat>)
    requires Attended(s) && s'.idles == s.idles && |s'.cores| == |s.cores|
    requires forall d | 0 <= d < |s.cores| && d != c :: s'.cores[d] == s.cores[d]
    requires forall t | t in s'.tasks && x != Some(t) && (s'.tasks[t].state == Running || s'.tasks[t].state == Dead) ::
               t in s.tasks && s'.tasks[t].state == s.tasks[t].state
    requires forall t | t in s'.tasks && x != Some(t) && !IsIdle(s, t) ::
               && (s'.tasks[t].state == Running && RunsHere(s, c, t) ==> RunsHere(s', c, t))
               && (s'.tasks[t].state == Dead && DiesHere(s, c, t) ==> DiesHere(s', c, t))
    requires x.Some? && x.value in s'.tasks && !IsIdle(s, x.value) ==>
               && (s'.tasks[x.value].state == Running ==> RunsHere(s', c, x.value))
               && (s'.tasks[x.value].state == Dead ==> DiesHere(s', c, x.value))
    ensures Attended(s')
  {
    forall t | t in s'.tasks && !IsIdle(s', t)
      ensures s'.tasks[t].state == Running ==> RunsSomewhere(s', t)
      ensures s'.tasks[t].state == Dead ==> DiesSomewhere(s', t)
    {
      if x == Some(t) {
        assert s'.tasks[t].state == Running ==> RunsHere(s', c, t);
        assert s'.tasks[t].state == Dead ==> DiesHere(s', c, t);
      } else if s'.tasks[t].state == Running {
        var d: nat :| RunsHere(s, d, t);
        assert RunsHere(s', d, t);
      } else if s'.tasks[t].state == Dead {
        var d: nat :| DiesHere(s, d, t);
        assert DiesHere(s', d, t);
      }
    }
  }

  lemma EntryAttends(s: Sched, s': Sched, c: nat)
    requires Inv(s) && Attended(s) && QuietEntry(s, s', c)
    ensures Attended(s')
  {
    hide Spots, Placement, Attended, Drain, DrainPut;
    assert c < |s.cores| && CoreOk(s, c) && CleanupOk(s, c);
    StillAttended(s, s', c, None);
  }

  lemma QueueingAttends(s: Sched, s': Sched, c: nat)
    requires Inv(s) && Attended(s) && (Drain(s, s', c) || DrainPut(s, s', c) || RequeuePut(s, s', c))
    ensures Attended(s')
  {
    hide Spots, Placement, Attended, CoreOk, CleanupOk, Shape;
    StillAttended(s, s', c, None);
  }

  lemma ExitAttends(s: Sched, s': Sched, c: nat)
    requires Inv(s) && Attended(s) && (QuietExit(s, s', c) || Promote(s, s', c) || exists i :: Dequeue(s, s', c, i))
    ensures Attended(s')
  {
    hide Spots, Placement, Attended;
    assert c < |s.cores| && CoreOk(s, c) && CleanupOk(s, c);
    StillAttended(s, s', c, if Promote(s, s', c) then Some(s.cores[c].pc.next) else None);
  }

  lemma CoreStepAttends(s: Sched, s': Sched, c: nat)
    requires Inv(s) && Attended(s) && CoreStep(s, s', c)
    ensures Attended(s')
  {
    hide Inv, Attended;
    hide Release, Cleanup, Drain, DrainPut, DrainDone, Look, RequeuePut, Dequeue, DequeueNone, Mark, Promote, SetCurrent, Switch;
    if QuietEntry(s, s', c) { EntryAttends(s, s', c); }
    else if Drain(s, s', c) || DrainPut(s, s', c) || RequeuePut(s, s', c) { QueueingAttends(s, s', c); }
    else { ExitAttends(s, s', c); }
  }

  lemma OtherStepAttends(s: Sched, s': Sched, c: nat)
    requires Inv(s) && Attended(s) && (TaskStep(s, s', c) || WakerStep(s, s', c))
    ensures Attended(s')
  {
    hide Spots, Placement, Attended, CoreOk, CleanupOk;
    StillAttended(s, s', c, if TaskStep(s, s', c) then Some(s.cores[c].current) else None);
  }

  lemma InitAttends(s: Sched)
    requires Init(s)
    ensures Attended(s)
  {
    forall t | t in s.tasks && !IsIdle(s, t) ensures RunsSomewhere(s, t) && DiesSomewhere(s, t) {
      var c :| 0 <= c < |s.cores| && s.cores[c].current == t;
      assert RunsHere(s, c, t) && DiesHere(s, c, t);
    }
  }

  lemma {:induction false} RunAttends(trace: seq<Sched>, i: nat)
    requires IsRun(trace) && i < |trace|
    ensures Attended(trace[i])
  {
    if i == 0 {
      InitAttends(trace[0]);
    } else {
      hide Attended, Inv, CoreStep, TaskStep, WakerStep;
      RunAttends(trace, i - 1);
      RunIsSafe(trace, i - 1);
      var (s, s') := (trace[i - 1], trace[i]);
      assert Next(s, s') by { assert Next(trace[i - 1], trace[i - 1 + 1]); }
      if c :| CoreStep(s, s', c) { CoreStepAttends(s, s', c); }
      else if c :| TaskStep(s, s', c) { OtherStepAttends(s, s', c); }
      else { var a :| WakerStep(s, s', a); OtherStepAttends(s, s', a); }
    }
  }

  /** In every run, a BLOCKED sleeper that leaves the sleep queue, other than by its own hand, is made READY and has one
      place from which it will be run. */
  lemma SleepersWake(trace: seq<Sched>, i: nat, t: nat)
    requires IsRun(trace) && i < |trace| - 1
    requires t in trace[i].sleeping && t in trace[i].tasks && trace[i].tasks[t].state == Blocked && !RunsItself(trace[i], t)
    requires t !in trace[i + 1].sleeping
    ensures t in trace[i + 1].tasks && trace[i + 1].tasks[t].state == Ready && Seated(trace[i + 1], t)
  {
    hide Inv, NotLost, Next, RunsItself, Seated;
    RunIsSafe(trace, i);
    RunIsSafe(trace, i + 1);
    assert Next(trace[i], trace[i + 1]);
    SleeperLeaves(trace[i], trace[i + 1], t);
    ReadyIsSeated(trace[i + 1], t);
  }

  lemma ReadyIsSeated(s: Sched, t: nat)
    requires NotLost(s) && t in s.tasks && s.tasks[t].state == Ready && !IsIdle(s, t)
    ensures Seated(s, t)
  {
  }

  lemma SleeperLeaves(s: Sched, s': Sched, t: nat)
    requires Inv(s) && Next(s, s') && t in s.sleeping && t in s.tasks && s.tasks[t].state == Blocked && !RunsItself(s, t)
    requires t !in s'.sleeping
    ensures t in s'.tasks && s'.tasks[t].state == Ready && !IsIdle(s', t)
  {
    hide Placement, CoreOk, RunsItself, Dequeue, DequeueNone;
    if c: nat :| CoreStep(s, s', c) {
      DequeuesKeepSleepers(s, s', c);
      assert CleanupOk(s, c);
      hide CleanupOk;
    } else if c :| TaskStep(s, s', c) {
    } else {
      var a :| WakerStep(s, s', a);
      InFlightIsReady(s, t);
    }
  }

  lemma InFlightIsReady(s: Sched, t: nat)
    requires Spots(s)
    ensures InFlight(s, t) ==> t in s.tasks && s.tasks[t].state == Ready
  {
    if b :| b in s.wakes && s.wakes[b] == t { assert Sits(s, InWake(b), t); }
  }

  lemma DequeuesKeepSleepers(s: Sched, s': Sched, c: nat)
    ensures DequeueNone(s, s', c) ==> c < |s.cores| && s'.sleeping == s.sleeping
    ensures forall i | Dequeue(s, s', c, i) :: c < |s.cores| && s'.sleeping == s.sleeping
  {
  }

  // ---------------------------------------------------------------- queues are first in, first out

  /** The queue is as it was, or has one task more at its end, or has lost one. */
  ghost predicate Queued(was: seq<nat>, now: seq<nat>) {
    now == was || (exists t :: now == was + [t]) || exists i :: 0 <= i < |was| && now == was[..i] + was[i + 1..]
  }

  lemma CoreQueues(s: Sched, s': Sched, c: nat, q: nat)
    requires CoreStep(s, s', c) && q < |s.rq|
    ensures q < |s'.rq| && Queued(s.rq[q], s'.rq[q])
  {
    hide Dequeue, DequeueNone;
    if i :| Dequeue(s, s', c, i) { DequeueQueues(s, s', c, i, q); }
    else if DequeueNone(s, s', c) { DequeueNoneQueues(s, s', c); }
  }

  lemma DequeueQueues(s: Sched, s': Sched, c: nat, i: nat, q: nat)
    requires Dequeue(s, s', c, i) && q < |s.rq|
    ensures q < |s'.rq| && Queued(s.rq[q], s'.rq[q])
  {
  }

  lemma DequeueNoneQueues(s: Sched, s': Sched, c: nat)
    requires DequeueNone(s, s', c)
    ensures s'.rq == s.rq
  {
  }

  /** In every step of every run, tasks join a run queue only at its end, and those that stay keep their order. */
  lemma QueuesAreFifo(trace: seq<Sched>, i: nat, q: nat)
    requires IsRun(trace) && i < |trace| - 1 && q < |trace[i].rq|
    ensures q < |trace[i + 1].rq| && Queued(trace[i].rq[q], trace[i + 1].rq[q])
  {
    var (s, s') := (trace[i], trace[i + 1]);
    assert Next(s, s');
    hide IsRun, CoreStep;
    if c :| CoreStep(s, s', c) { CoreQueues(s, s', c, q); }
  }

  // ---------------------------------------------------------------- a call of the scheduler can finish

  /** The core is back in task code, running a task that is RUNNING and marked as its own. */
  ghost predicate Runs(s: Sched, c: nat) {
    && At(s, c, Outside) && s.cores[c].current in s.tasks
    && s.tasks[s.cores[c].current].state == Running && s.tasks[s.cores[c].current].onCore == Some(c)
  }

  ghost predicate CoreRun(run: seq<Sched>, c: nat) {
    |run| > 0 && forall i | 0 <= i < |run| - 1 :: CoreStep(run[i], run[i + 1], c)
  }

  ghost predicate ComesOut(s: Sched, c: nat) {
    exists run: seq<Sched> :: CoreRun(run, c) && run[0] == s && Runs(run[|run| - 1], c)
  }

  lemma StepThenOut(s: Sched, s': Sched, c: nat)
    requires CoreStep(s, s', c) && ComesOut(s', c)
    ensures ComesOut(s, c)
  {
    hide CoreStep, Runs;
    var run: seq<Sched> :| CoreRun(run, c) && run[0] == s' && Runs(run[|run| - 1], c);
    var longer := [s] + run;
    assert longer[|longer| - 1] == run[|run| - 1];
    assert CoreRun(longer, c);
  }

  /** How far a core is from leaving the scheduler. */
  ghost function Left(pc: Pc, cores: nat): nat {
    match pc
    case Outside => 0
    case Switching(_) => 1
    case Promoted(_) => 2
    case Marked(_) => 3
    case Chosen(_) => 4
    case Choosing(k) => if k <= cores then 5 + cores - k else 5
    case Requeue => 6 + cores
    case Drained => 7 + cores
    case Cleaned => 8 + cores
    case DrainWon(_) => 9 + cores
    case Entered => 9 + cores
  }

  lemma SearchCanMove(s: Sched, c: nat) returns (s': Sched)
    requires Inv(s) && c < |s.cores| && s.cores[c].pc.Choosing?
    ensures CoreStep(s, s', c) && |s'.cores| == |s.cores| && Left(s'.cores[c].pc, |s.cores|) < Left(s.cores[c].pc, |s.cores|)
    ensures s'.cores[c].pc != Outside
  {
    hide Inv;
    assert Shape(s) by { ShapeOf(s); }
    var k := s.cores[c].pc.tried;
    var v := Victim(c, k, |s.cores|);
    if i: nat :| i < |s.rq[v]| && Eligible(s, s.rq[v][i], k) {
      var first := FirstEligible(s, s.rq[v], k, i);
      s' := SetCore(s, c, s.cores[c].(pc := Chosen(s.rq[v][first]))).(rq := s.rq[v := s.rq[v][..first] + s.rq[v][first + 1..]]);
      assert Dequeue(s, s', c, first);
    } else {
      s' := SetCore(s, c, s.cores[c].(pc := if k < |s.cores| then Choosing(k + 1) else Chosen(s.cores[c].idle)));
      assert DequeueNone(s, s', c);
    }
  }

  lemma ShapeOf(s: Sched)
    requires Inv(s)
    ensures Shape(s)
  {
    hide Shape;
  }

  lemma {:induction false} FirstEligible(s: Sched, q: seq<nat>, k: nat, i: nat) returns (first: nat)
    requires i < |q| && Eligible(s, q[i], k)
    ensures first < |q| && Eligible(s, q[first], k) && forall j | 0 <= j < first :: !Eligible(s, q[j], k)
  {
    hide Eligible;
    if j: nat :| j < i && Eligible(s, q[j], k) { first := FirstEligible(s, q, k, j); } else { first := i; }
  }

  ghost predicate Moves(s: Sched, s': Sched, c: nat) {
    && CoreStep(s, s', c) && c < |s'.cores| == |s.cores| && Left(s'.cores[c].pc, |s.cores|) < Left(s.cores[c].pc, |s.cores|)
    && (s'.cores[c].pc == Outside ==> Runs(s', c))
  }

  lemma EntryCanMove(s: Sched, c: nat) returns (s': Sched)
    requires Inv(s) && c < |s.cores| && !s.cores[c].pc.Choosing? && Left(s.cores[c].pc, |s.cores|) >= 6
    ensures Moves(s, s', c)
  {
    hide Placement, CoreOk, CleanupOk, Dequeue, DequeueNone;
    var k := s.cores[c];
    match k.pc {
      case Entered =>
        s' := if k.cleanup.None? then SetCore(s, c, k.(cleanup := None, pc := Cleaned))
              else SetCore(s, c, k.(cleanup := None, pc := Cleaned)).(tasks := s.tasks - {k.cleanup.value}, sleeping := Without(s.sleeping, k.cleanup.value));
        assert Cleanup(s, s', c);
      case DrainWon(w) =>
        DrainedIsReady(s, c);
        s' := SetCore(Enqueued(s, c, w), c, k.(pc := Cleaned));
        assert DrainPut(s, s', c);
      case Cleaned =>
        s' := SetCore(s, c, k.(pc := Drained));
        assert DrainDone(s, s', c);
      case Drained =>
        var state := s.tasks[k.current].state;
        s' := SetCore(s, c, if state == Running && k.current != k.idle then k.(pc := Requeue)
                            else if state == Dead then k.(pc := Choosing(0), cleanup := Some(k.current))
                            else k.(pc := Choosing(0)));
        assert Look(s, s', c);
      case Requeue =>
        s' := SetCore(Enqueued(s, c, k.current), c, k.(pc := Choosing(0)));
        assert RequeuePut(s, s', c);
    }
  }

  lemma ExitCanMove(s: Sched, c: nat) returns (s': Sched)
    requires Inv(s) && c < |s.cores| && 1 <= Left(s.cores[c].pc, |s.cores|) <= 4
    ensures Moves(s, s', c)
  {
    hide Spots, CleanupOk, Cleanups, Dequeue, DequeueNone;
    assert CoreOk(s, c);
    hide CoreOk;
    var k := s.cores[c];
    match k.pc {
      case Chosen(t) =>
        s' := SetTask(SetCore(s, c, k.(pc := Marked(t))), t, s.tasks[t].(onCore := Some(c)));
        assert Mark(s, s', c);
      case Marked(t) =>
        s' := SetTask(SetCore(s, c, k.(pc := Promoted(t))), t, s.tasks[t].(state := Running));
        assert Promote(s, s', c);
      case Promoted(t) =>
        assert Holds(s, c, t);
        s' := SetCore(s, c, k.(current := t, pc := if k.current == t then Outside else Switching(k.current)));
        assert SetCurrent(s, s', c);
      case Switching(p) =>
        var n := k.current;
        assert Holds(s, c, n);
        s' := SetTask(SetTask(SetCore(s, c, k.(prevTask := Some(p), pc := Outside)),
                              p, s.tasks[p].(saved := true)), n, s.tasks[n].(saved := false));
        assert Switch(s, s', c);
    }
  }

  /** From any state of any run, a core inside the scheduler can, by its own steps alone, come out of it running a task. */
  lemma {:induction false} SchedulerComesOut(s: Sched, c: nat)
    requires Inv(s) && c < |s.cores| && s.cores[c].pc != Outside
    ensures ComesOut(s, c)
    decreases Left(s.cores[c].pc, |s.cores|)
  {
    hide Inv, ComesOut, Runs, CoreStep;
    var s';
    if s.cores[c].pc.Choosing? { s' := SearchCanMove(s, c); }
    else if Left(s.cores[c].pc, |s.cores|) <= 4 { s' := ExitCanMove(s, c); }
    else { s' := EntryCanMove(s, c); }
    CoreStepKeepsInv(s, s', c);
    if s'.cores[c].pc == Outside { OutAlready(s', c); } else { SchedulerComesOut(s', c); }
    StepThenOut(s, s', c);
  }

  lemma OutAlready(s: Sched, c: nat)
    requires Runs(s, c)
    ensures ComesOut(s, c)
  {
    hide CoreStep, Runs;
    assert CoreRun([s], c);
  }

  /** In every state of every run: no task is left behind, and every core, called into the scheduler or already in it,
      can come out of it by itself. */
  lemma NothingIsLeftBehind(trace: seq<Sched>, i: nat, c: nat)
    requires IsRun(trace) && i < |trace| && c < |trace[i].cores|
    ensures NotLost(trace[i]) && Attended(trace[i]) && ComesOut(trace[i], c)
  {
    hide NotLost, Attended, ComesOut, CoreOk, Next;
    var s := trace[i];
    RunAttends(trace, i);
    RunIsSafe(trace, i);
    if s.cores[c].pc == Outside {
      var s' := EnterScheduler(s, c);
      hide Spots, Placement, Cleanups;
      CoreStepKeepsInv(s, s', c);
      SchedulerComesOut(s', c);
      StepThenOut(s, s', c);
    } else {
      SchedulerComesOut(s, c);
    }
  }

  lemma EnterScheduler(s: Sched, c: nat) returns (s': Sched)
    requires Inv(s) && At(s, c, Outside)
    ensures CoreStep(s, s', c) && At(s', c, Entered)
  {
    hide Spots, Placement, CleanupOk;
    assert CoreOk(s, c);
    var k := s.cores[c].(prevTask := None, pc := Entered);
    s' := if s.cores[c].prevTask.None? then SetCore(s, c, k)
          else SetTask(SetCore(s, c, k), s.cores[c].prevTask.value, s.tasks[s.cores[c].prevTask.value].(onCore := None));
    assert Release(s, s', c, true);
  }
}
