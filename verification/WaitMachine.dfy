/** The wait-event loop (kernel/include/sched/wait.h) against its wakers, as interleaved atomic steps by any number of tasks.
    A section under the queue's lock is one step, except `wq_wake_all`, which un-blocks its batch one task at a time. */
module WaitMachine {
  import opened Common

  datatype State = Running | Ready | Blocked

  /** Where a task is in the loop. `Leaving` and `PassOn` carry whether it leaves for a signal or a timeout. */
  datatype Pc = Out | Top | Prepared | Tested | Parked | Leaving(failed: bool) | PassOn

  datatype Task = Task(state: State, pc: Pc, woken: bool)

  /** `pending` are the wakers that made the condition true and have not finished `wq_wake_all`.
      History: `since` are those of them that did so since the condition last became true, `done` says one has finished. */
  datatype System = System(cond: bool, tasks: map<nat, Task>, q: seq<nat>, holder: Option<nat>, batch: seq<nat>,
                           pending: set<nat>, since: set<nat>, done: bool)

  function SetTask(s: System, t: nat, x: Task): System { s.(tasks := s.tasks[t := x]) }

  function Woken(x: Task): Task { x.(state := if x.state == Blocked then Ready else x.state) }

  ghost predicate Init(s: System) {
    && (forall t | t in s.tasks :: s.tasks[t].pc == Out && s.tasks[t].state == Running)
    && s.q == [] && s.batch == [] && s.holder == None && s.pending == {} && s.since == {} && s.done == s.cond
  }

  // ---------------------------------------------------------------- the waiter

  ghost predicate At(s: System, t: nat, pc: Pc) { t in s.tasks && s.tasks[t].pc == pc }

  /** The loop begins with an entry nobody has woken. */
  ghost predicate Enter(s: System, s': System, t: nat) {
    At(s, t, Out) && s' == SetTask(s, t, s.tasks[t].(pc := Top, woken := false))
  }

  /** `wq_prepare`: link unless still linked, and block unless a wake made it READY already. */
  ghost predicate Prepare(s: System, s': System, t: nat) {
    && At(s, t, Top) && s.holder == None
    && var x := s.tasks[t].(pc := Prepared, state := if s.tasks[t].state == Running then Blocked else s.tasks[t].state);
       s' == if t in s.q then SetTask(s, t, x) else SetTask(s, t, x.(woken := false)).(q := s.q + [t])
  }

  /** The condition comes first; a signal or a timeout counts only while it is false. */
  ghost predicate Test(s: System, s': System, t: nat, interrupted: bool) {
    && At(s, t, Prepared)
    && s' == SetTask(s, t, s.tasks[t].(pc := if s.cond then Leaving(false) else if interrupted then Leaving(true) else Tested))
  }

  ghost predicate Park(s: System, s': System, t: nat) {
    At(s, t, Tested) && s' == SetTask(s, t, s.tasks[t].(pc := Parked))
  }

  /** The scheduler runs a parked task again once it is no longer BLOCKED. */
  ghost predicate Resume(s: System, s': System, t: nat) {
    At(s, t, Parked) && s.tasks[t].state != Blocked && s' == SetTask(s, t, s.tasks[t].(state := Running, pc := Top))
  }

  /** Outside the loop a task that a late wake left READY passes through the scheduler. */
  ghost predicate Reschedule(s: System, s': System, t: nat) {
    At(s, t, Out) && s.tasks[t].state == Ready && s' == SetTask(s, t, s.tasks[t].(state := Running))
  }

  ghost predicate Finish(s: System, s': System, t: nat) {
    && t in s.tasks && s.tasks[t].pc.Leaving? && s.holder == None
    && var x := s.tasks[t];
       s' == SetTask(s, t, x.(state := if x.state == Blocked then Running else x.state,
                              pc := if x.pc.failed && x.woken then PassOn else Out)).(q := Without(s.q, t))
  }

  function OneWoken(s: System): System
    requires s.q != [] && s.q[0] in s.tasks
  { SetTask(s, s.q[0], Woken(s.tasks[s.q[0]]).(woken := true)).(q := s.q[1..]) }

  /** A waiter that gives up after being woken hands its wake to the next one. */
  ghost predicate HandOn(s: System, s': System, t: nat) {
    && At(s, t, PassOn) && s.holder == None && (s.q != [] ==> s.q[0] in s.tasks)
    && var r := SetTask(s, t, s.tasks[t].(pc := Out));
       s' == if s.q == [] then r else OneWoken(r)
  }

  // ---------------------------------------------------------------- the wakers

  /** A waker makes the condition true before it wakes anybody. */
  ghost predicate Announce(s: System, s': System, w: nat) {
    && w !in s.pending
    && s' == s.(cond := true, pending := s.pending + {w}, since := s.since + {w})
  }

  ghost predicate TakeAll(s: System, s': System, w: nat) {
    w in s.pending && s.holder == None && s' == s.(holder := Some(w), batch := s.q, q := [])
  }

  ghost predicate WakeNext(s: System, s': System, w: nat) {
    && s.holder == Some(w) && s.batch != [] && s.batch[0] in s.tasks
    && s' == SetTask(s, s.batch[0], Woken(s.tasks[s.batch[0]]).(woken := true)).(batch := s.batch[1..])
  }

  ghost predicate WakeDone(s: System, s': System, w: nat) {
    && s.holder == Some(w) && s.batch == []
    && s' == s.(holder := None, pending := s.pending - {w}, since := s.since - {w}, done := s.done || w in s.since)
  }

  /** `wq_wake_one`, by anybody. */
  ghost predicate WakeOne(s: System, s': System) {
    s.holder == None && s.q != [] && s.q[0] in s.tasks && s' == OneWoken(s)
  }

  /** A signal, a timeout or any other un-block reaches a task wherever it is. */
  ghost predicate Unblock(s: System, s': System, t: nat) {
    t in s.tasks && s' == SetTask(s, t, Woken(s.tasks[t]))
  }

  /** The condition is consumed. */
  ghost predicate Consume(s: System, s': System) {
    s' == s.(cond := false, since := {}, done := false)
  }

  ghost predicate WaiterStep(s: System, s': System, t: nat) {
    || Enter(s, s', t) || Prepare(s, s', t) || Test(s, s', t, true) || Test(s, s', t, false) || Park(s, s', t)
    || Resume(s, s', t) || Reschedule(s, s', t) || Finish(s, s', t) || HandOn(s, s', t) || Unblock(s, s', t)
  }

  ghost predicate WakerStep(s: System, s': System, w: nat) {
    Announce(s, s', w) || TakeAll(s, s', w) || WakeNext(s, s', w) || WakeDone(s, s', w)
  }

  ghost predicate Next(s: System, s': System) {
    (exists t :: WaiterStep(s, s', t)) || (exists w :: WakerStep(s, s', w)) || WakeOne(s, s') || Consume(s, s')
  }

  ghost predicate IsRun(trace: seq<System>) {
    |trace| > 0 && Init(trace[0]) && forall i | 0 <= i < |trace| - 1 :: Next(trace[i], trace[i + 1])
  }

  // ---------------------------------------------------------------- what every step keeps

  ghost predicate Linked(s: System, t: nat) { t in s.q || t in s.batch }

  /** Found the condition false and will not look again until something un-blocks it. */
  ghost predicate Stuck(s: System, t: nat) {
    t in s.tasks && (s.tasks[t].pc == Tested || s.tasks[t].pc == Parked) && s.tasks[t].state == Blocked
  }

  /** No entry is linked twice; a linked entry's waiter is still inside the loop; a BLOCKED task is linked. */
  ghost predicate Links(s: System) {
    && Distinct(s.q) && Distinct(s.batch) && (forall t | t in s.q :: t !in s.batch)
    && (s.batch != [] ==> s.holder.Some?)
    && (forall t | Linked(s, t) :: t in s.tasks && s.tasks[t].pc != Out && s.tasks[t].pc != PassOn)
    && (forall t | t in s.tasks && s.tasks[t].state == Blocked :: s.tasks[t].pc != Top && Linked(s, t))
  }

  /** While the condition is true, a stuck task is owed a wake by a waker that has yet to finish. */
  ghost predicate Owed(s: System) {
    && s.since <= s.pending && (s.holder.Some? ==> s.holder.value in s.pending)
    && (s.cond ==> s.since != {} || s.done)
    && (!s.cond ==> s.since == {} && !s.done)
    && (forall t | Stuck(s, t) && s.cond :: !s.done && (s.holder.Some? && s.holder.value in s.since ==> t in s.batch))
  }

  /** A step that changes one task and no link. */
  lemma TaskKeepsLinks(s: System, s': System, t: nat, x: Task)
    requires Links(s) && t in s.tasks && s' == SetTask(s, t, x)
    requires Linked(s, t) ==> x.pc != Out && x.pc != PassOn
    requires x.state == Blocked ==> s.tasks[t].state == Blocked && x.pc != Top
    ensures Links(s')
  {
  }

  lemma PrepareKeepsLinks(s: System, s': System, t: nat)
    requires Links(s) && Prepare(s, s', t)
    ensures Links(s')
  {
  }

  lemma FinishKeepsLinks(s: System, s': System, t: nat)
    requires Links(s) && Finish(s, s', t)
    ensures Links(s')
  {
    WithoutDistinct(s.q, t);
  }

  lemma HeadKeepsLinks(s: System, s': System)
    requires Links(s) && s.holder == None && s.q != [] && s.q[0] in s.tasks && s' == OneWoken(s)
    ensures Links(s')
  {
    TailKeeps(s.q);
  }

  lemma WaiterKeepsLinks(s: System, s': System, t: nat)
    requires Links(s) && WaiterStep(s, s', t)
    ensures Links(s')
  {
    if Finish(s, s', t) {
      FinishKeepsLinks(s, s', t);
    } else if Prepare(s, s', t) {
      PrepareKeepsLinks(s, s', t);
    } else if HandOn(s, s', t) {
      var r := SetTask(s, t, s.tasks[t].(pc := Out));
      TaskKeepsLinks(s, r, t, r.tasks[t]);
      if s.q != [] { HeadKeepsLinks(r, s'); }
    } else {
      TaskKeepsLinks(s, s', t, s'.tasks[t]);
    }
  }

  /** No waiter's step leaves a new task stuck while the condition is true. */
  lemma NoneNewlyStuck(s: System, s': System, t: nat, u: nat)
    requires WaiterStep(s, s', t) && Stuck(s', u) && s'.cond
    ensures Stuck(s, u)
  {
    if HandOn(s, s', t) || Finish(s, s', t) {
      assert u in s.tasks;
    }
  }

  lemma WaiterKeepsRest(s: System, s': System, t: nat)
    requires WaiterStep(s, s', t)
    ensures s'.cond == s.cond && s'.holder == s.holder && s'.batch == s.batch && s'.pending == s.pending
    ensures s'.since == s.since && s'.done == s.done
  {
  }

  lemma WaiterKeepsOwed(s: System, s': System, t: nat)
    requires Owed(s) && WaiterStep(s, s', t)
    ensures Owed(s')
  {
    hide WaiterStep;
    WaiterKeepsRest(s, s', t);
    forall u | Stuck(s', u) && s'.cond ensures Stuck(s, u) { NoneNewlyStuck(s, s', t, u); }
  }

  lemma WakerKeeps(s: System, s': System, w: nat)
    requires Links(s) && Owed(s) && WakerStep(s, s', w)
    ensures Links(s') && Owed(s')
  {
    if WakeNext(s, s', w) { TailKeeps(s.batch); }
    forall u | Stuck(s', u) ensures Stuck(s, u) {
    }
  }

  lemma WakeOneKeeps(s: System, s': System)
    requires Links(s) && Owed(s) && WakeOne(s, s')
    ensures Links(s') && Owed(s')
  {
    HeadKeepsLinks(s, s');
    forall u | Stuck(s', u) ensures Stuck(s, u) {
    }
  }

  lemma {:induction false} RunKeeps(trace: seq<System>, i: nat)
    requires IsRun(trace) && i < |trace|
    ensures Links(trace[i]) && Owed(trace[i])
  {
    if i > 0 {
      RunKeeps(trace, i - 1);
      var (s, s') := (trace[i - 1], trace[i]);
      assert Next(s, s') by { assert Next(trace[i - 1], trace[i - 1 + 1]); }
      if t :| WaiterStep(s, s', t) { WaiterKeepsLinks(s, s', t); WaiterKeepsOwed(s, s', t); }
      else if w :| WakerStep(s, s', w) { WakerKeeps(s, s', w); }
      else if WakeOne(s, s') { WakeOneKeeps(s, s'); }
    }
  }

  /** A parked task is on the queue or in a waker's batch, exactly once, and a waker touches no entry whose waiter has left. */
  lemma ParkedIsLinked(trace: seq<System>, i: nat, t: nat)
    requires IsRun(trace) && i < |trace| && t in trace[i].tasks
    ensures trace[i].tasks[t].state == Blocked ==> multiset(trace[i].q + trace[i].batch)[t] == 1
    ensures trace[i].tasks[t].pc == Out || trace[i].tasks[t].pc == PassOn ==> multiset(trace[i].q + trace[i].batch)[t] == 0
  {
    RunKeeps(trace, i);
    OnceIn(trace[i].q, t);
    OnceIn(trace[i].batch, t);
    assert multiset(trace[i].q + trace[i].batch) == multiset(trace[i].q) + multiset(trace[i].batch);
  }

  /** No lost wakeup: once a waker that made the condition true has finished, and nobody has consumed it since,
      no task that found it false is still asleep. */
  lemma NoLostWakeup(trace: seq<System>, i: nat, j: nat, w: nat, t: nat)
    requires IsRun(trace) && i < j < |trace| - 1
    requires Announce(trace[i], trace[i + 1], w) && WakeDone(trace[j], trace[j + 1], w)
    requires forall k | i < k <= j :: trace[k].cond && w in trace[k].pending
    ensures !Stuck(trace[j + 1], t)
  {
    AnnouncedSince(trace, i, j, w);
    RunKeeps(trace, j + 1);
  }

  lemma StaysOnRecord(s: System, s': System, w: nat)
    requires Next(s, s') && s'.cond && w in s'.pending && w in s.since
    ensures w in s'.since
  {
    if t :| WaiterStep(s, s', t) { WaiterKeepsRest(s, s', t); }
  }

  /** While the condition stays true a waker that announced it is still on record. */
  lemma {:induction false} AnnouncedSince(trace: seq<System>, i: nat, j: nat, w: nat)
    requires IsRun(trace) && i < j < |trace| && Announce(trace[i], trace[i + 1], w)
    requires forall k | i < k <= j :: trace[k].cond && w in trace[k].pending
    ensures w in trace[j].since
    decreases j
  {
    hide Next;
    if j > i + 1 {
      AnnouncedSince(trace, i, j - 1, w);
      assert Next(trace[j - 1], trace[j - 1 + 1]);
      StaysOnRecord(trace[j - 1], trace[j], w);
    }
  }

  /** At rest: with the condition true and every waker finished, nobody is asleep. */
  lemma QuietMeansAwake(trace: seq<System>, i: nat, t: nat)
    requires IsRun(trace) && i < |trace| && trace[i].cond && trace[i].pending == {}
    ensures !Stuck(trace[i], t)
  {
    RunKeeps(trace, i);
  }
}
