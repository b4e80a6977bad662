/** The recursive sleeping mutex (kernel/core/mutex.c) over its wait queue. */
module Mutex {
  import opened Common

  /** The two fields the guard lock protects. */
  datatype Lock = Lock(owner: Option<nat>, depth: nat)

  datatype Outcome = Released | Shallower | NotHeld | NotOwner

  function TryLock(m: Lock, self: nat): (Lock, bool) {
    if m.depth == 0 then (Lock(Some(self), 1), true)
    else if m.owner == Some(self) then (m.(depth := m.depth + 1), true)
    else (m, false)
  }

  /** The guarded half of `kmutex_unlock`; a wake is due exactly on `Released`. */
  function Unlock(m: Lock, self: nat): (Lock, Outcome) {
    if m.depth == 0 then (m, NotHeld)
    else if m.owner != Some(self) then (m, NotOwner)
    else if m.depth > 1 then (m.(depth := m.depth - 1), Shallower)
    else (Lock(None, 0), Released)
  }

  class Kmutex {
    var owner: Option<nat>
    var depth: nat

    ghost predicate Valid()
      reads this
    { owner.None? <==> depth == 0 }

    ghost function View(): Lock
      reads this
    { Lock(owner, depth) }

    /** The acquisitions a task has to give back. */
    ghost function Holds(t: nat): nat
      reads this
    { if owner == Some(t) then depth else 0 }

    constructor ()
      ensures Valid() && View() == Lock(None, 0) && forall t :: Holds(t) == 0
    { owner, depth := None, 0; }

    /** `kmutex_try_lock` succeeds exactly when nobody else has an acquisition, and adds one of the caller's. */
    method DoTryLock(self: nat) returns (ok: bool)
      requires Valid()
      modifies this
      ensures Valid() && (View(), ok) == TryLock(old(View()), self)
      ensures ok <==> forall t | t != self :: old(Holds(t)) == 0
      ensures Holds(self) == old(Holds(self)) + if ok then 1 else 0
      ensures forall t | t != self :: Holds(t) == old(Holds(t))
    {
      assert owner.Some? ==> Holds(owner.value) == depth;
      if depth == 0 {
        owner, depth := Some(self), 1;
        return true;
      }
      if owner == Some(self) {
        depth := depth + 1;
        return true;
      }
      return false;
    }

    /** `kmutex_unlock` takes back one acquisition of the caller's, frees the mutex with the last, and panics exactly when the
        caller has none. */
    method DoUnlock(self: nat) returns (o: Outcome)
      requires Valid()
      modifies this
      ensures Valid() && (View(), o) == Unlock(old(View()), self)
      ensures o == NotHeld || o == NotOwner <==> old(Holds(self)) == 0
      ensures o == NotHeld <==> forall t :: old(Holds(t)) == 0
      ensures o == Released <==> old(Holds(self)) > 0 && forall t :: Holds(t) == 0
      ensures old(Holds(self)) > 0 ==> Holds(self) == old(Holds(self)) - 1
      ensures forall t | t != self || old(Holds(self)) == 0 :: Holds(t) == old(Holds(t))
    {
      assert owner.Some? ==> Holds(owner.value) == depth;
      if depth == 0 { return NotHeld; }
      if owner != Some(self) { return NotOwner; }
      if depth > 1 {
        depth := depth - 1;
        assert Holds(self) == depth;
        return Shallower;
      }
      depth := 0;
      owner := None;
      return Released;
    }
  }

  /** An acquisition that succeeds and the release that follows it leave the mutex as it was. */
  lemma LockUnlock(m: Lock, self: nat)
    requires (m.owner.None? <==> m.depth == 0) && TryLock(m, self).1
    ensures Unlock(TryLock(m, self).0, self) == (m, if m.depth == 0 then Released else Shallower)
  {
  }

  // ---------------------------------------------------------------- contenders and unlockers, interleaved

  datatype State = Running | Ready | Blocked

  /** `Trying` is the attempt before the wait loop; `Waking` owes the queue a wake after a release. */
  datatype Pc = Out | Trying | Top | Prepared | Tested | Parked | Leaving | Waking

  /** `held` counts the acquisitions a task has made and not released. */
  datatype Task = Task(state: State, pc: Pc, held: nat)

  datatype System = System(m: Lock, tasks: map<nat, Task>, q: seq<nat>)

  function SetTask(s: System, t: nat, x: Task): System { s.(tasks := s.tasks[t := x]) }

  function Woken(x: Task): Task { x.(state := if x.state == Blocked then Ready else x.state) }

  ghost predicate Init(s: System) {
    s.m == Lock(None, 0) && s.q == [] && forall t | t in s.tasks :: s.tasks[t] == Task(Running, Out, 0)
  }

  ghost predicate At(s: System, t: nat, pc: Pc) { t in s.tasks && s.tasks[t].pc == pc }

  ghost predicate Call(s: System, s': System, t: nat) {
    At(s, t, Out) && s' == SetTask(s, t, s.tasks[t].(pc := Trying))
  }

  /** `kmutex_try_lock`, before the loop or as the loop's condition. */
  ghost predicate Attempt(s: System, s': System, t: nat) {
    && t in s.tasks && (s.tasks[t].pc == Trying || s.tasks[t].pc == Prepared)
    && var (m, ok) := TryLock(s.m, t);
       var first := s.tasks[t].pc == Trying;
       s' == SetTask(s, t, s.tasks[t].(pc := if first then (if ok then Out else Top) else (if ok then Leaving else Tested),
                                       held := s.tasks[t].held + if ok then 1 else 0)).(m := m)
  }

  ghost predicate Prepare(s: System, s': System, t: nat) {
    && At(s, t, Top)
    && var x := s.tasks[t].(pc := Prepared, state := if s.tasks[t].state == Running then Blocked else s.tasks[t].state);
       s' == SetTask(s, t, x).(q := if t in s.q then s.q else s.q + [t])
  }

  ghost predicate Park(s: System, s': System, t: nat) {
    At(s, t, Tested) && s' == SetTask(s, t, s.tasks[t].(pc := Parked))
  }

  ghost predicate Resume(s: System, s': System, t: nat) {
    At(s, t, Parked) && s.tasks[t].state != Blocked && s' == SetTask(s, t, s.tasks[t].(state := Running, pc := Top))
  }

  ghost predicate Reschedule(s: System, s': System, t: nat) {
    At(s, t, Out) && s.tasks[t].state == Ready && s' == SetTask(s, t, s.tasks[t].(state := Running))
  }

  ghost predicate Finish(s: System, s': System, t: nat) {
    && At(s, t, Leaving)
    && s' == SetTask(s, t, s.tasks[t].(state := if s.tasks[t].state == Blocked then Running else s.tasks[t].state, pc := Out))
             .(q := Without(s.q, t))
  }

  /** Any task may call unlock; the two panics are outcomes that leave the lock as it was. */
  ghost predicate Release(s: System, s': System, t: nat, o: Outcome) {
    && At(s, t, Out)
    && var (m, r) := Unlock(s.m, t);
       && o == r
       && s' == SetTask(s, t, s.tasks[t].(pc := if r == Released then Waking else Out,
                                          held := if r == Released then 0
                                                  else if r == Shallower && s.tasks[t].held > 0 then s.tasks[t].held - 1
                                                  else s.tasks[t].held)).(m := m)
  }

  ghost predicate Wake(s: System, s': System, t: nat) {
    && At(s, t, Waking) && (s.q != [] ==> s.q[0] in s.tasks)
    && var r := SetTask(s, t, s.tasks[t].(pc := Out));
       s' == if s.q == [] then r else SetTask(r, s.q[0], Woken(r.tasks[s.q[0]])).(q := s.q[1..])
  }

  /** A signal or timeout un-blocks a task wherever it is. */
  ghost predicate Unblock(s: System, s': System, t: nat) {
    t in s.tasks && s' == SetTask(s, t, Woken(s.tasks[t]))
  }

  ghost predicate Step(s: System, s': System, t: nat) {
    || Call(s, s', t) || Attempt(s, s', t) || Prepare(s, s', t) || Park(s, s', t) || Resume(s, s', t) || Reschedule(s, s', t)
    || Finish(s, s', t) || (exists o :: Release(s, s', t, o)) || Wake(s, s', t) || Unblock(s, s', t)
  }

  ghost predicate Next(s: System, s': System) { exists t :: Step(s, s', t) }

  ghost predicate IsRun(trace: seq<System>) {
    |trace| > 0 && Init(trace[0]) && forall i | 0 <= i < |trace| - 1 :: Next(trace[i], trace[i + 1])
  }

  // ---------------------------------------------------------------- ownership

  /** The depth is the owner's outstanding acquisitions, and nobody else has any. */
  ghost predicate Owned(s: System) {
    && (s.m.owner.None? <==> s.m.depth == 0)
    && (s.m.owner.Some? ==> s.m.owner.value in s.tasks && s.tasks[s.m.owner.value].held == s.m.depth)
    && (forall t | t in s.tasks && s.m.owner != Some(t) :: s.tasks[t].held == 0)
    && (forall t | t in s.tasks && s.tasks[t].pc == Leaving :: s.m.owner == Some(t))
    && (forall t | t in s.tasks && (s.tasks[t].pc == Top || s.tasks[t].pc == Prepared || s.tasks[t].pc == Tested
                                    || s.tasks[t].pc == Parked || s.tasks[t].pc == Waking) :: s.tasks[t].held == 0)
  }

  /** A step that neither acquires nor releases: `t` moves on with the acquisitions it has. */
  lemma QuietKeepsOwned(s: System, s': System, t: nat)
    requires Owned(s) && t in s.tasks && s'.m == s.m && s'.tasks.Keys == s.tasks.Keys
    requires forall u | u in s.tasks :: s'.tasks[u].held == s.tasks[u].held && (u != t ==> s'.tasks[u].pc == s.tasks[u].pc)
    requires s'.tasks[t].pc == Leaving ==> s.tasks[t].pc == Leaving
    requires s'.tasks[t].pc == s.tasks[t].pc || s'.tasks[t].pc == Out || s'.tasks[t].pc == Trying || s.tasks[t].held == 0
    ensures Owned(s')
  {
  }

  lemma AttemptKeepsOwned(s: System, s': System, t: nat)
    requires Owned(s) && Attempt(s, s', t)
    ensures Owned(s')
  {
  }

  lemma ReleaseKeepsOwned(s: System, s': System, t: nat, o: Outcome)
    requires Owned(s) && Release(s, s', t, o)
    ensures Owned(s')
  {
  }

  lemma StepKeepsOwned(s: System, s': System, t: nat)
    requires Owned(s) && Step(s, s', t)
    ensures Owned(s')
  {
    if Attempt(s, s', t) { AttemptKeepsOwned(s, s', t); }
    else if o :| Release(s, s', t, o) { ReleaseKeepsOwned(s, s', t, o); }
    else { QuietKeepsOwned(s, s', t); }
  }

  // ---------------------------------------------------------------- nobody is stranded

  ghost predicate Stuck(s: System, t: nat) {
    t in s.tasks && (s.tasks[t].pc == Tested || s.tasks[t].pc == Parked) && s.tasks[t].state == Blocked
  }

  /** Owes a wake, or will try the lock again by itself. */
  ghost predicate Active(s: System, u: nat) {
    && u in s.tasks
    && (|| s.tasks[u].pc == Waking || s.tasks[u].pc == Top || s.tasks[u].pc == Prepared
        || ((s.tasks[u].pc == Tested || s.tasks[u].pc == Parked) && s.tasks[u].state != Blocked))
  }

  ghost predicate Links(s: System) {
    && (forall t | t in s.q :: t in s.tasks && InLoop(s.tasks[t].pc))
    && (forall t | t in s.tasks && s.tasks[t].state == Blocked :: s.tasks[t].pc != Top && t in s.q)
    && Distinct(s.q)
  }

  /** A free mutex with a sleeper has somebody on the way. */
  ghost predicate NoneStranded(s: System) {
    s.m.depth == 0 && (exists t :: Stuck(s, t)) ==> exists u :: Active(s, u)
  }

  ghost predicate InLoop(pc: Pc) { pc == Top || pc == Prepared || pc == Tested || pc == Parked || pc == Leaving }

  /** A step that changes one task and no link. */
  lemma TaskKeepsLinks(s: System, s': System, t: nat, x: Task)
    requires Links(s) && t in s.tasks && s'.tasks == s.tasks[t := x] && s'.q == s.q
    requires InLoop(x.pc) || !InLoop(s.tasks[t].pc)
    requires x.state == Blocked ==> s.tasks[t].state == Blocked && x.pc != Top
    ensures Links(s')
  {
  }

  lemma PrepareKeepsLinks(s: System, s': System, t: nat)
    requires Links(s) && Prepare(s, s', t)
    ensures Links(s')
  {
  }

  lemma FinishKeepsLinks(s: System, s': System, t: nat)
    requires Links(s) && Finish(s, s', t)
    ensures Links(s')
  {
    WithoutDistinct(s.q, t);
  }

  lemma HeadKeepsLinks(s: System, s': System)
    requires Links(s) && s.q != [] && s' == SetTask(s, s.q[0], Woken(s.tasks[s.q[0]])).(q := s.q[1..])
    ensures Links(s')
  {
    TailKeeps(s.q);
  }

  lemma StepKeepsLinks(s: System, s': System, t: nat)
    requires Links(s) && Step(s, s', t)
    ensures Links(s')
  {
    if Prepare(s, s', t) {
      PrepareKeepsLinks(s, s', t);
    } else if Finish(s, s', t) {
      FinishKeepsLinks(s, s', t);
    } else if Wake(s, s', t) {
      var r := SetTask(s, t, s.tasks[t].(pc := Out));
      TaskKeepsLinks(s, r, t, r.tasks[t]);
      if s.q != [] { HeadKeepsLinks(r, s'); }
    } else {
      hide Links;
      TaskKeepsLinks(s, s', t, s'.tasks[t]);
    }
  }

  /** Whoever owes a wake passes the duty to whichever task it wakes: the first on the queue, which is inside the loop. */
  lemma WakeKeepsProgress(s: System, s': System, t: nat)
    requires Owned(s) && Links(s) && NoneStranded(s) && Wake(s, s', t)
    ensures NoneStranded(s')
  {
    if s'.m.depth == 0 && exists v :: Stuck(s', v) {
      var v :| Stuck(s', v);
      assert v in s.q;
      assert Active(s', s.q[0]);
    }
  }

  /** While the mutex stays free, only its waker goes quiet, and nobody falls asleep. */
  lemma StaysActive(s: System, s': System, t: nat, u: nat)
    requires Step(s, s', t) && !Wake(s, s', t) && s.m.depth == 0 && s'.m.depth == 0 && Active(s, u)
    ensures Active(s', u)
  {
  }

  lemma NoneFallsAsleep(s: System, s': System, t: nat, v: nat)
    requires Step(s, s', t) && s.m.depth == 0 && Stuck(s', v)
    ensures Stuck(s, v)
  {
  }

  /** Whoever retries takes the free lock; whoever frees it owes a wake. */
  lemma StepKeepsProgress(s: System, s': System, t: nat)
    requires Owned(s) && Links(s) && NoneStranded(s) && Step(s, s', t)
    ensures NoneStranded(s')
  {
    if Wake(s, s', t) {
      WakeKeepsProgress(s, s', t);
    } else if s'.m.depth == 0 && exists v :: Stuck(s', v) {
      hide Owned, Links;
      var v :| Stuck(s', v);
      if s.m.depth > 0 {
        assert Active(s', t);
      } else {
        hide Step;
        NoneFallsAsleep(s, s', t, v);
        var u :| Active(s, u);
        StaysActive(s, s', t, u);
      }
    }
  }

  lemma {:induction false} RunKeeps(trace: seq<System>, i: nat)
    requires IsRun(trace) && i < |trace|
    ensures Owned(trace[i]) && Links(trace[i]) && NoneStranded(trace[i])
  {
    if i > 0 {
      RunKeeps(trace, i - 1);
      var (s, s') := (trace[i - 1], trace[i]);
      assert Next(trace[i - 1], trace[i - 1 + 1]);
      var t :| Step(s, s', t);
      StepKeepsOwned(s, s', t);
      StepKeepsLinks(s, s', t);
      StepKeepsProgress(s, s', t);
    }
  }

  /** In every reachable state: one task at most is inside, the depth is its outstanding acquisitions, and a sleeper on
      a free mutex is never left without a pending wake or an awake contender. */
  lemma MutexIsSafe(trace: seq<System>, i: nat)
    requires IsRun(trace) && i < |trace|
    ensures forall t, u | t in trace[i].tasks && u in trace[i].tasks && trace[i].tasks[t].held > 0 && trace[i].tasks[u].held > 0 :: t == u
    ensures forall t | t in trace[i].tasks && trace[i].tasks[t].held > 0 :: trace[i].m == Lock(Some(t), trace[i].tasks[t].held)
    ensures NoneStranded(trace[i])
  {
    RunKeeps(trace, i);
  }

  /** Unlock panics exactly when the caller has no outstanding acquisition, and wakes exactly when it gives up its last. */
  lemma UnlockOutcome(trace: seq<System>, i: nat, s': System, t: nat, o: Outcome)
    requires IsRun(trace) && i < |trace| && Release(trace[i], s', t, o)
    ensures o == NotHeld || o == NotOwner <==> trace[i].tasks[t].held == 0
    ensures o == Released <==> trace[i].tasks[t].held == 1
    ensures trace[i].tasks[t].held > 0 ==> s'.tasks[t].held == trace[i].tasks[t].held - 1
  {
    RunKeeps(trace, i);
  }
}
