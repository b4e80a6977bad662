/** What a signal does: what a send leaves behind, that a default action is taken, and that a kill ends its target. */
module SignalsProgress {
  import opened Common
  import opened Signals

  // ---------------------------------------------------------------- sending

  /** The steps of one send to `t`, with no other step between them. */
  ghost predicate Sends(s: seq<System>, t: nat, sig: nat) {
    && |s| == 7 && s[0].holder == None && Begin(s[0], s[1], t, sig) && ClearOther(s[1], s[2]) && Post(s[2], s[3])
    && Continue(s[3], s[4]) && WakeTarget(s[4], s[5]) && EndSend(s[5], s[6])
  }

  /** What a send does to its target, in terms of the target alone: the signal becomes pending unless its disposition drops
      it, a stop and a continue cancel each other, a continue or a kill resumes a stopped process whatever the disposition,
      and any signal that became pending wakes a blocked one. */
  ghost predicate SentTo(x: Proc, y: Proc, sig: nat) {
    var drops := sig !in {SIGKILL, SIGSTOP}
                 && (HandlerOf(x, sig) == Ignore || (HandlerOf(x, sig) == Default && sig in {SIGCHLD, SIGURG, SIGWINCH}));
    && (sig in y.pending <==> !drops || sig in x.pending)
    && (forall o | o != sig ::
          o in y.pending <==> o in x.pending && !(sig in {SIGSTOP, SIGTSTP, SIGTTIN, SIGTTOU} && o == SIGCONT)
                              && !(sig == SIGCONT && o in {SIGSTOP, SIGTSTP, SIGTTIN, SIGTTOU}))
    && y.state == (if x.state == Stopped && sig in {SIGCONT, SIGKILL} then Ready
                   else if x.state == Blocked && !drops then Ready else x.state)
    && y.blocked == x.blocked && y.handlers == x.handlers && y.pc == x.pc
  }

  lemma SendEffect(s: seq<System>, t: nat, sig: nat)
    requires Sends(s, t, sig)
    ensures t in s[0].procs && t in s[6].procs && s[6] == s[0].(procs := s[0].procs[t := s[6].procs[t]])
    ensures SentTo(s[0].procs[t], s[6].procs[t], sig)
  {
    var (x, y) := (s[0].procs[t], s[6].procs[t]);
    assert s[2].procs == s[0].procs[t := s[2].procs[t]];
    assert s[3].procs == s[0].procs[t := s[3].procs[t]];
    assert s[4].procs == s[0].procs[t := s[4].procs[t]];
    assert s[5].procs == s[0].procs[t := s[5].procs[t]];
    assert s[6].procs == s[0].procs[t := y];
  }

  /** A send to any live process can go through once the lock is free. */
  lemma SendCompletes(s: System, t: nat, sig: nat) returns (run: seq<System>)
    requires s.holder == None && t in s.procs && s.procs[t].state != Dead
    ensures Sends(run, t, sig) && run[0] == s
  {
    var s1 := s.(holder := Some(Send(t, sig, 0, false)));
    var p := s1.procs[t];
    var left := set x | x in p.pending && !(IsStop(sig) && x == SIGCONT) && !(sig == SIGCONT && IsStop(x));
    var s2 := Signals.Put(s1, t, p.(pending := left)).(holder := Some(Send(t, sig, 1, false)));
    var d := Discarded(s2.procs[t], sig);
    var q := s2.procs[t];
    var s3 := Signals.Put(s2, t, if d then q else q.(pending := q.pending + {sig})).(holder := Some(Send(t, sig, 2, d)));
    var u := s3.procs[t];
    var s4 := Signals.Put(s3, t, if Overrides(sig) && u.state == Stopped then u.(state := Ready) else u).(holder := Some(Send(t, sig, 3, d)));
    var v := s4.procs[t];
    var s5 := Signals.Put(s4, t, if !d && v.state == Blocked then v.(state := Ready) else v).(holder := Some(Send(t, sig, 4, d)));
    run := [s, s1, s2, s3, s4, s5, s5.(holder := None)];
  }

  // ---------------------------------------------------------------- what holds of every process in every run

  /** SIGKILL and SIGSTOP are never blocked, caught or ignored, and a process in the stop branch is in the matching state. */
  ghost predicate Steady(x: Proc) {
    && SIGKILL !in x.blocked && SIGSTOP !in x.blocked && HandlerOf(x, SIGKILL) == Default && HandlerOf(x, SIGSTOP) == Default
    && (x.pc.Yielding? ==> x.state == Ready) && (x.pc == Parked ==> x.state == Stopped || x.state == Ready)
    && (x.pc == Halted ==> x.state == Stopped)
    && (x.pc == Exiting || x.pc.Locked? || x.pc.Checked? ==> x.state != Stopped && x.state != Blocked)
  }

  ghost predicate AllSteady(s: System) { forall p | p in s.procs :: Steady(s.procs[p]) }

  lemma SenderSteady(s: System, s': System)
    requires Inv(s) && AllSteady(s) && SenderStep(s, s')
    ensures AllSteady(s')
  {
    forall p | p in s'.procs ensures Steady(s'.procs[p]) { assert Steady(s.procs[p]) && ProcOk(s, p); }
  }

  lemma StopSteady(s: System, s': System, p: nat)
    requires Inv(s) && AllSteady(s) && StopStep(s, s', p)
    ensures AllSteady(s')
  {
    forall q | q in s'.procs ensures Steady(s'.procs[q]) { assert Steady(s.procs[q]); }
  }

  lemma TurnSteady(s: System, s': System, p: nat)
    requires AllSteady(s) && TurnStep(s, s', p)
    ensures AllSteady(s')
  {
    forall q | q in s'.procs ensures Steady(s'.procs[q]) { assert Steady(s.procs[q]); }
  }

  lemma CallSteady(s: System, s': System, p: nat)
    requires AllSteady(s) && CallStep(s, s', p)
    ensures AllSteady(s')
  {
    forall q | q in s'.procs ensures Steady(s'.procs[q]) { assert Steady(if q in s.procs then s.procs[q] else s.procs[p]); }
  }

  lemma {:induction false} RunSteady(trace: seq<System>, i: nat)
    requires IsRun(trace) && i < |trace|
    ensures AllSteady(trace[i])
  {
    if i > 0 {
      RunSteady(trace, i - 1);
      RunKeepsInv(trace, i - 1);
      var (s, s') := (trace[i - 1], trace[i]);
      assert Next(s, s') by { assert Next(trace[i - 1], trace[i - 1 + 1]); }
      hide Inv, AllSteady, SenderStep, StopStep, TurnStep, CallStep;
      if SenderStep(s, s') { SenderSteady(s, s'); }
      else if p :| StopStep(s, s', p) { StopSteady(s, s', p); }
      else if p :| TurnStep(s, s', p) { TurnSteady(s, s', p); }
      else { var p :| CallStep(s, s', p); CallSteady(s, s', p); }
    }
  }

  /** A process that is on its way out stays so until it is dead. */
  lemma ExitingIsFinal(trace: seq<System>, i: nat, p: nat)
    requires IsRun(trace) && i < |trace| - 1 && p in trace[i].procs && trace[i].procs[p].pc == Exiting
    ensures p in trace[i + 1].procs && trace[i + 1].procs[p].pc == Exiting
  {
    RunSteady(trace, i);
    assert Next(trace[i], trace[i + 1]);
    hide IsRun, SenderStep, StopStep, TurnStep, CallStep;
    ExitingStays(trace[i], trace[i + 1], p);
  }

  lemma ExitingStays(s: System, s': System, p: nat)
    requires AllSteady(s) && Next(s, s') && p in s.procs && s.procs[p].pc == Exiting
    ensures p in s'.procs && s'.procs[p].pc == Exiting
  {
    assert Steady(s.procs[p]);
    hide AllSteady;
    if q :| CallStep(s, s', q) {
      hide SenderStep, StopStep, TurnStep;
    } else if q :| StopStep(s, s', q) {
      hide SenderStep, CallStep, TurnStep;
    } else if q :| TurnStep(s, s', q) {
      hide SenderStep, CallStep, StopStep;
    } else {
      hide CallStep, StopStep, TurnStep;
    }
  }

  // ---------------------------------------------------------------- delivery, by the process alone

  /** The process's own steps of delivery: it does not leave by its own choice. */
  ghost predicate DeliverStep(s: System, s': System, p: nat) {
    StopStep(s, s', p) || Dispatch(s, s', p) || (p in s.procs && s.procs[p].pc == Exiting && Exit(s, s', p))
  }

  ghost predicate DeliverRun(run: seq<System>, p: nat) {
    |run| > 0 && forall i | 0 <= i < |run| - 1 :: DeliverStep(run[i], run[i + 1], p)
  }

  ghost predicate Dies(s: System, p: nat) {
    exists run: seq<System> :: DeliverRun(run, p) && run[0] == s && p in run[|run| - 1].procs && run[|run| - 1].procs[p].state == Dead
  }

  lemma StepThenDies(s: System, s': System, p: nat)
    requires DeliverStep(s, s', p) && Dies(s', p)
    ensures Dies(s, p)
  {
    hide DeliverStep;
    var run: seq<System> :| DeliverRun(run, p) && run[0] == s' && p in run[|run| - 1].procs && run[|run| - 1].procs[p].state == Dead;
    var longer := [s] + run;
    assert longer[|longer| - 1] == run[|run| - 1];
    assert DeliverRun(longer, p);
  }

  ghost predicate Awake(s: System, p: nat) { p in s.procs && (s.procs[p].state == Running || s.procs[p].state == Ready) }

  lemma ExitingDies(s: System, p: nat)
    requires Awake(s, p) && s.procs[p].pc == Exiting
    ensures Dies(s, p)
  {
    var x := s.procs[p];
    var s1 := if x.state == Ready then Signals.Put(s, p, x.(state := Running)) else s;
    var s2 := Signals.Put(s1, p, s1.procs[p].(state := Dead));
    assert Exit(s1, s2, p) && DeliverStep(s1, s2, p);
    assert DeliverRun([s2], p) && [s2][0] == s2;
    assert Dies(s2, p);
    StepThenDies(s1, s2, p);
    if x.state == Ready {
      assert Dispatch(s, s1, p);
      StepThenDies(s, s1, p);
    }
  }

  /** A delivered signal left to a default action that is not to stop, continue or ignore ends the process. */
  lemma FatalEnds(s: System, p: nat)
    requires Awake(s, p) && s.procs[p].pc.Picked? && HandlerOf(s.procs[p], s.procs[p].pc.sig) == Default
    requires s.procs[p].pc.sig !in {SIGCHLD, SIGURG, SIGWINCH, SIGCONT, SIGSTOP, SIGTSTP, SIGTTIN, SIGTTOU}
    ensures Dies(s, p)
  {
    var x := s.procs[p];
    var s' := Signals.Put(s, p, x.(pending := x.pending - {x.pc.sig}, pc := Exiting));
    assert Pop(s, s', p, NoFrame);
    ExitingDies(s', p);
    StepThenDies(s, s', p);
  }

  lemma {:induction false} Least(q: set<nat>, x: nat) returns (least: nat)
    requires x in q
    ensures least in q && forall y | y in q :: least <= y
  {
    if y :| y in q && y < x { least := Least(q, y); } else { least := x; }
  }

  /** How far a process with a kill pending is from the next signal it takes. */
  ghost function Ahead(x: Proc): nat {
    match x.pc
    case Picked(sig) => if sig in x.pending then 0 else 6
    case Normal => 1
    case Parked => 2
    case Locked(_) => 3
    case Stopping(_) => 4
    case Yielding(_) => 5
    case _ => 0
  }

  /** The lock is free, or the process holds it to decide whether to stop. */
  ghost predicate Unhindered(s: System, p: nat) {
    s.holder == None || (s.holder == Some(Self(p)) && p in s.procs && s.procs[p].pc.Locked?)
  }

  ghost predicate Killed(s: System, p: nat) { Awake(s, p) && Unhindered(s, p) && SIGKILL in s.procs[p].pending }

  /** A step towards the end: out of the way, or one signal fewer, or closer to the next. */
  ghost predicate Nears(x: Proc, y: Proc) {
    |y.pending| < |x.pending| || (y.pending == x.pending && Ahead(y) < Ahead(x))
  }

  /** From a taken signal: the kill itself ends the process, and so may another; a stop goes on to be overridden. */
  lemma PopMoves(s: System, p: nat) returns (s': System)
    requires Inv(s) && AllSteady(s) && Killed(s, p) && s.procs[p].pc.Picked?
    ensures DeliverStep(s, s', p) && Awake(s', p) && s'.holder == None
    ensures s'.procs[p].pc == Exiting || (Killed(s', p) && Nears(s.procs[p], s'.procs[p]))
  {
    var x := s.procs[p];
    assert Steady(x);
    var (sig, h) := (x.pc.sig, HandlerOf(x, x.pc.sig));
    var y := x.(pending := x.pending - {sig}, pc := Normal);
    s' := Signals.Put(s, p, if h == Caught then Entered(y, sig, NoFrame)
                            else if h == Ignore || IgnoredByDefault(sig) || sig == SIGCONT then y
                            else if IsStop(sig) then y.(pc := Stopping(sig)) else y.(pc := Exiting));
    assert Pop(s, s', p, NoFrame);
    if sig !in x.pending { assert x.pending - {sig} == x.pending; }
  }

  lemma KillMoves(s: System, p: nat) returns (s': System)
    requires Inv(s) && AllSteady(s) && Killed(s, p) && s.procs[p].pc != Exiting
    ensures DeliverStep(s, s', p) && Awake(s', p)
    ensures s'.procs[p].pc == Exiting || (Killed(s', p) && Nears(s.procs[p], s'.procs[p]))
  {
    var x := s.procs[p];
    assert Steady(x) && ProcOk(s, p);
    match x.pc {
      case Picked(_) =>
        s' := PopMoves(s, p);
      case Normal =>
        var sig := Least(x.pending - x.blocked, SIGKILL);
        s' := Signals.Put(s, p, x.(pc := Picked(sig)));
        assert Pick(s, s', p, sig);
      case Parked =>
        s' := Signals.Put(s, p, x.(state := Running, pc := Normal));
        assert Dispatch(s, s', p);
      case Yielding(sig) =>
        s' := Signals.Put(s, p, x.(state := Running, pc := Stopping(sig)));
        assert Dispatch(s, s', p);
      case Stopping(sig) =>
        s' := Signals.Put(s, p, x.(pc := Locked(sig))).(holder := Some(Self(p)));
        assert TakeLock(s, s', p);
      case Locked(_) =>
        s' := Signals.Put(s, p, x.(pc := Normal)).(holder := None);
        assert Overrides(SIGKILL);
        assert CheckOverride(s, s', p);
    }
  }

  lemma DeliverKeeps(s: System, s': System, p: nat)
    requires Inv(s) && AllSteady(s) && DeliverStep(s, s', p)
    ensures Inv(s') && AllSteady(s')
  {
    hide Inv, AllSteady, StopStep;
    if StopStep(s, s', p) { StopKeeps(s, s', p); StopSteady(s, s', p); }
    else { TurnKeeps(s, s', p); TurnSteady(s, s', p); }
  }

  lemma {:induction false} KillEnds(s: System, p: nat)
    requires Inv(s) && AllSteady(s) && Killed(s, p)
    ensures Dies(s, p)
    decreases |s.procs[p].pending|, Ahead(s.procs[p])
  {
    if s.procs[p].pc == Exiting {
      ExitingDies(s, p);
    } else {
      hide Inv, AllSteady, Dies, DeliverStep;
      var s' := KillMoves(s, p);
      DeliverKeeps(s, s', p);
      if s'.procs[p].pc == Exiting { ExitingDies(s', p); } else { KillEnds(s', p); }
      StepThenDies(s, s', p);
    }
  }

  /** In every run: once a kill is pending and the lock is free, the target is neither stopped nor able to refuse; unless it
      sleeps, its own steps of delivery end it. */
  lemma KillIsFatal(trace: seq<System>, i: nat, p: nat)
    requires IsRun(trace) && i < |trace| && p in trace[i].procs && trace[i].holder == None && SIGKILL in trace[i].procs[p].pending
    requires trace[i].procs[p].state != Dead && trace[i].procs[p].state != Blocked
    ensures trace[i].procs[p].state != Stopped && Dies(trace[i], p)
  {
    RunKeepsInv(trace, i);
    RunSteady(trace, i);
    StopsAreOverridden(trace, i, p);
    KillEnds(trace[i], p);
  }

  /** A stop that reaches its critical section with nothing to override it stops the process, and gives up the lock; one that
      something overrides never does. */
  lemma StopsOrNot(s: System, p: nat) returns (run: seq<System>)
    requires p in s.procs && s.procs[p].state == Running && s.procs[p].pc.Stopping? && s.holder == None
    ensures DeliverRun(run, p) && run[0] == s
    ensures var s' := run[|run| - 1];
            && s'.holder == None && p in s'.procs && s'.procs[p].pending == s.procs[p].pending
            && (if SIGCONT in s.procs[p].pending || SIGKILL in s.procs[p].pending
                then s'.procs[p].state == Running && s'.procs[p].pc == Normal
                else s'.procs[p].state == Stopped && s'.procs[p].pc == Parked)
  {
    var x := s.procs[p];
    var s1 := Signals.Put(s, p, x.(pc := Locked(x.pc.sig))).(holder := Some(Self(p)));
    assert TakeLock(s, s1, p);
    if SIGCONT in x.pending || SIGKILL in x.pending {
      var s2 := Signals.Put(s1, p, x.(pc := Normal)).(holder := None);
      assert Overrides(SIGCONT) && Overrides(SIGKILL);
      assert CheckOverride(s1, s2, p);
      run := [s, s1, s2];
    } else {
      var s2 := Signals.Put(s1, p, x.(pc := Checked(x.pc.sig)));
      assert CheckOverride(s1, s2, p);
      var s3 := Signals.Put(s2, p, x.(state := Stopped, pc := Halted));
      assert TryStop(s2, s3, p);
      var s4 := Signals.Put(s3, p, x.(state := Stopped, pc := Parked)).(holder := None);
      assert Unlock(s3, s4, p);
      run := [s, s1, s2, s3, s4];
    }
  }

  /** In every run the signal a process takes is the lowest of those pending and not blocked. */
  lemma TakesLowest(trace: seq<System>, i: nat, p: nat)
    requires IsRun(trace) && i < |trace| - 1 && p in trace[i].procs && p in trace[i + 1].procs
    requires !trace[i].procs[p].pc.Picked? && trace[i + 1].procs[p].pc.Picked?
    ensures var (x, sig) := (trace[i].procs[p], trace[i + 1].procs[p].pc.sig);
            sig in x.pending && sig !in x.blocked && forall o | o in x.pending && o !in x.blocked :: sig <= o
  {
    assert Next(trace[i], trace[i + 1]);
    hide IsRun, SenderStep, StopStep, TurnStep, CallStep;
    OnlyPickPicks(trace[i], trace[i + 1], p);
    var x := trace[i].procs[p];
    assert forall o | o in x.pending && o !in x.blocked :: o in x.pending - x.blocked;
  }

  lemma OnlyPickPicks(s: System, s': System, p: nat)
    requires Next(s, s') && p in s.procs && p in s'.procs && !s.procs[p].pc.Picked? && s'.procs[p].pc.Picked?
    ensures Pick(s, s', p, s'.procs[p].pc.sig)
  {
    if q :| CallStep(s, s', q) {
      hide SenderStep, StopStep, TurnStep, Pick;
    } else if q :| StopStep(s, s', q) {
      hide SenderStep, CallStep, TurnStep;
    } else if q :| TurnStep(s, s', q) {
      hide SenderStep, CallStep, StopStep, Pick;
    } else {
      hide CallStep, StopStep, TurnStep, Pick;
    }
  }

  /** What taking a signal leaves, by its disposition: just that signal is no longer pending, and a handler runs with its own
      mask added, never SIGKILL or SIGSTOP, its disposition reset if asked. */
  lemma TakingEffect(s: System, s': System, p: nat, how: Catch)
    requires Pop(s, s', p, how)
    ensures var (x, y, sig) := (s.procs[p], s'.procs[p], s.procs[p].pc.sig);
            && y.pending == x.pending - {sig} && y.state == x.state
            && (HandlerOf(x, sig) != Caught ==> y.blocked == x.blocked && y.handlers == x.handlers)
            && (HandlerOf(x, sig) == Caught && how.Enter? ==>
                  && y.pc == Normal && (forall o :: o in y.blocked <==> (o in x.blocked || o in how.mask) && o != SIGKILL && o != SIGSTOP)
                  && HandlerOf(y, sig) == if how.reset then Default else Caught)
            && (HandlerOf(x, sig) == Caught && how.NoFrame? ==> y.pc == Exiting)
            && (HandlerOf(x, sig) == Ignore ==> y.pc == Normal)
            && (HandlerOf(x, sig) == Default && sig in {SIGSTOP, SIGTSTP, SIGTTIN, SIGTTOU} ==> y.pc == Stopping(sig))
            && (HandlerOf(x, sig) == Default && sig in {SIGCHLD, SIGURG, SIGWINCH, SIGCONT} ==> y.pc == Normal)
  {
  }

  /** A synchronous fault cannot be blocked or ignored away: its signal is deliverable, to a handler or to its default action,
      and no other disposition or mask bit changes. */
  lemma FaultIsDeliverable(s: System, s': System, p: nat, sig: nat)
    requires Fault(s, s', p, sig)
    ensures var (x, y) := (s.procs[p], s'.procs[p]);
            && sig in y.pending - y.blocked && HandlerOf(y, sig) != Ignore && y.pending == x.pending + {sig}
            && (HandlerOf(x, sig) == Caught && sig !in x.blocked ==> HandlerOf(y, sig) == Caught)
            && forall o | o != sig :: HandlerOf(y, o) == HandlerOf(x, o) && (o in y.blocked <==> o in x.blocked)
  {
  }

  /** What the calls leave: a new disposition holds, and ignoring a signal drops it; a new image keeps what is pending, blocked
      and ignored and forgets what was caught; a child has its parent's dispositions and mask and nothing pending. */
  lemma CallEffects(s: System, s': System, p: nat, sig: nat, h: Handler, c: nat)
    requires p in s.procs
    ensures SigAction(s, s', p, sig, h) ==>
              && HandlerOf(s'.procs[p], sig) == h && (forall o | o != sig :: HandlerOf(s'.procs[p], o) == HandlerOf(s.procs[p], o))
              && s'.procs[p].pending == (if h == Ignore then s.procs[p].pending - {sig} else s.procs[p].pending)
              && s'.procs[p].blocked == s.procs[p].blocked
    ensures Exec(s, s', p) ==>
              && (forall o :: HandlerOf(s'.procs[p], o) == if HandlerOf(s.procs[p], o) == Ignore then Ignore else Default)
              && s'.procs[p].pending == s.procs[p].pending && s'.procs[p].blocked == s.procs[p].blocked
    ensures Fork(s, s', p, c) ==>
              && s'.procs[c].pending == {} && s'.procs[c].blocked == s.procs[p].blocked && s'.procs[c].handlers == s.procs[p].handlers
              && s'.procs[c].state == Ready && (c != p ==> s'.procs[p] == s.procs[p])
  {
  }
}
