/** What a wait is for: it ends for a reason, a wake is never dropped, and whoever is awake can leave. */
module WaitProgress {
  import opened Common
  import opened WaitMachine

  // ---------------------------------------------------------------- why a wait ends

  /** A step by waiter `u` moves no other task along, though it may wake one. */
  lemma OthersStay(s: System, s': System, u: nat)
    requires WaiterStep(s, s', u)
    ensures u in s.tasks && s'.tasks.Keys == s.tasks.Keys
    ensures forall t | t in s.tasks && t != u :: s'.tasks[t].pc == s.tasks[t].pc
  {
    hide WaiterStep;
    if !HandOn(s, s', u) && !Prepare(s, s', u) { QuietLinksNobody(s, s', u); }
  }

  lemma WakersMoveNobody(s: System, s': System)
    requires (exists w :: WakerStep(s, s', w)) || WakeOne(s, s') || Consume(s, s')
    ensures s'.tasks.Keys == s.tasks.Keys && forall t | t in s.tasks :: s'.tasks[t].pc == s.tasks[t].pc
  {
  }

  lemma TestDecides(s: System, s': System, t: nat)
    requires WaiterStep(s, s', t) && !s.tasks[t].pc.Leaving? && s'.tasks[t].pc.Leaving?
    ensures At(s, t, Prepared) && s.cond == !s'.tasks[t].pc.failed
  {
  }

  /** In every run a wait ends well only when the waiter, still linked, has itself just seen the condition true, and badly
      only when it has just seen it false. */
  lemma LeavesForCause(trace: seq<System>, i: nat, t: nat)
    requires IsRun(trace) && i < |trace| - 1 && t in trace[i].tasks && t in trace[i + 1].tasks
    requires !trace[i].tasks[t].pc.Leaving? && trace[i + 1].tasks[t].pc.Leaving?
    ensures At(trace[i], t, Prepared) && trace[i].cond == !trace[i + 1].tasks[t].pc.failed
  {
    var (s, s') := (trace[i], trace[i + 1]);
    assert Next(s, s');
    hide WaiterStep, WakerStep, IsRun;
    if u :| WaiterStep(s, s', u) {
      OthersStay(s, s', u);
      TestDecides(s, s', t);
    } else {
      WakersMoveNobody(s, s');
    }
  }

  // ---------------------------------------------------------------- no wake is dropped

  /** A task inside the loop that was taken off the queue by a wake it has not yet acted on. */
  ghost predicate Carries(s: System, t: nat) { t in s.tasks && s.tasks[t].woken && s.tasks[t].pc != Out }

  /** What a wake can turn into: it stays with its task; the task is about to test the condition again; the task has found
      it true and leaves; or the task gives up and passes the wake to the first in the queue, if any. */
  ghost predicate Served(s: System, s': System, t: nat) {
    || Carries(s', t)
    || (At(s, t, Top) && At(s', t, Prepared) && t in s'.q)
    || (At(s, t, Leaving(false)) && At(s', t, Out))
    || (At(s, t, PassOn) && At(s', t, Out)
        && (s.q == [] || (s'.q == s.q[1..] && Carries(s', s.q[0]) && s'.tasks[s.q[0]].state != Blocked)))
  }

  lemma OwnStepServes(s: System, s': System, t: nat)
    requires Links(s) && WaiterStep(s, s', t) && Carries(s, t) && t !in s.q
    ensures Served(s, s', t)
  {
    hide WaiterStep, Links, Finish, Prepare, HandOn;
    if HandOn(s, s', t) { HandOnServes(s, s', t); }
    else if Finish(s, s', t) || Prepare(s, s', t) { TurnServes(s, s', t); }
    else { StaysCarried(s, s', t); }
  }

  lemma TurnServes(s: System, s': System, t: nat)
    requires (Finish(s, s', t) || Prepare(s, s', t)) && Carries(s, t) && t !in s.q
    ensures Served(s, s', t)
  {
  }

  lemma StaysCarried(s: System, s': System, t: nat)
    requires WaiterStep(s, s', t) && !HandOn(s, s', t) && !Finish(s, s', t) && !Prepare(s, s', t) && Carries(s, t)
    ensures Carries(s', t)
  {
    hide Finish, Prepare, HandOn;
  }

  lemma HandOnServes(s: System, s': System, t: nat)
    requires Links(s) && HandOn(s, s', t)
    ensures Served(s, s', t)
  {
    assert s.q != [] ==> s.q[0] in s.q && Linked(s, s.q[0]);
  }

  lemma OtherStepServes(s: System, s': System, u: nat, t: nat)
    requires WaiterStep(s, s', u) && Carries(s, t) && t != u
    ensures Carries(s', t)
  {
    hide WaiterStep;
    OthersStay(s, s', u);
    if !HandOn(s, s', u) && !Prepare(s, s', u) { QuietLinksNobody(s, s', u); }
  }

  lemma WakersServe(s: System, s': System, t: nat)
    requires ((exists w :: WakerStep(s, s', w)) || WakeOne(s, s') || Consume(s, s')) && Carries(s, t)
    ensures Carries(s', t)
  {
    WakersMoveNobody(s, s');
  }

  /** A linked entry has not been woken. */
  ghost predicate LinkedUnwoken(s: System) { forall t | Linked(s, t) && t in s.tasks :: !s.tasks[t].woken }

  lemma PrepareKeepsUnwoken(s: System, s': System, u: nat)
    requires LinkedUnwoken(s) && Prepare(s, s', u)
    ensures LinkedUnwoken(s')
  {
    assert u in s.q ==> Linked(s, u);
  }

  lemma HandOnKeepsUnwoken(s: System, s': System, u: nat)
    requires Links(s) && LinkedUnwoken(s) && HandOn(s, s', u)
    ensures LinkedUnwoken(s')
  {
    if s.q != [] { TailKeeps(s.q); }
    forall t | Linked(s', t) && t in s'.tasks ensures !s'.tasks[t].woken { assert Linked(s, t); }
  }

  lemma QuietLinksNobody(s: System, s': System, u: nat)
    requires WaiterStep(s, s', u) && !Prepare(s, s', u) && !HandOn(s, s', u)
    ensures s'.batch == s.batch && (forall t | t in s'.q :: t in s.q) && u in s.tasks && u in s'.tasks
    ensures s'.tasks == s.tasks[u := s'.tasks[u]] && (s'.tasks[u].woken ==> s.tasks[u].woken)
  {
    hide Prepare, HandOn;
  }

  /** Nothing else a waiter does links an entry or wakes one. */
  lemma QuietKeepsUnwoken(s: System, s': System, u: nat)
    requires LinkedUnwoken(s) && WaiterStep(s, s', u) && !Prepare(s, s', u) && !HandOn(s, s', u)
    ensures LinkedUnwoken(s')
  {
    hide WaiterStep;
    QuietLinksNobody(s, s', u);
    forall t | Linked(s', t) && t in s'.tasks ensures !s'.tasks[t].woken { assert Linked(s, t); }
  }

  lemma WaiterKeepsUnwoken(s: System, s': System, u: nat)
    requires Links(s) && LinkedUnwoken(s) && WaiterStep(s, s', u)
    ensures LinkedUnwoken(s')
  {
    hide WaiterStep, Links, LinkedUnwoken, Prepare, HandOn;
    if Prepare(s, s', u) { PrepareKeepsUnwoken(s, s', u); }
    else if HandOn(s, s', u) { HandOnKeepsUnwoken(s, s', u); }
    else { QuietKeepsUnwoken(s, s', u); }
  }

  lemma WakeOneKeepsUnwoken(s: System, s': System)
    requires Links(s) && LinkedUnwoken(s) && WakeOne(s, s')
    ensures LinkedUnwoken(s')
  {
    TailKeeps(s.q);
    forall t | Linked(s', t) && t in s'.tasks ensures !s'.tasks[t].woken { assert Linked(s, t); }
  }

  lemma WakerKeepsUnwoken(s: System, s': System, w: nat)
    requires Links(s) && LinkedUnwoken(s) && WakerStep(s, s', w)
    ensures LinkedUnwoken(s')
  {
    if WakeNext(s, s', w) { TailKeeps(s.batch); }
    forall t | Linked(s', t) && t in s'.tasks ensures !s'.tasks[t].woken { assert Linked(s, t); }
  }

  lemma ConsumeKeepsUnwoken(s: System, s': System)
    requires LinkedUnwoken(s) && Consume(s, s')
    ensures LinkedUnwoken(s')
  {
    forall t | Linked(s', t) && t in s'.tasks ensures !s'.tasks[t].woken { assert Linked(s, t); }
  }

  lemma {:induction false} RunKeepsUnwoken(trace: seq<System>, i: nat)
    requires IsRun(trace) && i < |trace|
    ensures LinkedUnwoken(trace[i])
  {
    if i > 0 {
      RunKeepsUnwoken(trace, i - 1);
      RunKeeps(trace, i - 1);
      var (s, s') := (trace[i - 1], trace[i]);
      assert Next(s, s') by { assert Next(trace[i - 1], trace[i - 1 + 1]); }
      hide WaiterStep, WakerStep, IsRun, Links, LinkedUnwoken;
      if u :| WaiterStep(s, s', u) { WaiterKeepsUnwoken(s, s', u); }
      else if w :| WakerStep(s, s', w) { WakerKeepsUnwoken(s, s', w); }
      else if WakeOne(s, s') { WakeOneKeepsUnwoken(s, s'); }
      else { ConsumeKeepsUnwoken(s, s'); }
    }
  }

  /** In every step of every run a wake is kept, acted on or passed on. */
  lemma WakeIsServed(trace: seq<System>, i: nat, t: nat)
    requires IsRun(trace) && i < |trace| - 1 && Carries(trace[i], t)
    ensures Served(trace[i], trace[i + 1], t)
  {
    RunKeeps(trace, i);
    RunKeepsUnwoken(trace, i);
    var (s, s') := (trace[i], trace[i + 1]);
    assert Next(s, s');
    assert t !in s.q by { assert t in s.q ==> Linked(s, t); }
    hide WaiterStep, WakerStep, IsRun, Links;
    if u :| WaiterStep(s, s', u) {
      if u == t { OwnStepServes(s, s', t); } else { OtherStepServes(s, s', u, t); }
    } else {
      WakersServe(s, s', t);
    }
  }

  /** And a wake that finds the queue empty or not: the first waiter, if any, carries it. */
  lemma WakeOneIsCarried(trace: seq<System>, i: nat)
    requires IsRun(trace) && i < |trace| - 1 && WakeOne(trace[i], trace[i + 1])
    ensures Carries(trace[i + 1], trace[i].q[0]) && trace[i + 1].tasks[trace[i].q[0]].state != Blocked
    ensures trace[i + 1].q == trace[i].q[1..]
  {
    RunKeeps(trace, i);
    assert Linked(trace[i], trace[i].q[0]);
  }

  // ---------------------------------------------------------------- whoever is awake can leave

  ghost predicate WaiterRun(run: seq<System>, t: nat) {
    |run| > 0 && forall i | 0 <= i < |run| - 1 :: WaiterStep(run[i], run[i + 1], t)
  }

  /** The waiter's own steps lead it out of the loop. */
  ghost predicate GetsOut(s: System, t: nat) {
    exists run: seq<System> :: WaiterRun(run, t) && run[0] == s && At(run[|run| - 1], t, Out)
  }

  lemma StepThenOut(s: System, s': System, t: nat)
    requires WaiterStep(s, s', t) && GetsOut(s', t)
    ensures GetsOut(s, t)
  {
    hide WaiterStep;
    var run: seq<System> :| WaiterRun(run, t) && run[0] == s' && At(run[|run| - 1], t, Out);
    var longer := [s] + run;
    assert longer[|longer| - 1] == run[|run| - 1];
    assert WaiterRun(longer, t);
  }

  ghost function ToGo(pc: Pc): nat {
    match pc case Out => 0 case PassOn => 1 case Leaving(_) => 2 case Prepared => 3 case Top => 4 case Parked => 5 case Tested => 6
  }

  lemma WaiterCanMove(s: System, t: nat) returns (s': System)
    requires Links(s) && t in s.tasks && !Stuck(s, t) && s.cond && s.holder == None && s.tasks[t].pc != Out
    ensures WaiterStep(s, s', t) && t in s'.tasks && ToGo(s'.tasks[t].pc) < ToGo(s.tasks[t].pc)
    ensures !Stuck(s', t) && s'.cond && s'.holder == None
  {
    var x := s.tasks[t];
    match x.pc {
      case Top =>
        var y := x.(pc := Prepared, state := if x.state == Running then Blocked else x.state);
        s' := if t in s.q then SetTask(s, t, y) else SetTask(s, t, y.(woken := false)).(q := s.q + [t]);
        assert Prepare(s, s', t);
      case Prepared =>
        s' := SetTask(s, t, x.(pc := Leaving(false)));
        assert Test(s, s', t, false);
      case Tested =>
        s' := SetTask(s, t, x.(pc := Parked));
        assert Park(s, s', t);
      case Parked =>
        s' := SetTask(s, t, x.(state := Running, pc := Top));
        assert Resume(s, s', t);
      case Leaving(failed) =>
        s' := SetTask(s, t, x.(state := if x.state == Blocked then Running else x.state,
                               pc := if failed && x.woken then PassOn else Out)).(q := Without(s.q, t));
        assert Finish(s, s', t);
      case PassOn =>
        assert s.q != [] ==> Linked(s, s.q[0]);
        var r := SetTask(s, t, x.(pc := Out));
        s' := if s.q == [] then r else OneWoken(r);
        assert HandOn(s, s', t);
    }
  }

  lemma {:induction false} AwakeGetsOut(s: System, t: nat)
    requires Links(s) && t in s.tasks && !Stuck(s, t) && s.cond && s.holder == None
    ensures GetsOut(s, t)
    decreases ToGo(s.tasks[t].pc)
  {
    hide WaiterStep, Links, Stuck, GetsOut;
    if s.tasks[t].pc == Out {
      OutAlready(s, t);
    } else {
      var s' := WaiterCanMove(s, t);
      WaiterKeepsLinks(s, s', t);
      AwakeGetsOut(s', t);
      StepThenOut(s, s', t);
    }
  }

  lemma OutAlready(s: System, t: nat)
    requires At(s, t, Out)
    ensures GetsOut(s, t)
  {
    assert WaiterRun([s], t);
  }

  /** At rest, with the condition true and every waker finished, every waiter's own steps take it out of the loop. */
  lemma EveryWaiterGetsOut(trace: seq<System>, i: nat, t: nat)
    requires IsRun(trace) && i < |trace| && t in trace[i].tasks && trace[i].cond && trace[i].pending == {}
    ensures GetsOut(trace[i], t)
  {
    RunKeeps(trace, i);
    QuietMeansAwake(trace, i, t);
    hide IsRun;
    AwakeGetsOut(trace[i], t);
  }
}
