/** What every interleaving of scheduler steps keeps. */
module SchedSafety {
  import opened Common
  import opened Sched

  /** The places a task waiting to run can be: a run queue, an enqueue in flight, a drain, a core's choice. */
  datatype Spot = InQueue(c: nat, i: nat) | InWake(a: nat) | InDrain(c: nat) | InPick(c: nat)

  ghost predicate Sits(s: Sched, p: Spot, t: nat) {
    match p
    case InQueue(c, i) => c < |s.rq| && i < |s.rq[c]| && s.rq[c][i] == t
    case InWake(a) => a in s.wakes && s.wakes[a] == t
    case InDrain(c) => c < |s.cores| && s.cores[c].pc == DrainWon(t)
    case InPick(c) => c < |s.cores| && (s.cores[c].pc == Chosen(t) || s.cores[c].pc == Marked(t)) && s.cores[c].idle != t
  }

  /** A core's hold on a task: running it, about to, or not yet done leaving it. */
  ghost predicate Holds(s: Sched, c: nat, t: nat) {
    c < |s.cores| && (s.cores[c].current == t || s.cores[c].prevTask == Some(t)
                      || s.cores[c].pc == Switching(t) || s.cores[c].pc == Marked(t) || s.cores[c].pc == Promoted(t))
  }

  ghost predicate Shape(s: Sched) {
    && |s.rq| == |s.cores|
    && (forall c | 0 <= c < |s.cores| :: s.cores[c].idle in s.tasks && s.cores[c].current in s.tasks && s.cores[c].idle in s.idles)
    && (forall t | t in s.idles :: t in s.tasks && (s.tasks[t].state == Ready || s.tasks[t].state == Running))
    && (forall c, d | 0 <= c < d < |s.cores| :: s.cores[c].idle != s.cores[d].idle)
    && (forall t | t in s.sleeping :: t in s.tasks)
  }

  /** A task in a spot is READY, and no task is in two. */
  ghost predicate Spots(s: Sched) {
    && (forall p, t | Sits(s, p, t) :: t in s.tasks && s.tasks[t].state == Ready && !IsIdle(s, t))
    && (forall p, q, t | Sits(s, p, t) && Sits(s, q, t) :: p == q)
  }

  /** `on_core` says exactly which core holds a task; a task no core holds has its context saved. */
  ghost predicate Placement(s: Sched) {
    && (forall c: nat, t: nat | Holds(s, c, t) :: t in s.tasks && s.tasks[t].onCore == Some(c))
    && (forall t | t in s.tasks && s.tasks[t].onCore.Some? :: Holds(s, s.tasks[t].onCore.value, t))
    && (forall t | t in s.tasks && s.tasks[t].onCore.None? :: s.tasks[t].saved)
  }

  ghost predicate CoreOk(s: Sched, c: nat)
    requires c < |s.cores|
  {
    var k := s.cores[c];
    && (k.prevTask.Some? ==> k.pc == Outside && k.prevTask.value in s.tasks && s.tasks[k.prevTask.value].saved
                             && k.prevTask.value != k.current)
    && (k.pc == Requeue ==> k.current in s.tasks && s.tasks[k.current].state == Running && k.current != k.idle
                            && !IsIdle(s, k.current))
    && (k.pc.Chosen? ==> k.pc.next in s.tasks && (k.pc.next != k.idle ==> s.tasks[k.pc.next].onCore == None)
                         && (k.pc.next != k.current ==> s.tasks[k.pc.next].saved))
    && (k.pc.Marked? || k.pc.Promoted? ==> k.pc.next in s.tasks && (k.pc.next != k.current ==> s.tasks[k.pc.next].saved))
    && (k.pc.Promoted? ==> s.tasks[k.pc.next].state == Running)
    && (k.pc.Switching? ==> k.pc.outgoing in s.tasks && k.current in s.tasks && s.tasks[k.current].saved && k.pc.outgoing != k.current
                             && s.tasks[k.current].state == Running)
    && (IsIdle(s, k.current) ==> k.current == k.idle)
    && (k.pc.Chosen? || k.pc.Marked? || k.pc.Promoted? ==> IsIdle(s, k.pc.next) ==> k.pc.next == k.idle)
    && (k.prevTask.Some? && IsIdle(s, k.prevTask.value) ==> k.prevTask.value == k.idle)
    && (k.pc.Switching? && IsIdle(s, k.pc.outgoing) ==> k.pc.outgoing == k.idle)
  }

  /** The dead task a core is to free: DEAD, its own, and never the one running when it is freed. */
  ghost predicate CleanupOk(s: Sched, c: nat)
    requires c < |s.cores|
  {
    var k := s.cores[c];
    k.cleanup.Some? ==>
      var d := k.cleanup.value;
      && d in s.tasks && s.tasks[d].state == Dead && !IsIdle(s, d)
      && (s.tasks[d].onCore == None || s.tasks[d].onCore == Some(c))
      && (k.pc == Outside || k.pc == Entered || k.pc.Switching? ==> d != k.current)
      && (k.pc == Entered ==> s.tasks[d].onCore == None)
      && (k.pc.Choosing? || k.pc.Chosen? || k.pc.Marked? || k.pc.Promoted? ==> d == k.current)
      && (k.pc.Switching? ==> d == k.pc.outgoing)
      && !(k.pc == Cleaned || k.pc == Drained || k.pc == Requeue || k.pc.DrainWon?)
  }

  ghost predicate Cleanups(s: Sched) {
    && (forall c | 0 <= c < |s.cores| :: CleanupOk(s, c))
    && (forall c, d | 0 <= c < d < |s.cores| && s.cores[c].cleanup.Some? :: s.cores[c].cleanup != s.cores[d].cleanup)
  }

  ghost predicate Inv(s: Sched) {
    Shape(s) && Spots(s) && Placement(s) && Cleanups(s) && forall c | 0 <= c < |s.cores| :: CoreOk(s, c)
  }

  // ---------------------------------------------------------------- spots

  /** Only core `c` moved: its own two spots lose a task at most, and no READY task changed state. */
  lemma SpotsFrame(s: Sched, s': Sched, c: nat)
    requires Shape(s) && Spots(s) && s'.idles == s.idles && s'.rq == s.rq && s'.wakes == s.wakes && |s'.cores| == |s.cores|
    requires forall d | 0 <= d < |s.cores| && d != c :: s'.cores[d] == s.cores[d]
    requires c < |s.cores| ==>
               && s'.cores[c].idle == s.cores[c].idle
               && (s'.cores[c].pc.DrainWon? ==> s'.cores[c].pc == s.cores[c].pc)
               && (s'.cores[c].pc.Chosen? ==> s'.cores[c].pc.next == s.cores[c].idle)
               && (s'.cores[c].pc.Marked? ==> s.cores[c].pc == Chosen(s'.cores[c].pc.next))
    requires forall t | t in s.tasks && s.tasks[t].state == Ready && !IsIdle(s, t) && (c >= |s.cores| || s.cores[c].pc != Marked(t)) ::
               t in s'.tasks && s'.tasks[t].state == Ready
    ensures Spots(s')
  {
    forall p, t | Sits(s', p, t) ensures Sits(s, p, t) && t in s'.tasks && s'.tasks[t].state == Ready {
      assert Sits(s, p, t);
      assert c < |s.cores| && s.cores[c].pc == Marked(t) ==> Sits(s, InPick(c), t);
    }
  }

  /** A task that sat nowhere takes one spot. */
  lemma SpotsAdd(s: Sched, s': Sched, q: Spot, t: nat)
    requires Spots(s) && s'.idles == s.idles && !IsIdle(s, t)
    requires t in s'.tasks && s'.tasks[t].state == Ready && forall p :: !Sits(s, p, t)
    requires forall p, x | Sits(s', p, x) :: (p == q && x == t) || (Sits(s, p, x) && x in s'.tasks && s'.tasks[x].state == Ready)
    ensures Spots(s')
  {
  }

  /** A task leaves one spot for another. */
  lemma SpotsMove(s: Sched, s': Sched, from: Spot, to: Spot, t: nat)
    requires Spots(s) && s'.idles == s.idles && Sits(s, from, t)
    requires t in s'.tasks && s'.tasks[t].state == Ready
    requires forall p, x | Sits(s', p, x) ::
               (p == to && x == t) || (p != from && Sits(s, p, x) && x in s'.tasks && s'.tasks[x].state == Ready)
    ensures Spots(s')
  {
    forall p, q, x | Sits(s', p, x) && Sits(s', q, x) ensures p == q {
      if x == t {
        assert p == to || Sits(s, p, t);
        assert q == to || Sits(s, q, t);
      }
    }
  }

  lemma DrainSpots(s: Sched, s': Sched, c: nat)
    requires Shape(s) && Spots(s) && Drain(s, s', c)
    ensures Spots(s')
  {
    var w := s.sleeping[0];
    if s.tasks[w].state == Blocked {
      forall p, x | Sits(s', p, x) ensures (p == InDrain(c) && x == w) || Sits(s, p, x) {
      }
      SpotsAdd(s, s', InDrain(c), w);
    } else {
      SpotsFrame(s, s', c);
    }
  }

  lemma DrainPutSpots(s: Sched, s': Sched, c: nat)
    requires Spots(s) && DrainPut(s, s', c)
    ensures Spots(s')
  {
    var w := s.cores[c].pc.woken;
    assert Sits(s, InDrain(c), w);
    forall p, x | Sits(s', p, x) ensures (p == InQueue(c, |s.rq[c]|) && x == w) || (p != InDrain(c) && Sits(s, p, x)) {
    }
    SpotsMove(s, s', InDrain(c), InQueue(c, |s.rq[c]|), w);
  }

  lemma RequeueSpots(s: Sched, s': Sched, c: nat)
    requires Spots(s) && RequeuePut(s, s', c) && CoreOk(s, c)
    ensures Spots(s')
  {
    var t := s.cores[c].current;
    forall p, x | Sits(s', p, x) ensures (p == InQueue(c, |s.rq[c]|) && x == t) || Sits(s, p, x) {
    }
    SpotsAdd(s, s', InQueue(c, |s.rq[c]|), t);
  }

  lemma WakePutSpots(s: Sched, s': Sched, a: nat, c: nat)
    requires Spots(s) && WakePut(s, s', a, c)
    ensures Spots(s')
  {
    assert Sits(s, InWake(a), s.wakes[a]);
    forall p, x | Sits(s', p, x) ensures (p == InQueue(c, |s.rq[c]|) && x == s.wakes[a]) || (p != InWake(a) && Sits(s, p, x)) {
    }
    SpotsMove(s, s', InWake(a), InQueue(c, |s.rq[c]|), s.wakes[a]);
  }

  /** A task not yet READY gets an enqueue in flight. */
  lemma WakeSpots(s: Sched, s': Sched, a: nat, t: nat)
    requires Spots(s) && a !in s.wakes && (t in s.tasks ==> s.tasks[t].state != Ready) && !IsIdle(s, t)
    requires exists x: Task :: x.state == Ready && s' == SetTask(s, t, x).(wakes := s.wakes[a := t])
    ensures Spots(s')
  {
    forall p, x | Sits(s', p, x) ensures (p == InWake(a) && x == t) || Sits(s, p, x) {
    }
    SpotsAdd(s, s', InWake(a), t);
  }

  // ---------------------------------------------------------------- frames

  ghost predicate Mentions(s: Sched, c: nat, t: nat) {
    Holds(s, c, t) || (c < |s.cores| && (s.cores[c].pc == Chosen(t) || s.cores[c].cleanup == Some(t)))
  }

  /** What one core holds, no other core mentions. */
  lemma HeldHere(s: Sched, c: nat, t: nat)
    requires Inv(s) && Holds(s, c, t)
    ensures forall d: nat | d != c :: !Mentions(s, d, t)
  {
    hide Spots;
    assert CoreOk(s, c);
    forall d: nat | d != c ensures !Mentions(s, d, t) {
      if d < |s.cores| { assert CoreOk(s, d) && CleanupOk(s, d) && !Holds(s, d, t); }
    }
  }

  /** What a core has chosen, no other core mentions. */
  lemma ChosenHere(s: Sched, c: nat, t: nat)
    requires Inv(s) && c < |s.cores| && s.cores[c].pc == Chosen(t)
    ensures forall d: nat | d != c :: !Mentions(s, d, t)
    ensures Holds(s, c, t) ==> t == s.cores[c].current == s.cores[c].idle
  {
    assert CoreOk(s, c);
    assert t != s.cores[c].idle ==> Sits(s, InPick(c), t);
    forall d: nat | d != c ensures !Mentions(s, d, t) {
      if d < |s.cores| {
        assert CoreOk(s, d) && CleanupOk(s, d);
        assert s.cores[d].pc == Chosen(t) && t != s.cores[d].idle ==> Sits(s, InPick(d), t);
      }
    }
  }

  /** A step by core `c` that changes only `xs` leaves every other core in order. */
  lemma OthersKept(s: Sched, s': Sched, c: nat, xs: set<nat>)
    requires Inv(s) && |s'.cores| == |s.cores| && s'.idles == s.idles
    requires forall d | 0 <= d < |s.cores| && d != c :: s'.cores[d] == s.cores[d]
    requires forall t | t in s.tasks && t !in xs :: t in s'.tasks && s'.tasks[t] == s.tasks[t]
    requires forall x | x in xs && x in s.tasks ::
               || (forall d: nat | d != c :: !Mentions(s, d, x))
               || (x in s'.tasks && s'.tasks[x].onCore == s.tasks[x].onCore && s'.tasks[x].saved == s.tasks[x].saved
                   && (s'.tasks[x].state == s.tasks[x].state || (s.tasks[x].state != Running && s.tasks[x].state != Dead)))
    ensures forall d | 0 <= d < |s'.cores| && d != c :: CoreOk(s', d) && CleanupOk(s', d)
  {
    hide Spots, Placement;
    forall d | 0 <= d < |s'.cores| && d != c ensures CoreOk(s', d) && CleanupOk(s', d) {
      assert CoreOk(s, d) && CleanupOk(s, d);
      var k := s.cores[d];
      assert Mentions(s, d, k.current);
      assert k.prevTask.Some? ==> Mentions(s, d, k.prevTask.value);
      assert k.cleanup.Some? ==> Mentions(s, d, k.cleanup.value);
      assert k.pc.Chosen? || k.pc.Marked? || k.pc.Promoted? ==> Mentions(s, d, k.pc.next);
      assert k.pc.Switching? ==> Mentions(s, d, k.pc.outgoing);
    }
  }

  /** A core that changes only a task it holds leaves every other core in order. */
  lemma HeldOthers(s: Sched, s': Sched, c: nat, t: nat)
    requires Inv(s) && Holds(s, c, t) && t in s'.tasks && s'.idles == s.idles && |s'.cores| == |s.cores|
    requires s'.cores == s.cores[c := s'.cores[c]] && s'.tasks == s.tasks[t := s'.tasks[t]]
    ensures forall d | 0 <= d < |s'.cores| && d != c :: CoreOk(s', d) && CleanupOk(s', d)
  {
    hide Spots, Placement, CoreOk, CleanupOk;
    HeldHere(s, c, t);
    OthersKept(s, s', c, {t});
  }

  lemma SameOthers(s: Sched, s': Sched, c: nat)
    requires Inv(s) && c < |s.cores| == |s'.cores| && s'.idles == s.idles && s'.cores == s.cores[c := s'.cores[c]] && s'.tasks == s.tasks
    ensures forall d | 0 <= d < |s'.cores| && d != c :: CoreOk(s', d) && CleanupOk(s', d)
  {
    hide Spots, Placement, CoreOk, CleanupOk;
    OthersKept(s, s', c, {});
  }

  /** The same cores hold the same tasks, and no held task lost its registers. */
  lemma PlacementKept(s: Sched, s': Sched)
    requires Placement(s)
    requires forall c: nat, t: nat :: Holds(s', c, t) == Holds(s, c, t)
    requires forall c: nat, t: nat | Holds(s, c, t) :: t in s'.tasks
    requires forall t | t in s'.tasks ::
               if t in s.tasks then s'.tasks[t].onCore == s.tasks[t].onCore && (s.tasks[t].onCore == None ==> s'.tasks[t].saved)
               else s'.tasks[t].onCore == None && s'.tasks[t].saved
    ensures Placement(s')
  {
  }

  /** The whole invariant from its parts, after a step by core `c` (or by no core, when `c` is none). */
  lemma Assemble(s: Sched, s': Sched, c: nat)
    requires Shape(s) && Cleanups(s) && Spots(s') && Placement(s')
    requires |s'.cores| == |s.cores| == |s'.rq| && s'.idles == s.idles
    requires forall d | 0 <= d < |s.cores| && d != c :: s'.cores[d] == s.cores[d] && CoreOk(s', d) && CleanupOk(s', d)
    requires c < |s.cores| ==>
               && s'.cores[c].idle == s.cores[c].idle && CoreOk(s', c) && CleanupOk(s', c)
               && (s'.cores[c].cleanup == None || s'.cores[c].cleanup == s.cores[c].cleanup
                   || forall d: nat | d != c && d < |s.cores| :: s.cores[d].cleanup != s'.cores[c].cleanup)
    requires forall t | IsIdle(s, t) :: t in s'.tasks && (s'.tasks[t].state == Ready || s'.tasks[t].state == Running)
    requires forall t | t in s'.sleeping :: t in s'.tasks
    ensures Inv(s')
  {
    hide Spots, CoreOk, CleanupOk;
    forall d | 0 <= d < |s'.cores| ensures s'.cores[d].current in s'.tasks { assert Holds(s', d, s'.cores[d].current); }
  }

  // ---------------------------------------------------------------- one lemma per step

  lemma ReleasePlacement(s: Sched, s': Sched, c: nat, enter: bool)
    requires Inv(s) && Release(s, s', c, enter)
    ensures Placement(s')
  {
    hide Spots, CleanupOk;
    assert CoreOk(s, c);
    hide CoreOk;
    var k := s.cores[c];
    assert k.prevTask.Some? ==> Holds(s, c, k.prevTask.value);
    assert forall d: nat, t: nat :: Holds(s', d, t) == (Holds(s, d, t) && !(d == c && k.prevTask == Some(t)));
  }

  /** Outside the scheduler, a dead task still on the core is the one the core just left. */
  lemma DeadIsLeaving(s: Sched, c: nat)
    requires Inv(s) && At(s, c, Outside)
    ensures CoreOk(s, c) && CleanupOk(s, c)
    ensures var k := s.cores[c]; k.cleanup.Some? && s.tasks[k.cleanup.value].onCore.Some? ==> k.prevTask == k.cleanup
  {
    hide Spots;
    assert CleanupOk(s, c);
  }

  lemma StepRelease(s: Sched, s': Sched, c: nat, enter: bool)
    requires Inv(s) && Release(s, s', c, enter)
    ensures Inv(s')
  {
    hide Placement;
    ReleasePlacement(s, s', c, enter);
    SpotsFrame(s, s', c);
    hide Spots;
    DeadIsLeaving(s, c);
    var k := s.cores[c];
    if k.prevTask.Some? { HeldOthers(s, s', c, k.prevTask.value); } else { SameOthers(s, s', c); }
    Assemble(s, s', c);
  }

  lemma CleanupFrame(s: Sched, s': Sched, c: nat)
    requires Inv(s) && Cleanup(s, s', c)
    ensures Spots(s') && Placement(s')
  {
    assert CoreOk(s, c) && CleanupOk(s, c);
    hide CoreOk, CleanupOk;
    SpotsFrame(s, s', c);
    if s.cores[c].cleanup.Some? { Unmentioned(s, c, s.cores[c].cleanup.value); }
    hide Spots;
    PlacementKept(s, s');
  }

  lemma CleanupOthers(s: Sched, s': Sched, c: nat)
    requires Inv(s) && Cleanup(s, s', c)
    ensures forall d | 0 <= d < |s'.cores| && d != c :: CoreOk(s', d) && CleanupOk(s', d)
  {
    hide Spots, Placement, CoreOk, CleanupOk;
    var k := s.cores[c];
    if k.cleanup.Some? { Unmentioned(s, c, k.cleanup.value); }
    OthersKept(s, s', c, if k.cleanup.Some? then {k.cleanup.value} else {});
  }

  lemma StepCleanup(s: Sched, s': Sched, c: nat)
    requires Inv(s) && Cleanup(s, s', c)
    ensures Inv(s')
  {
    CleanupFrame(s, s', c);
    hide Spots, Placement;
    CleanupOthers(s, s', c);
    assert CoreOk(s, c) && CleanupOk(s, c);
    Assemble(s, s', c);
  }

  /** A dead task whose core has moved on is mentioned nowhere else. */
  lemma Unmentioned(s: Sched, c: nat, d: nat)
    requires Inv(s) && c < |s.cores| && s.cores[c].cleanup == Some(d) && s.cores[c].pc == Entered
    ensures forall e: nat | e != c :: !Mentions(s, e, d)
    ensures forall e: nat :: !Holds(s, e, d)
  {
    assert CleanupOk(s, c);
    forall e: nat | e != c ensures !Mentions(s, e, d) {
      if e < |s.cores| {
        assert !Holds(s, e, d);
        assert !Sits(s, InPick(e), d);
      }
    }
  }

  lemma DrainFrame(s: Sched, s': Sched, c: nat)
    requires Inv(s) && Drain(s, s', c)
    ensures Spots(s') && Placement(s')
    ensures forall d | 0 <= d < |s'.cores| && d != c :: CoreOk(s', d) && CleanupOk(s', d)
  {
    hide CoreOk, CleanupOk;
    DrainSpots(s, s', c);
    hide Spots;
    PlacementKept(s, s');
    hide Placement;
    OthersKept(s, s', c, {s.sleeping[0]});
  }

  lemma StepDrain(s: Sched, s': Sched, c: nat)
    requires Inv(s) && Drain(s, s', c)
    ensures Inv(s')
  {
    DrainFrame(s, s', c);
    hide Spots, Placement;
    assert CoreOk(s, c) && CleanupOk(s, c);
    Assemble(s, s', c);
  }

  /** A drained task on its way to a queue is READY. */
  lemma DrainedIsReady(s: Sched, c: nat)
    requires Spots(s) && c < |s.cores| && s.cores[c].pc.DrainWon?
    ensures s.cores[c].pc.woken in s.tasks && s.tasks[s.cores[c].pc.woken].state == Ready
  {
    assert Sits(s, InDrain(c), s.cores[c].pc.woken);
  }

  lemma StepDrainPut(s: Sched, s': Sched, c: nat)
    requires Inv(s) && DrainPut(s, s', c)
    ensures Inv(s')
  {
    var w := s.cores[c].pc.woken;
    hide Spots;
    DrainedIsReady(s, c);
    DrainPutSpots(s, s', c);
    PlacementKept(s, s');
    hide Placement;
    OthersKept(s, s', c, {w});
    assert CoreOk(s, c) && CleanupOk(s, c);
    Assemble(s, s', c);
  }

  lemma LookFrame(s: Sched, s': Sched, c: nat)
    requires Inv(s) && Look(s, s', c)
    ensures Spots(s') && Placement(s')
  {
    hide CoreOk, CleanupOk;
    SpotsFrame(s, s', c);
    hide Spots;
    PlacementKept(s, s');
  }

  lemma StepLook(s: Sched, s': Sched, c: nat)
    requires Inv(s) && Look(s, s', c)
    ensures Inv(s')
  {
    LookFrame(s, s', c);
    hide Spots;
    var t := s.cores[c].current;
    HeldHere(s, c, t);
    hide Placement;
    SameOthers(s, s', c);
    forall d: nat | d != c && d < |s.cores| ensures s.cores[d].cleanup != Some(t) { assert !Mentions(s, d, t); }
    assert CoreOk(s, c) && CleanupOk(s, c);
    Assemble(s, s', c);
  }

  lemma StepDrainDone(s: Sched, s': Sched, c: nat)
    requires Inv(s) && DrainDone(s, s', c)
    ensures Inv(s')
  {
    SpotsFrame(s, s', c);
    hide Spots;
    PlacementKept(s, s');
    hide Placement;
    OthersKept(s, s', c, {});
    assert CoreOk(s, c) && CleanupOk(s, c);
    Assemble(s, s', c);
  }

  lemma StepDequeueNone(s: Sched, s': Sched, c: nat)
    requires Inv(s) && DequeueNone(s, s', c)
    ensures Inv(s')
  {
    IdleHere(s, c);
    SpotsFrame(s, s', c);
    hide Spots;
    PlacementKept(s, s');
    hide Placement;
    OthersKept(s, s', c, {});
    assert CoreOk(s, c) && CleanupOk(s, c);
    Assemble(s, s', c);
  }

  /** An idle task other than the running one is off every core with its context saved. */
  lemma IdleHere(s: Sched, c: nat)
    requires Inv(s) && c < |s.cores| && s.cores[c].pc.Choosing?
    ensures s.cores[c].idle != s.cores[c].current ==> s.tasks[s.cores[c].idle].saved
  {
    hide Spots;
    var i := s.cores[c].idle;
    if i != s.cores[c].current && s.tasks[i].onCore.Some? {
      var d := s.tasks[i].onCore.value;
      assert Holds(s, d, i) && CoreOk(s, d) && CoreOk(s, c);
      assert d == c;
    }
  }

  lemma RequeueFrame(s: Sched, s': Sched, c: nat)
    requires Inv(s) && RequeuePut(s, s', c)
    ensures Spots(s') && Placement(s')
  {
    assert CoreOk(s, c);
    hide CleanupOk;
    RequeueSpots(s, s', c);
    hide Spots, CoreOk;
    PlacementKept(s, s');
  }

  lemma StepRequeuePut(s: Sched, s': Sched, c: nat)
    requires Inv(s) && RequeuePut(s, s', c)
    ensures Inv(s')
  {
    RequeueFrame(s, s', c);
    hide Spots, Placement;
    HeldOthers(s, s', c, s.cores[c].current);
    assert CoreOk(s, c) && CleanupOk(s, c);
    Assemble(s, s', c);
  }

  lemma StepDequeue(s: Sched, s': Sched, c: nat, i: nat)
    requires Inv(s) && Dequeue(s, s', c, i)
    ensures Inv(s')
  {
    var v := Victim(c, s.cores[c].pc.tried, |s.cores|);
    var t := s.rq[v][i];
    assert Sits(s, InQueue(v, i), t);
    DequeueSpots(s, s', c, v, i);
    assert Holds(s, c, s.cores[c].current);
    assert !IsIdle(s, t) && t != s.cores[c].current;
    hide Spots;
    PlacementKept(s, s');
    assert s.tasks[t].saved;
    hide Placement;
    OthersKept(s, s', c, {});
    assert CoreOk(s, c) && CleanupOk(s, c);
    Assemble(s, s', c);
  }

  /** Taking element `i` out of a queue shifts the ones behind it. */
  lemma DequeueSpots(s: Sched, s': Sched, c: nat, v: nat, i: nat)
    requires Spots(s) && c < |s.cores| && v < |s.rq| && i < |s.rq[v]| && s.cores[c].pc.Choosing?
    requires s'.idles == s.idles && s'.tasks == s.tasks && s'.wakes == s.wakes
    requires s'.rq == s.rq[v := s.rq[v][..i] + s.rq[v][i + 1..]]
    requires s'.cores == s.cores[c := s.cores[c].(pc := Chosen(s.rq[v][i]))]
    ensures Spots(s')
  {
    var t := s.rq[v][i];
    assert Sits(s, InQueue(v, i), t);
    forall p, x | Sits(s', p, x)
      ensures (p == InPick(c) && x == t) || (p != InPick(c) && Back(p, v, i) != InQueue(v, i) && Sits(s, Back(p, v, i), x))
    {
    }
    forall p, q, x | Sits(s', p, x) && Sits(s', q, x) ensures p == q {
      assert x == t ==> p == InPick(c) || Sits(s, Back(p, v, i), t);
      assert x == t ==> q == InPick(c) || Sits(s, Back(q, v, i), t);
    }
  }

  ghost function Back(p: Spot, v: nat, i: nat): Spot {
    if p.InQueue? && p.c == v && p.i >= i then InQueue(v, p.i + 1) else p
  }

  lemma MarkPlacement(s: Sched, s': Sched, c: nat)
    requires Inv(s) && Mark(s, s', c)
    ensures Placement(s')
  {
    var t := s.cores[c].pc.next;
    ChosenHere(s, c, t);
    hide Shape, Spots, CoreOk, CleanupOk, Cleanups;
    forall d: nat | d != c ensures !Holds(s, d, t) { assert !Mentions(s, d, t); }
    hide Mentions;
    assert forall d: nat, x: nat :: Holds(s', d, x) == (Holds(s, d, x) || (d == c && x == t));
  }

  lemma StepMark(s: Sched, s': Sched, c: nat)
    requires Inv(s) && Mark(s, s', c)
    ensures Inv(s')
  {
    hide Placement;
    MarkPlacement(s, s', c);
    SpotsFrame(s, s', c);
    hide Spots;
    var t := s.cores[c].pc.next;
    ChosenHere(s, c, t);
    OthersKept(s, s', c, {t});
    assert CoreOk(s, c) && CleanupOk(s, c);
    Assemble(s, s', c);
  }

  lemma PromoteFrame(s: Sched, s': Sched, c: nat)
    requires Inv(s) && Promote(s, s', c)
    ensures Spots(s') && Placement(s')
    ensures s.cores[c].pc.next == s.cores[c].idle || s.tasks[s.cores[c].pc.next].state == Ready
  {
    var t := s.cores[c].pc.next;
    hide CoreOk, CleanupOk;
    assert t != s.cores[c].idle ==> Sits(s, InPick(c), t);
    SpotsFrame(s, s', c);
    hide Spots;
    PlacementKept(s, s');
  }

  lemma StepPromote(s: Sched, s': Sched, c: nat)
    requires Inv(s) && Promote(s, s', c)
    ensures Inv(s')
  {
    PromoteFrame(s, s', c);
    hide Spots, Placement;
    HeldOthers(s, s', c, s.cores[c].pc.next);
    assert CoreOk(s, c) && CleanupOk(s, c);
    Assemble(s, s', c);
  }

  lemma SetCurrentFrame(s: Sched, s': Sched, c: nat)
    requires Inv(s) && SetCurrent(s, s', c)
    ensures Spots(s') && Placement(s')
  {
    assert CoreOk(s, c);
    hide CoreOk, CleanupOk, Cleanups;
    SpotsFrame(s, s', c);
    hide Spots;
    PlacementKept(s, s');
  }

  lemma StepSetCurrent(s: Sched, s': Sched, c: nat)
    requires Inv(s) && SetCurrent(s, s', c)
    ensures Inv(s')
  {
    SetCurrentFrame(s, s', c);
    hide Spots, Placement;
    SameOthers(s, s', c);
    assert CoreOk(s, c) && CleanupOk(s, c);
    Assemble(s, s', c);
  }

  lemma SwitchFrame(s: Sched, s': Sched, c: nat)
    requires Inv(s) && Switch(s, s', c)
    ensures Spots(s') && Placement(s')
  {
    assert CoreOk(s, c);
    hide CoreOk, CleanupOk;
    SpotsFrame(s, s', c);
    hide Spots;
    var (p, n) := (s.cores[c].pc.outgoing, s.cores[c].current);
    assert Holds(s, c, p) && Holds(s, c, n);
    PlacementKept(s, s');
  }

  lemma StepSwitch(s: Sched, s': Sched, c: nat)
    requires Inv(s) && Switch(s, s', c)
    ensures Inv(s')
  {
    SwitchFrame(s, s', c);
    hide Spots, Placement;
    SwitchOthers(s, s', c);
    assert CoreOk(s, c) && CleanupOk(s, c);
    Assemble(s, s', c);
  }

  lemma SwitchOthers(s: Sched, s': Sched, c: nat)
    requires Inv(s) && Switch(s, s', c)
    ensures forall d | 0 <= d < |s'.cores| && d != c :: CoreOk(s', d) && CleanupOk(s', d)
  {
    hide Spots, Placement;
    assert CoreOk(s, c);
    hide CoreOk, CleanupOk;
    var (p, n) := (s.cores[c].pc.outgoing, s.cores[c].current);
    HeldHere(s, c, p);
    HeldHere(s, c, n);
    OthersKept(s, s', c, {p, n});
  }

  lemma SelfFrame(s: Sched, s': Sched, c: nat, x: Task)
    requires Inv(s) && Self(s, c) && s' == SetTask(s, s.cores[c].current, x)
    requires x.(state := Dead, pid := 0) == s.tasks[s.cores[c].current].(state := Dead, pid := 0)
    requires x.state == s.tasks[s.cores[c].current].state || s.tasks[s.cores[c].current].state == Running
             || s.tasks[s.cores[c].current].state == Blocked
    ensures Spots(s') && Placement(s')
  {
    hide CoreOk, CleanupOk;
    SpotsFrame(s, s', c);
    hide Spots;
    PlacementKept(s, s');
  }

  lemma StepSelfCas(s: Sched, s': Sched, c: nat, from: TaskState, to: TaskState)
    requires Inv(s) && SelfCas(s, s', c, from, to)
    ensures Inv(s')
  {
    var t := s.cores[c].current;
    SelfFrame(s, s', c, s'.tasks[t]);
    hide Spots, Placement;
    HeldOthers(s, s', c, t);
    assert CoreOk(s, c) && CleanupOk(s, c);
    Assemble(s, s', c);
  }

  lemma StepDropPid(s: Sched, s': Sched, c: nat)
    requires Inv(s) && DropPid(s, s', c)
    ensures Inv(s')
  {
    var t := s.cores[c].current;
    SelfFrame(s, s', c, s'.tasks[t]);
    hide Spots, Placement;
    HeldOthers(s, s', c, t);
    assert CoreOk(s, c) && CleanupOk(s, c);
    Assemble(s, s', c);
  }

  /** Only the sleep queue changes. */
  lemma SleepChange(s: Sched, s': Sched)
    requires Inv(s) && s' == s.(sleeping := s'.sleeping) && forall t | t in s'.sleeping :: t in s.tasks
    ensures Inv(s')
  {
    hide CoreOk, CleanupOk;
    SpotsFrame(s, s', |s.cores|);
    hide Spots;
    PlacementKept(s, s');
    hide Placement;
    OthersKept(s, s', |s.cores|, {});
    Assemble(s, s', |s.cores|);
  }

  lemma StepSleepAdd(s: Sched, s': Sched, c: nat, i: nat)
    requires Inv(s) && SleepAdd(s, s', c, i)
    ensures Inv(s')
  {
    hide Spots, Placement, CoreOk, CleanupOk;
    SleepChange(s, s');
  }

  lemma StepWakeCas(s: Sched, s': Sched, a: nat, t: nat, from: TaskState)
    requires Inv(s) && WakeCas(s, s', a, t, from)
    ensures Inv(s')
  {
    WakeSpots(s, s', a, t);
    hide Spots;
    PlacementKept(s, s');
    hide Placement;
    OthersKept(s, s', |s.cores|, {t});
    Assemble(s, s', |s.cores|);
  }

  lemma StepWakePut(s: Sched, s': Sched, a: nat, c: nat)
    requires Inv(s) && WakePut(s, s', a, c)
    ensures Inv(s')
  {
    var t := s.wakes[a];
    assert Sits(s, InWake(a), t);
    WakePutSpots(s, s', a, c);
    assert s.tasks[t].state == Ready;
    hide Spots;
    PlacementKept(s, s');
    hide Placement;
    OthersKept(s, s', |s.cores|, {t});
    Assemble(s, s', |s.cores|);
  }

  lemma StepCreate(s: Sched, s': Sched, a: nat, t: nat, pid: nat)
    requires Inv(s) && Create(s, s', a, t, pid)
    ensures Inv(s')
  {
    WakeSpots(s, s', a, t);
    hide Spots;
    PlacementKept(s, s');
    hide Placement;
    OthersKept(s, s', |s.cores|, {t});
    Assemble(s, s', |s.cores|);
  }

  lemma StepSleepDel(s: Sched, s': Sched, t: nat)
    requires Inv(s) && SleepDel(s, s', t)
    ensures Inv(s')
  {
    hide Spots, Placement, CoreOk, CleanupOk;
    SleepChange(s, s');
  }

  // ---------------------------------------------------------------- no READY task is lost

  ghost predicate Seated(s: Sched, t: nat) { exists p :: Sits(s, p, t) }

  ghost predicate NotLost(s: Sched) {
    forall t | t in s.tasks && s.tasks[t].state == Ready && !IsIdle(s, t) :: Seated(s, t)
  }

  /** Every seat `from` leaves as it is except perhaps one, which task `x` re-enters elsewhere or leaves RUNNING. */
  lemma SeatsKept(s: Sched, s': Sched, x: nat)
    requires NotLost(s) && s'.idles == s.idles
    requires forall p, t | Sits(s, p, t) && t != x :: Seated(s', t)
    requires forall t | t in s'.tasks && s'.tasks[t].state == Ready && t != x :: t in s.tasks && s.tasks[t].state == Ready
    requires x in s'.tasks && s'.tasks[x].state == Ready && !IsIdle(s, x) ==> Seated(s', x)
    ensures NotLost(s')
  {
    forall t | t in s'.tasks && s'.tasks[t].state == Ready && !IsIdle(s', t) ensures Seated(s', t) {
      if t != x { var p :| Sits(s, p, t); }
    }
  }

  /** A step that moves no task between spots. */
  lemma QuietKeepsSeats(s: Sched, s': Sched)
    requires NotLost(s) && s'.idles == s.idles && s'.rq == s.rq && s'.wakes == s.wakes && |s'.cores| == |s.cores|
    requires forall c | 0 <= c < |s.cores| ::
               && s'.cores[c].idle == s.cores[c].idle
               && (s.cores[c].pc.DrainWon? ==> s'.cores[c].pc == s.cores[c].pc)
               && (s.cores[c].pc.Chosen? ==> s'.cores[c].pc == s.cores[c].pc || s'.cores[c].pc == Marked(s.cores[c].pc.next))
               && (s.cores[c].pc.Marked? ==> s'.cores[c].pc == s.cores[c].pc)
    requires forall t | t in s'.tasks && s'.tasks[t].state == Ready :: t in s.tasks && s.tasks[t].state == Ready
    ensures NotLost(s')
  {
    forall t | t in s'.tasks && s'.tasks[t].state == Ready && !IsIdle(s', t) ensures Seated(s', t) {
      var p :| Sits(s, p, t);
      assert Sits(s', p, t);
    }
  }

  lemma DrainKeepsSeats(s: Sched, s': Sched, c: nat)
    requires NotLost(s) && Drain(s, s', c)
    ensures NotLost(s')
  {
    var w := s.sleeping[0];
    if s.tasks[w].state == Blocked {
      assert Sits(s', InDrain(c), w);
      forall p, t | Sits(s, p, t) && t != w ensures Seated(s', t) { assert Sits(s', p, t); }
      SeatsKept(s, s', w);
    } else {
      QuietKeepsSeats(s, s');
    }
  }

  lemma DrainPutKeepsSeats(s: Sched, s': Sched, c: nat)
    requires NotLost(s) && DrainPut(s, s', c)
    ensures NotLost(s')
  {
    var w := s.cores[c].pc.woken;
    assert Sits(s', InQueue(c, |s.rq[c]|), w);
    forall p, t | Sits(s, p, t) && t != w ensures Seated(s', t) { assert Sits(s', p, t); }
    SeatsKept(s, s', w);
  }

  lemma RequeueKeepsSeats(s: Sched, s': Sched, c: nat)
    requires NotLost(s) && RequeuePut(s, s', c)
    ensures NotLost(s')
  {
    var w := s.cores[c].current;
    assert Sits(s', InQueue(c, |s.rq[c]|), w);
    forall p, t | Sits(s, p, t) && t != w ensures Seated(s', t) { assert Sits(s', p, t); }
    SeatsKept(s, s', w);
  }

  lemma DequeueKeepsSeats(s: Sched, s': Sched, c: nat, i: nat)
    requires NotLost(s) && Shape(s) && Dequeue(s, s', c, i)
    ensures NotLost(s')
  {
    var v := Victim(c, s.cores[c].pc.tried, |s.cores|);
    var w := s.rq[v][i];
    assert IsIdle(s, w) || Sits(s', InPick(c), w);
    forall p, t | Sits(s, p, t) && t != w ensures Seated(s', t) {
      assert Sits(s', if p.InQueue? && p.c == v && p.i > i then InQueue(v, p.i - 1) else p, t);
    }
    SeatsKept(s, s', w);
  }

  lemma PromoteKeepsSeats(s: Sched, s': Sched, c: nat)
    requires NotLost(s) && Promote(s, s', c)
    ensures NotLost(s')
  {
    var w := s.cores[c].pc.next;
    forall p, t | Sits(s, p, t) && t != w ensures Seated(s', t) { assert Sits(s', p, t); }
    SeatsKept(s, s', w);
  }

  lemma WakeKeepsSeats(s: Sched, s': Sched, a: nat, t: nat, x: Task)
    requires NotLost(s) && a !in s.wakes && s' == SetTask(s, t, x).(wakes := s.wakes[a := t])
    ensures NotLost(s')
  {
    assert Sits(s', InWake(a), t);
    forall p, y | Sits(s, p, y) && y != t ensures Seated(s', y) { assert Sits(s', p, y); }
    SeatsKept(s, s', t);
  }

  lemma WakePutKeepsSeats(s: Sched, s': Sched, a: nat, c: nat)
    requires NotLost(s) && WakePut(s, s', a, c)
    ensures NotLost(s')
  {
    var w := s.wakes[a];
    assert Sits(s', InQueue(c, |s.rq[c]|), w);
    forall p, t | Sits(s, p, t) && t != w ensures Seated(s', t) { assert Sits(s', p, t); }
    SeatsKept(s, s', w);
  }

  // ---------------------------------------------------------------- every run

  lemma CoreStepKeepsInv(s: Sched, s': Sched, c: nat)
    requires Inv(s) && CoreStep(s, s', c)
    ensures Inv(s')
  {
    hide Inv, Release, Cleanup, Drain, DrainPut, DrainDone, Look, RequeuePut, Dequeue, DequeueNone, Mark, Promote, SetCurrent, Switch;
    if Release(s, s', c, true) { StepRelease(s, s', c, true); }
    else if Release(s, s', c, false) { StepRelease(s, s', c, false); }
    else if Cleanup(s, s', c) { StepCleanup(s, s', c); }
    else if Drain(s, s', c) { StepDrain(s, s', c); }
    else if DrainPut(s, s', c) { StepDrainPut(s, s', c); }
    else if DrainDone(s, s', c) { StepDrainDone(s, s', c); }
    else if Look(s, s', c) { StepLook(s, s', c); }
    else if RequeuePut(s, s', c) { StepRequeuePut(s, s', c); }
    else if i :| Dequeue(s, s', c, i) { StepDequeue(s, s', c, i); }
    else if DequeueNone(s, s', c) { StepDequeueNone(s, s', c); }
    else if Mark(s, s', c) { StepMark(s, s', c); }
    else if Promote(s, s', c) { StepPromote(s, s', c); }
    else if SetCurrent(s, s', c) { StepSetCurrent(s, s', c); }
    else { StepSwitch(s, s', c); }
  }

  /** The steps of `sched_schedule` that move no task between spots. */
  ghost predicate QuietEntry(s: Sched, s': Sched, c: nat) {
    Release(s, s', c, true) || Release(s, s', c, false) || Cleanup(s, s', c) || DrainDone(s, s', c) || Look(s, s', c)
  }

  ghost predicate QuietExit(s: Sched, s': Sched, c: nat) {
    DequeueNone(s, s', c) || Mark(s, s', c) || SetCurrent(s, s', c) || Switch(s, s', c)
  }

  lemma QuietEntryKeepsSeats(s: Sched, s': Sched, c: nat)
    requires NotLost(s) && QuietEntry(s, s', c)
    ensures NotLost(s')
  {
    hide NotLost;
    QuietKeepsSeats(s, s');
  }

  lemma QuietExitKeepsSeats(s: Sched, s': Sched, c: nat)
    requires NotLost(s) && QuietExit(s, s', c)
    ensures NotLost(s')
  {
    hide NotLost;
    QuietKeepsSeats(s, s');
  }

  lemma CoreStepKeeps(s: Sched, s': Sched, c: nat)
    requires Inv(s) && NotLost(s) && CoreStep(s, s', c)
    ensures Inv(s') && NotLost(s')
  {
    CoreStepKeepsInv(s, s', c);
    hide Spots, Placement, CoreOk, CleanupOk, Cleanups, NotLost;
    hide Release, Cleanup, Drain, DrainPut, DrainDone, Look, RequeuePut, Dequeue, DequeueNone, Mark, Promote, SetCurrent, Switch;
    if QuietEntry(s, s', c) { QuietEntryKeepsSeats(s, s', c); }
    else if QuietExit(s, s', c) { QuietExitKeepsSeats(s, s', c); }
    else if Drain(s, s', c) { DrainKeepsSeats(s, s', c); }
    else if DrainPut(s, s', c) { DrainPutKeepsSeats(s, s', c); }
    else if RequeuePut(s, s', c) { RequeueKeepsSeats(s, s', c); }
    else if i :| Dequeue(s, s', c, i) { DequeueKeepsSeats(s, s', c, i); }
    else { PromoteKeepsSeats(s, s', c); }
  }

  lemma TaskStepKeeps(s: Sched, s': Sched, c: nat)
    requires Inv(s) && NotLost(s) && TaskStep(s, s', c)
    ensures Inv(s') && NotLost(s')
  {
    hide Spots, Placement, CoreOk, CleanupOk, Cleanups, NotLost;
    if DropPid(s, s', c) { StepDropPid(s, s', c); }
    else if exists i :: SleepAdd(s, s', c, i) { var i :| SleepAdd(s, s', c, i); StepSleepAdd(s, s', c, i); }
    else { var from, to :| SelfCas(s, s', c, from, to); StepSelfCas(s, s', c, from, to); }
    QuietKeepsSeats(s, s');
  }

  lemma WakerStepKeeps(s: Sched, s': Sched, a: nat)
    requires Inv(s) && NotLost(s) && WakerStep(s, s', a)
    ensures Inv(s') && NotLost(s')
  {
    hide Spots, Placement, CoreOk, CleanupOk, Cleanups, NotLost;
    if t, from :| WakeCas(s, s', a, t, from) {
      StepWakeCas(s, s', a, t, from);
      WakeKeepsSeats(s, s', a, t, s'.tasks[t]);
    } else if c :| WakePut(s, s', a, c) {
      StepWakePut(s, s', a, c);
      WakePutKeepsSeats(s, s', a, c);
    } else if t, pid :| Create(s, s', a, t, pid) {
      StepCreate(s, s', a, t, pid);
      WakeKeepsSeats(s, s', a, t, s'.tasks[t]);
    } else {
      StepSleepDel(s, s', a);
      QuietKeepsSeats(s, s');
    }
  }

  lemma InitSeats(s: Sched)
    requires Init(s)
    ensures Spots(s) && NotLost(s)
  {
    assert forall p, t :: !Sits(s, p, t);
  }

  lemma InitPlacement(s: Sched)
    requires Init(s)
    ensures Placement(s)
  {
    assert forall c: nat, t: nat :: Holds(s, c, t) <==> c < |s.cores| && s.cores[c].current == t;
  }

  lemma InitIsSafe(s: Sched)
    requires Init(s)
    ensures Inv(s) && NotLost(s)
  {
    InitSeats(s);
    InitPlacement(s);
    hide Spots, NotLost, Placement;
  }

  lemma {:induction false} RunIsSafe(trace: seq<Sched>, i: nat)
    requires IsRun(trace) && i < |trace|
    ensures Inv(trace[i]) && NotLost(trace[i])
  {
    if i == 0 {
      InitIsSafe(trace[0]);
    } else {
      RunIsSafe(trace, i - 1);
      var (s, s') := (trace[i - 1], trace[i]);
      assert Next(s, s') by { assert Next(trace[i - 1], trace[i - 1 + 1]); }
      if c :| CoreStep(s, s', c) { CoreStepKeeps(s, s', c); }
      else if c :| TaskStep(s, s', c) { TaskStepKeeps(s, s', c); }
      else { var a :| WakerStep(s, s', a); WakerStepKeeps(s, s', a); }
    }
  }

  // ---------------------------------------------------------------- what that means

  /** No task runs on two cores. */
  ghost predicate OneCore(s: Sched) {
    forall c, d | 0 <= c < d < |s.cores| :: s.cores[c].current != s.cores[d].current
  }

  /** A task is linked at most once, READY, and what `rq_dequeue` may take has its registers saved. */
  ghost predicate LinkedOnce(s: Sched) {
    && (forall c: nat, i: nat, d: nat, j: nat, t | Sits(s, InQueue(c, i), t) && Sits(s, InQueue(d, j), t) :: c == d && i == j)
    && (forall p, t | Sits(s, p, t) ::
          t in s.tasks && s.tasks[t].state == Ready && (s.tasks[t].onCore == None ==> s.tasks[t].saved))
  }

  /** The running task is never freed, a pending dead one never overwritten, and what is about to be freed is
      DEAD, not freed before, off every core, its registers saved. */
  ghost predicate FreesRight(s: Sched) {
    forall c | 0 <= c < |s.cores| ::
      && s.cores[c].current in s.tasks
      && (s.cores[c].pc == Entered ==> s.cores[c].cleanup != Some(s.cores[c].current))
      && (s.cores[c].pc == Entered && s.cores[c].cleanup.Some? ==>
            && s.cores[c].cleanup.value in s.tasks
            && var d := s.tasks[s.cores[c].cleanup.value];
               d.state == Dead && d.onCore == None && d.saved)
      && (s.cores[c].pc == Drained ==> s.cores[c].cleanup == None)
  }

  /** A freed task is on no queue and no core. */
  ghost predicate NoDangling(s: Sched) {
    (forall c: nat, t: nat | Mentions(s, c, t) :: t in s.tasks) && forall t | t in s.sleeping :: t in s.tasks
  }

  lemma InvPlacesTasks(s: Sched)
    requires Inv(s)
    ensures OneCore(s) && LinkedOnce(s)
  {
    hide CoreOk, CleanupOk;
    forall c, d | 0 <= c < d < |s.cores| ensures s.cores[c].current != s.cores[d].current {
      assert Holds(s, c, s.cores[c].current) && Holds(s, d, s.cores[d].current);
    }
  }

  lemma InvFreesRight(s: Sched)
    requires Inv(s)
    ensures FreesRight(s)
  {
    hide Spots, CoreOk, Holds;
    forall c | 0 <= c < |s.cores|
      ensures s.cores[c].pc == Entered ==> s.cores[c].cleanup != Some(s.cores[c].current)
      ensures s.cores[c].pc == Drained ==> s.cores[c].cleanup == None
      ensures s.cores[c].pc == Entered && s.cores[c].cleanup.Some? ==>
                && s.cores[c].cleanup.value in s.tasks
                && var d := s.tasks[s.cores[c].cleanup.value];
                   d.state == Dead && d.onCore == None && d.saved
    {
      assert CleanupOk(s, c);
    }
  }

  lemma InvNoDangling(s: Sched)
    requires Inv(s)
    ensures NoDangling(s)
  {
    hide Spots;
    forall c: nat, t: nat | Mentions(s, c, t) ensures t in s.tasks {
      if !Holds(s, c, t) { assert CoreOk(s, c) && CleanupOk(s, c); }
    }
  }

  /** In every state of every run, by any interleaving of cores, tasks and wakers. */
  lemma SafeEverywhere(trace: seq<Sched>, i: nat)
    requires IsRun(trace) && i < |trace|
    ensures OneCore(trace[i]) && LinkedOnce(trace[i]) && NotLost(trace[i]) && FreesRight(trace[i]) && NoDangling(trace[i])
  {
    hide NotLost, OneCore, LinkedOnce, FreesRight, NoDangling;
    RunIsSafe(trace, i);
    InvPlacesTasks(trace[i]);
    InvFreesRight(trace[i]);
    InvNoDangling(trace[i]);
  }
}
