/** Stopping, continuing and killing processes (kernel/core/signals.c), as steps interleaved by senders on any core and the
    processes themselves. `process_table_lock` is one holder; what happens under it is still one atomic operation at a time.
    The rules are those of section 2.4.1 of POSIX.1-2017 XSH, "Signal Generation and Delivery". */
module Signals {
  import opened Common

  const SIGILL := 4
  const SIGBUS := 7
  const SIGKILL := 9
  const SIGSEGV := 11
  const SIGCHLD := 17
  const SIGCONT := 18
  const SIGSTOP := 19
  const SIGTSTP := 20
  const SIGTTIN := 21
  const SIGTTOU := 22
  const SIGURG := 23
  const SIGWINCH := 28

  predicate IsStop(sig: nat) { sig == SIGSTOP || sig == SIGTSTP || sig == SIGTTIN || sig == SIGTTOU }

  predicate IgnoredByDefault(sig: nat) { sig == SIGCHLD || sig == SIGURG || sig == SIGWINCH }

  /** What keeps a stop from happening. */
  predicate Overrides(sig: nat) { sig == SIGCONT || sig == SIGKILL }

  datatype Handler = Default | Ignore | Caught

  datatype State = Running | Ready | Blocked | Stopped | Dead

  /** Where a task is in delivery: `Picked` has read the signal to deliver and not yet cleared it; the rest is the stop branch, of
      which `Checked` and `Halted` hold the table lock. */
  datatype Pc = Normal | Picked(sig: nat) | Stopping(sig: nat) | Locked(sig: nat) | Checked(sig: nat) | Halted | Yielding(sig: nat) | Parked | Exiting

  datatype Proc = Proc(pending: set<nat>, blocked: set<nat>, handlers: map<nat, Handler>, state: State, pc: Pc)

  /** Who holds the lock: a sender, with its target and how far it is, or a process about to stop. */
  datatype Holder = Send(target: nat, sig: nat, stage: nat, discarded: bool) | Self(pid: nat)

  datatype System = System(procs: map<nat, Proc>, holder: Option<Holder>)

  function HandlerOf(p: Proc, sig: nat): Handler { if sig in p.handlers then p.handlers[sig] else Default }

  /** `signal_discarded`. */
  predicate Discarded(p: Proc, sig: nat) {
    sig != SIGKILL && sig != SIGSTOP && (HandlerOf(p, sig) == Ignore || (HandlerOf(p, sig) == Default && IgnoredByDefault(sig)))
  }

  function Put(s: System, p: nat, x: Proc): System { s.(procs := s.procs[p := x]) }

  ghost predicate Init(s: System) {
    && s.holder == None
    && forall p | p in s.procs ::
         s.procs[p].pending == s.procs[p].blocked == {} && s.procs[p].handlers == map[] && s.procs[p].state == Running && s.procs[p].pc == Normal
  }

  // ---------------------------------------------------------------- the sender, under the lock

  ghost predicate Sending(s: System, stage: nat) {
    s.holder.Some? && s.holder.value.Send? && s.holder.value.stage == stage && s.holder.value.target in s.procs
  }

  /** A running process is the target; a group send takes the next one without giving up the lock. */
  ghost predicate Begin(s: System, s': System, t: nat, sig: nat) {
    && (s.holder == None || (Sending(s, 4) && s.holder.value.sig == sig))
    && t in s.procs && s.procs[t].state != Dead && s' == s.(holder := Some(Send(t, sig, 0, false)))
  }

  /** A stop takes back a pending continue, a continue takes back pending stops. */
  ghost predicate ClearOther(s: System, s': System) {
    && Sending(s, 0)
    && var (h, p) := (s.holder.value, s.procs[s.holder.value.target]);
       var left := set x | x in p.pending && !(IsStop(h.sig) && x == SIGCONT) && !(h.sig == SIGCONT && IsStop(x));
       s' == Put(s, h.target, p.(pending := left)).(holder := Some(h.(stage := 1)))
  }

  ghost predicate Post(s: System, s': System) {
    && Sending(s, 1)
    && var (h, p) := (s.holder.value, s.procs[s.holder.value.target]);
       var d := Discarded(p, h.sig);
       s' == Put(s, h.target, if d then p else p.(pending := p.pending + {h.sig})).(holder := Some(h.(stage := 2, discarded := d)))
  }

  /** Resuming a stopped task is an effect of sending. */
  ghost predicate Continue(s: System, s': System) {
    && Sending(s, 2)
    && var (h, p) := (s.holder.value, s.procs[s.holder.value.target]);
       s' == Put(s, h.target, if Overrides(h.sig) && p.state == Stopped then p.(state := Ready) else p).(holder := Some(h.(stage := 3)))
  }

  ghost predicate WakeTarget(s: System, s': System) {
    && Sending(s, 3)
    && var (h, p) := (s.holder.value, s.procs[s.holder.value.target]);
       s' == Put(s, h.target, if !h.discarded && p.state == Blocked then p.(state := Ready) else p).(holder := Some(h.(stage := 4)))
  }

  ghost predicate EndSend(s: System, s': System) { Sending(s, 4) && s' == s.(holder := None) }

  // ---------------------------------------------------------------- the process itself

  ghost predicate OnCpu(s: System, p: nat) { p in s.procs && (s.procs[p].state == Running || s.procs[p].state == Ready) }

  /** Delivery reads the lowest deliverable signal, without the lock; ... */
  ghost predicate Pick(s: System, s': System, p: nat, sig: nat) {
    && OnCpu(s, p) && s.procs[p].pc == Normal && sig in s.procs[p].pending - s.procs[p].blocked
    && (forall x | x in s.procs[p].pending - s.procs[p].blocked :: sig <= x)
    && s' == Put(s, p, s.procs[p].(pc := Picked(sig)))
  }

  /** How a caught signal is taken: the mask its handler adds, whether the disposition is reset, or the frame cannot be built. */
  datatype Catch = Enter(mask: set<nat>, reset: bool) | NoFrame

  /** No mask keeps out SIGKILL or SIGSTOP. */
  function Allowed(mask: set<nat>): set<nat> { mask - {SIGKILL, SIGSTOP} }

  function Entered(x: Proc, sig: nat, how: Catch): Proc {
    if how.NoFrame? then x.(pc := Exiting)
    else x.(blocked := Allowed(x.blocked + how.mask), handlers := if how.reset then x.handlers[sig := Default] else x.handlers)
  }

  /** ... clears its bit, whatever senders have done meanwhile, and acts on it; a stop by default goes on to stop. */
  ghost predicate Pop(s: System, s': System, p: nat, how: Catch) {
    && OnCpu(s, p) && s.procs[p].pc.Picked?
    && var sig := s.procs[p].pc.sig;
       var (x, h) := (s.procs[p], HandlerOf(s.procs[p], sig));
       var y := x.(pending := x.pending - {sig}, pc := Normal);
       s' == Put(s, p, if h == Caught then Entered(y, sig, how)
                       else if h == Ignore || IgnoredByDefault(sig) || sig == SIGCONT then y
                       else if IsStop(sig) then y.(pc := Stopping(sig)) else y.(pc := Exiting))
  }

  ghost predicate TakeLock(s: System, s': System, p: nat) {
    && OnCpu(s, p) && s.procs[p].pc.Stopping? && s.holder == None
    && s' == Put(s, p, s.procs[p].(pc := Locked(s.procs[p].pc.sig))).(holder := Some(Self(p)))
  }

  /** A continue or a kill that came first cancels the stop. */
  ghost predicate CheckOverride(s: System, s': System, p: nat) {
    && OnCpu(s, p) && s.procs[p].pc.Locked? && s.holder == Some(Self(p))
    && var x := s.procs[p];
       s' == if exists sig :: sig in x.pending && Overrides(sig) then Put(s, p, x.(pc := Normal)).(holder := None)
             else Put(s, p, x.(pc := Checked(x.pc.sig)))
  }

  /** The compare-and-swap from RUNNING; a task still READY yields and tries again. */
  ghost predicate TryStop(s: System, s': System, p: nat) {
    && OnCpu(s, p) && s.procs[p].pc.Checked? && s.holder == Some(Self(p))
    && var x := s.procs[p];
       s' == if x.state == Running then Put(s, p, x.(state := Stopped, pc := Halted))
             else Put(s, p, x.(pc := Yielding(x.pc.sig))).(holder := None)
  }

  ghost predicate Unlock(s: System, s': System, p: nat) {
    && p in s.procs && s.procs[p].pc == Halted && s.holder == Some(Self(p))
    && s' == Put(s, p, s.procs[p].(pc := Parked)).(holder := None)
  }

  /** The scheduler runs a READY task. */
  ghost predicate Dispatch(s: System, s': System, p: nat) {
    && p in s.procs && s.procs[p].state == Ready
    && var x := s.procs[p];
       s' == Put(s, p, x.(state := Running, pc := if x.pc.Yielding? then Stopping(x.pc.sig) else if x.pc == Parked then Normal else x.pc))
  }

  ghost predicate Preempt(s: System, s': System, p: nat) {
    && p in s.procs && s.procs[p].state == Running && (s.procs[p].pc == Normal || s.procs[p].pc.Picked? || s.procs[p].pc.Stopping?)
    && s' == Put(s, p, s.procs[p].(state := Ready))
  }

  ghost predicate Sleep(s: System, s': System, p: nat) {
    p in s.procs && s.procs[p].state == Running && s.procs[p].pc == Normal && s' == Put(s, p, s.procs[p].(state := Blocked))
  }

  ghost predicate Wake(s: System, s': System, p: nat) {
    p in s.procs && s.procs[p].state == Blocked && s' == Put(s, p, s.procs[p].(state := Ready))
  }

  ghost predicate Exit(s: System, s': System, p: nat) {
    p in s.procs && s.procs[p].state == Running && (s.procs[p].pc == Exiting || s.procs[p].pc == Normal) && s' == Put(s, p, s.procs[p].(state := Dead))
  }

  /** A new disposition, under the lock; ignoring a signal drops a pending one. */
  ghost predicate SigAction(s: System, s': System, p: nat, sig: nat, h: Handler) {
    && OnCpu(s, p) && s.procs[p].pc == Normal && s.holder == None && sig != SIGKILL && sig != SIGSTOP
    && var x := s.procs[p].(handlers := s.procs[p].handlers[sig := h]);
       s' == Put(s, p, if h == Ignore then x.(pending := x.pending - {sig}) else x)
  }

  /** A synchronous fault posts its signal under the lock; if it is ignored or blocked it gets its default action back. */
  ghost predicate Fault(s: System, s': System, p: nat, sig: nat) {
    && OnCpu(s, p) && s.procs[p].pc == Normal && s.holder == None && (sig == SIGSEGV || sig == SIGBUS || sig == SIGILL)
    && var x := s.procs[p].(pending := s.procs[p].pending + {sig});
       s' == Put(s, p, if HandlerOf(x, sig) == Ignore || sig in x.blocked
                       then x.(handlers := x.handlers[sig := Default], blocked := x.blocked - {sig}) else x)
  }

  ghost predicate SetMask(s: System, s': System, p: nat, blocked: set<nat>) {
    OnCpu(s, p) && s.procs[p].pc == Normal && s' == Put(s, p, s.procs[p].(blocked := Allowed(blocked)))
  }

  /** A new image keeps what is pending and what is ignored; caught signals are back to their default. */
  ghost predicate Exec(s: System, s': System, p: nat) {
    && OnCpu(s, p) && s.procs[p].pc == Normal
    && s' == Put(s, p, s.procs[p].(handlers := map sig | sig in s.procs[p].handlers && s.procs[p].handlers[sig] == Ignore :: Ignore))
  }

  /** A child starts with nothing pending. */
  ghost predicate Fork(s: System, s': System, p: nat, c: nat) {
    OnCpu(s, p) && c !in s.procs && s' == Put(s, c, s.procs[p].(pending := {}, state := Ready, pc := Normal))
  }

  ghost predicate SenderStep(s: System, s': System) {
    || (exists t, sig :: Begin(s, s', t, sig)) || ClearOther(s, s') || Post(s, s') || Continue(s, s') || WakeTarget(s, s') || EndSend(s, s')
  }

  ghost predicate StopStep(s: System, s': System, p: nat) {
    || (exists sig :: Pick(s, s', p, sig)) || (exists how :: Pop(s, s', p, how)) || TakeLock(s, s', p) || CheckOverride(s, s', p) || TryStop(s, s', p) || Unlock(s, s', p)
  }

  ghost predicate TurnStep(s: System, s': System, p: nat) {
    Dispatch(s, s', p) || Preempt(s, s', p) || Sleep(s, s', p) || Wake(s, s', p) || Exit(s, s', p)
  }

  ghost predicate CallStep(s: System, s': System, p: nat) {
    || (exists sig, h :: SigAction(s, s', p, sig, h)) || (exists sig :: Fault(s, s', p, sig))
    || (exists blocked :: SetMask(s, s', p, blocked)) || Exec(s, s', p) || (exists c :: Fork(s, s', p, c))
  }

  ghost predicate Next(s: System, s': System) { SenderStep(s, s') || (exists p :: StopStep(s, s', p)) || (exists p :: TurnStep(s, s', p)) || (exists p :: CallStep(s, s', p)) }

  ghost predicate IsRun(trace: seq<System>) {
    |trace| > 0 && Init(trace[0]) && forall i | 0 <= i < |trace| - 1 :: Next(trace[i], trace[i + 1])
  }

  // ---------------------------------------------------------------- what every step keeps

  /** Never a continue and a stop pending together. */
  ghost predicate OneSided(p: Proc) { SIGCONT in p.pending ==> forall sig | sig in p.pending :: !IsStop(sig) }

  /** A sender of a continue or a kill to `t` that has posted it and not yet resumed it. */
  ghost predicate Resuming(s: System, t: nat) {
    Sending(s, 2) && s.holder.value.target == t && Overrides(s.holder.value.sig)
  }

  ghost predicate NoneOverriding(p: Proc) { SIGCONT !in p.pending && SIGKILL !in p.pending }

  ghost predicate ProcOk(s: System, p: nat)
    requires p in s.procs
  {
    var x := s.procs[p];
    && OneSided(x)
    && (x.state == Stopped ==> NoneOverriding(x) || Resuming(s, p))
    && (x.pc.Checked? ==> s.holder == Some(Self(p)) && NoneOverriding(x))
    && (x.pc == Halted || x.pc.Locked? ==> s.holder == Some(Self(p)))
  }

  /** What the sender has cleared stays cleared while it holds the lock. */
  ghost predicate SenderOk(s: System) {
    s.holder.Some? && s.holder.value.Send? ==>
      var h := s.holder.value;
      && h.target in s.procs
      && (h.stage == 1 && IsStop(h.sig) ==> SIGCONT !in s.procs[h.target].pending)
      && (h.stage == 1 && h.sig == SIGCONT ==> forall x | x in s.procs[h.target].pending :: !IsStop(x))
  }

  ghost predicate Inv(s: System) { SenderOk(s) && forall p | p in s.procs :: ProcOk(s, p) }

  lemma BeginKeeps(s: System, s': System, t: nat, sig: nat)
    requires Inv(s) && Begin(s, s', t, sig)
    ensures Inv(s')
  {
    forall p | p in s'.procs ensures ProcOk(s', p) { assert ProcOk(s, p); }
  }

  lemma SenderKeeps(s: System, s': System)
    requires Inv(s) && SenderStep(s, s')
    ensures Inv(s')
  {
    if t, sig :| Begin(s, s', t, sig) {
      BeginKeeps(s, s', t, sig);
    } else {
      forall p | p in s'.procs ensures ProcOk(s', p) { assert ProcOk(s, p); }
    }
  }

  lemma StopKeeps(s: System, s': System, p: nat)
    requires Inv(s) && StopStep(s, s', p)
    ensures Inv(s')
  {
    forall q | q in s'.procs ensures ProcOk(s', q) { assert ProcOk(s, q) && ProcOk(s, p); }
  }

  lemma TurnKeeps(s: System, s': System, p: nat)
    requires Inv(s) && TurnStep(s, s', p)
    ensures Inv(s')
  {
    forall q | q in s'.procs ensures ProcOk(s', q) { assert ProcOk(s, q); }
  }

  lemma CallKeeps(s: System, s': System, p: nat)
    requires Inv(s) && CallStep(s, s', p)
    ensures Inv(s')
  {
    forall q | q in s'.procs ensures ProcOk(s', q) { if q in s.procs { assert ProcOk(s, q); } }
  }

  lemma {:induction false} RunKeepsInv(trace: seq<System>, i: nat)
    requires IsRun(trace) && i < |trace|
    ensures Inv(trace[i])
  {
    if i > 0 {
      RunKeepsInv(trace, i - 1);
      var (s, s') := (trace[i - 1], trace[i]);
      assert Next(s, s') by { assert Next(trace[i - 1], trace[i - 1 + 1]); }
      hide Inv, SenderStep, StopStep, TurnStep, CallStep;
      if SenderStep(s, s') { SenderKeeps(s, s'); }
      else if p :| StopStep(s, s', p) { StopKeeps(s, s', p); }
      else if p :| TurnStep(s, s', p) { TurnKeeps(s, s', p); }
      else { var p :| CallStep(s, s', p); CallKeeps(s, s', p); }
    }
  }

  /** In every run: no process has a continue and a stop pending together, and whenever the table lock is free a stopped
      process has neither a kill nor a continue pending, so none is stopped past its wake. */
  lemma StopsAreOverridden(trace: seq<System>, i: nat, p: nat)
    requires IsRun(trace) && i < |trace| && p in trace[i].procs
    ensures OneSided(trace[i].procs[p])
    ensures trace[i].holder == None && trace[i].procs[p].state == Stopped ==>
              SIGKILL !in trace[i].procs[p].pending && SIGCONT !in trace[i].procs[p].pending
  {
    RunKeepsInv(trace, i);
    assert ProcOk(trace[i], p);
  }
}
