/** The SMP scheduler (kernel/sched/sched.c) as interleaved atomic steps: each compare-and-swap, each section under
    a run-queue or sleep lock, each plain store and each context switch, by any number of cores and wakers. */
module Sched {
  import opened Common

  datatype TaskState = Running | Ready | Blocked | Stopped | Dead

  /** `saved` says whether a task's registers are in its context structure rather than on a core. */
  datatype Task = Task(state: TaskState, onCore: Option<nat>, pid: nat, saved: bool)

  /** Where a core is inside `sched_schedule`; `Outside` while it runs task code. */
  datatype Pc =
    | Outside
    | Entered               // predecessor released
    | Cleaned               // dead predecessor freed; draining the sleep queue
    | DrainWon(woken: nat)  // drained a task, not yet enqueued
    | Drained               // about to look at the outgoing task's state
    | Requeue               // the outgoing task was RUNNING; about to enqueue it
    | Choosing(tried: nat)  // queues tried so far
    | Chosen(next: nat)
    | Marked(next: nat)     // on_core written
    | Promoted(next: nat)   // state written
    | Switching(outgoing: nat)

  datatype Core = Core(current: nat, idle: nat, prevTask: Option<nat>, cleanup: Option<nat>, pc: Pc)

  /** `wakes` are the enqueues in flight: a waker that won its compare-and-swap but has not linked its task yet. */
  datatype Sched = Sched(tasks: map<nat, Task>, cores: seq<Core>, rq: seq<seq<nat>>, sleeping: seq<nat>,
                         wakes: map<nat, nat>, idles: set<nat>)

  predicate IsIdle(s: Sched, t: nat) { t in s.idles }

  function SetTask(s: Sched, t: nat, x: Task): Sched { s.(tasks := s.tasks[t := x]) }

  function SetCore(s: Sched, c: nat, k: Core): Sched
    requires c < |s.cores|
  { s.(cores := s.cores[c := k]) }

  ghost predicate At(s: Sched, c: nat, pc: Pc) { c < |s.cores| && |s.rq| == |s.cores| && s.cores[c].pc == pc }

  ghost predicate Init(s: Sched) {
    && |s.rq| == |s.cores| && s.sleeping == [] && s.wakes == map[]
    && (forall c | 0 <= c < |s.cores| ::
          && s.rq[c] == [] && s.cores[c].pc == Outside && s.cores[c].prevTask == None && s.cores[c].cleanup == None
          && s.cores[c].current in s.tasks && s.cores[c].idle in s.tasks
          && s.tasks[s.cores[c].current].onCore == Some(c)
          && s.tasks[s.cores[c].current].state in {Running, Dead}
          && s.tasks[s.cores[c].idle] == Task(Ready, None, 0, true)
          && !IsIdle(s, s.cores[c].current))
    && s.idles == (set c | 0 <= c < |s.cores| :: s.cores[c].idle)
    && (forall c, d | 0 <= c < d < |s.cores| :: s.cores[c].idle != s.cores[d].idle)
    && (forall t | t in s.tasks :: IsIdle(s, t) || exists c | 0 <= c < |s.cores| :: s.cores[c].current == t)
  }

  // ---------------------------------------------------------------- sched_schedule, step by step

  /** The predecessor is off this core once its context is saved: on entry, on resumption, or in `idle_entry`. */
  ghost predicate Release(s: Sched, s': Sched, c: nat, enter: bool) {
    && At(s, c, Outside)
    && var k := s.cores[c].(prevTask := None, pc := if enter then Entered else Outside);
       match s.cores[c].prevTask
       case None => enter && s' == SetCore(s, c, k)
       case Some(p) => p in s.tasks && s' == SetTask(SetCore(s, c, k), p, s.tasks[p].(onCore := None))
  }

  /** `cleanup_dead_task`: unlink from the sleep queue, then free. */
  ghost predicate Cleanup(s: Sched, s': Sched, c: nat) {
    && At(s, c, Entered)
    && var k := s.cores[c].(cleanup := None, pc := Cleaned);
       match s.cores[c].cleanup
       case None => s' == SetCore(s, c, k)
       case Some(d) => s' == SetCore(s, c, k).(tasks := s.tasks - {d}, sleeping := Without(s.sleeping, d))
  }

  /** One turn of `sleep_drain`: the head leaves the queue and is woken if it is still BLOCKED. */
  ghost predicate Drain(s: Sched, s': Sched, c: nat) {
    && At(s, c, Cleaned) && s.sleeping != [] && s.sleeping[0] in s.tasks
    && var w := s.sleeping[0];
       var rest := s.(sleeping := s.sleeping[1..]);
       s' == if s.tasks[w].state == Blocked
             then SetTask(SetCore(rest, c, s.cores[c].(pc := DrainWon(w))), w, s.tasks[w].(state := Ready))
             else rest
  }

  /** `rq_enqueue` stores READY and links at the tail, under the queue's lock. */
  function Enqueued(s: Sched, c: nat, t: nat): Sched
    requires c < |s.rq| && t in s.tasks
  {
    SetTask(s.(rq := s.rq[c := s.rq[c] + [t]]), t, s.tasks[t].(state := Ready))
  }

  ghost predicate DrainPut(s: Sched, s': Sched, c: nat) {
    && c < |s.cores| && |s.rq| == |s.cores| && s.cores[c].pc.DrainWon? && s.cores[c].pc.woken in s.tasks
    && s' == SetCore(Enqueued(s, c, s.cores[c].pc.woken), c, s.cores[c].(pc := Cleaned))
  }

  ghost predicate DrainDone(s: Sched, s': Sched, c: nat) {
    At(s, c, Cleaned) && s' == SetCore(s, c, s.cores[c].(pc := Drained))
  }

  /** The switch on the outgoing task's state. */
  ghost predicate Look(s: Sched, s': Sched, c: nat) {
    && At(s, c, Drained) && s.cores[c].current in s.tasks
    && var k := s.cores[c];
       match s.tasks[k.current].state
       case Running => s' == SetCore(s, c, k.(pc := if k.current != k.idle then Requeue else Choosing(0)))
       case Dead => s' == SetCore(s, c, k.(pc := Choosing(0), cleanup := Some(k.current)))
       case _ => s' == SetCore(s, c, k.(pc := Choosing(0)))
  }

  ghost predicate RequeuePut(s: Sched, s': Sched, c: nat) {
    && At(s, c, Requeue) && s.cores[c].current in s.tasks
    && s' == SetCore(Enqueued(s, c, s.cores[c].current), c, s.cores[c].(pc := Choosing(0)))
  }

  /** The own queue first, then every queue in turn, its own again last. */
  function Victim(c: nat, tried: nat, cores: nat): nat
    requires cores > 0
  { (c + tried) % cores }

  /** `rq_dequeue` takes only tasks off every core, and a thief takes no kernel task. */
  ghost predicate Eligible(s: Sched, t: nat, tried: nat) {
    t in s.tasks && (tried == 0 || s.tasks[t].pid != 0) && s.tasks[t].onCore == None
  }

  ghost predicate Dequeue(s: Sched, s': Sched, c: nat, i: nat) {
    && c < |s.cores| && |s.rq| == |s.cores| && s.cores[c].pc.Choosing? && |s.cores| > 0
    && var k := s.cores[c].pc.tried;
       var v := Victim(c, k, |s.cores|);
       && i < |s.rq[v]| && Eligible(s, s.rq[v][i], k) && (forall j | 0 <= j < i :: !Eligible(s, s.rq[v][j], k))
       && s' == SetCore(s, c, s.cores[c].(pc := Chosen(s.rq[v][i]))).(rq := s.rq[v := s.rq[v][..i] + s.rq[v][i + 1..]])
  }

  ghost predicate DequeueNone(s: Sched, s': Sched, c: nat) {
    && c < |s.cores| && |s.rq| == |s.cores| && s.cores[c].pc.Choosing? && |s.cores| > 0
    && var k := s.cores[c].pc.tried;
       && (forall j | 0 <= j < |s.rq[Victim(c, k, |s.cores|)]| :: !Eligible(s, s.rq[Victim(c, k, |s.cores|)][j], k))
       && s' == SetCore(s, c, s.cores[c].(pc := if k < |s.cores| then Choosing(k + 1) else Chosen(s.cores[c].idle)))
  }

  ghost predicate Mark(s: Sched, s': Sched, c: nat) {
    && c < |s.cores| && s.cores[c].pc.Chosen? && s.cores[c].pc.next in s.tasks
    && var t := s.cores[c].pc.next;
       s' == SetTask(SetCore(s, c, s.cores[c].(pc := Marked(t))), t, s.tasks[t].(onCore := Some(c)))
  }

  ghost predicate Promote(s: Sched, s': Sched, c: nat) {
    && c < |s.cores| && s.cores[c].pc.Marked? && s.cores[c].pc.next in s.tasks
    && var t := s.cores[c].pc.next;
       s' == SetTask(SetCore(s, c, s.cores[c].(pc := Promoted(t))), t, s.tasks[t].(state := Running))
  }

  ghost predicate SetCurrent(s: Sched, s': Sched, c: nat) {
    && c < |s.cores| && s.cores[c].pc.Promoted?
    && var (t, prev) := (s.cores[c].pc.next, s.cores[c].current);
       s' == SetCore(s, c, s.cores[c].(current := t, pc := if prev == t then Outside else Switching(prev)))
  }

  /** `switch_context`: the outgoing registers are saved, the incoming ones loaded. */
  ghost predicate Switch(s: Sched, s': Sched, c: nat) {
    && c < |s.cores| && s.cores[c].pc.Switching? && s.cores[c].pc.outgoing in s.tasks && s.cores[c].current in s.tasks
    && var (p, n) := (s.cores[c].pc.outgoing, s.cores[c].current);
       s' == SetTask(SetTask(SetCore(s, c, s.cores[c].(prevTask := Some(p), pc := Outside)),
                             p, s.tasks[p].(saved := true)), n, s.tasks[n].(saved := false))
  }

  // ---------------------------------------------------------------- the running task and its wakers

  ghost predicate Self(s: Sched, c: nat) {
    At(s, c, Outside) && s.cores[c].current in s.tasks && !IsIdle(s, s.cores[c].current)
  }

  /** A task's own compare-and-swaps: block, stop, exit from RUNNING; un-park from BLOCKED. */
  ghost predicate SelfCas(s: Sched, s': Sched, c: nat, from: TaskState, to: TaskState) {
    && Self(s, c) && s.tasks[s.cores[c].current].state == from
    && ((from == Running && to in {Blocked, Stopped, Dead}) || (from == Blocked && to == Running))
    && s' == SetTask(s, s.cores[c].current, s.tasks[s.cores[c].current].(state := to))
  }

  /** Exit drops the pid, so no other core steals the dying task. */
  ghost predicate DropPid(s: Sched, s': Sched, c: nat) {
    Self(s, c) && s' == SetTask(s, s.cores[c].current, s.tasks[s.cores[c].current].(pid := 0))
  }

  /** `sleep_enqueue` unlinks a stale entry first; where it lands depends only on deadlines. */
  ghost predicate SleepAdd(s: Sched, s': Sched, c: nat, i: nat) {
    && Self(s, c) && s.tasks[s.cores[c].current].state != Dead
    && var q := Without(s.sleeping, s.cores[c].current);
       i <= |q| && s' == s.(sleeping := q[..i] + [s.cores[c].current] + q[i..])
  }

  /** `sched_unblock` and `sched_continue`: the compare-and-swap ... */
  ghost predicate WakeCas(s: Sched, s': Sched, a: nat, t: nat, from: TaskState) {
    && a !in s.wakes && t in s.tasks && from in {Blocked, Stopped} && s.tasks[t].state == from
    && s' == SetTask(s, t, s.tasks[t].(state := Ready)).(wakes := s.wakes[a := t])
  }

  ghost predicate InFlight(s: Sched, t: nat) { exists a :: a in s.wakes && s.wakes[a] == t }

  ghost predicate RunsItself(s: Sched, t: nat) { exists c: nat :: At(s, c, Outside) && s.cores[c].current == t }

  /** ... then the sleep queue (as a task also does for itself, in `sched_timeout_cancel` and after a sleep) ... */
  ghost predicate SleepDel(s: Sched, s': Sched, t: nat) {
    (InFlight(s, t) || RunsItself(s, t)) && s' == s.(sleeping := Without(s.sleeping, t))
  }

  /** ... then the waker's own run queue. */
  ghost predicate WakePut(s: Sched, s': Sched, a: nat, c: nat) {
    && a in s.wakes && c < |s.rq| && s.wakes[a] in s.tasks
    && s' == Enqueued(s, c, s.wakes[a]).(wakes := s.wakes - {a})
  }

  /** A new task, its context forged, on its way to a queue. */
  ghost predicate Create(s: Sched, s': Sched, a: nat, t: nat, pid: nat) {
    && a !in s.wakes && t !in s.tasks
    && s' == SetTask(s, t, Task(Ready, None, pid, true)).(wakes := s.wakes[a := t])
  }

  ghost predicate CoreStep(s: Sched, s': Sched, c: nat) {
    || Release(s, s', c, true) || Release(s, s', c, false) || Cleanup(s, s', c)
    || Drain(s, s', c) || DrainPut(s, s', c) || DrainDone(s, s', c) || Look(s, s', c) || RequeuePut(s, s', c)
    || (exists i :: Dequeue(s, s', c, i)) || DequeueNone(s, s', c) || Mark(s, s', c) || Promote(s, s', c)
    || SetCurrent(s, s', c) || Switch(s, s', c)
  }

  ghost predicate TaskStep(s: Sched, s': Sched, c: nat) {
    (exists from, to :: SelfCas(s, s', c, from, to)) || DropPid(s, s', c) || (exists i :: SleepAdd(s, s', c, i))
  }

  ghost predicate WakerStep(s: Sched, s': Sched, a: nat) {
    || (exists t, from :: WakeCas(s, s', a, t, from)) || (exists c :: WakePut(s, s', a, c))
    || (exists t, pid :: Create(s, s', a, t, pid)) || SleepDel(s, s', a)
  }

  ghost predicate Next(s: Sched, s': Sched) {
    (exists c :: CoreStep(s, s', c)) || (exists c :: TaskStep(s, s', c)) || (exists a :: WakerStep(s, s', a))
  }

  ghost predicate IsRun(trace: seq<Sched>) {
    |trace| > 0 && Init(trace[0]) && forall i | 0 <= i < |trace| - 1 :: Next(trace[i], trace[i + 1])
  }
}
