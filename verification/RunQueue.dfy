/** The scheduler's linked lists (kernel/sched/sched.c): a run queue per core and the sleep queue, threaded through their tasks. */
module RunQueue {
  import opened Common

  datatype State = Running | Ready | Blocked | Stopped | Dead

  class Task {
    var state: State
    var rqNext: Task?
    var onCore: Option<nat>
    var pid: nat
    var sleepNext: Task?
    var wakeTime: int

    constructor (p: nat)
      ensures state == Ready && rqNext == null && sleepNext == null && onCore == None && pid == p
    { state, rqNext, sleepNext, onCore, pid, wakeTime := Ready, null, null, None, p, 0; }
  }

  function Removed<T>(q: seq<T>, i: nat): seq<T>
    requires i < |q|
  { q[..i] + q[i + 1..] }

  /** Taking one out leaves a list of distinct ones, without it. */
  lemma RemovedDistinct<T>(q: seq<T>, i: nat)
    requires Distinct(q) && i < |q|
    ensures Distinct(Removed(q, i)) && q[i] !in Removed(q, i) && forall x :: x in Removed(q, i) <==> x in q && x != q[i]
    ensures forall k | 0 <= k < |q| - 1 :: Removed(q, i)[k] == q[if k < i then k else k + 1]
  {
    var r := Removed(q, i);
    assert forall k | 0 <= k < |r| :: r[k] == q[if k < i then k else k + 1];
    forall x | x in q && x != q[i] ensures x in r {
      var k :| 0 <= k < |q| && q[k] == x;
      assert r[if k < i then k else k - 1] == x;
    }
  }

  class RunQueue {
    var head: Task?
    var tail: Task?
    ghost var list: seq<Task>

    /** Following `rqNext` from `head` finds each task of `list` once. */
    ghost predicate Valid()
      reads this, list
    {
      && Distinct(list)
      && (forall i, j | 0 <= i < j < |list| && j == i + 1 :: list[i].rqNext == list[j])
      && (list == [] ==> head == null && tail == null)
      && (list != [] ==> head == list[0] && tail == list[|list| - 1] && list[|list| - 1].rqNext == null)
    }

    constructor ()
      ensures Valid() && list == []
    { head, tail, list := null, null, []; }

    /** `rq_enqueue`: READY, and last. */
    method Enqueue(t: Task)
      requires Valid() && t !in list
      modifies this, list, t
      ensures Valid() && list == old(list) + [t] && t.state == Ready && t.onCore == old(t.onCore) && t.pid == old(t.pid)
      ensures forall x | x in old(list) :: x.state == old(x.state) && x.onCore == old(x.onCore) && x.pid == old(x.pid)
    {
      t.state := Ready;
      t.rqNext := null;
      if head == null {
        head, tail := t, t;
      } else {
        tail.rqNext := t;
        tail := t;
      }
      list := list + [t];
    }

    /** Off every core, and not a kernel task when stolen. */
    predicate Eligible(t: Task, allowPid0: bool)
      reads t
    { (allowPid0 || t.pid != 0) && t.onCore == None }

    /** The first eligible task and the one before it. */
    method Find(allowPid0: bool) returns (prev: Task?, curr: Task?, ghost i: nat)
      requires Valid()
      ensures i <= |list| && curr == (if i < |list| then list[i] else null) && prev == (if i == 0 then null else list[i - 1])
      ensures (forall k | 0 <= k < i :: !Eligible(list[k], allowPid0)) && (i < |list| ==> Eligible(list[i], allowPid0))
    {
      prev, curr, i := null, head, 0;
      while curr != null && !Eligible(curr, allowPid0)
        invariant i <= |list| && curr == (if i < |list| then list[i] else null) && prev == (if i == 0 then null else list[i - 1])
        invariant forall k | 0 <= k < i :: !Eligible(list[k], allowPid0)
        decreases |list| - i
      {
        assert i + 1 < |list| ==> list[i].rqNext == list[i + 1];
        prev, curr, i := curr, curr.rqNext, i + 1;
      }
    }

    /** `rq_dequeue`: the first eligible task, from wherever it stands; the others keep their order. */
    method Dequeue(allowPid0: bool) returns (t: Task?, ghost i: nat)
      requires Valid()
      modifies this, list
      ensures Valid() && i <= |old(list)|
      ensures forall k | 0 <= k < i :: old(list)[k].onCore.Some? || (!allowPid0 && old(list)[k].pid == 0)
      ensures i == |old(list)| ==> t == null && list == old(list)
      ensures i < |old(list)| ==> t == old(list)[i] && t.onCore.None? && (allowPid0 || t.pid != 0) && t.rqNext == null && list == Removed(old(list), i)
      ensures forall x | x in old(list) :: x.state == old(x.state) && x.onCore == old(x.onCore) && x.pid == old(x.pid)
    {
      var prev, curr;
      prev, curr, i := Find(allowPid0);
      if curr == null { return null, i; }
      RemovedDistinct(list, i);
      Unlink(prev, curr, i);
      return curr, i;
    }

    method Unlink(prev: Task?, curr: Task, ghost i: nat)
      requires Valid() && i < |list| && curr == list[i] && prev == (if i == 0 then null else list[i - 1])
      modifies this, list`rqNext
      ensures Valid() && list == Removed(old(list), i) && curr.rqNext == null
    {
      RemovedDistinct(list, i);
      assert curr.rqNext == if i + 1 < |list| then list[i + 1] else null;
      if prev != null { prev.rqNext := curr.rqNext; } else { head := curr.rqNext; }
      if curr == tail { tail := prev; }
      if head == null { tail := null; }
      curr.rqNext := null;
      list := Removed(list, i);
    }
  }

  // ---------------------------------------------------------------- the sleep queue

  class SleepQueue {
    var head: Task?
    ghost var list: seq<Task>

    /** Linked through `sleepNext`, each task once, soonest first. */
    ghost predicate Valid()
      reads this, list
    { Linked() && Sorted() }

    ghost predicate Linked()
      reads this, list
    {
      && Distinct(list)
      && (forall i, j | 0 <= i < j < |list| && j == i + 1 :: list[i].sleepNext == list[j])
      && head == (if list == [] then null else list[0])
      && (list != [] ==> list[|list| - 1].sleepNext == null)
    }

    ghost predicate Sorted()
      reads this, list
    { forall i, j | 0 <= i < j < |list| :: list[i].wakeTime <= list[j].wakeTime }

    constructor ()
      ensures Valid() && list == []
    { head, list := null, []; }

    /** Where a task stands, or the length of the list. */
    method Before(t: Task) returns (scan: Task?, ghost i: nat)
      requires Linked() && head != t
      ensures i <= |list| && (i == |list| <==> t !in list) && (i < |list| ==> i > 0 && list[i] == t && scan == list[i - 1])
      ensures t !in list ==> scan == null
    {
      scan := head;
      i := 0;
      while scan != null && scan.sleepNext != t
        invariant i <= |list| && scan == (if i < |list| then list[i] else null) && t !in list[..i] && (i < |list| ==> list[i] != t)
        decreases |list| - i
      {
        assert i + 1 < |list| ==> list[i].sleepNext == list[i + 1];
        assert list[..i + 1] == list[..i] + [list[i]];
        scan, i := scan.sleepNext, i + 1;
      }
      if scan != null {
        assert i + 1 < |list| && list[i + 1] == t;
        i := i + 1;
      } else {
        assert list[..|list|] == list;
      }
    }

    /** `sleep_unlink_locked`: a task not on the queue is left alone. */
    method Unlink(t: Task)
      requires Valid()
      modifies this, list`sleepNext, t`sleepNext
      ensures Valid() && t !in list && (t !in old(list) ==> list == old(list)) && forall x :: x in list <==> x in old(list) && x != t
      ensures forall i | 0 <= i < |old(list)| && old(list)[i] == t :: list == Removed(old(list), i) && t.sleepNext == null
    {
      ghost var was := list;
      if head == t {
        CutFirst(t);
        RemovedDistinct(was, 0);
        return;
      }
      var scan;
      ghost var i;
      scan, i := Before(t);
      if scan != null {
        CutAfter(scan, t, i);
        RemovedDistinct(was, i);
      }
    }

    method CutFirst(t: Task)
      requires Valid() && head == t
      modifies this, list`sleepNext
      ensures Valid() && old(list) != [] && old(list)[0] == t && list == Removed(old(list), 0) && t.sleepNext == null && t !in list
    {
      RemovedDistinct(list, 0);
      assert t.sleepNext == if 1 < |list| then list[1] else null;
      head := t.sleepNext;
      t.sleepNext := null;
      list := Removed(list, 0);
    }

    method CutAfter(scan: Task, t: Task, ghost i: nat)
      requires Valid() && 0 < i < |list| && list[i] == t && scan == list[i - 1]
      modifies this, list`sleepNext
      ensures Valid() && list == Removed(old(list), i) && t.sleepNext == null && t !in list
    {
      ghost var l := list;
      RemovedDistinct(l, i);
      Bypass(scan, t, i);
      forall a, b | 0 <= a < b < |list| ensures list[a].wakeTime <= list[b].wakeTime {
        assert list[a] == l[if a < i then a else a + 1] && list[b] == l[if b < i then b else b + 1];
      }
    }

    method Bypass(scan: Task, t: Task, ghost i: nat)
      requires Linked() && 0 < i < |list| && list[i] == t && scan == list[i - 1]
      modifies this, list`sleepNext
      ensures Linked() && list == Removed(old(list), i) && t.sleepNext == null
    {
      RemovedDistinct(list, i);
      assert t.sleepNext == if i + 1 < |list| then list[i + 1] else null;
      scan.sleepNext := t.sleepNext;
      t.sleepNext := null;
      list := Removed(list, i);
    }

    /** `sleep_enqueue`: a stale entry goes first, then it stands behind all due no later and before all due later. */
    method Enqueue(t: Task, wakeTime: int) returns (ghost others: seq<Task>, ghost i: nat)
      requires Valid()
      modifies this, list, t
      ensures Valid() && t.wakeTime == wakeTime && t !in others
      ensures t !in old(list) ==> others == old(list)
      ensures forall j | 0 <= j < |old(list)| && old(list)[j] == t :: others == Removed(old(list), j)
      ensures i <= |others| && list == others[..i] + [t] + others[i..]
      ensures forall x | x in old(list) && x != t :: x.wakeTime == old(x.wakeTime)
      ensures forall k | 0 <= k < |others| :: others[k].wakeTime <= wakeTime <==> k < i
    {
      Unlink(t);
      t.wakeTime := wakeTime;
      others := list;
      i := Place(t);
    }

    method Place(t: Task) returns (ghost i: nat)
      requires Valid() && t !in list
      modifies this`head, this`list, list`sleepNext, t`sleepNext
      ensures Valid() && i <= |old(list)| && list == old(list)[..i] + [t] + old(list)[i..]
      ensures forall k | 0 <= k < |old(list)| :: old(list)[k].wakeTime <= t.wakeTime <==> k < i
    {
      if head == null || t.wakeTime < head.wakeTime {
        i := 0;
        assert forall k | 0 < k < |list| :: list[0].wakeTime <= list[k].wakeTime;
        Insert(null, t, i);
        return;
      }
      var curr := head;
      i := 1;
      while curr.sleepNext != null && t.wakeTime >= curr.sleepNext.wakeTime
        invariant 0 < i <= |list| && curr == list[i - 1] && forall k | 0 <= k < i :: list[k].wakeTime <= t.wakeTime
        invariant unchanged(this) && unchanged(list) && unchanged(t)
        decreases |list| - i
      {
        assert i < |list| && list[i - 1].sleepNext == list[i];
        curr, i := curr.sleepNext, i + 1;
      }
      assert i < |list| ==> list[i - 1].sleepNext == list[i];
      assert forall k | i < k < |list| :: list[i].wakeTime <= list[k].wakeTime;
      Insert(curr, t, i);
    }

    /** One turn of `sleep_drain` under the lock: the soonest task leaves if it is due, READY if it was BLOCKED; otherwise
        nobody is due. */
    method TakeDue(now: int) returns (w: Task?, won: bool)
      requires Valid()
      modifies this, list`sleepNext, list`state
      ensures Valid()
      ensures w == null ==> !won && list == old(list) && (forall x | x in list :: x.wakeTime > now && x.state == old(x.state))
      ensures w != null ==>
                && old(list) != [] && w == old(list)[0] && w.wakeTime <= now && list == Removed(old(list), 0)
                && won == (old(w.state) == Blocked) && w.sleepNext == null && w.state == (if won then Ready else old(w.state))
      ensures forall x | x in old(list) && x != w :: x.state == old(x.state)
    {
      w, won := head, false;
      if w == null || now < w.wakeTime {
        w := null;
        assert forall x | x in list :: list[0].wakeTime <= x.wakeTime;
        return;
      }
      won := w.state == Blocked;
      CutFirst(w);
      if won { w.state := Ready; }
    }

    method Insert(prev: Task?, t: Task, ghost i: nat)
      requires Valid() && t !in list && i <= |list| && prev == (if i == 0 then null else list[i - 1])
      requires (forall k | 0 <= k < i :: list[k].wakeTime <= t.wakeTime) && (i < |list| ==> t.wakeTime <= list[i].wakeTime)
      modifies this`head, this`list, list`sleepNext, t`sleepNext
      ensures Valid() && list == old(list)[..i] + [t] + old(list)[i..]
      ensures forall x :: x in list <==> x == t || x in old(list)
    {
      ghost var l := list;
      InsertedDistinct(l, t, i);
      forall k | i <= k < |l| ensures t.wakeTime <= l[k].wakeTime { assert k > i ==> l[i].wakeTime <= l[k].wakeTime; }
      Link(prev, t, i);
      forall a, b | 0 <= a < b < |list| ensures list[a].wakeTime <= list[b].wakeTime {
        assert list[a] == (if a < i then l[a] else if a == i then t else l[a - 1]);
        assert list[b] == (if b < i then l[b] else if b == i then t else l[b - 1]);
      }
    }

    /** The stores of the insertion. */
    method Link(prev: Task?, t: Task, ghost i: nat)
      requires Linked() && t !in list && i <= |list| && prev == (if i == 0 then null else list[i - 1])
      modifies this`head, this`list, list`sleepNext, t`sleepNext
      ensures Linked() && list == old(list)[..i] + [t] + old(list)[i..]
    {
      InsertedDistinct(list, t, i);
      if prev == null {
        t.sleepNext := head;
        head := t;
      } else {
        assert i < |list| ==> prev.sleepNext == list[i];
        t.sleepNext := prev.sleepNext;
        prev.sleepNext := t;
      }
      list := list[..i] + [t] + list[i..];
    }
  }

  lemma InsertedDistinct<T>(q: seq<T>, t: T, i: nat)
    requires Distinct(q) && t !in q && i <= |q|
    ensures var r := q[..i] + [t] + q[i..];
            && Distinct(r) && (forall k | 0 <= k < |r| :: r[k] == if k < i then q[k] else if k == i then t else q[k - 1])
            && forall x :: x in r <==> x == t || x in q
  {
    var r := q[..i] + [t] + q[i..];
    assert forall k | 0 <= k < |r| :: r[k] == if k < i then q[k] else if k == i then t else q[k - 1];
    assert q == q[..i] + q[i..];
  }
}
