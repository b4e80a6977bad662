/** The wait queue as the kernel keeps it (kernel/sched/wait.c): a singly linked list of entries on the waiters' stacks. */
module WaitQueue {
  import opened Common

  datatype State = Running | Ready | Blocked | Dead

  class Task {
    var state: State
    constructor (s: State)
      ensures state == s
    { state := s; }
  }

  class Entry {
    const task: Task
    var next: Entry?
    var queue: Queue?
    var woken: bool

    constructor (t: Task)
      ensures task == t && next == null && queue == null && !woken
    { task, next, queue, woken := t, null, null, false; }
  }

  /** A compare-and-swap on a task's state. */
  function Cas(s: State, from: State, to: State): State { if s == from then to else s }

  class Queue {
    var head: Entry?
    var tail: Entry?
    ghost var list: seq<Entry>

    /** `list` is what following `next` from `head` finds; each entry once, marked as being here. */
    ghost predicate Valid()
      reads this, list
    {
      && Distinct(list)
      && (forall i | 0 <= i < |list| :: list[i].queue == this)
      && (forall i, j | 0 <= i < j < |list| && j == i + 1 :: list[i].next == list[j])
      && (list == [] ==> head == null && tail == null)
      && (list != [] ==> head == list[0] && tail == list[|list| - 1] && tail.next == null)
    }

    constructor ()
      ensures Valid() && list == []
    { head, tail, list := null, null, []; }

    /** Links an entry that is on no queue, at the tail, and blocks its task if it was still RUNNING. */
    method Prepare(e: Entry)
      requires Valid() && (e.queue == this <==> e in list) && (e.queue == null || e.queue == this)
      requires e.task.state != Dead
      modifies this, list, e, e.task
      ensures Valid() && e.queue == this
      ensures list == if e in old(list) then old(list) else old(list) + [e]
      ensures e.woken == (e in old(list) && old(e.woken))
      ensures forall x | x in old(list) && x != e :: x.woken == old(x.woken)
      ensures e.task.state == (if old(e.task.state) == Running then Blocked else old(e.task.state))
    {
      if e.queue == null {
        e.queue := this;
        e.next := null;
        e.woken := false;
        if tail != null {
          tail.next := e;
          tail := e;
        } else {
          head, tail := e, e;
        }
        list := list + [e];
      }
      e.task.state := Cas(e.task.state, Running, Blocked);
    }

    /** The entry before `e`, by scanning from the head. */
    method Before(e: Entry) returns (prev: Entry?, ghost i: nat)
      requires Valid() && e in list
      ensures i < |list| && list[i] == e && prev == if i == 0 then null else list[i - 1]
    {
      prev, i := null, 0;
      var scan := head;
      while scan != e
        invariant i < |list| && scan == list[i] && e !in list[..i]
        invariant prev == if i == 0 then null else list[i - 1]
        decreases |list| - i
      {
        assert i + 1 < |list| && scan.next == list[i + 1];
        prev, scan, i := scan, scan.next, i + 1;
      }
    }

    method Unlink(e: Entry, prev: Entry?, ghost i: nat)
      requires Valid() && i < |list| && list[i] == e && prev == if i == 0 then null else list[i - 1]
      modifies this, list
      ensures Valid() && e.queue == null && list == old(list)[..i] + old(list)[i + 1..]
      ensures forall x | x in old(list) :: x.woken == old(x.woken)
    {
      assert e.next == if i + 1 < |list| then list[i + 1] else null;
      if prev != null { prev.next := e.next; } else { head := e.next; }
      if tail == e { tail := prev; }
      e.queue := null;
      e.next := null;
      list := list[..i] + list[i + 1..];
    }

    /** Unlinks the entry if a waker has not, wherever in the queue it is, and un-blocks the running task. */
    method Finish(e: Entry)
      requires Valid() && (e.queue == this <==> e in list) && (e.queue == null || e.queue == this)
      modifies this, list, e, e.task
      ensures Valid() && e.queue == null && e.woken == old(e.woken)
      ensures e !in old(list) ==> list == old(list)
      ensures forall i | 0 <= i < |old(list)| && old(list)[i] == e :: list == old(list)[..i] + old(list)[i + 1..]
      ensures forall x | x in old(list) && x != e :: x.woken == old(x.woken)
      ensures e.task.state == (if old(e.task.state) == Blocked then Running else old(e.task.state))
    {
      if e.queue == this {
        var prev;
        ghost var i;
        prev, i := Before(e);
        Unlink(e, prev, i);
      }
      e.task.state := Cas(e.task.state, Blocked, Running);
    }

    /** What a waker does to each entry it takes. */
    static method Detach(e: Entry)
      modifies e, e.task
      ensures e.next == null && e.queue == null && e.woken
      ensures e.task.state == (if old(e.task.state) == Blocked then Ready else old(e.task.state))
    {
      e.next := null;
      e.queue := null;
      e.woken := true;
      e.task.state := Cas(e.task.state, Blocked, Ready);
    }

    /** Takes the first entry off, marks it woken and un-blocks its task. */
    method WakeOne() returns (woke: bool)
      requires Valid()
      modifies this, list, set e | e in list :: e.task
      ensures Valid() && woke == (old(list) != [])
      ensures !woke ==> list == []
      ensures woke ==>
                && list == old(list)[1..]
                && old(list)[0].queue == null && old(list)[0].woken
                && old(list)[0].task.state == (if old(list[0].task.state) == Blocked then Ready else old(list[0].task.state))
      ensures forall x | x in list :: x.woken == old(x.woken)
      ensures forall x | x in list && x.task != old(list)[0].task :: x.task.state == old(x.task.state)
    {
      if head == null { return false; }
      var e := head;
      head := e.next;
      if tail == e { tail := null; }
      list := list[1..];
      Detach(e);
      return true;
    }

    /** `batch` is what following `next` from `first` finds. */
    ghost static predicate Chain(first: Entry?, batch: seq<Entry>)
      reads batch
    {
      && Distinct(batch)
      && (forall i, j | 0 <= i < j < |batch| && j == i + 1 :: batch[i].next == batch[j])
      && (batch == [] ==> first == null)
      && (batch != [] ==> first == batch[0] && batch[|batch| - 1].next == null)
    }

    static method DetachAll(first: Entry?, ghost batch: seq<Entry>)
      requires Chain(first, batch)
      modifies batch, set e | e in batch :: e.task
      ensures forall e | e in batch ::
                e.queue == null && e.next == null && e.woken && e.task.state == (if old(e.task.state) == Blocked then Ready else old(e.task.state))
    {
      var curr := first;
      ghost var i := 0;
      while curr != null
        invariant 0 <= i <= |batch| && curr == if i < |batch| then batch[i] else null
        invariant forall k, n | i <= k < n < |batch| && n == k + 1 :: batch[k].next == batch[n]
        invariant i < |batch| ==> batch[|batch| - 1].next == null
        invariant forall k | 0 <= k < i :: batch[k].queue == null && batch[k].next == null && batch[k].woken
        invariant forall k | 0 <= k < i :: batch[k].task.state == (if old(batch[k].task.state) == Blocked then Ready else old(batch[k].task.state))
        invariant forall k | i <= k < |batch| ::
                    batch[k].task.state == old(batch[k].task.state) || batch[k].task.state == (if old(batch[k].task.state) == Blocked then Ready else old(batch[k].task.state))
        decreases |batch| - i
      {
        assert curr in batch && curr.task in (set e | e in batch :: e.task);
        assert forall k | 0 <= k < |batch| && k != i :: batch[k] != curr;
        var next := curr.next;
        Detach(curr);
        curr := next;
        i := i + 1;
      }
    }

    /** Empties the queue; every task that was on it is no longer BLOCKED. */
    method WakeAll()
      requires Valid()
      modifies this, list, set e | e in list :: e.task
      ensures Valid() && list == []
      ensures forall e | e in old(list) ::
                e.queue == null && e.next == null && e.woken && e.task.state == (if old(e.task.state) == Blocked then Ready else old(e.task.state))
    {
      ghost var batch := list;
      var first := head;
      head, tail, list := null, null, [];
      DetachAll(first, batch);
    }
  }
}
