/** Anonymous pipes (kernel/fs/pipe.c): what happens between taking the pipe lock and giving it up, as functions of the
    pipe's value, and the ring buffer that carries the bytes. */
module Pipe {
  import opened Common

  type Byte = bv8

  /** `data` are the buffered bytes, oldest first; the queues hold every task linked on them. */
  datatype Pipe = Pipe(data: seq<Byte>, readers: nat, writers: nat, readQ: seq<nat>, writeQ: seq<nat>)

  datatype ReadEnd = Got(bytes: seq<Byte>) | ReadAgain | ReadRestart | ReadWaits

  /** `Wrote` counts this section's bytes; `Broken` is the SIGPIPE exit, `WriteWaits` keeps what is still to be written. */
  datatype WriteEnd = Wrote(n: nat) | WriteAgain | Broken | Interrupted(n: nat) | WriteWaits(n: nat)

  function Min(a: nat, b: nat): (r: nat)
    ensures r <= a && r <= b && (r == a || r == b)
  { if a <= b then a else b }

  function Link(q: seq<nat>, t: nat): (r: seq<nat>)
    ensures t in r
  { if t in q then q else q + [t] }

  /** `wq_wake_one` by a waiter that gives up although it had been woken. */
  function HandOn(q: seq<nat>, woken: bool): (r: seq<nat>)
    ensures forall x | x in r :: x in q
  { if woken && q != [] then q[1..] else q }

  /** One section of `pipe_read` by task `t`, from its call or from its return out of `sched_schedule` (then `nonblock` is
      false and `t` may still be linked). A read waits only before it has taken anything; `woken` is the mark on its entry. */
  function ReadSection(p: Pipe, t: nat, want: nat, nonblock: bool, signal: bool, woken: bool): (Pipe, ReadEnd) {
    var off := p.(readQ := Without(p.readQ, t));
    if want == 0 || p.data != [] || p.writers == 0 then
      var k := Min(want, |p.data|);
      (off.(data := p.data[k..], writeQ := []), Got(p.data[..k]))
    else if nonblock then (p, ReadAgain)
    else if signal then (off.(readQ := HandOn(off.readQ, woken)), ReadRestart)
    else (p.(readQ := Link(p.readQ, t)), ReadWaits)
  }

  /** `pipe_write` from the top of its loop; `before` counts the bytes of earlier sections. */
  function WriteTop(size: nat, p: Pipe, t: nat, bytes: seq<Byte>, before: nat, nonblock: bool, signal: bool, woken: bool): (Pipe, WriteEnd)
    requires |p.data| <= size
  {
    var off := p.(writeQ := Without(p.writeQ, t));
    var k := Min(|bytes|, size - |p.data|);
    var put := off.(data := p.data + bytes[..k], readQ := []);
    if bytes == [] then (off.(readQ := []), Wrote(0))
    else if p.readers == 0 then (off, Broken)
    else if k == |bytes| then (put, Wrote(k))
    else if nonblock then if before + k == 0 then (off, WriteAgain) else (put, Wrote(k))
    else if signal then (put.(writeQ := HandOn(put.writeQ, woken)), Interrupted(k))
    else (put.(writeQ := Link(p.writeQ, t)), WriteWaits(k))
  }

  /** One section of `pipe_write`; `waiting` says it comes out of `sched_schedule`, where a still full pipe with a reader
      sends it back to sleep without another wake. */
  function WriteSection(size: nat, p: Pipe, t: nat, bytes: seq<Byte>, before: nat, waiting: bool, nonblock: bool, signal: bool,
                        woken: bool)
    : (Pipe, WriteEnd)
    requires |p.data| <= size
  {
    if waiting && |p.data| == size && p.readers > 0 then
      if signal then (p.(writeQ := HandOn(Without(p.writeQ, t), woken)), Interrupted(0)) else (p.(writeQ := Link(p.writeQ, t)), WriteWaits(0))
    else WriteTop(size, p, t, bytes, before, nonblock, signal, woken)
  }

  /** `pipe_close` of one end, and whether it panics. */
  function Close(p: Pipe, write: bool): (Pipe, bool)
    requires if write then p.writers > 0 else p.readers > 0
  {
    var q := if write then p.(writers := p.writers - 1) else p.(readers := p.readers - 1);
    (q.(readQ := [], writeQ := []), q.readers == 0 && q.writers == 0 && (p.readQ != [] || p.writeQ != []))
  }

  /** Each outcome of a read section, by the pipe's value: a read returns as soon as there is something to return or nobody
      left to wait for, and returns the oldest bytes, as many as wanted or there. */
  lemma ReadOutcome(p: Pipe, t: nat, want: nat, nonblock: bool, signal: bool, woken: bool)
    ensures var (q, r) := ReadSection(p, t, want, nonblock, signal, woken);
            && (r.Got? <==> want == 0 || p.data != [] || p.writers == 0)
            && (r.Got? ==> r.bytes + q.data == p.data && (|r.bytes| == want || (|r.bytes| < want && q.data == [])) && q.writeQ == [] && t !in q.readQ)
            && (!r.Got? ==> q.data == p.data && q.writeQ == p.writeQ)
            && (r == ReadAgain <==> !r.Got? && nonblock) && (r == ReadRestart <==> !r.Got? && !nonblock && signal)
            && (r == ReadWaits ==> q.readQ == if t in p.readQ then p.readQ else p.readQ + [t])
            && (r == ReadRestart ==> var others := Without(p.readQ, t); q.readQ == if woken && others != [] then others[1..] else others)
            && q.readers == p.readers && q.writers == p.writers
  {
    var k := Min(want, |p.data|);
    assert p.data == p.data[..k] + p.data[k..];
  }

  /** Each outcome of a write section: broken exactly when there is something to write and nobody to read it; otherwise as much
      goes in as fits, and what does not fit is refused, interrupted or waited for, with the pipe full. */
  lemma WriteOutcome(size: nat, p: Pipe, t: nat, bytes: seq<Byte>, before: nat, waiting: bool, nonblock: bool, signal: bool, woken: bool)
    requires |p.data| <= size && (waiting ==> bytes != [] && !nonblock)
    ensures var (q, r) := WriteSection(size, p, t, bytes, before, waiting, nonblock, signal, woken);
            && (r == Broken <==> bytes != [] && p.readers == 0) && (r == Broken || r == WriteAgain ==> q.data == p.data)
            && (r.Wrote? || r.Interrupted? || r.WriteWaits? ==> r.n <= |bytes| && q.data == p.data + bytes[..r.n] && (r.n == |bytes| || |q.data| == size))
            && (r.Wrote? ==> r.n == |bytes| || nonblock)
            && (r == WriteAgain <==> bytes != [] && p.readers > 0 && nonblock && |p.data| == size && before == 0)
            && (r.Interrupted? || r.WriteWaits? ==> r.n < |bytes| && q.readers > 0 && !nonblock && (r.Interrupted? <==> signal))
            && (r.WriteWaits? ==> q.writeQ == if t in p.writeQ then p.writeQ else p.writeQ + [t])
            && (r.Interrupted? ==> var others := Without(p.writeQ, t); q.writeQ == if woken && others != [] then others[1..] else others)
            && q.readers == p.readers && q.writers == p.writers && |q.data| <= size
  {
  }

  // ---------------------------------------------------------------- the pipe in memory

  class Buffer {
    const ring: array<Byte>
    var head: nat
    var tail: nat
    var count: nat
    var readers: nat
    var writers: nat
    var readQ: seq<nat>
    var writeQ: seq<nat>

    ghost var data: seq<Byte>

    /** `data` are the `count` bytes from `tail` on, around the end of the ring. */
    ghost predicate Valid()
      reads this, ring
    {
      && ring.Length > 0 && head < ring.Length && tail < ring.Length && count == |data| <= ring.Length
      && head == Wrap(tail + count)
      && forall i | 0 <= i < |data| :: data[i] == ring[Wrap(tail + i)]
    }

    function Wrap(i: nat): (r: nat)
      requires i < 2 * ring.Length
      ensures r < ring.Length && (r == i || r == i - ring.Length)
    { if i < ring.Length then i else i - ring.Length }

    ghost function View(): Pipe
      reads this
    { Pipe(data, readers, writers, readQ, writeQ) }

    constructor (size: nat)
      requires size > 0
      ensures Valid() && fresh(ring) && ring.Length == size && View() == Pipe([], 1, 1, [], [])
    {
      ring := new Byte[size](_ => 0);
      head, tail, count, readers, writers, readQ, writeQ, data := 0, 0, 0, 1, 1, [], [], [];
    }

    static lemma Step(i: nat, n: nat)
      requires i < n
      ensures (i + 1) % n == if i + 1 == n then 0 else i + 1
    {
    }

    method TakeByte() returns (b: Byte)
      requires Valid() && count > 0
      modifies this`tail, this`count, this`data
      ensures Valid() && b == old(data)[0] && data == old(data)[1..]
    {
      b := ring[tail];
      Step(tail, ring.Length);
      tail := (tail + 1) % ring.Length;
      count := count - 1;
      data := data[1..];
    }

    method PutByte(b: Byte)
      requires Valid() && count < ring.Length
      modifies this`head, this`count, this`data, ring
      ensures Valid() && data == old(data) + [b]
    {
      ring[head] := b;
      Step(head, ring.Length);
      head := (head + 1) % ring.Length;
      count := count + 1;
      data := data + [b];
    }

    /** The copying loop of `pipe_read`. */
    method CopyOut(want: nat) returns (out: seq<Byte>)
      requires Valid()
      modifies this`tail, this`count, this`data
      ensures Valid() && var k := Min(want, |old(data)|); out == old(data)[..k] && data == old(data)[k..]
    {
      out := [];
      while |out| < want && count > 0
        invariant Valid() && |out| <= want && |out| <= |old(data)|
        invariant out == old(data)[..|out|] && data == old(data)[|out|..]
        decreases count
      {
        var b := TakeByte();
        out := out + [b];
      }
    }

    /** The copying loop of `pipe_write`. */
    method CopyIn(bytes: seq<Byte>) returns (put: nat)
      requires Valid()
      modifies this`head, this`count, this`data, ring
      ensures Valid() && put == Min(|bytes|, ring.Length - |old(data)|)
      ensures data == old(data) + bytes[..put]
    {
      put := 0;
      while put < |bytes| && count < ring.Length
        invariant Valid() && put <= |bytes| && |old(data)| + put == count
        invariant data == old(data) + bytes[..put]
      {
        PutByte(bytes[put]);
        put := put + 1;
      }
    }

    method Read(t: nat, want: nat, nonblock: bool, signal: bool, woken: bool) returns (r: ReadEnd)
      requires Valid()
      modifies this
      ensures Valid() && (View(), r) == ReadSection(old(View()), t, want, nonblock, signal, woken)
    {
      hide HandOn, Link, Without;
      if want == 0 || count > 0 || writers == 0 {
        readQ := Without(readQ, t);
        var out := CopyOut(want);
        writeQ := [];
        return Got(out);
      }
      if nonblock { return ReadAgain; }
      if signal {
        readQ := HandOn(Without(readQ, t), woken);
        return ReadRestart;
      }
      readQ := Link(readQ, t);
      return ReadWaits;
    }

    method DoClose(write: bool) returns (panic: bool)
      requires Valid() && if write then writers > 0 else readers > 0
      modifies this
      ensures Valid() && (View(), panic) == Close(old(View()), write)
    {
      if write { writers := writers - 1; } else { readers := readers - 1; }
      panic := readers == 0 && writers == 0 && (readQ != [] || writeQ != []);
      readQ, writeQ := [], [];
    }

    /** The writing loop and what follows it, with something to write and somebody to read it. */
    method Fill(t: nat, bytes: seq<Byte>, before: nat, nonblock: bool, signal: bool, woken: bool) returns (r: WriteEnd)
      requires Valid() && bytes != [] && readers > 0
      modifies this, ring
      ensures Valid() && (View(), r) == WriteTop(ring.Length, old(View()), t, bytes, before, nonblock, signal, woken)
    {
      hide HandOn, Link, Without;
      var k := CopyIn(bytes);
      r := Settle(t, |bytes|, k, before, nonblock, signal, woken);
      assert k == 0 ==> data == old(data);
    }

    /** What a writer does with the queues once `k` of its `n` bytes are in. */
    method Settle(t: nat, n: nat, k: nat, before: nat, nonblock: bool, signal: bool, woken: bool) returns (r: WriteEnd)
      requires k <= n
      modifies this`readQ, this`writeQ
      ensures r == (if k == n then Wrote(k) else if nonblock then (if before + k == 0 then WriteAgain else Wrote(k))
                    else if signal then Interrupted(k) else WriteWaits(k))
      ensures readQ == if r.WriteAgain? then old(readQ) else []
      ensures writeQ == if r.WriteWaits? then Link(old(writeQ), t)
                        else if r.Interrupted? then HandOn(Without(old(writeQ), t), woken) else Without(old(writeQ), t)
    {
      var link := Link(writeQ, t);
      writeQ := Without(writeQ, t);
      if k < n && nonblock && before + k == 0 { return WriteAgain; }
      readQ := [];
      if k == n || nonblock { return Wrote(k); }
      if signal {
        writeQ := HandOn(writeQ, woken);
        return Interrupted(k);
      }
      writeQ := link;
      return WriteWaits(k);
    }

    method DoWriteTop(t: nat, bytes: seq<Byte>, before: nat, nonblock: bool, signal: bool, woken: bool) returns (r: WriteEnd)
      requires Valid()
      modifies this, ring
      ensures Valid() && (View(), r) == WriteTop(ring.Length, old(View()), t, bytes, before, nonblock, signal, woken)
    {
      hide HandOn, Link, Without;
      if bytes == [] {
        writeQ, readQ := Without(writeQ, t), [];
        return Wrote(0);
      }
      if readers == 0 {
        writeQ := Without(writeQ, t);
        return Broken;
      }
      r := Fill(t, bytes, before, nonblock, signal, woken);
    }

    method Write(t: nat, bytes: seq<Byte>, before: nat, waiting: bool, nonblock: bool, signal: bool, woken: bool) returns (r: WriteEnd)
      requires Valid()
      modifies this, ring
      ensures Valid() && (View(), r) == WriteSection(ring.Length, old(View()), t, bytes, before, waiting, nonblock, signal, woken)
    {
      if waiting && count == ring.Length && readers > 0 {
        writeQ := if signal then HandOn(Without(writeQ, t), woken) else Link(writeQ, t);
        return if signal then Interrupted(0) else WriteWaits(0);
      }
      r := DoWriteTop(t, bytes, before, nonblock, signal, woken);
    }
  }
}

/** Any number of readers, writers and closers over one pipe. */
module PipeMachine {
  import opened Common
  import opened Pipe

  /** What a task is doing with the pipe whenever the lock is free. */
  datatype Role = Away | Reading(want: nat) | Writing(rest: seq<Byte>, done: nat)

  /** History: every byte ever accepted from a writer, and every byte ever delivered to a reader. */
  datatype System = System(size: nat, p: Pipe, tasks: map<nat, Role>, accepted: seq<Byte>, delivered: seq<Byte>, panicked: bool)

  ghost predicate Init(s: System) {
    && s.size > 0 && s.p == Pipe([], 1, 1, [], []) && s.accepted == [] && s.delivered == [] && !s.panicked
    && forall t | t in s.tasks :: s.tasks[t] == Away
  }

  /** A read in progress keeps its end of the pipe open, and so does a write. */
  ghost predicate ReadEndOpen(s: System) { forall t | t in s.tasks && s.tasks[t].Reading? :: s.p.readers > 0 }
  ghost predicate WriteEndOpen(s: System) { forall t | t in s.tasks && s.tasks[t].Writing? :: s.p.writers > 0 }

  ghost predicate Read(s: System, s': System, t: nat, want: nat, nonblock: bool, signal: bool, woken: bool) {
    && t in s.tasks && s.p.readers > 0
    && (s.tasks[t] == Away || (s.tasks[t] == Reading(want) && !nonblock))
    && var (p, r) := ReadSection(s.p, t, want, nonblock, signal, woken);
       s' == s.(p := p, tasks := s.tasks[t := if r.ReadWaits? then Reading(want) else Away],
                delivered := s.delivered + if r.Got? then r.bytes else [])
  }

  function Taken(r: WriteEnd): nat { if r.Wrote? || r.Interrupted? || r.WriteWaits? then r.n else 0 }

  ghost predicate Write(s: System, s': System, t: nat, bytes: seq<Byte>, before: nat, nonblock: bool, signal: bool, woken: bool) {
    && t in s.tasks && s.p.writers > 0 && |s.p.data| <= s.size
    && ((s.tasks[t] == Away && before == 0) || (s.tasks[t] == Writing(bytes, before) && !nonblock))
    && var (p, r) := WriteSection(s.size, s.p, t, bytes, before, s.tasks[t].Writing?, nonblock, signal, woken);
       && Taken(r) <= |bytes|
       && s' == s.(p := p, tasks := s.tasks[t := if r.WriteWaits? then Writing(bytes[r.n..], before + r.n) else Away],
                   accepted := s.accepted + bytes[..Taken(r)])
  }

  /** An end closes only when no call through it is in progress. */
  ghost predicate CloseEnd(s: System, s': System, write: bool) {
    && (if write then s.p.writers > 0 else s.p.readers > 0)
    && (write && s.p.writers == 1 ==> forall t | t in s.tasks :: !s.tasks[t].Writing?)
    && (!write && s.p.readers == 1 ==> forall t | t in s.tasks :: !s.tasks[t].Reading?)
    && var (p, panic) := Close(s.p, write);
       s' == s.(p := p, panicked := s.panicked || panic)
  }

  ghost predicate Next(s: System, s': System) {
    || (exists t, want, nonblock, signal, woken :: Read(s, s', t, want, nonblock, signal, woken))
    || (exists t, bytes, before, nonblock, signal, woken :: Write(s, s', t, bytes, before, nonblock, signal, woken))
    || CloseEnd(s, s', true) || CloseEnd(s, s', false)
  }

  ghost predicate IsRun(trace: seq<System>) {
    |trace| > 0 && Init(trace[0]) && forall i | 0 <= i < |trace| - 1 :: Next(trace[i], trace[i + 1])
  }

  // ---------------------------------------------------------------- what every section keeps

  /** Bytes come out in the order they went in, none lost or invented. */
  ghost predicate Stream(s: System) { s.delivered + s.p.data == s.accepted && |s.p.data| <= s.size }

  /** Nobody sleeps on a condition that holds: a linked reader sees an empty pipe with a writer, a linked writer a full one
      with a reader. */
  ghost predicate Quiet(s: System) {
    && s.size > 0
    && (s.p.readQ != [] ==> s.p.data == [] && s.p.writers > 0)
    && (s.p.writeQ != [] ==> |s.p.data| == s.size && s.p.readers > 0)
  }

  ghost predicate Roles(s: System) {
    && (forall t | t in s.p.readQ :: t in s.tasks && s.tasks[t].Reading?)
    && (forall t | t in s.p.writeQ :: t in s.tasks && s.tasks[t].Writing?)
    && ReadEndOpen(s) && WriteEndOpen(s)
  }

  ghost predicate Inv(s: System) { Stream(s) && Quiet(s) && Roles(s) && !s.panicked }

  lemma ReadKeepsStream(s: System, s': System, t: nat, want: nat, nonblock: bool, signal: bool, woken: bool)
    requires Inv(s) && Read(s, s', t, want, nonblock, signal, woken)
    ensures Stream(s')
  {
    hide Quiet, Roles, ReadSection;
    ReadOutcome(s.p, t, want, nonblock, signal, woken);
    var (q, r) := ReadSection(s.p, t, want, nonblock, signal, woken);
    assert r.Got? ==> s.delivered + r.bytes + q.data == s.delivered + (r.bytes + q.data);
    assert s.delivered + [] == s.delivered;
  }

  lemma ReadKeepsRest(s: System, s': System, t: nat, want: nat, nonblock: bool, signal: bool, woken: bool)
    requires Inv(s) && Read(s, s', t, want, nonblock, signal, woken)
    ensures Quiet(s') && Roles(s')
  {
    hide Stream;
  }

  lemma ReadKeepsInv(s: System, s': System, t: nat, want: nat, nonblock: bool, signal: bool, woken: bool)
    requires Inv(s) && Read(s, s', t, want, nonblock, signal, woken)
    ensures Inv(s')
  {
    ReadKeepsStream(s, s', t, want, nonblock, signal, woken);
    ReadKeepsRest(s, s', t, want, nonblock, signal, woken);
    hide Stream, Quiet, Roles;
  }

  lemma WriteKeepsStream(s: System, s': System, t: nat, bytes: seq<Byte>, before: nat, nonblock: bool, signal: bool, woken: bool)
    requires Inv(s) && Write(s, s', t, bytes, before, nonblock, signal, woken)
    ensures Stream(s')
  {
    var (p, r) := WriteSection(s.size, s.p, t, bytes, before, s.tasks[t].Writing?, nonblock, signal, woken);
    assert p.data == s.p.data + bytes[..Taken(r)];
    assert s'.delivered + s'.p.data == s.accepted + bytes[..Taken(r)];
  }

  /** Nobody is linked on a condition that holds. */
  ghost predicate Idle(size: nat, p: Pipe) {
    (p.readQ != [] ==> p.data == [] && p.writers > 0) && (p.writeQ != [] ==> |p.data| == size && p.readers > 0)
  }

  /** What a write section does to the queues: only its own task is linked, and only if it waits. */
  lemma WriteQueues(size: nat, p: Pipe, t: nat, bytes: seq<Byte>, before: nat, waiting: bool, nonblock: bool, signal: bool, woken: bool)
    requires 0 < size && |p.data| <= size && Idle(size, p)
    ensures var (q, r) := WriteSection(size, p, t, bytes, before, waiting, nonblock, signal, woken);
            && q.readers == p.readers && q.writers == p.writers && Idle(size, q)
            && (forall x | x in q.readQ :: x in p.readQ) && (forall x | x in q.writeQ :: if x == t then r.WriteWaits? else x in p.writeQ)
  {
  }

  lemma WriteKeepsRest(s: System, s': System, t: nat, bytes: seq<Byte>, before: nat, nonblock: bool, signal: bool, woken: bool)
    requires Inv(s) && Write(s, s', t, bytes, before, nonblock, signal, woken)
    ensures Quiet(s') && Roles(s')
  {
    hide Stream, WriteSection, WriteTop, Without, HandOn, Link;
    WriteQueues(s.size, s.p, t, bytes, before, s.tasks[t].Writing?, nonblock, signal, woken);
    var (p, r) := WriteSection(s.size, s.p, t, bytes, before, s.tasks[t].Writing?, nonblock, signal, woken);
    assert s'.p == p && forall x | x in s.tasks && x != t :: s'.tasks[x] == s.tasks[x];
    assert s'.tasks[t].Writing? <==> r.WriteWaits?;
  }

  lemma CloseKeepsInv(s: System, s': System, write: bool)
    requires Inv(s) && CloseEnd(s, s', write)
    ensures Inv(s')
  {
    assert s.p.readQ != [] ==> s.p.readQ[0] in s.p.readQ;
    assert s.p.writeQ != [] ==> s.p.writeQ[0] in s.p.writeQ;
  }

  lemma {:induction false} RunKeepsInv(trace: seq<System>, i: nat)
    requires IsRun(trace) && i < |trace|
    ensures Inv(trace[i])
  {
    if i > 0 {
      RunKeepsInv(trace, i - 1);
      var (s, s') := (trace[i - 1], trace[i]);
      assert Next(s, s') by { assert Next(trace[i - 1], trace[i - 1 + 1]); }
      hide Inv;
      if t, want, nonblock, signal, woken :| Read(s, s', t, want, nonblock, signal, woken) {
        ReadKeepsInv(s, s', t, want, nonblock, signal, woken);
      } else if t, bytes, before, nonblock, signal, woken :| Write(s, s', t, bytes, before, nonblock, signal, woken) {
        WriteKeepsInv(s, s', t, bytes, before, nonblock, signal, woken);
      } else if CloseEnd(s, s', true) {
        CloseKeepsInv(s, s', true);
      } else {
        CloseKeepsInv(s, s', false);
      }
    }
  }

  lemma WriteKeepsInv(s: System, s': System, t: nat, bytes: seq<Byte>, before: nat, nonblock: bool, signal: bool, woken: bool)
    requires Inv(s) && Write(s, s', t, bytes, before, nonblock, signal, woken)
    ensures Inv(s')
  {
    WriteKeepsStream(s, s', t, bytes, before, nonblock, signal, woken);
    WriteKeepsRest(s, s', t, bytes, before, nonblock, signal, woken);
    hide Stream, Quiet, Roles;
  }

  /** A read that asks for bytes and gets none without waiting is the end of the stream: exactly when no writer is left and
      every byte ever accepted has been delivered. */
  lemma EndOfStream(trace: seq<System>, i: nat, t: nat, want: nat, nonblock: bool, signal: bool, woken: bool)
    requires IsRun(trace) && i < |trace| && want > 0
    ensures ReadSection(trace[i].p, t, want, nonblock, signal, woken).1 == Got([]) <==>
            trace[i].p.writers == 0 && trace[i].delivered == trace[i].accepted
  {
    hide IsRun;
    RunKeepsInv(trace, i);
    var s := trace[i];
    assert |s.accepted| == |s.delivered| + |s.p.data|;
    if s.p.data != [] { assert |s.p.data[..Min(want, |s.p.data|)]| > 0; }
  }

  /** Over every run: delivered then buffered is exactly what was accepted, a waiting reader or writer whose condition holds
      is linked no more, and the last close never finds a waiter. */
  lemma PipeIsSafe(trace: seq<System>, i: nat)
    requires IsRun(trace) && i < |trace|
    ensures trace[i].delivered + trace[i].p.data == trace[i].accepted && |trace[i].p.data| <= trace[i].size
    ensures trace[i].p.data != [] || trace[i].p.writers == 0 ==> trace[i].p.readQ == []
    ensures |trace[i].p.data| < trace[i].size || trace[i].p.readers == 0 ==> trace[i].p.writeQ == []
    ensures !trace[i].panicked
  {
    RunKeepsInv(trace, i);
  }
}
