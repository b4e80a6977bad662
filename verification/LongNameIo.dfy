/** The loops behind the long-name functions: copying a fragment, the checksum, writing a name, walking a directory. */
module LongNameIo {
  import opened Common
  import opened LongName

  /** `lfn_checksum`: the name's bytes, then the extension's. */
  method ChecksumOf(name: seq<nat>, ext: seq<nat>) returns (sum: nat)
    ensures sum == Checksum(name + ext)
  {
    sum := 0;
    var i := 0;
    while i < |name|
      invariant 0 <= i <= |name| && sum == Checksum(name[..i])
    {
      assert name[..i + 1][..i] == name[..i];
      sum := ((sum % 2) * 128 + sum / 2 + name[i]) % 256;
      i := i + 1;
    }
    i := 0;
    assert name[..|name|] == name && name + ext[..0] == name;
    while i < |ext|
      invariant 0 <= i <= |ext| && sum == Checksum(name + ext[..i])
    {
      assert (name + ext[..i + 1])[..|name| + i] == name + ext[..i];
      sum := ((sum % 2) * 128 + sum / 2 + ext[i]) % 256;
      i := i + 1;
    }
    assert ext[..|ext|] == ext;
  }

  /** One of the three runs of characters a fragment stores, never past the terminator. */
  method CopyRun(buf: array<nat>, pos: nat, chars: seq<nat>) returns (next: nat)
    requires buf.Length == BUF_SIZE && pos <= MAX_NAME
    modifies buf
    ensures buf[..] == Place(old(buf[..]), pos, chars)
    ensures next <= MAX_NAME && next == if pos + |chars| < MAX_NAME then pos + |chars| else MAX_NAME
  {
    var i := 0;
    next := pos;
    while i < |chars| && next < MAX_NAME
      invariant 0 <= i <= |chars| && next == pos + i <= MAX_NAME
      invariant forall p | 0 <= p < BUF_SIZE :: buf[p] == if pos <= p < next then chars[p - pos] % 256 else old(buf[p])
    {
      buf[next] := chars[i] % 256;
      next := next + 1;
      i := i + 1;
    }
  }

  /** `extract_lfn_part`: a sequence number out of range writes nothing. */
  method ExtractPart(buf: array<nat>, sequence: nat, name1: seq<nat>, name2: seq<nat>, name3: seq<nat>) returns (ok: bool)
    requires buf.Length == BUF_SIZE && |name1| == 5 && |name2| == 6 && |name3| == 2
    modifies buf
    ensures ok <==> 1 <= sequence % LAST_FLAG <= MAX_SEQ
    ensures buf[..] == if ok then Place(old(buf[..]), (sequence % LAST_FLAG - 1) * CHARS, name1 + name2 + name3) else old(buf[..])
  {
    var no := sequence % LAST_FLAG;
    if no < 1 || no > MAX_SEQ { return false; }
    var pos := (no - 1) * CHARS;
    if pos >= MAX_NAME { return false; }
    var next := CopyRun(buf, pos, name1);
    next := CopyRun(buf, next, name2);
    next := CopyRun(buf, next, name3);
    return true;
  }

  /** The writing loop of `fat32_write_dir_entries`. */
  method WriteEntries(name: seq<nat>, alias: seq<nat>, id: nat) returns (slots: seq<Slot>)
    requires 1 <= |name| <= MAX_NAME
    ensures slots == Written(name, alias, id)
  {
    var n := (|name| + 12) / CHARS;
    var sum := Checksum(alias);
    slots := [];
    var k := 0;
    while k < n
      invariant 0 <= k <= n && |slots| == k && forall j | 0 <= j < k :: slots[j] == Fragment(name, n - j, sum)
    {
      var f := MakeFragment(name, n - k, sum);
      slots := slots + [f];
      k := k + 1;
    }
    slots := slots + [Short(alias, id)];
  }

  /** Characters, then a terminator, then padding. */
  method MakeFragment(name: seq<nat>, no: nat, sum: nat) returns (f: Slot)
    requires 1 <= no <= Fragments(name) <= MAX_SEQ
    ensures f == Fragment(name, no, sum)
  {
    var chars: seq<nat> := [];
    var c := 0;
    while c < CHARS
      invariant 0 <= c <= CHARS && |chars| == c && forall i | 0 <= i < c :: chars[i] == CharAt(name, (no - 1) * CHARS + i)
    {
      var idx := (no - 1) * CHARS + c;
      chars := chars + [if idx < |name| then name[idx] else if idx == |name| then 0 else 0xFFFF];
      c := c + 1;
    }
    f := Frag(if no == Fragments(name) then no + LAST_FLAG else no, chars, sum);
    assert f.chars == Fragment(name, no, sum).chars;
  }

  // ---------------------------------------------------------------- the slot search

  /** `find_slots_cb` over a directory: fragments are not shown to it, an entry breaks the run, a marker is claimed unless it
      completes the run. */
  method FindSlots(slots: seq<Slot>, needed: nat) returns (r: Option<nat>, dirs: seq<Slot>)
    requires needed > 0
    ensures r.Some? ==> FirstRun(slots, r.value, needed) && dirs == Claimed(slots, r.value + needed - 1)
    ensures r.None? ==> NoRun(slots, needed) && dirs == Claimed(slots, |slots|)
  {
    var found: nat, last: nat, start: nat, k: nat := 0, 0, 0, 0;
    dirs := slots;
    assert dirs == Claimed(slots, 0);
    while k < |slots|
      invariant 0 <= k <= |slots| && 0 <= found < needed && dirs == Claimed(slots, k) && (found > 0 ==> last < k)
      invariant forall b: nat | b + needed <= k :: !RunAt(slots, b, needed)
      invariant found > 0 && last + 1 == k ==>
                  start == k - found && FreeRun(slots, start, k) && (start > 0 ==> !IsFree(slots[start - 1]))
      invariant !(found > 0 && last + 1 == k) && k > 0 ==> !IsFree(slots[k - 1])
    {
      if !IsFree(dirs[k]) {
        if dirs[k].Short? { found := 0; }
      } else {
        if found > 0 && k != last + 1 { found := 0; }
        last := k;
        if found == 0 { start := k; }
        found := found + 1;
        NoneEarlier(slots, needed, k, start, found);
        if found == needed { return Some(start), dirs; }
        if dirs[k] == End { dirs := dirs[k := Deleted]; }
      }
      assert !IsFree(slots[k]) ==> forall b: nat | b + needed == k + 1 :: !RunAt(slots, b, needed);
      k := k + 1;
      assert dirs == Claimed(slots, k);
    }
    return None, dirs;
  }

  /** A run that ends at `k` and is longer than the one found would contain the slot before it. */
  lemma NoneEarlier(slots: seq<Slot>, needed: nat, k: nat, start: nat, found: nat)
    requires 0 < found <= needed && start + found == k + 1 <= |slots| && (start > 0 ==> !IsFree(slots[start - 1]))
    ensures forall b: nat | b < start && b + needed >= k + 1 :: !RunAt(slots, b, needed)
    ensures found < needed ==> forall b: nat | b + needed == k + 1 :: !RunAt(slots, b, needed)
  {
  }

  datatype CreateEnd = Created(at: nat) | NoRoom | NameTooLong

  /** `fat32_write_dir_entries` on a directory that need not grow: the name's slots go over the first run that holds them.
      `name` is the long name, if the name does not fit 8.3. */
  method Create(was: seq<Slot>, name: Option<seq<nat>>, alias: seq<nat>, id: nat) returns (r: CreateEnd, now: seq<Slot>)
    requires name.Some? ==> name.value != []
    ensures r.NameTooLong? <==> name.Some? && |name.value| > MAX_NAME
    ensures r.NameTooLong? ==> now == was
    ensures r.Created? ==>
              var w := NewSlots(name, alias, id);
              FirstRun(was, r.at, |w|) && r.at + |w| <= |was| && now == Put(was, r.at, w)
    ensures r.NoRoom? ==> NoRun(was, |NewSlots(name, alias, id)|) && now == Claimed(was, |was|)
  {
    if name.Some? && |name.value| > MAX_NAME { return NameTooLong, was; }
    var w := [Short(alias, id)];
    if name.Some? { w := WriteEntries(name.value, alias, id); }
    assert w == NewSlots(name, alias, id);
    var found, dirs := FindSlots(was, |w|);
    if found.None? { return NoRoom, dirs; }
    var at := found.value;
    assert RunAt(was, at, |w|);
    now := dirs;
    var i := 0;
    while i < |w|
      invariant 0 <= i <= |w| && |now| == |was|
      invariant forall k | 0 <= k < |now| :: now[k] == if at <= k < at + i then w[k - at] else dirs[k]
    {
      now := now[at + i := w[i]];
      i := i + 1;
    }
    assert now == Put(was, at, w);
    return Created(at), now;
  }

  // ---------------------------------------------------------------- the walk, cluster by cluster

  function Flat<T>(xs: seq<seq<T>>): seq<T> { if xs == [] then [] else xs[0] + Flat(xs[1..]) }

  lemma FlatHead<T>(xs: seq<seq<T>>)
    requires xs != []
    ensures Flat(xs) == xs[0] + Flat(xs[1..])
  {
  }

  lemma {:induction false} FlatJoins<T>(a: seq<seq<T>>, b: seq<seq<T>>)
    ensures Flat(a + b) == Flat(a) + Flat(b)
  {
    if a == [] {
      assert a + b == b;
    } else {
      assert (a + b)[1..] == a[1..] + b;
      FlatJoins(a[1..], b);
    }
  }

  ghost predicate NoEnd(sector: seq<Slot>) { forall i | 0 <= i < |sector| :: !sector[i].End? }

  ghost predicate Endless(cluster: seq<seq<Slot>>) { forall i | 0 <= i < |cluster| :: NoEnd(cluster[i]) }

  /** `fat32_dir_walk`: clusters of sectors of slots read as one run of slots, so a name may straddle any boundary. `dir` are the
      clusters in chain order, as many times as a cyclic chain repeats them; at most `max` are visited, and the walk fails
      exactly when there are more and none of those visited ends the directory. */
  method Walk(dir: seq<seq<seq<Slot>>>, max: nat) returns (views: seq<View>, failed: bool)
    ensures views == Scan(Flat(Flat(Visited(dir, max))), 0, Start())
    ensures failed <==> |dir| > max && forall c | 0 <= c < max :: Endless(dir[c])
  {
    hide Scan, Step, Shown, Start, Ok, Endless;
    OkStarts();
    var seen := Visited(dir, max);
    ghost var all := Flat(Flat(seen));
    var (st, ordinal, more) := (Start(), 0, true);
    views := [];
    var c := 0;
    while c < |seen|
      invariant 0 <= c <= |seen| && 0 <= ordinal <= |all| && Ok(st) && all[ordinal..] == Flat(Flat(seen[c..]))
      invariant views + Scan(all, ordinal, st) == Scan(all, 0, Start()) && forall k | 0 <= k < c :: Endless(dir[k])
    {
      assert seen[c..][1..] == seen[c + 1..];
      FlatHead(seen[c..]);
      FlatJoins(seen[c], Flat(seen[c + 1..]));
      views, st, ordinal, more := WalkCluster(seen[c], views, st, ordinal, all, Flat(Flat(seen[c + 1..])));
      if !more { return views, false; }
      c := c + 1;
    }
    ScanOver(all, ordinal, st);
    failed := |dir| > max;
  }

  function Visited<T>(dir: seq<T>, max: nat): seq<T> { if |dir| > max then dir[..max] else dir }

  method WalkCluster(cluster: seq<seq<Slot>>, views0: seq<View>, st0: Scanner, ordinal0: nat, ghost all: seq<Slot>, ghost behind: seq<Slot>)
    returns (views: seq<View>, st: Scanner, ordinal: nat, more: bool)
    requires ordinal0 <= |all| && Ok(st0) && all[ordinal0..] == Flat(cluster) + behind
    ensures more <==> Endless(cluster)
    ensures !more ==> views == views0 + Scan(all, ordinal0, st0)
    ensures more ==> ordinal <= |all| && Ok(st) && all[ordinal..] == behind && views + Scan(all, ordinal, st) == views0 + Scan(all, ordinal0, st0)
  {
    hide Scan, Step, Shown, Ok, NoEnd;
    views, st, ordinal, more := views0, st0, ordinal0, true;
    var s := 0;
    while s < |cluster|
      invariant 0 <= s <= |cluster| && 0 <= ordinal <= |all| && Ok(st) && all[ordinal..] == Flat(cluster[s..]) + behind
      invariant more && views + Scan(all, ordinal, st) == views0 + Scan(all, ordinal0, st0) && forall k | 0 <= k < s :: NoEnd(cluster[k])
    {
      assert cluster[s..][1..] == cluster[s + 1..];
      FlatHead(cluster[s..]);
      views, st, ordinal, more := WalkSector(cluster[s], views, st, ordinal, all, Flat(cluster[s + 1..]) + behind);
      if !more { return; }
      s := s + 1;
    }
  }

  lemma ScanOver(slots: seq<Slot>, k: nat, st: Scanner)
    requires k <= |slots| && Ok(st) && (slots[k..] == [] || slots[k].End?)
    ensures Scan(slots, k, st) == []
  {
  }

  lemma ScanHead(slots: seq<Slot>, k: nat, st: Scanner)
    requires k < |slots| && Ok(st) && !slots[k].End?
    ensures Scan(slots, k, st) == Shown(st, slots[k], k) + Scan(slots, k + 1, Step(st, slots[k], k))
    ensures Ok(Step(st, slots[k], k))
  {
  }

  /** The sixteen slots of a sector; the end marker stops the whole walk. */
  method WalkSector(sector: seq<Slot>, views0: seq<View>, st0: Scanner, ordinal0: nat, ghost all: seq<Slot>, ghost behind: seq<Slot>)
    returns (views: seq<View>, st: Scanner, ordinal: nat, more: bool)
    requires ordinal0 <= |all| && Ok(st0) && all[ordinal0..] == sector + behind
    ensures more <==> NoEnd(sector)
    ensures !more ==> views == views0 + Scan(all, ordinal0, st0)
    ensures more ==> ordinal <= |all| && Ok(st) && all[ordinal..] == behind && views + Scan(all, ordinal, st) == views0 + Scan(all, ordinal0, st0)
  {
    hide Scan, Shown, Step, Ok;
    views, st, ordinal := views0, st0, ordinal0;
    var i := 0;
    while i < |sector|
      invariant 0 <= i <= |sector| && ordinal == ordinal0 + i <= |all| && Ok(st) && all[ordinal..] == sector[i..] + behind
      invariant views + Scan(all, ordinal, st) == views0 + Scan(all, ordinal0, st0) && forall k | 0 <= k < i :: !sector[k].End?
    {
      assert all[ordinal] == all[ordinal..][0] == sector[i];
      if sector[i].End? {
        ScanOver(all, ordinal, st);
        return views, st, ordinal, false;
      }
      ScanHead(all, ordinal, st);
      views := views + Shown(st, sector[i], ordinal);
      st := Step(st, sector[i], ordinal);
      ordinal := ordinal + 1;
      i := i + 1;
      assert all[ordinal..] == all[ordinal - 1..][1..];
    }
    return views, st, ordinal, true;
  }
}
