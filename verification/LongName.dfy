/** Long file names (kernel/fs/fat32.c): the fragments a name is written as, and the scan that reads it back.
    The format is that of the Microsoft FAT32 File System Specification v1.03, section "FAT Long Directory Entries". */
module LongName {
  import opened Common

  const CHARS := 13
  const MAX_SEQ := 20
  const MAX_NAME := 255
  const BUF_SIZE := 256
  const LAST_FLAG := 64

  /** A 32-byte slot: a long-name fragment, a short entry, a deleted slot, or the end of the directory. */
  datatype Slot = Frag(sequence: nat, chars: seq<nat>, sum: nat) | Short(alias: seq<nat>, id: nat) | Deleted | End

  /** The name being assembled. */
  datatype Run = Run(buf: seq<nat>, active: bool, next: int, sum: nat)

  /** The scan between two slots: the run, and the slots of its fragments. */
  datatype Scanner = Scanner(run: Run, lfns: seq<nat>)

  /** What a walk shows of a live entry: where it is, its long name if it has one, and that name's slots. */
  datatype View = View(ordinal: nat, id: nat, named: bool, name: seq<nat>, lfns: seq<nat>)

  // ---------------------------------------------------------------- reading

  function Zeros(): (b: seq<nat>)
    ensures |b| == BUF_SIZE && forall i | 0 <= i < BUF_SIZE :: b[i] == 0
  { seq(BUF_SIZE, _ => 0) }

  function Reset(r: Run): Run { Run(Zeros(), false, 0, r.sum) }

  /** The fragment's characters, cut to bytes, from `pos` on, never over the terminator. */
  function Place(buf: seq<nat>, pos: nat, chars: seq<nat>): (r: seq<nat>)
    requires |buf| == BUF_SIZE
    ensures |r| == BUF_SIZE
    ensures forall p | 0 <= p < BUF_SIZE :: r[p] == if pos <= p < pos + |chars| && p < MAX_NAME then chars[p - pos] % 256 else buf[p]
  { seq(BUF_SIZE, p requires 0 <= p < BUF_SIZE => if pos <= p < pos + |chars| && p < MAX_NAME then chars[p - pos] % 256 else buf[p]) }

  /** `lfn_add`, and whether the fragment extended the run. */
  function AddFragment(r: Run, f: Slot): (Run, bool)
    requires |r.buf| == BUF_SIZE && f.Frag?
  {
    var no := f.sequence % LAST_FLAG;
    var r1 := if Flagged(f) then Run(Zeros(), true, no, f.sum) else r;
    if !r1.active || no != r1.next || f.sum != r1.sum || no < 1 || no > MAX_SEQ || (no - 1) * CHARS >= MAX_NAME then (Reset(r1), false)
    else (Run(Place(r1.buf, (no - 1) * CHARS, f.chars), true, r1.next - 1, r1.sum), true)
  }

  /** The bit that marks the fragment stored first. */
  predicate Flagged(f: Slot)
    requires f.Frag?
  { f.sequence / LAST_FLAG % 2 == 1 }

  /** The rotating sum of the eleven bytes of a short name. */
  function Checksum(alias: seq<nat>): nat {
    if alias == [] then 0
    else
      var s := Checksum(alias[..|alias| - 1]);
      ((s % 2) * 128 + s / 2 + alias[|alias| - 1]) % 256
  }

  predicate IsBytes(a: seq<nat>) { forall i | 0 <= i < |a| :: a[i] < 256 }

  lemma SumIsByte(a: seq<nat>)
    ensures Checksum(a) < 256
  {
  }

  /** A byte can be told from what the rotation and the next byte make of it, and the next byte from the sum. */
  lemma RotationTells(s: nat, t: nat, x: nat, y: nat)
    requires s < 256 && t < 256 && x < 256 && y < 256
    requires ((s % 2) * 128 + s / 2 + x) % 256 == ((t % 2) * 128 + t / 2 + y) % 256
    ensures s == t <==> x == y
  {
    var (u, v) := ((s % 2) * 128 + s / 2, (t % 2) * 128 + t / 2);
    assert u < 256 && v < 256 && (u == v ==> s == t);
  }

  /** The sum depends on every byte: two short names that differ in one place have different sums. */
  lemma {:induction false} ChecksumTells(a: seq<nat>, b: seq<nat>, i: nat)
    requires |a| == |b| && IsBytes(a) && IsBytes(b) && i < |a| && a[i] != b[i]
    requires forall j | 0 <= j < |a| && j != i :: a[j] == b[j]
    ensures Checksum(a) != Checksum(b)
  {
    var n := |a| - 1;
    SumIsByte(a[..n]);
    SumIsByte(b[..n]);
    if Checksum(a) == Checksum(b) { RotationTells(Checksum(a[..n]), Checksum(b[..n]), a[n], b[n]); }
    if i < n { ChecksumTells(a[..n], b[..n], i); } else { assert a[..n] == b[..n]; }
  }

  lemma AddByte(a: seq<nat>, x: nat, was: nat, now: nat) returns (b: seq<nat>)
    requires Checksum(a) == was && now == ((was % 2) * 128 + was / 2 + x) % 256
    ensures b == a + [x] && Checksum(b) == now
  {
    b := a + [x];
    assert b[..|a|] == a;
  }

  /** The short name THEQUI~1.FOX has the sum 7. */
  lemma ChecksumOfQuickFox()
    ensures Checksum([0x54, 0x48, 0x45, 0x51, 0x55, 0x49, 0x7E, 0x31] + [0x46, 0x4F, 0x58]) == 7
  {
    var a: seq<nat> := [];
    EmptySum();
    hide Checksum;
    a := AddByte(a, 0x54, 0, 84);
    a := AddByte(a, 0x48, 84, 114);
    a := AddByte(a, 0x45, 114, 126);
    a := AddByte(a, 0x51, 126, 144);
    a := AddByte(a, 0x55, 144, 157);
    a := AddByte(a, 0x49, 157, 23);
    a := AddByte(a, 0x7E, 23, 9);
    a := AddByte(a, 0x31, 9, 181);
    a := AddByte(a, 0x46, 181, 32);
    a := AddByte(a, 0x4F, 32, 95);
    a := AddByte(a, 0x58, 95, 7);
    assert a == [0x54, 0x48, 0x45, 0x51, 0x55, 0x49, 0x7E, 0x31] + [0x46, 0x4F, 0x58];
  }

  lemma EmptySum()
    ensures Checksum([]) == 0
  {
  }

  /** The bytes before the first NUL. */
  function CString(buf: seq<nat>): seq<nat> {
    if buf == [] || buf[0] == 0 then [] else [buf[0]] + CString(buf[1..])
  }

  function Names(r: Run, alias: seq<nat>): bool { r.active && r.next == 0 && r.sum == Checksum(alias) }

  ghost predicate Ok(st: Scanner) { |st.run.buf| == BUF_SIZE && |st.lfns| <= MAX_SEQ }

  function Start(): Scanner { Scanner(Run(Zeros(), false, 0, 0), []) }

  /** One slot of the walk: a fragment is consumed, anything else ends the run. */
  function Step(st: Scanner, slot: Slot, ordinal: nat): (r: Scanner)
    requires Ok(st)
    ensures Ok(r)
  {
    if slot.Frag? then
      var kept := if Flagged(slot) then [] else st.lfns;
      var (run, ok) := AddFragment(st.run, slot);
      Scanner(run, if !ok then [] else if |kept| < MAX_SEQ then kept + [ordinal] else kept)
    else Scanner(Reset(st.run), [])
  }

  /** What the walk shows at a slot: a short entry, under its long name when the run names it. */
  function Shown(st: Scanner, slot: Slot, k: nat): seq<View> {
    if slot.Short? then
      var named := Names(st.run, slot.alias);
      [View(k, slot.id, named, if named then CString(st.run.buf) else [], if named then st.lfns else [])]
    else []
  }

  /** The live entries a walk over the slots from `k` on shows. */
  function Scan(slots: seq<Slot>, k: nat, st: Scanner): seq<View>
    requires k <= |slots| && Ok(st)
    decreases |slots| - k
  {
    if k == |slots| || slots[k].End? then [] else Shown(st, slots[k], k) + Scan(slots, k + 1, Step(st, slots[k], k))
  }

  // ---------------------------------------------------------------- writing

  /** What a long name may be: 1 to 255 non-NUL bytes. */
  predicate IsName(name: seq<nat>) { 1 <= |name| <= MAX_NAME && forall i | 0 <= i < |name| :: 0 < name[i] < 256 }

  function Fragments(name: seq<nat>): nat { (|name| + 12) / CHARS }

  function CharAt(name: seq<nat>, i: nat): nat {
    if i < |name| then name[i] else if i == |name| then 0 else 0xFFFF
  }

  /** Fragment number `no`, from 1: the characters from `(no - 1) * 13` on; the highest is flagged. */
  function Fragment(name: seq<nat>, no: nat, sum: nat): Slot
    requires 1 <= no <= Fragments(name) <= MAX_SEQ
  {
    Frag(if no == Fragments(name) then no + LAST_FLAG else no,
         seq<nat>(CHARS, c requires 0 <= c < CHARS => CharAt(name, (no - 1) * CHARS + c)), sum)
  }

  /** The slots of a name: its fragments, highest first, then the short entry. */
  function Written(name: seq<nat>, alias: seq<nat>, id: nat): (r: seq<Slot>)
    requires 1 <= |name| <= MAX_NAME
    ensures |r| == Fragments(name) + 1 && forall i | 0 <= i < |r| :: r[i].Frag? || r[i].Short?
  {
    seq(Fragments(name), j requires 0 <= j < Fragments(name) => Fragment(name, Fragments(name) - j, Checksum(alias))) + [Short(alias, id)]
  }

  // ---------------------------------------------------------------- the round trip

  /** The `n` slots from `at` on. */
  function Ordinals(at: nat, n: nat): (r: seq<nat>)
    ensures |r| == n && forall i | 0 <= i < n :: r[i] == at + i
  { seq(n, i => at + i) }

  /** The scanner after the first `j` fragments of a run that began at slot `at`. */
  ghost predicate Midway(name: seq<nat>, sum: nat, at: nat, j: nat, st: Scanner)
    requires j <= Fragments(name)
  {
    && Ok(st) && st.run.active && st.run.sum == sum && st.run.next == Fragments(name) - j
    && st.lfns == Ordinals(at, j)
    && forall p: nat | p < BUF_SIZE :: st.run.buf[p] ==
         if (Fragments(name) - j) * CHARS <= p < Fragments(name) * CHARS && p < MAX_NAME then CharAt(name, p) % 256 else 0
  }

  /** The first fragment starts the run over, whatever stood before it. */
  lemma FirstFragment(name: seq<nat>, sum: nat, at: nat, st: Scanner)
    requires 1 <= |name| <= MAX_NAME && Ok(st)
    ensures Midway(name, sum, at, 1, Step(st, Fragment(name, Fragments(name), sum), at))
  {
    var n := Fragments(name);
    var f := Fragment(name, n, sum);
    assert f.sequence == n + 64 && f.sequence % 64 == n && Flagged(f);
    assert [] + [at] == Ordinals(at, 1);
  }

  /** Fragment `no` extends a run that expects it. */
  lemma AddExpected(name: seq<nat>, sum: nat, no: nat, r: Run)
    requires 1 <= |name| <= MAX_NAME && 1 <= no < Fragments(name) && |r.buf| == BUF_SIZE && r.active && r.next == no && r.sum == sum
    ensures var f := Fragment(name, no, sum);
            !Flagged(f) && AddFragment(r, f) == (Run(Place(r.buf, (no - 1) * CHARS, f.chars), true, no - 1, sum), true)
  {
    assert Fragment(name, no, sum).sequence == no < LAST_FLAG;
  }

  lemma StepExpected(name: seq<nat>, sum: nat, no: nat, st: Scanner, k: nat)
    requires 1 <= |name| <= MAX_NAME && 1 <= no < Fragments(name) && Ok(st) && |st.lfns| < MAX_SEQ
    requires st.run.active && st.run.next == no && st.run.sum == sum
    ensures var f := Fragment(name, no, sum);
            Step(st, f, k) == Scanner(Run(Place(st.run.buf, (no - 1) * CHARS, f.chars), true, no - 1, sum), st.lfns + [k])
  {
    AddExpected(name, sum, no, st.run);
    hide AddFragment, Place, Flagged;
  }

  lemma FragmentsFit(name: seq<nat>)
    requires 1 <= |name| <= MAX_NAME
    ensures 1 <= Fragments(name) <= MAX_SEQ && (Fragments(name) - 1) * CHARS < |name| <= Fragments(name) * CHARS
  {
  }

  lemma MidwayMeans(name: seq<nat>, sum: nat, at: nat, j: nat, st: Scanner)
    requires j <= Fragments(name) && Midway(name, sum, at, j, st)
    ensures Ok(st) && st.run.active && st.run.sum == sum && st.run.next == Fragments(name) - j && st.lfns == Ordinals(at, j) && |st.run.buf| == BUF_SIZE
  {
  }

  lemma NextFragment(name: seq<nat>, sum: nat, at: nat, j: nat, st: Scanner)
    requires 1 <= |name| <= MAX_NAME && 1 <= j < Fragments(name) && Midway(name, sum, at, j, st)
    ensures Midway(name, sum, at, j + 1, Step(st, Fragment(name, Fragments(name) - j, sum), at + j))
  {
    hide Step, Fragment, Place, CharAt, Fragments, Ok, Ordinals;
    FragmentsFit(name);
    MidwayMeans(name, sum, at, j, st);
    var no := Fragments(name) - j;
    StepExpected(name, sum, no, st, at + j);
    PlaceExtends(name, sum, no, st.run.buf);
    OrdinalsGrow(at, j);
    StepIsOk(st, Fragment(name, no, sum), at + j);
  }

  lemma OrdinalsGrow(at: nat, j: nat)
    ensures Ordinals(at, j) + [at + j] == Ordinals(at, j + 1)
  {
  }

  lemma StepIsOk(st: Scanner, slot: Slot, k: nat)
    requires Ok(st)
    ensures Ok(Step(st, slot, k))
  {
  }

  /** The buffer after fragment `no`, given the ones behind it. */
  lemma PlaceExtends(name: seq<nat>, sum: nat, no: nat, buf: seq<nat>)
    requires 1 <= |name| <= MAX_NAME && 1 <= no < Fragments(name) && |buf| == BUF_SIZE
    requires forall p: nat | p < BUF_SIZE ::
               buf[p] == if no * CHARS <= p < Fragments(name) * CHARS && p < MAX_NAME then CharAt(name, p) % 256 else 0
    ensures var r := Place(buf, (no - 1) * CHARS, Fragment(name, no, sum).chars);
            forall p: nat | p < BUF_SIZE ::
              r[p] == if (no - 1) * CHARS <= p < Fragments(name) * CHARS && p < MAX_NAME then CharAt(name, p) % 256 else 0
  {
    var chars := Fragment(name, no, sum).chars;
    assert |chars| == CHARS && forall c | 0 <= c < CHARS :: chars[c] == CharAt(name, (no - 1) * CHARS + c);
    hide Fragment, CharAt, Place;
    assert (no - 1) * CHARS + CHARS == no * CHARS <= Fragments(name) * CHARS;
  }

  lemma {:induction false} CStringIs(buf: seq<nat>, name: seq<nat>)
    requires |name| < |buf| && buf[|name|] == 0 && forall i | 0 <= i < |name| :: buf[i] == name[i] != 0
    ensures CString(buf) == name
  {
    if name != [] { CStringIs(buf[1..], name[1..]); }
  }

  /** After the last fragment the buffer spells the name. */
  lemma CompleteRun(name: seq<nat>, sum: nat, at: nat, st: Scanner)
    requires IsName(name) && Midway(name, sum, at, Fragments(name), st)
    ensures CString(st.run.buf) == name && st.run.next == 0
  {
    var b := st.run.buf;
    assert forall i: nat | i < |name| :: b[i] == name[i];
    CStringIs(b, name);
  }

  /** The entry right after a complete run is shown under its long name, with the run's slots. */
  lemma ScanEntry(slots: seq<Slot>, at: nat, name: seq<nat>, alias: seq<nat>, id: nat, st: Scanner)
    requires IsName(name)
    requires at + Fragments(name) < |slots| && slots[at + Fragments(name)] == Short(alias, id)
    requires Midway(name, Checksum(alias), at, Fragments(name), st)
    ensures var n := Fragments(name);
            Scan(slots, at + n, st) == [ViewOf(at, name, id)] + Scan(slots, at + n + 1, Fresh(Checksum(alias)))
  {
    CompleteRun(name, Checksum(alias), at, st);
    assert Shown(st, Short(alias, id), at + Fragments(name)) == [ViewOf(at, name, id)];
    hide CString, Checksum, Place;
    assert Step(st, slots[at + Fragments(name)], at + Fragments(name)) == Fresh(Checksum(alias));
  }

  /** The name's slots stand at `at`. */
  ghost predicate StandsAt(slots: seq<Slot>, at: nat, name: seq<nat>, alias: seq<nat>, id: nat)
    requires 1 <= |name| <= MAX_NAME
  { at + Fragments(name) < |slots| && slots[at..at + Fragments(name) + 1] == Written(name, alias, id) }

  lemma SlotAt(slots: seq<Slot>, at: nat, name: seq<nat>, alias: seq<nat>, id: nat, j: nat)
    requires 1 <= |name| <= MAX_NAME && StandsAt(slots, at, name, alias, id) && j <= Fragments(name)
    ensures at + Fragments(name) < |slots| && Fragments(name) <= MAX_SEQ
    ensures slots[at + j] == if j == Fragments(name) then Short(alias, id) else Fragment(name, Fragments(name) - j, Checksum(alias))
    ensures j < Fragments(name) ==> slots[at + j].Frag?
  {
    assert slots[at + j] == slots[at..at + Fragments(name) + 1][j];
  }

  lemma NameFits(name: seq<nat>)
    requires IsName(name)
    ensures 1 <= |name| <= MAX_NAME && 1 <= Fragments(name) <= MAX_SEQ
  {
  }

  /** Scanning a written name, from fragment `j` on, in any scanner state its first fragments left. */
  lemma {:induction false} ScanWritten(slots: seq<Slot>, at: nat, name: seq<nat>, alias: seq<nat>, id: nat, j: nat, st: Scanner)
    requires IsName(name)
    requires StandsAt(slots, at, name, alias, id)
    requires j <= Fragments(name) && if j == 0 then Ok(st) else Midway(name, Checksum(alias), at, j, st)
    ensures var n := Fragments(name);
            Scan(slots, at + j, st) == [ViewOf(at, name, id)] + Scan(slots, at + n + 1, Fresh(Checksum(alias)))
    decreases Fragments(name) - j
  {
    hide *;
    var (n, sum) := (Fragments(name), Checksum(alias));
    NameFits(name);
    if j > 0 { MidwayMeans(name, sum, at, j, st); }
    SlotAt(slots, at, name, alias, id, j);
    if j == n {
      ScanEntry(slots, at, name, alias, id, st);
    } else {
      if j == 0 { FirstFragment(name, sum, at, st); } else { NextFragment(name, sum, at, j, st); }
      ScanFragment(slots, at + j, st);
      ScanWritten(slots, at, name, alias, id, j + 1, Step(st, slots[at + j], at + j));
    }
  }

  /** A fragment is consumed silently. */
  lemma ScanFragment(slots: seq<Slot>, k: nat, st: Scanner)
    requires k < |slots| && Ok(st) && slots[k].Frag?
    ensures Scan(slots, k, st) == Scan(slots, k + 1, Step(st, slots[k], k))
  {
  }

  /** The scanner after an entry: nothing pending. */
  function Fresh(sum: nat): Scanner { Scanner(Run(Zeros(), false, 0, sum), []) }

  /** The checksum left over from an ended run is never looked at. */
  lemma {:induction false} FreshSame(slots: seq<Slot>, k: nat, a: nat, b: nat)
    requires k <= |slots|
    ensures Scan(slots, k, Fresh(a)) == Scan(slots, k, Fresh(b))
    decreases |slots| - k
  {
    if k < |slots| && !slots[k].End? {
      var (x, y) := (Step(Fresh(a), slots[k], k), Step(Fresh(b), slots[k], k));
      if slots[k].Frag? && Flagged(slots[k]) {
        assert x == y;
      } else {
        assert x == Fresh(a) && y == Fresh(b);
        FreshSame(slots, k + 1, a, b);
      }
    }
  }

  /** The scanner that reaches slot `m`, if the walk gets that far. */
  function Reach(slots: seq<Slot>, k: nat, m: nat, st: Scanner): (r: Scanner)
    requires k <= m <= |slots| && Ok(st)
    ensures Ok(r)
    decreases m - k
  { if k == m then st else Reach(slots, k + 1, m, Step(st, slots[k], k)) }

  /** A walk is the walk of a part without an end marker, then the rest. */
  lemma {:induction false} ScanSplits(slots: seq<Slot>, k: nat, m: nat, st: Scanner)
    requires k <= m <= |slots| && Ok(st) && forall i | k <= i < m :: !slots[i].End?
    ensures Scan(slots, k, st) == Scan(slots[..m], k, st) + Scan(slots, m, Reach(slots, k, m, st))
    decreases m - k
  {
    hide Step, Shown, Ok;
    if k == m {
      assert Scan(slots[..m], k, st) == [];
    } else {
      var (front, st') := (slots[..m], Step(st, slots[k], k));
      assert front[k] == slots[k];
      assert Scan(front, k, st) == Shown(st, slots[k], k) + Scan(front, k + 1, st');
      assert Scan(slots, k, st) == Shown(st, slots[k], k) + Scan(slots, k + 1, st');
      hide Scan;
      ScanSplits(slots, k + 1, m, st');
    }
  }

  /** What a walk shows of the name standing at `at`. */
  function ViewOf(at: nat, name: seq<nat>, id: nat): View { View(at + Fragments(name), id, true, name, Ordinals(at, Fragments(name))) }

  /** Every name of 1 to 255 non-NUL bytes reads back exactly, with exactly its own slots, whatever fragments stand before it. */
  lemma RoundTrip(all: seq<Slot>, at: nat, name: seq<nat>, alias: seq<nat>, id: nat)
    requires IsName(name) && StandsAt(all, at, name, alias, id)
    requires at + Fragments(name) < |all| && forall i | 0 <= i < at :: !all[i].End?
    ensures Scan(all, 0, Start()) == Scan(all[..at], 0, Start()) + ([ViewOf(at, name, id)] + Scan(all, at + Fragments(name) + 1, Fresh(0)))
  {
    hide *;
    OkStarts();
    ScanSplits(all, 0, at, Start());
    ScanWritten(all, at, name, alias, id, 0, Reach(all, 0, at, Start()));
    FreshSame(all, at + Fragments(name) + 1, Checksum(alias), 0);
  }

  /** Deleted slots show nothing and leave nothing pending. */
  lemma {:induction false} ScanDeleted(slots: seq<Slot>, k: nat, m: nat, st: Scanner)
    requires k < m <= |slots| && Ok(st) && forall i | k <= i < m :: slots[i] == Deleted
    ensures Scan(slots, k, st) == Scan(slots, m, Fresh(0))
    decreases m - k
  {
    assert Step(st, slots[k], k) == Fresh(st.run.sum);
    if k + 1 < m { ScanDeleted(slots, k + 1, m, Step(st, slots[k], k)); } else { FreshSame(slots, m, st.run.sum, 0); }
  }

  lemma OkStarts()
    ensures Ok(Start()) && Ok(Fresh(0))
  {
  }

  /** A walk from `k` on meets an entry before the end of the directory. */
  ghost predicate Shows(slots: seq<Slot>, k: nat) {
    exists i :: k <= i < |slots| && slots[i].Short? && forall j | k <= j < i :: !slots[j].End?
  }

  lemma {:induction false} ScanShows(slots: seq<Slot>, k: nat, st: Scanner)
    requires k <= |slots| && Ok(st)
    ensures Scan(slots, k, st) != [] <==> Shows(slots, k)
    decreases |slots| - k
  {
    if k < |slots| && !slots[k].End? && !slots[k].Short? { ScanShows(slots, k + 1, Step(st, slots[k], k)); }
  }

  // ---------------------------------------------------------------- where a name is put

  /** Free to be written: deleted, or the end of the directory. */
  predicate IsFree(s: Slot) { s == Deleted || s == End }

  ghost predicate FreeRun(slots: seq<Slot>, at: nat, m: nat) { at < m <= |slots| && forall i | at <= i < m :: IsFree(slots[i]) }

  /** The first `n` free slots in a row. */
  ghost predicate FirstRun(slots: seq<Slot>, at: nat, n: nat) {
    RunAt(slots, at, n) && forall b: nat | b < at :: !RunAt(slots, b, n)
  }

  ghost predicate RunAt(slots: seq<Slot>, at: nat, n: nat) { FreeRun(slots, at, at + n) }

  ghost predicate NoRun(slots: seq<Slot>, n: nat) { forall b: nat :: !RunAt(slots, b, n) }

  function Unmarked(s: Slot): Slot { if s == End then Deleted else s }

  /** The search turns every end marker it passes into a deleted slot. */
  function Claimed(slots: seq<Slot>, m: nat): (r: seq<Slot>)
    requires m <= |slots|
    ensures |r| == |slots| && forall i | 0 <= i < |r| :: r[i] == if i < m then Unmarked(slots[i]) else slots[i]
  { seq(|slots|, i requires 0 <= i < |slots| => if i < m then Unmarked(slots[i]) else slots[i]) }

  /** The slots `w` over a run at `at`, every marker before it claimed. */
  function Put(was: seq<Slot>, at: nat, w: seq<Slot>): (now: seq<Slot>)
    requires at + |w| <= |was|
    ensures |now| == |was| && now[at + |w|..] == was[at + |w|..]
    ensures forall i | 0 <= i < |now| ::
              now[i] == if i < at then Unmarked(was[i]) else if i < at + |w| then w[i - at] else was[i]
  { Claimed(was, at)[..at] + w + was[at + |w|..] }

  ghost predicate FirstEnd(slots: seq<Slot>, e: nat) { e < |slots| && slots[e] == End && forall i | 0 <= i < e :: slots[i] != End }

  /** The slot behind a name that stands at `at`. */
  function After(at: nat, name: seq<nat>): nat { at + Fragments(name) + 1 }

  /** A directory shows what stands before its end marker. */
  lemma ScanEnds(slots: seq<Slot>, e: nat)
    requires FirstEnd(slots, e)
    ensures Ok(Start()) && Scan(slots, 0, Start()) == Scan(slots[..e], 0, Start())
  {
    ScanSplits(slots, 0, e, Start());
    ScanShows(slots, e, Reach(slots, 0, e, Start()));
  }

  /** The same cut anywhere before the marker from which there are only deleted slots. */
  lemma ScanEndsEarly(slots: seq<Slot>, at: nat, m: nat, e: nat)
    requires FirstEnd(slots, e) && FreeRun(slots, at, m) && at <= e < m
    ensures Ok(Start()) && Scan(slots, 0, Start()) == Scan(slots[..at], 0, Start())
  {
    ScanSplits(slots, 0, at, Start());
    ScanShows(slots, at, Reach(slots, 0, at, Start()));
  }

  /** Without a marker up to `m` the walk goes on behind the run. */
  lemma ScanPasses(was: seq<Slot>, at: nat, m: nat)
    requires FreeRun(was, at, m) && forall i | 0 <= i < m :: was[i] != End
    ensures Ok(Start()) && Ok(Fresh(0)) && Scan(was, 0, Start()) == Scan(was[..at], 0, Start()) + Scan(was, m, Fresh(0))
  {
    ScanSplits(was, 0, at, Start());
    ScanDeleted(was, at, m, Reach(was, 0, at, Start()));
  }

  /** What a part without end markers shows, cut at `d`: nothing more if and only if no entry stands from `d` on. */
  lemma ScanCut(slots: seq<Slot>, d: nat) returns (more: seq<View>)
    requires d <= |slots| && forall i | 0 <= i < |slots| :: slots[i] != End
    ensures Ok(Start()) && Scan(slots, 0, Start()) == Scan(slots[..d], 0, Start()) + more
    ensures more == [] <==> forall i | d <= i < |slots| :: !slots[i].Short?
  {
    ScanSplits(slots, 0, d, Start());
    ScanShows(slots, d, Reach(slots, 0, d, Start()));
    more := Scan(slots, d, Reach(slots, 0, d, Start()));
  }

  lemma ShowsBehind(x: seq<Slot>, y: seq<Slot>, m: nat)
    requires |x| == |y| && m <= |x| && x[m..] == y[m..]
    ensures Shows(x, m) <==> Shows(y, m)
  {
    assert forall i | m <= i < |x| :: x[i] == x[m..][i - m] == y[m..][i - m] == y[i];
  }

  /** What the write of one entry does to the walk, whatever that entry reads as. */
  ghost predicate Reads(now: seq<Slot>, at: nat, m: nat, v: View) {
    at <= m <= |now| && Ok(Start()) && Ok(Fresh(0))
    && Scan(now, 0, Start()) == Scan(now[..at], 0, Start()) + ([v] + Scan(now, m, Fresh(0)))
  }

  /** Exactly one entry is added, and every other reads as before: in the middle of the directory. */
  ghost predicate AddsInside(was: seq<Slot>, now: seq<Slot>, at: nat, m: nat, v: View) {
    Reads(now, at, m, v) && Scan(was, 0, Start()) == Scan(now[..at], 0, Start()) + Scan(now, m, Fresh(0))
  }

  /** The same at the end of the directory. */
  ghost predicate AddsLast(was: seq<Slot>, now: seq<Slot>, v: View) {
    Ok(Start()) && Scan(now, 0, Start()) == Scan(was, 0, Start()) + [v]
  }

  lemma PutInside(was: seq<Slot>, at: nat, w: seq<Slot>, v: View)
    requires w != [] && FreeRun(was, at, at + |w|) && Reads(Put(was, at, w), at, at + |w|, v)
    requires forall i | 0 <= i < at + |w| :: was[i] != End
    ensures AddsInside(was, Put(was, at, w), at, at + |w|, v)
  {
    hide Scan, Put, Ok, Start, Fresh;
    var (now, m) := (Put(was, at, w), at + |w|);
    assert forall i | 0 <= i < at :: now[i] == was[i];
    assert now[..at] == was[..at];
    ScanPasses(was, at, m);
    ScanSuffix(was, now, m, Fresh(0));
  }

  /** Once the directory ends before the end of the run: one entry is added, last, if and only if no entry stands between the
      marker and the run and none behind the run before another marker. */
  lemma PutLast(was: seq<Slot>, at: nat, w: seq<Slot>, v: View, e: nat)
    requires w != [] && FreeRun(was, at, at + |w|) && Reads(Put(was, at, w), at, at + |w|, v) && FirstEnd(was, e) && e < at + |w|
    ensures AddsLast(was, Put(was, at, w), v) <==> (forall i | e <= i < at :: !was[i].Short?) && !Shows(was, at + |w|)
  {
    hide Scan, Shows, Put, Ok, Start, Fresh;
    var (now, m, d) := (Put(was, at, w), at + |w|, if e < at then e else at);
    var front := now[..at];
    assert forall i | 0 <= i < at :: front[i] == Unmarked(was[i]);
    assert forall i | 0 <= i < d :: front[i] == was[i];
    assert front[..d] == was[..d];
    assert forall i | d <= i < at :: front[i].Short? <==> was[i].Short?;
    if e < at { ScanEnds(was, e); } else { ScanEndsEarly(was, at, m, e); }
    var more := ScanCut(front, d);
    ShowsBehind(was, now, m);
    ScanShows(now, m, Fresh(0));
    OneMore(Scan(was, 0, Start()), more, v, Scan(now, m, Fresh(0)));
  }

  lemma OneMore(shown: seq<View>, more: seq<View>, v: View, behind: seq<View>)
    ensures shown + more + ([v] + behind) == shown + [v] <==> more == [] && behind == []
  {
    if shown + more + ([v] + behind) == shown + [v] { assert |more| + |behind| == 0; }
  }

  /** Where the name stands after the write, and what the walk shows of it. */
  lemma LongReads(was: seq<Slot>, at: nat, name: seq<nat>, alias: seq<nat>, id: nat)
    requires IsName(name) && FreeRun(was, at, After(at, name))
    ensures |Written(name, alias, id)| == Fragments(name) + 1
    ensures Reads(Put(was, at, Written(name, alias, id)), at, After(at, name), ViewOf(at, name, id))
  {
    hide Scan, Written, Ok, Put, ViewOf, Start, Fresh, Fragments;
    OkStarts();
    NameFits(name);
    var w := Written(name, alias, id);
    var now := Put(was, at, w);
    assert now[at..at + |w|] == w;
    assert forall i | 0 <= i < at :: now[i] == Unmarked(was[i]);
    RoundTrip(now, at, name, alias, id);
  }

  /** Writing a long name over a free run the search stopped at adds its entry: with no end marker up to the run's end, no other
      entry reads differently; otherwise exactly its entry is added if and only if none stands behind the marker in its way. */
  lemma WriteAddsOneEntry(was: seq<Slot>, at: nat, name: seq<nat>, alias: seq<nat>, id: nat)
    requires IsName(name) && FreeRun(was, at, After(at, name))
    ensures |Written(name, alias, id)| == Fragments(name) + 1
    ensures (forall i | 0 <= i < After(at, name) :: was[i] != End) ==>
              AddsInside(was, Put(was, at, Written(name, alias, id)), at, After(at, name), ViewOf(at, name, id))
    ensures forall e: nat | FirstEnd(was, e) && e < After(at, name) ::
              AddsLast(was, Put(was, at, Written(name, alias, id)), ViewOf(at, name, id)) <==>
              (forall i | e <= i < at :: !was[i].Short?) && !Shows(was, After(at, name))
  {
    LongReads(was, at, name, alias, id);
    var (w, v) := (Written(name, alias, id), ViewOf(at, name, id));
    hide Reads, AddsInside, AddsLast, Put, Written, FreeRun, FirstEnd, Shows, ViewOf;
    if forall i | 0 <= i < After(at, name) :: was[i] != End { PutInside(was, at, w, v); }
    forall e: nat | FirstEnd(was, e) && e < After(at, name)
      ensures AddsLast(was, Put(was, at, w), v) <==> (forall i | e <= i < at :: !was[i].Short?) && !Shows(was, After(at, name))
    {
      PutLast(was, at, w, v, e);
    }
  }

  // ---------------------------------------------------------------- names of one slot

  /** The scanner that reaches the new entry. */
  function Before(was: seq<Slot>, at: nat): (st: Scanner)
    requires at <= |was|
    ensures Ok(st)
  { Reach(Claimed(was, at), 0, at, Start()) }

  function PlainView(was: seq<Slot>, at: nat, alias: seq<nat>, id: nat): View
    requires at <= |was|
  {
    var st := Before(was, at);
    if Names(st.run, alias) then View(at, id, true, CString(st.run.buf), st.lfns) else View(at, id, false, [], [])
  }

  lemma {:induction false} ReachSame(x: seq<Slot>, y: seq<Slot>, k: nat, m: nat, st: Scanner)
    requires k <= m <= |x| && m <= |y| && (forall i | 0 <= i < m :: x[i] == y[i]) && Ok(st)
    ensures Reach(x, k, m, st) == Reach(y, k, m, st)
    decreases m - k
  {
    hide Step, Ok;
    if k < m {
      StepIsOk(st, x[k], k);
      ReachSame(x, y, k + 1, m, Step(st, x[k], k));
    }
  }

  lemma PlainReads(was: seq<Slot>, at: nat, alias: seq<nat>, id: nat)
    requires FreeRun(was, at, at + 1)
    ensures Reads(Put(was, at, [Short(alias, id)]), at, at + 1, PlainView(was, at, alias, id))
  {
    var now := Put(was, at, [Short(alias, id)]);
    OkStarts();
    assert forall i | 0 <= i < at :: now[i] == Claimed(was, at)[i];
    ReachSame(now, Claimed(was, at), 0, at, Start());
    var st := Before(was, at);
    ScanSplits(now, 0, at, Start());
    assert now[at] == Short(alias, id) && Step(st, now[at], at) == Fresh(st.run.sum);
    FreshSame(now, at + 1, st.run.sum, 0);
    assert Shown(st, now[at], at) == [PlainView(was, at, alias, id)];
  }

  /** The same for a name that fits one slot; it reads as that name, without a long one, if and only if no complete run of orphan
      fragments with its checksum stands right before it. */
  lemma PlainAddsOneEntry(was: seq<Slot>, at: nat, alias: seq<nat>, id: nat)
    requires FreeRun(was, at, at + 1)
    ensures (forall i | 0 <= i <= at :: was[i] != End) ==>
              AddsInside(was, Put(was, at, [Short(alias, id)]), at, at + 1, PlainView(was, at, alias, id))
    ensures forall e: nat | FirstEnd(was, e) && e <= at ::
              AddsLast(was, Put(was, at, [Short(alias, id)]), PlainView(was, at, alias, id)) <==>
              (forall i | e <= i < at :: !was[i].Short?) && !Shows(was, at + 1)
    ensures PlainView(was, at, alias, id) == View(at, id, false, [], []) <==> !Names(Before(was, at).run, alias)
  {
    PlainReads(was, at, alias, id);
    var (w, v) := ([Short(alias, id)], PlainView(was, at, alias, id));
    if forall i | 0 <= i <= at :: was[i] != End { PutInside(was, at, w, v); }
    forall e: nat | FirstEnd(was, e) && e <= at
      ensures AddsLast(was, Put(was, at, w), v) <==> (forall i | e <= i < at :: !was[i].Short?) && !Shows(was, at + 1)
    {
      PutLast(was, at, w, v, e);
    }
  }

  /** Orphan fragments that spell another name give it to a one-slot name written behind them. */
  lemma OrphansRename(alias: seq<nat>, id: nat)
    ensures var was := [Fragment([65], 1, Checksum(alias)), Deleted];
            FreeRun(was, 1, 2) && Scan(Put(was, 1, [Short(alias, id)]), 0, Start()) == [View(1, id, true, [65], [0])]
  {
    var was := [Fragment([65], 1, Checksum(alias)), Deleted];
    var now := Put(was, 1, [Short(alias, id)]);
    assert now == Written([65], alias, id);
    assert now[0..2] == now && StandsAt(now, 0, [65], alias, id);
    RoundTrip(now, 0, [65], alias, id);
    assert Scan(now[..0], 0, Start()) == [] && Scan(now, 2, Fresh(0)) == [];
    assert Ordinals(0, 1) == [0];
  }

  // ---------------------------------------------------------------- directories as the driver keeps them

  /** Behind an end marker there are only end markers: a new directory cluster is zeroed. */
  ghost predicate Zeroed(slots: seq<Slot>) { forall i, j | 0 <= i < j < |slots| && slots[i] == End :: slots[j] == End }

  lemma ZeroedHides(was: seq<Slot>, at: nat, m: nat, e: nat)
    requires Zeroed(was) && FirstEnd(was, e) && e < m <= |was| && at <= m
    ensures (forall i | e <= i < at :: !was[i].Short?) && !Shows(was, m)
  {
  }

  lemma ZeroedStays(was: seq<Slot>, at: nat, w: seq<Slot>)
    requires Zeroed(was) && w != [] && at + |w| <= |was| && forall i | 0 <= i < |w| :: w[i] != End
    ensures Zeroed(Put(was, at, w))
  {
    var now := Put(was, at, w);
    forall i, j | 0 <= i < j < |now| && now[i] == End ensures now[j] == End {
      assert i >= at + |w|;
    }
  }

  lemma PutInZeroed(was: seq<Slot>, at: nat, w: seq<Slot>, v: View)
    requires Zeroed(was) && w != [] && FreeRun(was, at, at + |w|) && Reads(Put(was, at, w), at, at + |w|, v)
    requires forall i | 0 <= i < |w| :: w[i] != End
    ensures Zeroed(Put(was, at, w))
    ensures AddsInside(was, Put(was, at, w), at, at + |w|, v) || AddsLast(was, Put(was, at, w), v)
  {
    ZeroedStays(was, at, w);
    if forall i | 0 <= i < at + |w| :: was[i] != End {
      PutInside(was, at, w, v);
    } else {
      var e := EndIn(was, at + |w|);
      ZeroedHides(was, at, at + |w|, e);
      PutLast(was, at, w, v, e);
    }
  }

  /** The slots of a new name: a long one's, or the one of a name that fits 8.3. */
  function NewSlots(name: Option<seq<nat>>, alias: seq<nat>, id: nat): (w: seq<Slot>)
    requires name.Some? ==> 1 <= |name.value| <= MAX_NAME
    ensures |w| == (if name.Some? then Fragments(name.value) + 1 else 1) && forall i | 0 <= i < |w| :: w[i].Frag? || w[i].Short?
  { if name.Some? then Written(name.value, alias, id) else [Short(alias, id)] }

  function NewView(was: seq<Slot>, at: nat, name: Option<seq<nat>>, alias: seq<nat>, id: nat): View
    requires at <= |was|
  { if name.Some? then ViewOf(at, name.value, id) else PlainView(was, at, alias, id) }

  /** In a zeroed directory a create, at the run its search stops at, adds exactly its entry, for a long name and for one that
      fits 8.3, and the directory stays zeroed. */
  lemma CreateInZeroed(was: seq<Slot>, at: nat, name: Option<seq<nat>>, alias: seq<nat>, id: nat)
    requires Zeroed(was) && (name.Some? ==> IsName(name.value)) && FirstRun(was, at, |NewSlots(name, alias, id)|)
    ensures var (w, v) := (NewSlots(name, alias, id), NewView(was, at, name, alias, id));
            && at + |w| <= |was| && Zeroed(Put(was, at, w))
            && (AddsInside(was, Put(was, at, w), at, at + |w|, v) || AddsLast(was, Put(was, at, w), v))
    ensures name.None? && (at == 0 || !was[at - 1].Frag?) ==> NewView(was, at, name, alias, id) == View(at, id, false, [], [])
  {
    hide Reads, AddsInside, AddsLast, Put, Written, ViewOf, PlainView, Zeroed, Fragments, IsFree;
    var (w, v) := (NewSlots(name, alias, id), NewView(was, at, name, alias, id));
    assert RunAt(was, at, |w|);
    if name.Some? {
      LongReads(was, at, name.value, alias, id);
    } else {
      PlainReads(was, at, alias, id);
      if at == 0 || !was[at - 1].Frag? { PlainUnnamed(was, at, alias, id); }
    }
    PutInZeroed(was, at, w, v);
  }

  lemma {:induction false} ReachLast(slots: seq<Slot>, k: nat, m: nat, st: Scanner)
    requires k < m <= |slots| && Ok(st)
    ensures Reach(slots, k, m, st) == Step(Reach(slots, k, m - 1, st), slots[m - 1], m - 1)
    decreases m - k
  {
    if k + 1 < m { ReachLast(slots, k + 1, m, Step(st, slots[k], k)); }
  }

  /** Nothing is pending behind a slot that is no fragment. */
  lemma PlainUnnamed(was: seq<Slot>, at: nat, alias: seq<nat>, id: nat)
    requires at <= |was| && (at == 0 || !was[at - 1].Frag?)
    ensures PlainView(was, at, alias, id) == View(at, id, false, [], [])
  {
    OkStarts();
    if at > 0 { ReachLast(Claimed(was, at), 0, at, Start()); }
  }

  lemma EndIn(slots: seq<Slot>, m: nat) returns (e: nat)
    requires m <= |slots| && exists i :: 0 <= i < m && slots[i] == End
    ensures FirstEnd(slots, e) && e < m
  {
    e := 0;
    while slots[e] != End
      invariant e < m && forall i | 0 <= i < e :: slots[i] != End
      decreases m - e
    {
      var i :| 0 <= i < m && slots[i] == End;
      e := e + 1;
    }
  }

  /** A search that finds no room leaves every marker claimed: the directory reads as before if and only if no entry stands behind
      its end marker. */
  lemma FailedSearchReads(was: seq<Slot>)
    ensures Ok(Start()) && ((forall i | 0 <= i < |was| :: was[i] != End) ==> Claimed(was, |was|) == was)
    ensures forall e: nat | FirstEnd(was, e) ::
              Scan(Claimed(was, |was|), 0, Start()) == Scan(was, 0, Start()) <==> forall i | e <= i < |was| :: !was[i].Short?
  {
    OkStarts();
    var now := Claimed(was, |was|);
    forall e: nat | FirstEnd(was, e)
      ensures Scan(now, 0, Start()) == Scan(was, 0, Start()) <==> forall i | e <= i < |was| :: !was[i].Short?
    {
      ScanEnds(was, e);
      assert now[..e] == was[..e];
      var more := ScanCut(now, e);
      assert forall i | e <= i < |was| :: now[i].Short? <==> was[i].Short?;
      assert Scan(was, 0, Start()) + more == Scan(was, 0, Start()) ==> |more| == 0;
    }
  }

  /** Growing a directory by zeroed slots changes nothing it shows, keeps it zeroed, and enough of them make room for any name. */
  lemma GrowthReads(slots: seq<Slot>, extra: nat, n: nat)
    requires n > 0
    ensures Ok(Start())
    ensures var grown := slots + seq(extra, _ => End);
            && Scan(grown, 0, Start()) == Scan(slots, 0, Start()) && (Zeroed(slots) ==> Zeroed(grown))
            && (n <= extra ==> !NoRun(grown, n))
  {
    var grown := slots + seq(extra, _ => End);
    OkStarts();
    ScanGrown(slots, grown, 0, Start());
    if n <= extra { assert RunAt(grown, |slots|, n); }
  }

  lemma {:induction false} ScanGrown(slots: seq<Slot>, grown: seq<Slot>, k: nat, st: Scanner)
    requires k <= |slots| <= |grown| && grown[..|slots|] == slots && Ok(st) && (|slots| < |grown| ==> grown[|slots|] == End)
    ensures Scan(grown, k, st) == Scan(slots, k, st)
    decreases |slots| - k
  {
    if k < |slots| {
      assert grown[k] == grown[..|slots|][k] == slots[k];
      ScanGrown(slots, grown, k + 1, Step(st, slots[k], k));
    }
  }

  /** Stale entries that come back: behind the marker a name takes, and behind one the search gave up on its way. */
  lemma StaleReappears(alias: seq<nat>, stale: seq<nat>, id: nat, other: nat)
    ensures var was := [Deleted, End, Short(stale, other)];
            FirstRun(was, 0, 2) && Scan(was, 0, Start()) == [] && |Scan(Put(was, 0, Written([65], alias, id)), 0, Start())| == 2
    ensures var was := [End, Short(stale, other), Deleted, Deleted];
            FirstRun(was, 2, 2) && Scan(was, 0, Start()) == [] && |Scan(Put(was, 2, Written([65], alias, id)), 0, Start())| == 2
  {
    var was := [Deleted, End, Short(stale, other)];
    assert FirstRun(was, 0, 2);
    StaleBehind(was, alias, stale, id, other);
    StaleBetween(alias, stale, id, other);
  }

  lemma StaleBehind(was: seq<Slot>, alias: seq<nat>, stale: seq<nat>, id: nat, other: nat)
    requires was == [Deleted, End, Short(stale, other)]
    ensures Scan(was, 0, Start()) == [] && |Scan(Put(was, 0, Written([65], alias, id)), 0, Start())| == 2
  {
    LongReads(was, 0, [65], alias, id);
    var now := Put(was, 0, Written([65], alias, id));
    ScanEnds(was, 1);
    assert Scan(was[..1], 0, Start()) == [] by { ScanShows(was[..1], 0, Start()); }
    assert Scan(now[..0], 0, Start()) == [];
    assert now[2] == Short(stale, other) && |Scan(now, 2, Fresh(0))| == 1;
  }

  lemma StaleBetween(alias: seq<nat>, stale: seq<nat>, id: nat, other: nat)
    ensures var was := [End, Short(stale, other), Deleted, Deleted];
            FirstRun(was, 2, 2) && Scan(was, 0, Start()) == [] && |Scan(Put(was, 2, Written([65], alias, id)), 0, Start())| == 2
  {
    var was := [End, Short(stale, other), Deleted, Deleted];
    LongReads(was, 2, [65], alias, id);
    var now := Put(was, 2, Written([65], alias, id));
    assert now[..2] == [Deleted, Short(stale, other)];
    TwoSlots(stale, other);
    assert Scan(now, 4, Fresh(0)) == [];
  }

  lemma TwoSlots(stale: seq<nat>, other: nat)
    ensures Ok(Start()) && |Scan([Deleted, Short(stale, other)], 0, Start())| == 1
  {
    var l := [Deleted, Short(stale, other)];
    var st := Step(Start(), l[0], 0);
    assert Scan(l, 1, st) == Shown(st, l[1], 1) + Scan(l, 2, Step(st, l[1], 1));
    assert Scan(l, 0, Start()) == Shown(Start(), l[0], 0) + Scan(l, 1, st);
  }

  lemma {:induction false} ScanSuffix(x: seq<Slot>, y: seq<Slot>, k: nat, st: Scanner)
    requires k <= |x| == |y| && x[k..] == y[k..] && Ok(st)
    ensures Scan(x, k, st) == Scan(y, k, st)
    decreases |x| - k
  {
    if k < |x| {
      assert x[k] == x[k..][0] == y[k..][0] == y[k];
      assert x[k + 1..] == x[k..][1..] == y[k..][1..] == y[k + 1..];
      ScanSuffix(x, y, k + 1, Step(st, x[k], k));
    }
  }
}
