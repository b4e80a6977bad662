/** What the scan reads, said of the slots alone: which entries have a long name, which name, and which slots are its. */
module LongNameRead {
  import opened Common
  import opened LongName

  /** Fragments as they are on disk: thirteen characters each. */
  ghost predicate Proper(slots: seq<Slot>) { forall i | 0 <= i < |slots| && slots[i].Frag? :: |slots[i].chars| == CHARS }

  /** Slot `at + j` is fragment `n - j` of a run of `n` with this sum: flagged exactly if it is the first. */
  ghost predicate IsPart(slots: seq<Slot>, at: nat, n: nat, sum: nat, j: nat) {
    && at + j < |slots| && slots[at + j].Frag? && slots[at + j].sum == sum && slots[at + j].sequence % LAST_FLAG == n - j
    && (Flagged(slots[at + j]) <==> j == 0)
  }

  /** The `m` slots before `k` are the first `m` fragments of a run of `n`. */
  ghost predicate Partial(slots: seq<Slot>, k: nat, n: nat, m: nat, sum: nat) {
    1 <= m <= n <= MAX_SEQ && m <= k <= |slots| && Parts(slots, k - m, n, m, sum)
  }

  ghost predicate Parts(slots: seq<Slot>, at: nat, n: nat, m: nat, sum: nat) { forall j: nat | j < m :: IsPart(slots, at, n, sum, j) }

  /** The `n` slots before `k` are a whole run. */
  ghost predicate Complete(slots: seq<Slot>, k: nat, n: nat, sum: nat) { Partial(slots, k, n, n, sum) }

  /** Character `i` of a fragment, cut to a byte. */
  ghost function CharOf(f: Slot, i: nat): nat { if f.Frag? && i < |f.chars| then f.chars[i] % 256 else 0 }

  /** What place `p` of the buffer holds after the first `m` fragments of a run of `n` that begins at `at`. */
  ghost function RunChar(slots: seq<Slot>, at: nat, n: nat, m: nat, p: nat): nat
    requires m <= n && at + m <= |slots|
  { if (n - m) * CHARS <= p < n * CHARS && p < MAX_NAME then CharOf(slots[at + (n - 1 - p / CHARS)], p % CHARS) else 0 }

  ghost predicate Spells(slots: seq<Slot>, at: nat, n: nat, m: nat, buf: seq<nat>) {
    m <= n && at + m <= |slots| && |buf| == BUF_SIZE && forall p: nat | p < BUF_SIZE :: buf[p] == RunChar(slots, at, n, m, p)
  }

  /** What the scanner knows when it reaches slot `k`: the run in progress, if there is one. */
  ghost predicate Knows(slots: seq<Slot>, k: nat, st: Scanner) {
    && Ok(st) && k <= |slots|
    && if st.run.active then
         exists n: nat, m: nat :: InProgress(slots, k, st, n, m)
       else NoPartial(slots, k)
  }

  ghost predicate NoPartial(slots: seq<Slot>, k: nat) { forall n: nat, m: nat, sum: nat :: !Partial(slots, k, n, m, sum) }

  ghost predicate InProgress(slots: seq<Slot>, k: nat, st: Scanner, n: nat, m: nat) {
    && Partial(slots, k, n, m, st.run.sum) && st.run.next == n - m && st.lfns == Ordinals(k - m, m)
    && Spells(slots, k - m, n, m, st.run.buf)
  }

  /** The slots before a place determine the run in progress there: it goes back to the last flagged fragment. */
  lemma {:induction false} OneRun(slots: seq<Slot>, k: nat, n: nat, m: nat, sum: nat, n': nat, m': nat, sum': nat)
    requires Partial(slots, k, n, m, sum) && Partial(slots, k, n', m', sum')
    ensures n == n' && m == m' && sum == sum'
  {
    FirstIsFlagged(slots, k, n, m, sum, 0);
    FirstIsFlagged(slots, k, n', m', sum', 0);
    if m < m' { FirstIsFlagged(slots, k, n', m', sum', m' - m); }
    if m' < m { FirstIsFlagged(slots, k, n, m, sum, m - m'); }
  }

  lemma FirstIsFlagged(slots: seq<Slot>, k: nat, n: nat, m: nat, sum: nat, j: nat)
    requires Partial(slots, k, n, m, sum) && j < m
    ensures slots[k - m + j].Frag? && (Flagged(slots[k - m + j]) <==> j == 0)
    ensures slots[k - m + j].sequence % LAST_FLAG == n - j && slots[k - m + j].sum == sum
  {
    assert IsPart(slots, k - m, n, sum, j);
  }

  lemma PartialShrinks(slots: seq<Slot>, k: nat, n: nat, m: nat, sum: nat)
    requires Partial(slots, k + 1, n, m, sum) && m > 1
    ensures Partial(slots, k, n, m - 1, sum)
  {
    assert k + 1 - m == k - (m - 1);
  }

  lemma PartialGrows(slots: seq<Slot>, k: nat, n: nat, m: nat, sum: nat)
    requires Partial(slots, k, n, m, sum) && m < n && IsPart(slots, k - m, n, sum, m)
    ensures Partial(slots, k + 1, n, m + 1, sum)
  {
    assert k + 1 - (m + 1) == k - m;
  }

  /** A flagged fragment with a number in range begins a run. */
  lemma BeginsRun(slots: seq<Slot>, k: nat, st: Scanner)
    requires Proper(slots) && k < |slots| && slots[k].Frag? && Flagged(slots[k]) && Ok(st)
    requires 1 <= slots[k].sequence % LAST_FLAG <= MAX_SEQ
    ensures Knows(slots, k + 1, Step(st, slots[k], k))
  {
    var (f, n) := (slots[k], slots[k].sequence % LAST_FLAG);
    var st' := Step(st, f, k);
    assert st'.run == Run(Place(Zeros(), (n - 1) * CHARS, f.chars), true, n - 1, f.sum);
    assert IsPart(slots, k, n, f.sum, 0);
    assert st'.lfns == [k] == Ordinals(k, 1);
    BeginsBuffer(slots, k, n);
    assert InProgress(slots, k + 1, st', n, 1);
  }

  /** The expected fragment goes on with it. */
  lemma GoesOn(slots: seq<Slot>, k: nat, st: Scanner, n: nat, m: nat)
    requires Proper(slots) && k < |slots| && slots[k].Frag? && !Flagged(slots[k]) && Ok(st) && st.run.active
    requires InProgress(slots, k, st, n, m) && m < n && slots[k].sequence % LAST_FLAG == n - m && slots[k].sum == st.run.sum
    ensures Knows(slots, k + 1, Step(st, slots[k], k))
  {
    var (f, no) := (slots[k], n - m);
    var st' := Step(st, f, k);
    assert st'.run == Run(Place(st.run.buf, (no - 1) * CHARS, f.chars), true, no - 1, st.run.sum);
    assert IsPart(slots, k - m, n, st.run.sum, m);
    PartialGrows(slots, k, n, m, st.run.sum);
    assert st'.lfns == st.lfns + [k] && Ordinals(k - m, m) + [k] == Ordinals(k + 1 - (m + 1), m + 1);
    GoesOnBuffer(slots, k - m, n, m, st.run.buf);
    assert InProgress(slots, k + 1, st', n, m + 1);
  }

  lemma BeginsBuffer(slots: seq<Slot>, at: nat, n: nat)
    requires Proper(slots) && at < |slots| && slots[at].Frag? && 1 <= n <= MAX_SEQ
    ensures Spells(slots, at, n, 1, Place(Zeros(), (n - 1) * CHARS, slots[at].chars))
  {
  }

  lemma GoesOnBuffer(slots: seq<Slot>, at: nat, n: nat, m: nat, buf: seq<nat>)
    requires Proper(slots) && Spells(slots, at, n, m, buf) && m < n <= MAX_SEQ && at + m < |slots| && slots[at + m].Frag?
    ensures Spells(slots, at, n, m + 1, Place(buf, (n - m - 1) * CHARS, slots[at + m].chars))
  {
    var r := Place(buf, (n - m - 1) * CHARS, slots[at + m].chars);
    forall p: nat | p < BUF_SIZE ensures r[p] == RunChar(slots, at, n, m + 1, p) {
      assert buf[p] == RunChar(slots, at, n, m, p);
      if (n - m - 1) * CHARS <= p < (n - m) * CHARS { assert p / CHARS == n - m - 1 && p - (n - m - 1) * CHARS == p % CHARS; }
    }
  }

  /** Anything else leaves no run. */
  lemma BreaksRun(slots: seq<Slot>, k: nat, st: Scanner)
    requires k < |slots| && Knows(slots, k, st)
    requires slots[k].Frag? ==>
               && (Flagged(slots[k]) ==> !(1 <= slots[k].sequence % LAST_FLAG <= MAX_SEQ))
               && (!Flagged(slots[k]) ==> forall n: nat, m: nat | InProgress(slots, k, st, n, m) ::
                     !(st.run.active && m < n && slots[k].sequence % LAST_FLAG == n - m && slots[k].sum == st.run.sum))
    ensures Knows(slots, k + 1, Step(st, slots[k], k))
  {
    var st' := Step(st, slots[k], k);
    if slots[k].Frag? && !Flagged(slots[k]) && st.run.active {
      var n: nat, m: nat :| InProgress(slots, k, st, n, m);
      assert st.run.next == n - m;
    }
    assert !st'.run.active;
    if !NoPartial(slots, k + 1) {
      var next := k + 1;
      var n: nat, m: nat, sum: nat :| Partial(slots, next, n, m, sum);
      NoRunBehind(slots, k, st, n, m, sum);
    }
  }

  lemma NoRunBehind(slots: seq<Slot>, k: nat, st: Scanner, n: nat, m: nat, sum: nat)
    requires k < |slots| && Knows(slots, k, st) && Partial(slots, k + 1, n, m, sum)
    ensures slots[k].Frag? && (Flagged(slots[k]) ==> 1 <= slots[k].sequence % LAST_FLAG <= MAX_SEQ)
    ensures !Flagged(slots[k]) ==> st.run.active && m > 1 && InProgress(slots, k, st, n, m - 1)
                                   && slots[k].sequence % LAST_FLAG == n - (m - 1) && slots[k].sum == st.run.sum
  {
    assert IsPart(slots, k + 1 - m, n, sum, m - 1);
    if !Flagged(slots[k]) {
      PartialShrinks(slots, k, n, m, sum);
      var n': nat, m': nat :| InProgress(slots, k, st, n', m');
      OneRun(slots, k, n, m - 1, sum, n', m', st.run.sum);
    }
  }

  lemma StepKnows(slots: seq<Slot>, k: nat, st: Scanner)
    requires Proper(slots) && k < |slots| && Knows(slots, k, st)
    ensures Knows(slots, k + 1, Step(st, slots[k], k))
  {
    hide Step, Partial, InProgress;
    var f := slots[k];
    if f.Frag? && Flagged(f) && 1 <= f.sequence % LAST_FLAG <= MAX_SEQ {
      BeginsRun(slots, k, st);
    } else if f.Frag? && !Flagged(f) && st.run.active
              && exists n: nat, m: nat :: InProgress(slots, k, st, n, m) && m < n && f.sequence % LAST_FLAG == n - m && f.sum == st.run.sum {
      var n: nat, m: nat :| InProgress(slots, k, st, n, m) && m < n && f.sequence % LAST_FLAG == n - m && f.sum == st.run.sum;
      GoesOn(slots, k, st, n, m);
    } else {
      BreaksRun(slots, k, st);
    }
  }

  lemma {:induction false} ReachKnows(slots: seq<Slot>, k: nat, m: nat, st: Scanner)
    requires Proper(slots) && k <= m <= |slots| && Knows(slots, k, st)
    ensures Knows(slots, m, Reach(slots, k, m, st))
    decreases m - k
  {
    if k < m {
      hide Knows, Step;
      assert Ok(st) by { KnowsIsOk(slots, k, st); }
      StepKnows(slots, k, st);
      ReachKnows(slots, k + 1, m, Step(st, slots[k], k));
    }
  }

  lemma KnowsIsOk(slots: seq<Slot>, k: nat, st: Scanner)
    requires Knows(slots, k, st)
    ensures Ok(st)
  {
  }

  // ---------------------------------------------------------------- what is shown

  /** The name a whole run of `n` before slot `k` spells: its characters up to the first NUL. */
  ghost predicate SpelledBy(slots: seq<Slot>, k: nat, n: nat, name: seq<nat>) {
    n <= k <= |slots| && name == CString(seq(BUF_SIZE, p requires 0 <= p < BUF_SIZE => RunChar(slots, k - n, n, n, p)))
  }

  /** How an entry at slot `k` is shown: under a long name exactly when a whole run with its checksum stands right before it,
      and then under the name the run spells, with the run's slots as its own. */
  ghost predicate ShownRight(slots: seq<Slot>, k: nat, v: View)
    requires k < |slots| && slots[k].Short?
  {
    && v.ordinal == k && v.id == slots[k].id
    && (v.named <==> exists n: nat :: Complete(slots, k, n, Checksum(slots[k].alias)))
    && (!v.named ==> v.name == [] && v.lfns == [])
    && (v.named ==> forall n: nat | Complete(slots, k, n, Checksum(slots[k].alias)) ::
                      SpelledBy(slots, k, n, v.name) && v.lfns == Ordinals(k - n, n))
  }

  lemma ShownIsRight(slots: seq<Slot>, k: nat, st: Scanner)
    requires Proper(slots) && k < |slots| && slots[k].Short? && Knows(slots, k, st)
    ensures |Shown(st, slots[k], k)| == 1 && ShownRight(slots, k, Shown(st, slots[k], k)[0])
  {
    hide Checksum, CString, Parts;
    var (v, sum) := (Shown(st, slots[k], k)[0], Checksum(slots[k].alias));
    forall n: nat | Complete(slots, k, n, sum) ensures v.named && SpelledBy(slots, k, n, v.name) && v.lfns == Ordinals(k - n, n) {
      var n': nat, m: nat :| InProgress(slots, k, st, n', m);
      OneRun(slots, k, n, n, sum, n', m, st.run.sum);
      assert st.run.buf == seq(BUF_SIZE, p requires 0 <= p < BUF_SIZE => RunChar(slots, k - n, n, n, p));
    }
    if v.named {
      var n: nat, m: nat :| InProgress(slots, k, st, n, m);
      assert Complete(slots, k, n, sum);
    }
  }

  lemma NamesIff(slots: seq<Slot>, k: nat, st: Scanner, alias: seq<nat>)
    requires Knows(slots, k, st)
    ensures Names(st.run, alias) <==> exists n: nat :: Complete(slots, k, n, Checksum(alias))
  {
    hide Checksum, Parts;
    if n: nat :| Complete(slots, k, n, Checksum(alias)) {
      var n': nat, m: nat :| InProgress(slots, k, st, n', m);
      OneRun(slots, k, n, n, Checksum(alias), n', m, st.run.sum);
    }
    if Names(st.run, alias) {
      var n: nat, m: nat :| InProgress(slots, k, st, n, m);
      assert Complete(slots, k, n, Checksum(alias));
    }
  }

  /** A name of one slot written at `at` reads without a long name exactly when no whole run with its checksum stands right
      before it. */
  lemma PlainUnlessOrphaned(was: seq<Slot>, at: nat, alias: seq<nat>, id: nat)
    requires Proper(was) && at <= |was|
    ensures PlainView(was, at, alias, id) == View(at, id, false, [], []) <==> forall n: nat :: !Complete(Claimed(was, at), at, n, Checksum(alias))
  {
    var now := Claimed(was, at);
    assert Proper(now);
    StartKnows(now);
    ReachKnows(now, 0, at, Start());
    NamesIff(now, at, Before(was, at), alias);
  }

  /** The walk shows one view of each entry before the end marker, and shows it right. */
  lemma WalkShowsRight(slots: seq<Slot>, k: nat) returns (v: View)
    requires Proper(slots) && k < |slots| && slots[k].Short? && forall i | 0 <= i < k :: slots[i] != End
    ensures ShownRight(slots, k, v)
    ensures Ok(Start()) && Ok(Fresh(0)) && Scan(slots, 0, Start()) == Scan(slots[..k], 0, Start()) + ([v] + Scan(slots, k + 1, Fresh(0)))
  {
    OkStarts();
    StartKnows(slots);
    ReachKnows(slots, 0, k, Start());
    var st := Reach(slots, 0, k, Start());
    ShownIsRight(slots, k, st);
    ScanSplits(slots, 0, k, Start());
    hide Knows, ShownRight, Checksum, CString;
    v := Shown(st, slots[k], k)[0];
    assert Step(st, slots[k], k) == Fresh(st.run.sum);
    FreshSame(slots, k + 1, st.run.sum, 0);
    assert Scan(slots, k, st) == Shown(st, slots[k], k) + Scan(slots, k + 1, Fresh(st.run.sum));
  }

  lemma StartKnows(slots: seq<Slot>)
    ensures Knows(slots, 0, Start())
  {
    OkStarts();
  }
}
