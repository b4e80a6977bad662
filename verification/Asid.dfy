/** Address-space identifiers: the shared pool with generations (kernel/mm/asid.c). */
module AsidPool {
  import opened Common

  const WORD_BITS := 64

  /** The pool as a value: one flag per ASID, the generation, and the generation each core has caught up with. */
  datatype Pool = Pool(used: seq<bool>, generation: nat, coreGen: seq<nat>)

  /** What one call of `asid_get_active` grants, and which TLB flushes it performs on the way. */
  datatype Grant = Grant(pool: Pool, asid: nat, gen: nat, localFlush: bool, broadcast: bool)

  ghost predicate WellFormed(p: Pool) {
    |p.used| >= 2 && p.used[0] && forall c | 0 <= c < |p.coreGen| :: p.coreGen[c] <= p.generation
  }

  ghost predicate FirstFree(used: seq<bool>, i: int) {
    0 <= i < |used| && !used[i] && forall j | 0 <= j < i :: used[j]
  }

  ghost predicate Full(used: seq<bool>) {
    forall i | 0 <= i < |used| :: used[i]
  }

  /** A fresh bitmap: only ASID 0, the kernel's, is taken. */
  function OnlyZero(n: nat): (r: seq<bool>)
    ensures |r| == n && forall i | 0 <= i < n :: r[i] == (i == 0)
  {
    seq(n, i => i == 0)
  }

  /** The first clear bit, as a search from position `from`. */
  function Scan(used: seq<bool>, from: nat): (r: Option<nat>)
    requires from <= |used|
    ensures r.None? ==> forall i | from <= i < |used| :: used[i]
    ensures r.Some? ==> from <= r.value < |used| && !used[r.value] && forall j | from <= j < r.value :: used[j]
    decreases |used| - from
  {
    if from == |used| then None
    else if !used[from] then Some(from)
    else Scan(used, from + 1)
  }

  /** `asid_get_active` as a function of the pool, the calling core and the process's current pair. */
  function GetActive(p: Pool, core: nat, asid: nat, gen: nat): (g: Grant)
    requires WellFormed(p) && core < |p.coreGen|
  {
    var behind := p.coreGen[core] != p.generation;
    var q := p.(coreGen := p.coreGen[core := p.generation]);
    if gen == p.generation && asid != 0 then
      Grant(q, asid, gen, behind, false)
    else
      match Scan(q.used, 0)
      case Some(i) => Grant(q.(used := q.used[i := true]), i, q.generation, behind, false)
      case None =>
        var blank := OnlyZero(|q.used|);
        var n := Pool(blank[1 := true], q.generation + 1, q.coreGen[core := q.generation + 1]);
        Grant(n, 1, n.generation, behind, true)
  }

  /** `asid_free`: only a pair of the current generation gives its bit back. */
  function Release(p: Pool, asid: nat, gen: nat): (q: Pool)
    requires WellFormed(p) && asid < |p.used|
  {
    if gen == p.generation && asid != 0 then p.(used := p.used[asid := false]) else p
  }

  /** Allocation never fails, rolls over exactly when every ASID is taken, and grants a non-zero ASID no
      other holder of the resulting generation has; the calling core always ends up caught up. */
  lemma GrantMeaning(p: Pool, core: nat, asid: nat, gen: nat)
    requires WellFormed(p) && core < |p.coreGen|
    ensures var g := GetActive(p, core, asid, gen);
            var keep := gen == p.generation && asid != 0;
            && WellFormed(g.pool) && |g.pool.used| == |p.used| && |g.pool.coreGen| == |p.coreGen|
            && g.gen == g.pool.generation == g.pool.coreGen[core] && g.asid != 0
            && (keep ==> g.asid == asid && g.pool.used == p.used)
            && (!keep ==> FirstFree(if g.broadcast then OnlyZero(|p.used|) else p.used, g.asid))
            && (!keep ==> g.pool.used == (if g.broadcast then OnlyZero(|p.used|) else p.used)[g.asid := true])
            && (g.broadcast <==> !keep && Full(p.used))
            && (g.pool.generation == p.generation <==> !g.broadcast)
            && (g.localFlush <==> p.coreGen[core] < p.generation)
            && forall c | 0 <= c < |p.coreGen| && c != core :: g.pool.coreGen[c] == p.coreGen[c]
  {
    var g := GetActive(p, core, asid, gen);
    if g.broadcast {
      assert FirstFree(OnlyZero(|p.used|), 1);
    }
  }

  /** The pool as the kernel keeps it: a bitmap of 64-bit words and an array with one generation per core. */
  class AsidTable {
    var bitmap: array<bool>
    var generation: nat
    var coreGen: array<nat>

    ghost predicate Valid()
      reads this, bitmap, coreGen
    {
      bitmap.Length % WORD_BITS == 0 && WellFormed(View())
    }

    ghost function View(): Pool
      reads this, bitmap, coreGen
    {
      Pool(bitmap[..], generation, coreGen[..])
    }

    constructor (words: nat, cores: nat)
      requires words > 0
      ensures Valid() && fresh(bitmap) && fresh(coreGen)
      ensures View() == Pool(OnlyZero(words * WORD_BITS), 1, seq(cores, _ => 0))
    {
      bitmap := new bool[words * WORD_BITS](i => i == 0);
      generation := 1;
      coreGen := new nat[cores](_ => 0);
      new;
      assert bitmap[..] == OnlyZero(words * WORD_BITS);
    }

    /** Word by word, then bit by bit inside the first word that is not full. */
    method GetFree() returns (r: Option<nat>)
      requires bitmap.Length % WORD_BITS == 0
      modifies bitmap
      ensures r == Scan(old(bitmap[..]), 0)
      ensures r.None? ==> bitmap[..] == old(bitmap[..])
      ensures r.Some? ==> bitmap[..] == old(bitmap[..])[r.value := true]
    {
      var i := 0;
      while i < bitmap.Length / WORD_BITS
        invariant 0 <= i <= bitmap.Length / WORD_BITS
        invariant forall j | 0 <= j < i * WORD_BITS :: bitmap[j]
        invariant bitmap[..] == old(bitmap[..])
      {
        var bit := 0;
        while bit < WORD_BITS
          invariant 0 <= bit <= WORD_BITS
          invariant forall j | 0 <= j < i * WORD_BITS + bit :: bitmap[j]
          invariant bitmap[..] == old(bitmap[..])
        {
          if !bitmap[i * WORD_BITS + bit] {
            bitmap[i * WORD_BITS + bit] := true;
            return Some(i * WORD_BITS + bit);
          }
          bit := bit + 1;
        }
        i := i + 1;
      }
      assert forall j | 0 <= j < |old(bitmap[..])| :: old(bitmap[..])[j];
      return None;
    }

    method ClearForNewGeneration()
      requires Valid()
      modifies bitmap
      ensures bitmap[..] == OnlyZero(bitmap.Length)
    {
      var i := 1;
      while i < bitmap.Length
        invariant 1 <= i <= bitmap.Length
        invariant bitmap[0] && forall j | 1 <= j < i :: !bitmap[j]
      {
        bitmap[i] := false;
        i := i + 1;
      }
    }

    method Activate(core: nat, asid: nat, gen: nat)
      returns (newAsid: nat, newGen: nat, localFlush: bool, broadcast: bool)
      requires Valid() && core < coreGen.Length
      modifies this`generation, bitmap, coreGen
      ensures Valid()
      ensures Grant(View(), newAsid, newGen, localFlush, broadcast) == GetActive(old(View()), core, asid, gen)
    {
      ghost var was := View();
      GrantMeaning(was, core, asid, gen);
      localFlush := coreGen[core] != generation;
      broadcast := false;
      coreGen[core] := generation;
      if gen == generation && asid != 0 {
        return asid, gen, localFlush, false;
      }
      var found := GetFree();
      if found.None? {
        generation := generation + 1;
        ClearForNewGeneration();
        broadcast := true;
        coreGen[core] := generation;
        found := GetFree();
        assert found == Some(1);
      }
      newAsid, newGen := found.value, generation;
    }

    method Free(asid: nat, gen: nat)
      requires Valid() && asid < bitmap.Length
      modifies bitmap
      ensures View() == Release(old(View()), asid, gen)
      ensures Valid()
    {
      if gen == generation && asid != 0 {
        bitmap[asid] := false;
      }
    }
  }
}
