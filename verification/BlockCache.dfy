/** The write-through block cache (kernel/driver/block.c): hash chains to find an entry, a recency list to choose a victim. */
module BlockCache {
  import opened Common
  import opened FreeList

  const CHAINS := 64

  type Data = seq<bv8>

  datatype Key = Key(dev: nat, block: nat)

  datatype Entry = Entry(key: Key, data: Data)

  datatype ReadEnd = Ok(data: Data) | IoError | NoMemory

  function Hash(k: Key): (h: nat)
    ensures h < CHAINS
  { (k.dev + k.block) % CHAINS }

  type Device = map<Key, Data>

  /** A chain holds exactly the entries that hash to it, each once. */
  ghost predicate Hashed(entries: map<nat, Entry>, chains: seq<seq<nat>>) {
    && |chains| == CHAINS && (forall h | 0 <= h < CHAINS :: Distinct(chains[h]))
    && (forall h: nat, x: nat | h < CHAINS :: InChain(chains, h, x) <==> x in entries && Hash(entries[x].key) == h)
  }

  /** No block is cached twice. */
  ghost predicate Keyed(entries: map<nat, Entry>) {
    forall x, y | x in entries && y in entries && entries[x].key == entries[y].key :: x == y
  }

  /** Both lists hold the entries, numbered below `count`. */
  ghost predicate Listed(entries: map<nat, Entry>, lru: seq<nat>, chains: seq<seq<nat>>, count: nat) {
    && Distinct(lru) && (forall x :: x in lru <==> x in entries) && (forall x | x in entries :: x < count)
    && Hashed(entries, chains) && Keyed(entries)
  }

  ghost predicate InChain(chains: seq<seq<nat>>, h: nat, x: nat) { h < |chains| && x in chains[h] }

  ghost predicate Holds(d: Device, k: Key, data: Data) { k in d && d[k] == data }

  /** `l` is what following `nx` from `head` finds. */
  ghost predicate Thread(l: seq<nat>, head: int, nx: seq<int>) {
    && (forall i | 0 <= i < |l| :: l[i] < |nx|)
    && head == (if l == [] then NULL else l[0])
    && (forall i, j | 0 <= i < j < |l| && j == i + 1 :: nx[l[i]] == l[j])
    && (l != [] ==> nx[l[|l| - 1]] == NULL)
  }

  ghost predicate Threads(chains: seq<seq<nat>>, table: seq<int>, nx: seq<int>) {
    |table| == |chains| && forall h | 0 <= h < |chains| :: Thread(chains[h], table[h], nx)
  }

  /** A list of some of `n` entries, linked both ways and known by both ends. */
  ghost predicate Ends(l: seq<nat>, head: int, tail: int, nx: seq<int>, pv: seq<int>, n: nat) {
    |nx| == n && Chain(l, head, nx, pv) && tail == Last(l)
  }

  function Last(l: seq<nat>): int { if l == [] then NULL else l[|l| - 1] }

  /** What happens outside the cache while a missing block is read: a buffer can be had, the device answers, an entry can be had. */
  datatype Luck = Luck(buffer: bool, answers: bool, entry: bool)

  class Cache {
    const capacity: nat
    var entries: map<nat, Entry>
    /** The links of the entries, by entry: the recency list both ways, the hash chains one way. */
    var lruNext: seq<int>
    var lruPrev: seq<int>
    var lruHead: int
    var lruTail: int
    var hashNext: seq<int>
    var table: seq<int>
    /** Entries given out so far. */
    var count: nat
    /** What the devices hold. */
    var device: Device

    /** Most recently used first. */
    ghost var lru: seq<nat>
    ghost var chains: seq<seq<nat>>

    /** The recency list is what its links say, from both ends. */
    ghost predicate Recent()
      reads this
    { Ends(lru, lruHead, lruTail, lruNext, lruPrev, capacity) }

    ghost predicate Threaded()
      reads this
    { |hashNext| == capacity && Threads(chains, table, hashNext) }

    /** The chains and the recency list hold the same entries, each key once, and no more than the capacity. */
    ghost predicate Sound()
      reads this
    {
      0 < capacity && Recent() && Threaded() && count <= capacity && |lru| <= count && Listed(entries, lru, chains, count)
    }

    /** Every cached block is the device's. */
    ghost predicate Fresh(x: nat)
      requires x in entries
      reads this
    { entries[x].key in device && device[entries[x].key] == entries[x].data }

    /** Every entry given out is in use. */
    ghost predicate Valid()
      reads this
    { Sound() && |lru| == count && forall x | x in entries :: Fresh(x) }

    constructor (size: nat, disk: Device)
      requires size > 0
      ensures Valid() && device == disk && capacity == size && entries == map[]
    {
      capacity := size;
      entries, lru, device, count := map[], [], disk, 0;
      lruNext, lruPrev, hashNext := seq(size, _ => NULL), seq(size, _ => NULL), seq(size, _ => NULL);
      lruHead, lruTail := NULL, NULL;
      chains, table := seq(CHAINS, _ => []), seq(CHAINS, _ => NULL);
    }

    ghost predicate Cached(k: Key)
      reads this
    { exists x :: x in entries && entries[x].key == k }

    /** `lru_remove`: the neighbours, or the ends, are joined. */
    method LruRemove(x: nat, ghost i: nat)
      requires Recent() && i < |lru| && lru[i] == x
      modifies this`lru, this`lruNext, this`lruPrev, this`lruHead, this`lruTail
      ensures Recent() && lru == old(lru)[..i] + old(lru)[i + 1..]
    {
      ghost var (l, nx, pv, head) := (lru, lruNext, lruPrev, lruHead);
      LinksAt(l, head, nx, pv, i);
      var (n, p) := (lruNext[x], lruPrev[x]);
      if p != NULL { lruNext := lruNext[p := n]; } else { lruHead := n; }
      if n != NULL { lruPrev := lruPrev[n := p]; } else { lruTail := p; }
      lruNext, lruPrev := lruNext[x := NULL], lruPrev[x := NULL];
      DelChain(l, head, nx, pv, i, lruHead, lruNext, lruPrev);
      lru := l[..i] + l[i + 1..];
    }

    /** `lru_add_head`. */
    method LruAddHead(x: nat)
      requires Recent() && x < capacity && x !in lru
      modifies this`lru, this`lruNext, this`lruPrev, this`lruHead, this`lruTail
      ensures Recent() && lru == [x] + old(lru)
    {
      ghost var (l, nx, pv, head) := (lru, lruNext, lruPrev, lruHead);
      lruNext, lruPrev := lruNext[x := lruHead], lruPrev[x := NULL];
      if lruHead != NULL { lruPrev := lruPrev[lruHead := x]; }
      lruHead := x;
      if lruTail == NULL { lruTail := x; }
      AddChain(l, head, nx, pv, x, lruNext, lruPrev);
      lru := [x] + l;
    }

    /** A used entry becomes the most recent one. */
    method Touch(x: nat)
      requires Recent() && x in lru
      modifies this`lru, this`lruNext, this`lruPrev, this`lruHead, this`lruTail
      ensures Recent() && lru == [x] + Without(old(lru), x)
    {
      ghost var i :| 0 <= i < |lru| && lru[i] == x;
      WithoutAt(lru, i);
      assert x !in Without(lru, x);
      LruRemove(x, i);
      LruAddHead(x);
    }

    /** `cache_lookup`: a hit becomes the most recent entry. */
    method Lookup(k: Key) returns (r: Option<nat>)
      requires Sound()
      modifies this`lru, this`lruNext, this`lruPrev, this`lruHead, this`lruTail
      ensures Sound() && (r.Some? <==> Cached(k)) && (r.Some? ==> r.value in entries && entries[r.value].key == k)
      ensures lru == match r case None => old(lru) case Some(x) => [x] + Without(old(lru), x)
      ensures |lru| == |old(lru)|
    {
      hide Ends, Threads;
      r := Find(k);
      if r.Some? {
        MoveFirst(lru, r.value);
        Touch(r.value);
      }
    }

    /** The walk along a hash chain. */
    method Find(k: Key) returns (r: Option<nat>)
      requires Threaded() && Hashed(entries, chains)
      ensures (r.Some? <==> Cached(k)) && (r.Some? ==> r.value in entries && entries[r.value].key == k)
    {
      var h := Hash(k);
      var curr := table[h];
      ghost var (i, chain) := (0, chains[h]);
      assert Thread(chain, table[h], hashNext);
      while curr != NULL
        invariant 0 <= i <= |chain| && curr == (if i < |chain| then chain[i] else NULL)
        invariant forall j | 0 <= j < i :: chain[j] in entries && entries[chain[j]].key != k
        decreases |chain| - i
      {
        assert InChain(chains, h, chain[i]);
        if entries[curr].key == k { return Some(curr); }
        assert i + 1 < |chain| ==> hashNext[chain[i]] == chain[i + 1];
        curr, i := hashNext[curr], i + 1;
      }
      assert forall x | x in entries && entries[x].key == k :: InChain(chains, h, x);
      return None;
    }

    /** The unlinking walk of an eviction: through the link that names the entry. */
    method Unhash(x: nat, h: nat) returns (ghost i: nat)
      requires Threaded() && h < |chains| && x in chains[h] && Distinct(chains[h])
      requires forall g | 0 <= g < |chains| && g != h :: forall y | y in chains[g] :: y !in chains[h]
      modifies this`chains, this`table, this`hashNext
      ensures Threaded() && i < |old(chains)[h]| && old(chains)[h][i] == x
      ensures chains == old(chains)[h := old(chains)[h][..i] + old(chains)[h][i + 1..]]
    {
      ghost var (l, nx, heads) := (chains[h], hashNext, table);
      assert Thread(l, table[h], hashNext);
      var (prev, curr) := (NULL, table[h]);
      i := 0;
      while curr != x
        invariant 0 <= i < |l| && curr == l[i] && prev == (if i == 0 then NULL else l[i - 1]) && x !in l[..i]
        decreases |l| - i
      {
        assert l[..i + 1] == l[..i] + [l[i]] && l[..|l|] == l;
        assert i + 1 < |l| && hashNext[l[i]] == l[i + 1];
        prev, curr, i := curr, hashNext[curr], i + 1;
      }
      if prev == NULL { table := table[h := hashNext[x]]; } else { hashNext := hashNext[prev := hashNext[x]]; }
      ThreadsOut(chains, heads, nx, h, i, table, hashNext);
      chains := chains[h := l[..i] + l[i + 1..]];
    }

    /** The least recently used entry leaves both lists. */
    method Evict() returns (victim: nat)
      requires Valid() && lru != []
      modifies this`lru, this`lruNext, this`lruPrev, this`lruHead, this`lruTail, this`chains, this`table, this`hashNext, this`entries
      ensures Sound() && (forall x | x in entries :: Fresh(x)) && victim in old(entries) && victim == old(lru)[|old(lru)| - 1]
      ensures entries == old(entries) - {victim} && lru == old(lru)[..|old(lru)| - 1]
    {
      hide Hashed, Distinct, Ends, Threads;
      LastIs(lru, lruHead, lruTail, lruNext, lruPrev, capacity);
      victim := lruTail;
      var h := Hash(entries[victim].key);
      ChainHolds(entries, chains, victim);
      ChainsApart(entries, chains, h);
      LastOut(lru);
      LruRemove(victim, |lru| - 1);
      assert lru == old(lru)[..|old(lru)| - 1];
      ghost var i := Unhash(victim, h);
      HashedOut(entries, old(chains), h, i);
      entries := entries - {victim};
    }

    /** A new entry goes to the front of its chain and of the recency list. */
    method Insert(x: nat, k: Key, data: Data)
      requires Sound() && (forall y | y in entries :: Fresh(y)) && x !in entries && x < count && !Cached(k) && |lru| < count
      requires Holds(device, k, data)
      modifies this`lru, this`lruNext, this`lruPrev, this`lruHead, this`lruTail, this`chains, this`table, this`hashNext, this`entries
      ensures Sound() && (forall y | y in entries :: Fresh(y)) && entries == old(entries)[x := Entry(k, data)] && lru == [x] + old(lru)
    {
      hide Hashed, Distinct, Ends, Threads;
      var h := Hash(k);
      assert x !in lru;
      FirstIn(lru, x);
      HashedIn(entries, chains, x, Entry(k, data));
      NotHashed(entries, chains, x);
      Enhash(x, h);
      entries := entries[x := Entry(k, data)];
      LruAddHead(x);
    }

    method Enhash(x: nat, h: nat)
      requires Threaded() && h < |chains| && x < capacity && forall g | 0 <= g < |chains| :: x !in chains[g]
      modifies this`chains, this`table, this`hashNext
      ensures Threaded() && chains == old(chains)[h := [x] + old(chains)[h]]
    {
      ghost var (nx, heads) := (hashNext, table);
      hashNext := hashNext[x := table[h]];
      table := table[h := x];
      ThreadsIn(chains, heads, nx, h, x, table, hashNext);
      chains := chains[h := [x] + chains[h]];
    }

    /** One block of `cached_read_blocks`. */
    method ReadBlock(k: Key, luck: Luck) returns (r: ReadEnd)
      requires Valid()
      modifies this`lru, this`lruNext, this`lruPrev, this`lruHead, this`lruTail, this`chains, this`table, this`hashNext, this`entries, this`count
      ensures Valid() && (r.Ok? ==> Holds(device, k, r.data))
      ensures r.IoError? <==> !old(Cached(k)) && luck.buffer && !(luck.answers && k in device)
      ensures r.NoMemory? <==> !old(Cached(k)) && (!luck.buffer || (luck.answers && k in device && old(count) < capacity && !luck.entry))
      ensures r.Ok? ==> lru != [] && lru[0] in entries && entries[lru[0]].key == k
      ensures !r.Ok? || old(Cached(k)) ==> entries == old(entries)
      ensures forall x | x in old(entries) && (|old(lru)| < capacity || x != old(lru)[|old(lru)| - 1]) ::
                x in entries && entries[x] == old(entries)[x]
    {
      hide Hashed, Ends, Threads;
      var hit := Lookup(k);
      if hit.Some? {
        return Ok(entries[hit.value].data);
      }
      if !luck.buffer { return NoMemory; }
      if !luck.answers || k !in device { return IoError; }
      if count < capacity && !luck.entry { return NoMemory; }
      Fill(k, device[k]);
      return Ok(device[k]);
    }

    /** A block read from its device takes a new entry, or the least recently used one when the cache is full. */
    method Fill(k: Key, data: Data)
      requires Valid() && !Cached(k) && Holds(device, k, data)
      modifies this`lru, this`lruNext, this`lruPrev, this`lruHead, this`lruTail, this`chains, this`table, this`hashNext, this`entries, this`count
      ensures Valid() && lru != [] && lru[0] in entries && entries[lru[0]].key == k
      ensures forall x | x in old(entries) && (|old(lru)| < capacity || x != old(lru)[|old(lru)| - 1]) ::
                x in entries && entries[x] == old(entries)[x]
    {
      hide Hashed, Ends, Threads;
      var x := count;
      if count >= capacity { x := Evict(); } else { count := count + 1; }
      Insert(x, k, data);
    }

    /** The blocks of a run, one by one; a block that cannot be read ends it. */
    method Read(dev: nat, start: nat, n: nat, luck: seq<Luck>) returns (ok: bool, out: seq<Data>)
      requires Valid() && |luck| == n
      modifies this`lru, this`lruNext, this`lruPrev, this`lruHead, this`lruTail, this`chains, this`table, this`hashNext, this`entries, this`count
      ensures Valid() && |out| <= n && (ok <==> |out| == n)
      ensures !ok ==> Key(dev, start + |out|) !in device || luck[|out|] != Luck(true, true, true)
      ensures forall i | 0 <= i < |out| :: Holds(device, Key(dev, start + i), out[i])
    {
      hide Sound;
      out := [];
      while |out| < n
        invariant |out| <= n && Valid() && forall i | 0 <= i < |out| :: Holds(device, Key(dev, start + i), out[i])
        decreases n - |out|
      {
        var r := ReadBlock(Key(dev, start + |out|), luck[|out|]);
        if !r.Ok? { return false, out; }
        out := out + [r.data];
      }
      return true, out;
    }

    /** The device after a successful write of a run of blocks. */
    static function Stored(d: Device, dev: nat, start: nat, blocks: seq<Data>): (r: Device)
      ensures forall k :: k in r <==> k in d || (k.dev == dev && start <= k.block < start + |blocks|)
      ensures forall k | k in r :: r[k] == if k.dev == dev && start <= k.block < start + |blocks| then blocks[k.block - start] else d[k]
    {
      if blocks == [] then d
      else Stored(d, dev, start, blocks[..|blocks| - 1])[Key(dev, start + |blocks| - 1) := blocks[|blocks| - 1]]
    }

    /** `cached_write_blocks`: the device first, then whatever of it is cached; a failed write changes nothing. */
    method Write(dev: nat, start: nat, blocks: seq<Data>, accepted: bool) returns (ok: bool)
      requires Valid()
      modifies this`device, this`lru, this`lruNext, this`lruPrev, this`lruHead, this`lruTail, this`entries
      ensures Valid() && ok == accepted
      ensures device == if ok then Stored(old(device), dev, start, blocks) else old(device)
    {
      hide Stored, Listed, Ends, Threads;
      if !accepted { return false; }
      device := Stored(device, dev, start, blocks);
      var i := 0;
      while i < |blocks|
        invariant 0 <= i <= |blocks| && Sound() && |lru| == count && device == Stored(old(device), dev, start, blocks)
        invariant forall x | x in entries :: Fresh(x) || Stale(x, dev, start + i, start + |blocks|)
      {
        assert device[Key(dev, start + i)] == blocks[i];
        hide Sound;
        Refresh(Key(dev, start + i), blocks[i]);
        i := i + 1;
      }
      return true;
    }

    /** Not yet rewritten. */
    ghost predicate Stale(x: nat, dev: nat, from: nat, to: nat)
      requires x in entries
      reads this
    { entries[x].key.dev == dev && from <= entries[x].key.block < to }

    /** The cached copy of a block, if any, takes its new contents. */
    method Refresh(k: Key, data: Data)
      requires Sound()
      modifies this`lru, this`lruNext, this`lruPrev, this`lruHead, this`lruTail, this`entries
      ensures Sound() && |lru| == |old(lru)| && entries.Keys == old(entries).Keys
      ensures forall x | x in entries :: entries[x] == if old(entries)[x].key == k then Entry(k, data) else old(entries)[x]
    {
      hide Ends, Threads, Listed;
      var hit := Lookup(k);
      if hit.Some? {
        SameListed(entries, lru, chains, count, hit.value, Entry(k, data));
        entries := entries[hit.value := Entry(k, data)];
      }
    }
  }

  // ---------------------------------------------------------------- links

  /** The neighbours of an entry, by its links. */
  lemma LinksAt(l: seq<nat>, head: int, nx: seq<int>, pv: seq<int>, i: nat)
    requires Chain(l, head, nx, pv) && i < |l|
    ensures l[i] < |nx| == |pv| && nx[l[i]] == (if i + 1 < |l| then l[i + 1] else NULL) && pv[l[i]] == (if i == 0 then NULL else l[i - 1])
  {
  }

  lemma LastIs(l: seq<nat>, head: int, tail: int, nx: seq<int>, pv: seq<int>, n: nat)
    requires l != [] && Ends(l, head, tail, nx, pv, n)
    ensures tail == l[|l| - 1] && l[|l| - 1] in l
  {
  }

  /** A chain no store touched. */
  lemma ThreadSame(l: seq<nat>, head: int, nx: seq<int>, nx': seq<int>)
    requires Thread(l, head, nx) && |nx'| == |nx| && forall x | x in l :: nx'[x] == nx[x]
    ensures Thread(l, head, nx')
  {
    assert forall i | 0 <= i < |l| :: l[i] in l;
  }

  lemma ThreadOut(l: seq<nat>, head: int, nx: seq<int>, i: nat, head': int, nx': seq<int>)
    requires Thread(l, head, nx) && Distinct(l) && i < |l|
    requires if i == 0 then head' == nx[l[0]] && nx' == nx else head' == head && nx' == nx[l[i - 1] := nx[l[i]]]
    ensures Thread(l[..i] + l[i + 1..], head', nx')
  {
    var r := l[..i] + l[i + 1..];
    assert forall k | 0 <= k < |r| :: r[k] == l[if k < i then k else k + 1];
    forall a, b | 0 <= a < b < |r| && b == a + 1 ensures nx'[r[a]] == r[b] {
      assert nx[l[a]] == l[b] && (b + 1 < |l| ==> nx[l[b]] == l[b + 1]);
    }
    assert i + 1 < |l| ==> nx[l[i]] == l[i + 1];
  }

  lemma ThreadsOut(chains: seq<seq<nat>>, table: seq<int>, nx: seq<int>, h: nat, i: nat, table': seq<int>, nx': seq<int>)
    requires Threads(chains, table, nx) && h < |chains| && i < |chains[h]| && Distinct(chains[h])
    requires forall g | 0 <= g < |chains| && g != h :: forall y | y in chains[g] :: y !in chains[h]
    requires forall k | 0 <= k < |chains[h]| :: chains[h][k] < |nx|
    requires if i == 0 then table' == table[h := nx[chains[h][0]]] && nx' == nx
             else table' == table && nx' == nx[chains[h][i - 1] := nx[chains[h][i]]]
    ensures Threads(chains[h := chains[h][..i] + chains[h][i + 1..]], table', nx')
  {
    assert Thread(chains[h], table[h], nx);
    ThreadOut(chains[h], table[h], nx, i, table'[h], nx');
    forall g | 0 <= g < |chains| && g != h ensures Thread(chains[g], table'[g], nx') {
      assert Thread(chains[g], table[g], nx);
      assert i > 0 ==> chains[h][i - 1] in chains[h];
      ThreadSame(chains[g], table[g], nx, nx');
    }
  }

  lemma ThreadIn(l: seq<nat>, head: int, nx: seq<int>, x: nat)
    requires Thread(l, head, nx) && x < |nx| && x !in l
    ensures Thread([x] + l, x, nx[x := head])
  {
    var r := [x] + l;
    assert forall k | 0 < k < |r| :: r[k] == l[k - 1] && r[k] != x;
    forall a, b | 0 <= a < b < |r| && b == a + 1 ensures nx[x := head][r[a]] == r[b] {
      if a > 0 { assert nx[l[a - 1]] == l[a]; }
    }
    assert l != [] ==> r[|r| - 1] == l[|l| - 1];
  }

  lemma ThreadsIn(chains: seq<seq<nat>>, table: seq<int>, nx: seq<int>, h: nat, x: nat, table': seq<int>, nx': seq<int>)
    requires Threads(chains, table, nx) && h < |chains| && x < |nx| && forall g | 0 <= g < |chains| :: x !in chains[g]
    requires table' == table[h := x] && nx' == nx[x := table[h]]
    ensures Threads(chains[h := [x] + chains[h]], table', nx')
  {
    assert Thread(chains[h], table[h], nx);
    ThreadIn(chains[h], table[h], nx, x);
    forall g | 0 <= g < |chains| && g != h ensures Thread(chains[g], table'[g], nx') {
      assert Thread(chains[g], table[g], nx);
      ThreadSame(chains[g], table[g], nx, nx');
    }
  }

  // ---------------------------------------------------------------- chains and entries

  /** An entry is on one chain only. */
  lemma ChainsApart(entries: map<nat, Entry>, chains: seq<seq<nat>>, h: nat)
    requires Hashed(entries, chains) && h < CHAINS
    ensures |chains| == CHAINS && Distinct(chains[h])
    ensures forall g | 0 <= g < |chains| && g != h :: forall y | y in chains[g] :: y !in chains[h]
  {
    forall g, y | 0 <= g < |chains| && g != h && y in chains[g] ensures y !in chains[h] {
      assert InChain(chains, g, y);
      assert InChain(chains, h, y) <==> y in entries && Hash(entries[y].key) == h;
    }
  }

  lemma NotHashed(entries: map<nat, Entry>, chains: seq<seq<nat>>, x: nat)
    requires Hashed(entries, chains) && x !in entries
    ensures |chains| == CHAINS && forall g | 0 <= g < |chains| :: x !in chains[g]
  {
    forall g | 0 <= g < |chains| ensures x !in chains[g] { assert !InChain(chains, g, x); }
  }

  lemma SameHashed(entries: map<nat, Entry>, chains: seq<seq<nat>>, x: nat, e: Entry)
    requires Hashed(entries, chains) && x in entries && e.key == entries[x].key
    ensures Hashed(entries[x := e], chains)
  {
    forall h: nat, y: nat | h < CHAINS ensures InChain(chains, h, y) <==> y in entries[x := e] && Hash(entries[x := e][y].key) == h {
      assert InChain(chains, h, y) <==> y in entries && Hash(entries[y].key) == h;
    }
  }

  /** Only the entry of its key changes. */
  lemma SameKeyed(entries: map<nat, Entry>, x: nat, e: Entry)
    requires Keyed(entries) && x in entries && e.key == entries[x].key
    ensures Keyed(entries[x := e])
    ensures forall y | y in entries :: entries[x := e][y] == if entries[y].key == e.key then e else entries[y]
  {
    var now := entries[x := e];
    assert forall y | y in now :: y in entries && now[y].key == entries[y].key;
  }

  lemma SameListed(entries: map<nat, Entry>, lru: seq<nat>, chains: seq<seq<nat>>, count: nat, x: nat, e: Entry)
    requires Listed(entries, lru, chains, count) && x in entries && e.key == entries[x].key
    ensures Listed(entries[x := e], lru, chains, count)
    ensures forall y | y in entries :: entries[x := e][y] == if entries[y].key == e.key then e else entries[y]
  {
    hide Hashed, Keyed, Distinct;
    SameHashed(entries, chains, x, e);
    SameKeyed(entries, x, e);
  }

  /** An entry is on the chain its key hashes to. */
  lemma ChainHolds(entries: map<nat, Entry>, chains: seq<seq<nat>>, x: nat)
    requires Hashed(entries, chains) && x in entries
    ensures |chains| == CHAINS && x in chains[Hash(entries[x].key)]
  {
    assert InChain(chains, Hash(entries[x].key), x);
  }

  lemma HashedOut(entries: map<nat, Entry>, chains: seq<seq<nat>>, h: nat, i: nat)
    requires Hashed(entries, chains) && h < CHAINS && i < |chains[h]|
    ensures Hashed(entries - {chains[h][i]}, chains[h := chains[h][..i] + chains[h][i + 1..]])
  {
    var (x, chains') := (chains[h][i], chains[h := chains[h][..i] + chains[h][i + 1..]]);
    ChainOut(chains[h], i);
    assert InChain(chains, h, x);
    forall g: nat, y: nat | g < CHAINS ensures InChain(chains', g, y) <==> y in entries - {x} && Hash((entries - {x})[y].key) == g {
      assert InChain(chains, g, y) <==> y in entries && Hash(entries[y].key) == g;
    }
  }

  lemma HashedIn(entries: map<nat, Entry>, chains: seq<seq<nat>>, x: nat, e: Entry)
    requires Hashed(entries, chains) && x !in entries
    ensures Hashed(entries[x := e], chains[Hash(e.key) := [x] + chains[Hash(e.key)]])
  {
    var (h, entries') := (Hash(e.key), entries[x := e]);
    var chains' := chains[h := [x] + chains[h]];
    assert !InChain(chains, h, x);
    FirstIn(chains[h], x);
    forall g: nat, y: nat | g < CHAINS ensures InChain(chains', g, y) <==> y in entries' && Hash(entries'[y].key) == g {
      assert InChain(chains, g, y) <==> y in entries && Hash(entries[y].key) == g;
    }
  }

  lemma LastOut(q: seq<nat>)
    requires Distinct(q) && q != []
    ensures Distinct(q[..|q| - 1]) && forall y :: y in q[..|q| - 1] <==> y in q && y != q[|q| - 1]
  {
    assert q == q[..|q| - 1] + [q[|q| - 1]];
  }

  lemma ChainOut(q: seq<nat>, i: nat)
    requires Distinct(q) && i < |q|
    ensures Distinct(q[..i] + q[i + 1..]) && forall y :: y in q[..i] + q[i + 1..] <==> y in q && y != q[i]
  {
    var r := q[..i] + q[i + 1..];
    assert forall k | 0 <= k < |r| :: r[k] == q[if k < i then k else k + 1];
    forall y | y in q && y != q[i] ensures y in r {
      var k :| 0 <= k < |q| && q[k] == y;
      assert r[if k < i then k else k - 1] == y;
    }
  }

  lemma FirstIn(q: seq<nat>, x: nat)
    requires Distinct(q) && x !in q
    ensures Distinct([x] + q) && forall y :: y in [x] + q <==> y == x || y in q
  {
    assert forall i | 0 < i < |[x] + q| :: ([x] + q)[i] == q[i - 1];
  }

  lemma MoveFirst(q: seq<nat>, x: nat)
    requires Distinct(q) && x in q
    ensures Distinct([x] + Without(q, x)) && |[x] + Without(q, x)| == |q| && forall y :: y in [x] + Without(q, x) <==> y in q
  {
    WithoutDistinct(q, x);
    WithoutLength(q, x);
  }
}
