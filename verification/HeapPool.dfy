/** The heap as it lies in memory (kernel/mm/heap.c): headers linked through `next`, found by address. */
module HeapPool {
  import opened Common
  import opened HeapList
  import opened HeapSafety

  datatype Magic = Allocated | Freed

  datatype Header = Header(size: nat, next: nat, magic: Magic)

  const NULL := 0

  type Memory = map<nat, Header>

  function AddrAt(l: seq<Block>, i: nat): nat { if i < |l| then l[i].addr else NULL }

  ghost predicate NodeOk(mem: Memory, l: seq<Block>, i: nat) {
    i < |l| && l[i].addr != NULL && l[i].addr in mem && mem[l[i].addr] == Header(l[i].size, AddrAt(l, i + 1), Freed)
  }

  /** Following `next` from `head` finds the blocks of `l`. */
  ghost predicate Linked(mem: Memory, head: nat, l: seq<Block>) {
    head == AddrAt(l, 0) && forall i: nat | i < |l| :: NodeOk(mem, l, i)
  }

  ghost predicate Ascending(l: seq<Block>) { forall i, j | 0 <= i < j < |l| :: l[i].addr < l[j].addr }

  /** A header outside the list may change freely. */
  lemma LinkedElsewhere(mem: Memory, mem': Memory, head: nat, l: seq<Block>)
    requires Linked(mem, head, l) && forall i | 0 <= i < |l| :: l[i].addr in mem' && l[i].addr in mem && mem'[l[i].addr] == mem[l[i].addr]
    ensures Linked(mem', head, l)
  {
    forall i: nat | i < |l| ensures NodeOk(mem', l, i) { assert NodeOk(mem, l, i); }
  }

  /** The headers after a block is linked in at place `i`. */
  ghost predicate Inserted(mem: Memory, head: nat, l: seq<Block>, i: nat, b: Block, mem': Memory, head': nat)
    requires i <= |l|
  {
    && b.addr in mem' && mem'[b.addr] == Header(b.size, AddrAt(l, i), Freed) && head' == (if i == 0 then b.addr else head)
    && (forall k | 0 <= k < |l| && k != i - 1 :: l[k].addr in mem && l[k].addr in mem' && mem'[l[k].addr] == mem[l[k].addr])
    && (i > 0 ==> l[i - 1].addr in mem && l[i - 1].addr in mem' && mem'[l[i - 1].addr] == mem[l[i - 1].addr].(next := b.addr))
  }

  lemma InsertedBy(mem: Memory, head: nat, l: seq<Block>, i: nat, b: Block, mem': Memory, head': nat)
    requires Linked(mem, head, l) && Ascending(l) && i <= |l| && forall k | 0 <= k < |l| :: l[k].addr != b.addr
    requires var m := mem[b.addr := Header(b.size, AddrAt(l, i), Freed)];
             if i == 0 then mem' == m && head' == b.addr
             else head' == head && l[i - 1].addr in m && mem' == m[l[i - 1].addr := m[l[i - 1].addr].(next := b.addr)]
    ensures Inserted(mem, head, l, i, b, mem', head')
  {
    forall k | 0 <= k < |l| && k != i - 1 ensures l[k].addr in mem && l[k].addr in mem' && mem'[l[k].addr] == mem[l[k].addr] {
      LinkedAt(mem, head, l, k);
      if i > 0 { AscendAt(l, k, i - 1); }
    }
  }

  /** A block is linked in at place `i`. */
  lemma LinkInsert(mem: Memory, head: nat, l: seq<Block>, i: nat, b: Block, mem': Memory, head': nat)
    requires Linked(mem, head, l) && i <= |l| && b.addr != NULL && Inserted(mem, head, l, i, b, mem', head')
    ensures Linked(mem', head', l[..i] + [b] + l[i..])
  {
    var r := l[..i] + [b] + l[i..];
    forall k: nat | k < |r| ensures NodeOk(mem', r, k) {
      if k < i {
        assert NodeOk(mem, l, k) && r[k] == l[k] && AddrAt(r, k + 1) == if k + 1 == i then b.addr else AddrAt(l, k + 1);
      } else if k > i {
        assert NodeOk(mem, l, k - 1) && r[k] == l[k - 1] && AddrAt(r, k + 1) == AddrAt(l, k);
      } else {
        assert AddrAt(r, k + 1) == AddrAt(l, i);
      }
    }
  }

  /** Block `i` swallows its successor. */
  lemma LinkMerge(mem: Memory, head: nat, l: seq<Block>, i: nat, mem': Memory)
    requires Linked(mem, head, l) && Ascending(l) && i + 1 < |l|
    requires mem' == mem[l[i].addr := Header(l[i].size + HEADER + l[i + 1].size, AddrAt(l, i + 2), Freed)]
    ensures Linked(mem', head, l[..i] + [Merge(l[i], l[i + 1])] + l[i + 2..])
  {
    var r := l[..i] + [Merge(l[i], l[i + 1])] + l[i + 2..];
    forall k: nat | k < |r| ensures NodeOk(mem', r, k) {
      if k < i {
        assert NodeOk(mem, l, k) && r[k] == l[k] && AddrAt(r, k + 1) == AddrAt(l, k + 1);
        AscendAt(l, k, i);
      } else if k > i {
        assert NodeOk(mem, l, k + 1) && r[k] == l[k + 1] && AddrAt(r, k + 1) == AddrAt(l, k + 2);
        AscendAt(l, k + 1, i);
      } else {
        assert NodeOk(mem, l, i);
        assert AddrAt(r, k + 1) == AddrAt(l, i + 2);
      }
    }
  }

  /** Block `i` is taken out. */
  lemma LinkRemove(mem: Memory, head: nat, l: seq<Block>, i: nat, mem': Memory, head': nat)
    requires Linked(mem, head, l) && Ascending(l) && i < |l|
    requires if i == 0 then mem' == mem && head' == AddrAt(l, 1)
             else head' == head && l[i - 1].addr in mem && mem' == mem[l[i - 1].addr := mem[l[i - 1].addr].(next := AddrAt(l, i + 1))]
    ensures Linked(mem', head', Dropped(l, i))
  {
    var r := Dropped(l, i);
    forall k: nat | k < |r| ensures NodeOk(mem', r, k) {
      if k < i {
        assert NodeOk(mem, l, k) && r[k] == l[k] && AddrAt(r, k + 1) == if k + 1 == i then AddrAt(l, i + 1) else AddrAt(l, k + 1);
        if k != i - 1 { AscendAt(l, k, i - 1); }
      } else {
        assert NodeOk(mem, l, k + 1) && r[k] == l[k + 1] && AddrAt(r, k + 1) == AddrAt(l, k + 2);
        if i > 0 { AscendAt(l, k + 1, i - 1); }
      }
    }
  }

  /** Merging with the successor, as an edit of the whole list. */
  lemma FrontByEdit(left: seq<Block>, b: Block, right: seq<Block>)
    ensures var (i, l) := (|left|, left + [b] + right);
            if right != [] && End(b) == right[0].addr then l[..i] + [Merge(l[i], l[i + 1])] + l[i + 2..] == left + Front(b, right)
            else l == left + Front(b, right)
  {
    var (i, l) := (|left|, left + [b] + right);
    if right != [] && End(b) == right[0].addr {
      assert l[..i] == left && l[i] == b && l[i + 1] == right[0] && l[i + 2..] == right[1..];
    }
  }

  /** Merging with the predecessor likewise. */
  lemma BackByEdit(left: seq<Block>, s: seq<Block>)
    requires s != []
    ensures var (i, l) := (|left|, left + s);
            if left != [] && End(left[i - 1]) == s[0].addr then l[..i - 1] + [Merge(l[i - 1], l[i])] + l[i + 1..] == Back(left, s)
            else l == Back(left, s)
  {
    var (i, l) := (|left|, left + s);
    if left != [] && End(left[i - 1]) == s[0].addr {
      assert l[..i - 1] == left[..i - 1] && l[i - 1] == left[i - 1] && l[i] == s[0] && l[i + 1..] == s[1..];
    }
  }

  lemma LinkedAt(mem: Memory, head: nat, l: seq<Block>, i: nat)
    requires Linked(mem, head, l) && i < |l|
    ensures l[i].addr != NULL && l[i].addr in mem && mem[l[i].addr] == Header(l[i].size, AddrAt(l, i + 1), Freed)
  {
    assert NodeOk(mem, l, i);
  }

  lemma AscendAt(l: seq<Block>, i: nat, j: nat)
    requires Ascending(l) && i < |l| && j < |l| && i != j
    ensures l[i].addr != l[j].addr
  {
  }

  lemma AscendInsert(l: seq<Block>, i: nat, b: Block)
    requires Ascending(l) && i <= |l| && (forall k | 0 <= k < i :: l[k].addr < b.addr) && (forall k | i <= k < |l| :: b.addr < l[k].addr)
    ensures Ascending(l[..i] + [b] + l[i..])
  {
    var r := l[..i] + [b] + l[i..];
    assert forall k | 0 <= k < |r| :: r[k] == if k < i then l[k] else if k == i then b else l[k - 1];
  }

  lemma AscendMerge(l: seq<Block>, i: nat)
    requires Ascending(l) && i + 1 < |l|
    ensures Ascending(l[..i] + [Merge(l[i], l[i + 1])] + l[i + 2..])
  {
    var r := l[..i] + [Merge(l[i], l[i + 1])] + l[i + 2..];
    assert forall k | 0 <= k < |r| :: r[k].addr == l[if k <= i then k else k + 1].addr;
  }

  lemma GoodAscends(l: seq<Block>)
    requires Good(l)
    ensures Ascending(l)
  {
  }

  class Pool {
    var mem: Memory
    var head: nat
    var total: int
    var used: int
    /** The addresses whose redzone footer is intact. */
    var redzones: set<nat>
    ghost var list: seq<Block>
    ghost var live: seq<Block>
    ghost var pool: seq<Block>

    ghost function View(): Heap
      reads this
    { Heap(list, live, pool, total, used) }

    ghost predicate Valid()
      reads this
    { Inv(View()) && Linked(mem, head, list) && LiveOk(mem, live) }

    /** Before `heap_init` there is nothing. */
    constructor ()
      ensures Valid() && View() == Heap([], [], [], 0, 0)
    {
      hide Inv, Linked, LiveOk;
      mem, head, total, used, redzones := map[], NULL, 0, 0, {};
      list, live, pool := [], [], [];
      new;
      EmptyInv(View());
      EmptyLinks(mem, list);
    }

    /** `heap_init`: one expansion by a page's worth. */
    method Init(region: nat)
      requires Valid() && pool == [] && region != NULL && region % PAGE_SIZE == 0
      modifies this`mem, this`head, this`list, this`pool, this`total
      ensures Valid() && View() == Expand(old(View()), region, PagesFor(PAGE_SIZE, 1))
    {
      hide Inv, Linked, LiveOk, Expand, HeapSafety.Fresh, PagesFor;
      var pages := RoundPages(PAGE_SIZE);
      EmptyFresh(View(), region, pages);
      Grow(region, pages);
    }

    /** The stores that put a block between `prev` and `next`. */
    method LinkIn(a: nat, prev: nat, next: nat, ghost i: nat)
      requires a != NULL && a in mem && Linked(mem, head, list) && i <= |list|
      requires next == AddrAt(list, i) && prev == (if i == 0 then NULL else list[i - 1].addr)
      requires (forall k | 0 <= k < i :: list[k].addr < a) && (forall k | i <= k < |list| :: a < list[k].addr) && Ascending(list)
      modifies this`mem, this`head, this`list
      ensures list == old(list)[..i] + [Block(a, old(mem)[a].size)] + old(list)[i..] && Linked(mem, head, list) && Ascending(list)
      ensures mem.Keys == old(mem).Keys && (forall x | x in mem && x != a && (x != prev || i == 0) :: mem[x] == old(mem)[x])
      ensures i > 0 ==> prev in mem && mem[prev].magic == Freed
    {
      ghost var (m0, h0, l, b) := (mem, head, list, Block(a, mem[a].size));
      hide Linked, Ascending, Inserted;
      AscendInsert(l, i, b);
      if i > 0 { LinkedAt(mem, head, l, i - 1); }
      mem := mem[a := Header(mem[a].size, next, Freed)];
      if prev != NULL {
        mem := mem[prev := mem[prev].(next := a)];
      } else {
        head := a;
      }
      InsertedBy(m0, h0, l, i, b, mem, head);
      LinkInsert(m0, h0, l, i, b, mem, head);
      list := l[..i] + [b] + l[i..];
    }

    /** The block at `x` absorbs the one at `y` behind it. */
    method Absorb(x: nat, y: nat, ghost i: nat)
      requires Linked(mem, head, list) && Ascending(list) && i + 1 < |list| && x == list[i].addr && y == list[i + 1].addr
      modifies this`mem, this`list
      ensures list == old(list)[..i] + [Merge(old(list)[i], old(list)[i + 1])] + old(list)[i + 2..] && Linked(mem, head, list) && Ascending(list)
      ensures mem.Keys == old(mem).Keys && x in mem && mem[x].magic == Freed && forall z | z in mem && z != x :: mem[z] == old(mem)[z]
    {
      ghost var (m0, l) := (mem, list);
      hide Ascending, Linked;
      LinkedAt(mem, head, l, i);
      LinkedAt(mem, head, l, i + 1);
      AscendMerge(l, i);
      mem := mem[x := Header(mem[x].size + HEADER + mem[y].size, mem[y].next, mem[x].magic)];
      LinkMerge(m0, head, l, i, mem);
      list := l[..i] + [Merge(l[i], l[i + 1])] + l[i + 2..];
    }

    /** Where a block belongs: the last header below it and the first above. */
    method FindPlace(a: nat) returns (prev: nat, next: nat, ghost i: nat)
      requires Linked(mem, head, list)
      ensures i <= |list| && next == AddrAt(list, i) && prev == (if i == 0 then NULL else list[i - 1].addr)
      ensures (forall k | 0 <= k < i :: list[k].addr < a) && (i < |list| ==> list[i].addr >= a) && (i > 0 ==> prev != NULL)
      ensures i < |list| ==> next != NULL
    {
      prev, next, i := NULL, head, 0;
      while next != NULL && next < a
        invariant i <= |list| && next == AddrAt(list, i) && prev == (if i == 0 then NULL else list[i - 1].addr)
        invariant forall k | 0 <= k < i :: list[k].addr < a
        decreases |list| - i
      {
        assert NodeOk(mem, list, i);
        prev, next, i := next, mem[next].next, i + 1;
      }
      assert i > 0 ==> NodeOk(mem, list, i - 1);
      assert i < |list| ==> NodeOk(mem, list, i);
    }

    /** The successor joins the block if it begins where the block ends. */
    method MergeNext(a: nat, next: nat, ghost left: seq<Block>, ghost b: Block, ghost right: seq<Block>)
      requires Linked(mem, head, list) && Ascending(list) && list == left + [b] + right && a == b.addr && next == AddrAt(right, 0)
      modifies this`mem, this`list
      ensures list == left + Front(b, right) && Linked(mem, head, list) && Ascending(list)
      ensures mem.Keys == old(mem).Keys && a in mem && mem[a].magic == Freed && forall z | z in mem && z != a :: mem[z] == old(mem)[z]
    {
      hide Linked, Ascending, Front;
      ghost var i := |left|;
      assert list[i] == b && (right != [] ==> list[i + 1] == right[0]);
      LinkedAt(mem, head, list, i);
      if right != [] { LinkedAt(mem, head, list, i + 1); }
      FrontByEdit(left, b, right);
      if next != NULL && a + HEADER + mem[a].size == next { Absorb(a, next, i); }
    }

    /** The block joins its predecessor if that ends where the block begins. */
    method MergePrev(prev: nat, a: nat, ghost left: seq<Block>, ghost s: seq<Block>)
      requires Linked(mem, head, list) && Ascending(list) && list == left + s && s != [] && a == s[0].addr
      requires prev == if left == [] then NULL else left[|left| - 1].addr
      modifies this`mem, this`list
      ensures list == Back(left, s) && Linked(mem, head, list)
      ensures mem.Keys == old(mem).Keys && (forall z | z in mem && (z != prev || left == []) :: mem[z] == old(mem)[z])
      ensures left != [] ==> prev in mem && mem[prev].magic == Freed
    {
      hide Linked, Ascending, Back;
      ghost var i := |left|;
      assert list[i] == s[0] && (i > 0 ==> list[i - 1] == left[i - 1]);
      if i > 0 { LinkedAt(mem, head, list, i - 1); }
      BackByEdit(left, s);
      if prev != NULL && prev + HEADER + mem[prev].size == a { Absorb(prev, a, i - 1); }
    }

    /** `heap_insert_free`. */
    method InsertFree(a: nat)
      requires a != NULL && a in mem && Linked(mem, head, list) && Good(list) && Clear(list, Block(a, mem[a].size))
      modifies this`mem, this`head, this`list
      ensures list == Insert(old(list), Block(a, old(mem)[a].size)) && Linked(mem, head, list)
      ensures mem.Keys == old(mem).Keys && Untouched(old(mem), mem, old(list), a)
    {
      ghost var (l, b) := (list, Block(a, mem[a].size));
      var prev, next;
      ghost var i;
      prev, next, i := FindPlace(a);
      PlaceIs(l, b, i);
      GoodAscends(l);
      hide Good, Clear, Front, Back, Linked, Ascending, Below;
      ghost var (left, right) := (l[..i], l[i..]);
      LinkIn(a, prev, next, i);
      MergeNext(a, next, left, b, right);
      MergePrev(prev, a, left, Front(b, right));
      assert i > 0 ==> l[i - 1].addr == prev && OnList(l, prev);
    }

    // ---------------------------------------------------------------- freeing

    /** `heap_free` of the block whose header is at `a`: the panics leave the heap as it is. */
    method Release(a: nat, ghost i: nat) returns (r: FreeEnd)
      requires Valid() && (IsLive(live, a) ==> i < |live| && live[i].addr == a)
      modifies this`mem, this`head, this`list, this`live, this`used
      ensures Valid() && (r == Done <==> IsLive(old(live), a) && a + HEADER + old(mem)[a].size in redzones)
      ensures r == Overflow <==> IsLive(old(live), a) && a + HEADER + old(mem)[a].size !in redzones
      ensures r == DoubleFree <==> a in old(mem) && old(mem)[a].magic == Freed
      ensures r == Done ==> View() == Free(old(View()), i)
      ensures r != Done ==> View() == old(View()) && mem == old(mem)
    {
      if a !in mem { return Foreign; }
      if mem[a].magic == Freed { return DoubleFree; }
      assert IsLive(live, a);
      if a + HEADER + mem[a].size !in redzones { return Overflow; }
      GiveBack(a, i);
      return Done;
    }

    method GiveBack(a: nat, ghost i: nat)
      requires Valid() && i < |live| && live[i].addr == a
      modifies this`mem, this`head, this`list, this`live, this`used
      ensures Valid() && View() == Free(old(View()), i)
    {
      hide Inv, Good, Linked, Clear, Insert, LiveOk, Dropped;
      ghost var (m0, l0, v0) := (mem, list, View());
      FreeKeepsInv(v0, i);
      LiveSeparate(v0, i);
      LiveAt(mem, live, i);
      used := used - (mem[a].size + HEADER);
      mem := mem[a := mem[a].(size := mem[a].size + FOOTER)];
      ghost var m1 := mem;
      ResizeKeepsLinks(m0, m1, head, l0, a, live[i]);
      assert Block(a, m1[a].size) == v0.live[i];
      InsertFree(a);
      live := Dropped(live, i);
      FreeKeepsLive(m0, m1, mem, l0, a, v0.live, i);
    }

    // ---------------------------------------------------------------- allocating

    /** The first-fit search: the block, the header before it, and its place. */
    method Search(need: nat) returns (prev: nat, curr: nat, ghost i: nat)
      requires Linked(mem, head, list)
      ensures i == FirstFit(list, need) && curr == AddrAt(list, i) && prev == (if i == 0 then NULL else list[i - 1].addr)
      ensures (curr == NULL <==> i == |list|) && (i > 0 ==> prev != NULL)
    {
      hide Linked;
      prev, curr, i := NULL, head, 0;
      assert head == AddrAt(list, 0) by { HeadIs(mem, head, list); }
      while curr != NULL
        invariant i <= |list| && curr == AddrAt(list, i) && prev == (if i == 0 then NULL else list[i - 1].addr) && (i > 0 ==> prev != NULL)
        invariant forall k | 0 <= k < i :: list[k].size < need
        decreases |list| - i
      {
        LinkedAt(mem, head, list, i);
        if mem[curr].size >= need {
          FirstFitIs(list, need, i);
          return;
        }
        prev, curr, i := curr, mem[curr].next, i + 1;
      }
      if i < |list| { LinkedAt(mem, head, list, i); }
      FirstFitIs(list, need, i);
    }

    /** The block leaves the list. */
    method Unlink(prev: nat, curr: nat, ghost i: nat)
      requires Linked(mem, head, list) && Ascending(list) && i < |list| && curr == list[i].addr && prev == (if i == 0 then NULL else list[i - 1].addr)
      modifies this`mem, this`head, this`list
      ensures list == Dropped(old(list), i) && Linked(mem, head, list)
      ensures mem.Keys == old(mem).Keys && curr in mem && mem[curr].size == old(mem)[curr].size && Relinked(old(mem), mem, old(list))
    {
      hide Linked, Ascending;
      ghost var (m0, h0, l) := (mem, head, list);
      LinkedAt(mem, head, l, i);
      if i > 0 { LinkedAt(mem, head, l, i - 1); }
      if prev != NULL {
        mem := mem[prev := mem[prev].(next := mem[curr].next)];
      } else {
        head := mem[curr].next;
      }
      LinkRemove(m0, h0, l, i, mem, head);
      list := Dropped(l, i);
      assert i > 0 ==> OnList(l, prev);
    }

    /** What a large enough block leaves over goes back on the list. */
    method PutRemainder(curr: nat, b: Block, need: nat)
      requires Linked(mem, head, list) && Good(list) && Clear(list, b) && LiveOk(mem, live) && Splits(b, need) && curr == b.addr
      requires curr in mem && mem[curr].size == b.size && forall i | 0 <= i < |live| :: Clear(list, live[i]) && Apart(b, live[i])
      modifies this`mem, this`head, this`list
      ensures list == Insert(old(list), Remainder(b, need)) && Linked(mem, head, list) && LiveOk(mem, live) && curr in mem
    {
      hide Linked, Good, Clear, LiveOk, Insert;
      var split := curr + HEADER + need;
      ghost var (m0, rem, l) := (mem, Remainder(b, need), list);
      RemainderClear(l, b, need);
      mem := mem[split := Header(mem[curr].size - need - HEADER, NULL, Freed)];
      StoreKeepsLinks(m0, head, l, rem, mem[split]);
      StoreKeepsLive(m0, rem, mem[split], live);
      ghost var m1 := mem;
      InsertFree(split);
      InsertKeepsAllLive(m1, mem, l, split, live);
    }

    /** Taking the block the search found. */
    method TakeAt(prev: nat, curr: nat, ghost i: nat, need: nat)
      requires Valid() && i < |list| && list[i].size >= need >= FOOTER && need % 16 == 0
      requires curr == list[i].addr && prev == (if i == 0 then NULL else list[i - 1].addr)
      modifies this`mem, this`head, this`list, this`live, this`used, this`redzones
      ensures Valid() && View() == Take(old(View()), i, need)
    {
      ghost var v0 := View();
      hide Inv, Good, Linked, Clear, LiveOk, Insert, Dropped, Relinked, Ascending;
      TakeKeepsInv(v0, i, need);
      TakeFacts(v0, i, need);
      ghost var (m0, b, h0) := (mem, list[i], head);
      LinkedAt(mem, head, list, i);
      Unlink(prev, curr, i);
      RelinkKeepsLive(m0, mem, v0.free, live);
      if mem[curr].size >= need + HEADER + 16 {
        PutRemainder(curr, Block(curr, mem[curr].size), need);
        Grant(curr, need);
      } else {
        Grant(curr, mem[curr].size);
      }
    }

    /** The header says ALLOCATED, the footer goes behind the payload, the bytes count as used. */
    method Grant(curr: nat, full: nat)
      requires Linked(mem, head, list) && LiveOk(mem, live) && curr in mem && curr != NULL && full >= FOOTER && Clear(list, Block(curr, full))
      requires forall k | 0 <= k < |live| :: live[k].addr != curr
      modifies this`mem, this`live, this`used, this`redzones
      ensures Linked(mem, head, list) && LiveOk(mem, live) && live == old(live) + [Block(curr, full)] && used == old(used) + full - FOOTER + HEADER
      ensures curr + HEADER + (full - FOOTER) in redzones
    {
      hide Linked, LiveOk, Clear;
      ghost var m0 := mem;
      var size := full - FOOTER;
      redzones := redzones + {curr + HEADER + size};
      mem := mem[curr := Header(size, NULL, Allocated)];
      StoreKeepsLinks(m0, head, list, Block(curr, full), mem[curr]);
      GrantLive(m0, Block(curr, full), live);
      used := used + size + HEADER;
      live := live + [Block(curr, full)];
    }

    /** A region from the page allocator becomes one free block. */
    method Grow(region: nat, pages: nat)
      requires Valid() && region != NULL && pages > 0 && Fresh(View(), region, pages)
      modifies this`mem, this`head, this`list, this`pool, this`total
      ensures Valid() && View() == Expand(old(View()), region, pages)
    {
      hide Inv, Good, Linked, Clear, LiveOk, Insert, HeapSafety.Fresh;
      ghost var (v0, m0, b) := (View(), mem, Block(region, pages * PAGE_SIZE - HEADER));
      ExpandKeepsInv(v0, region, pages);
      GrowFacts(v0, region, pages);
      mem := mem[region := Header(pages * PAGE_SIZE - HEADER, NULL, Freed)];
      StoreKeepsLinks(m0, head, list, b, mem[region]);
      StoreKeepsLive(m0, b, mem[region], live);
      ghost var m1 := mem;
      InsertFree(region);
      InsertKeepsAllLive(m1, mem, v0.free, region, live);
      total := total + pages * PAGE_SIZE;
      pool := pool + [b];
    }

    /** The rounding loop of `heap_expand`. */
    method RoundPages(size: nat) returns (pages: nat)
      ensures pages == PagesFor(size, 1)
    {
      var total' := size + HEADER + FOOTER;
      var needed := (total' + PAGE_SIZE - 1) / PAGE_SIZE;
      pages := 1;
      while pages < needed
        invariant pages > 0 && PagesFor(size, pages) == PagesFor(size, 1)
        decreases needed - pages
      {
        assert pages * PAGE_SIZE < total';
        pages := 2 * pages;
      }
      assert pages * PAGE_SIZE >= total';
    }

    method TryAlloc(need: nat) returns (r: Option<nat>)
      requires Valid() && need >= FOOTER && need % 16 == 0
      modifies this`mem, this`head, this`list, this`live, this`used, this`redzones
      ensures Valid()
      ensures var (v, i) := (old(View()), FirstFit(old(list), need));
              if i < |v.free| then r == Some(v.free[i].addr) && View() == Take(v, i, need) else r == None && View() == v
    {
      var prev, curr;
      ghost var i;
      prev, curr, i := Search(need);
      if curr == NULL { return None; }
      TakeAt(prev, curr, i, need);
      return Some(curr);
    }

    /** `heap_malloc` past the slab sizes: search, and at most once grow and search again. */
    method Alloc(size: nat, region: Option<nat>) returns (r: Option<nat>)
      requires Valid() && (region.Some? ==> region.value != NULL && Fresh(View(), region.value, PagesFor(Align(size), 1)))
      modifies this
      ensures Valid() && (View(), r) == Malloc(old(View()), size, region)
    {
      if size == 0 || size > MAX_ALLOC { return None; }
      var need := Align(size) + FOOTER;
      hide Inv, Linked, LiveOk, Take, Expand, PagesFor, HeapSafety.Fresh, Align;
      r := TryAlloc(need);
      if r.Some? || region.None? { return; }
      r := GrowAndAlloc(size, region.value);
    }

    method GrowAndAlloc(size: nat, region: nat) returns (r: Option<nat>)
      requires Valid() && region != NULL && Fresh(View(), region, PagesFor(Align(size), 1))
      modifies this
      ensures Valid()
      ensures var e := Expand(old(View()), region, PagesFor(Align(size), 1));
              var i := FirstFit(e.free, Align(size) + FOOTER);
              i < |e.free| && r == Some(e.free[i].addr) && View() == Take(e, i, Align(size) + FOOTER)
    {
      hide Inv, Linked, LiveOk, Take, Expand, PagesFor, HeapSafety.Fresh, Align;
      var pages := RoundPages(Align(size));
      ghost var v := View();
      Grow(region, pages);
      ExpandFits(v, region, Align(size));
      r := TryAlloc(Align(size) + FOOTER);
    }
  }

  ghost predicate IsLive(live: seq<Block>, a: nat) { exists i :: 0 <= i < |live| && live[i].addr == a }

  /** A header says ALLOCATED exactly when its block is live, and then gives the payload's size. */
  ghost predicate LiveOk(mem: Memory, live: seq<Block>) {
    && (forall i | 0 <= i < |live| :: live[i].size >= FOOTER && live[i].addr != NULL && live[i].addr in mem
                                      && mem[live[i].addr].magic == Allocated && mem[live[i].addr].size == live[i].size - FOOTER)
    && (forall a | a in mem && mem[a].magic == Allocated :: IsLive(live, a))
  }

  /** Nothing is known and nothing given out. */
  lemma EmptyInv(h: Heap)
    requires h == Heap([], [], [], 0, 0)
    ensures Inv(h)
  {
  }

  lemma EmptyLinks(mem: Memory, l: seq<Block>)
    requires mem == map[] && l == []
    ensures Linked(mem, NULL, l) && LiveOk(mem, l)
  {
  }

  lemma EmptyFresh(h: Heap, addr: nat, pages: nat)
    requires h.pool == [] && addr % PAGE_SIZE == 0 && pages > 0
    ensures HeapSafety.Fresh(h, addr, pages)
  {
  }

  datatype FreeEnd = Done | Foreign | DoubleFree | Overflow

  /** Live blocks lie apart from the others and clear of the free list. */
  lemma LiveSeparate(h: Heap, i: nat)
    requires Inv(h) && i < |h.live|
    ensures Good(h.free)
    ensures forall k | 0 <= k < |h.live| :: Clear(h.free, h.live[k]) && (k != i ==> h.live[k].addr != h.live[i].addr)
  {
  }

  lemma LiveAt(mem: Memory, live: seq<Block>, i: nat)
    requires LiveOk(mem, live) && i < |live|
    ensures live[i].size >= FOOTER && live[i].addr != NULL && live[i].addr in mem
    ensures mem[live[i].addr].magic == Allocated && mem[live[i].addr].size == live[i].size - FOOTER
  {
  }

  lemma ResizeKeepsLinks(mem: Memory, mem': Memory, head: nat, l: seq<Block>, a: nat, b: Block)
    requires Linked(mem, head, l) && Clear(l, b) && b.addr == a && mem'.Keys == mem.Keys && forall x | x in mem && x != a :: mem'[x] == mem[x]
    ensures Linked(mem', head, l)
  {
    forall i | 0 <= i < |l| ensures l[i].addr in mem' && l[i].addr in mem && mem'[l[i].addr] == mem[l[i].addr] {
      assert NodeOk(mem, l, i);
    }
    LinkedElsewhere(mem, mem', head, l);
  }

  lemma FreeKeepsLive(m0: Memory, m1: Memory, m2: Memory, l: seq<Block>, a: nat, live: seq<Block>, i: nat)
    requires LiveOk(m0, live) && i < |live| && live[i].addr == a && m1.Keys == m0.Keys && m2.Keys == m0.Keys
    requires (forall x | x in m0 && x != a :: m1[x] == m0[x]) && Untouched(m1, m2, l, a)
    requires forall k | 0 <= k < |live| :: Clear(l, live[k]) && (k != i ==> live[k].addr != a)
    ensures LiveOk(m2, Dropped(live, i))
  {
    var r := Dropped(live, i);
    forall k | 0 <= k < |r| ensures r[k].addr in m2 && m2[r[k].addr] == m0[r[k].addr] && r[k] == live[if k < i then k else k + 1] {
      InsertKeepsLive(m1, m2, l, a, live, if k < i then k else k + 1);
    }
    forall x | x in m2 && m2[x].magic == Allocated ensures IsLive(r, x) {
      assert IsLive(live, x);
      var k :| 0 <= k < |live| && live[k].addr == x;
      assert r[if k < i then k else k - 1] == live[k];
    }
  }

  lemma GrowFacts(h: Heap, region: nat, pages: nat)
    requires Inv(h) && HeapSafety.Fresh(h, region, pages)
    ensures Good(h.free) && Clear(h.free, Block(region, pages * PAGE_SIZE - HEADER)) && pages > 0
    ensures forall k | 0 <= k < |h.live| :: Clear(h.free, h.live[k]) && h.live[k].addr != region
  {
    FreshMeans(h, region, pages);
    FreshClear(h, Block(region, pages * PAGE_SIZE - HEADER));
    forall k | 0 <= k < |h.live| ensures h.live[k].addr != region { LiveApart(h, Block(region, pages * PAGE_SIZE - HEADER), k); }
  }

  lemma TakeFacts(h: Heap, i: nat, need: nat)
    requires Inv(h) && i < |h.free| && h.free[i].size >= need >= FOOTER
    ensures var (b, rest) := (h.free[i], Dropped(h.free, i));
            && Ascending(h.free) && Good(rest) && Clear(rest, b)
            && (forall k | 0 <= k < |h.live| :: Clear(h.free, h.live[k]) && Clear(rest, h.live[k]) && Apart(b, h.live[k]) && h.live[k].addr != b.addr)
            && Clear(Take(h, i, need).free, Granted(b, need))
  {
    DroppedGood(h.free, i);
    GoodAscends(h.free);
    TakeClear(h, i, need, |h.live|);
  }

  lemma RelinkKeepsLive(mem: Memory, mem': Memory, l: seq<Block>, live: seq<Block>)
    requires LiveOk(mem, live) && mem'.Keys == mem.Keys && Relinked(mem, mem', l) && forall i | 0 <= i < |live| :: Clear(l, live[i])
    ensures LiveOk(mem', live)
  {
    forall i | 0 <= i < |live| ensures mem'[live[i].addr] == mem[live[i].addr] {
      assert forall k | 0 <= k < |l| :: l[k].addr != live[i].addr;
    }
  }

  lemma StoreKeepsLinks(mem: Memory, head: nat, l: seq<Block>, b: Block, h: Header)
    requires Linked(mem, head, l) && Clear(l, b)
    ensures Linked(mem[b.addr := h], head, l)
  {
    forall i | 0 <= i < |l| ensures l[i].addr in mem && l[i].addr != b.addr { assert NodeOk(mem, l, i); }
    LinkedElsewhere(mem, mem[b.addr := h], head, l);
  }

  lemma StoreKeepsLive(mem: Memory, b: Block, h: Header, live: seq<Block>)
    requires LiveOk(mem, live) && h.magic == Freed && forall i | 0 <= i < |live| :: live[i].addr != b.addr
    ensures LiveOk(mem[b.addr := h], live)
  {
  }

  lemma InsertKeepsAllLive(mem: Memory, mem': Memory, l: seq<Block>, a: nat, live: seq<Block>)
    requires LiveOk(mem, live) && mem'.Keys == mem.Keys && Untouched(mem, mem', l, a)
    requires forall i | 0 <= i < |live| :: Clear(l, live[i]) && live[i].addr != a
    ensures LiveOk(mem', live)
  {
    forall i | 0 <= i < |live| ensures mem'[live[i].addr] == mem[live[i].addr] { InsertKeepsLive(mem, mem', l, a, live, i); }
  }

  lemma GrantLive(mem: Memory, g: Block, live: seq<Block>)
    requires LiveOk(mem, live) && g.size >= FOOTER && g.addr != NULL && forall i | 0 <= i < |live| :: live[i].addr != g.addr
    ensures LiveOk(mem[g.addr := Header(g.size - FOOTER, NULL, Allocated)], live + [g])
  {
    var (mem', live') := (mem[g.addr := Header(g.size - FOOTER, NULL, Allocated)], live + [g]);
    forall a | a in mem' && mem'[a].magic == Allocated ensures IsLive(live', a) {
      if a == g.addr {
        assert live'[|live|].addr == a;
      } else {
        assert IsLive(live, a);
        var i :| 0 <= i < |live| && live[i].addr == a;
        assert live'[i].addr == a;
      }
    }
  }

  /** Only headers on the list may differ, and they say FREED. */
  ghost predicate Relinked(mem: Memory, mem': Memory, l: seq<Block>) {
    forall x | x in mem && x in mem' :: mem'[x] == mem[x] || (mem'[x].magic == Freed && OnList(l, x))
  }

  lemma HeadIs(mem: Memory, head: nat, l: seq<Block>)
    requires Linked(mem, head, l)
    ensures head == AddrAt(l, 0)
  {
  }

  lemma {:induction false} FirstFitIs(l: seq<Block>, need: nat, i: nat)
    requires i <= |l| && (forall k | 0 <= k < i :: l[k].size < need) && (i < |l| ==> l[i].size >= need)
    ensures FirstFit(l, need) == i
  {
  }

  /** Putting a block on the free list disturbs no live header. */
  lemma InsertKeepsLive(mem: Memory, mem': Memory, l: seq<Block>, a: nat, live: seq<Block>, i: nat)
    requires i < |live| && live[i].addr != a && Clear(l, live[i]) && live[i].addr in mem && live[i].addr in mem' && Untouched(mem, mem', l, a)
    ensures mem'[live[i].addr] == mem[live[i].addr]
  {
    var x := live[i].addr;
    assert forall k | 0 <= k < |l| :: l[k].addr != x;
  }

  ghost predicate OnList(l: seq<Block>, x: nat) { exists i :: 0 <= i < |l| && l[i].addr == x }

  /** Only the inserted block's header and those on the list may differ, and they say FREED. */
  ghost predicate Untouched(mem: Memory, mem': Memory, l: seq<Block>, a: nat) {
    && a in mem' && mem'[a].magic == Freed
    && forall x | x in mem && x in mem' && x != a :: mem'[x] == mem[x] || (mem'[x].magic == Freed && OnList(l, x))
  }

  /** The search stops where the block belongs. */
  lemma PlaceIs(l: seq<Block>, b: Block, i: nat)
    requires Good(l) && Clear(l, b) && i <= |l| && (forall k | 0 <= k < i :: l[k].addr < b.addr) && (i < |l| ==> l[i].addr >= b.addr)
    ensures i == Below(l, b.addr) && forall k | i <= k < |l| :: b.addr < l[k].addr
  {
    var n := Below(l, b.addr);
    Around(l, b);
    assert forall k | 0 <= k < |l[n..]| :: l[n..][k] == l[n + k];
  }
}
