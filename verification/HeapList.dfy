/** The heap's address-ordered free list (kernel/mm/heap.c), as a value. */
module HeapList {

  const HEADER := 32
  const FOOTER := 16

  /** A block: its header's address, and the bytes behind the header. */
  datatype Block = Block(addr: nat, size: nat)

  function End(b: Block): nat { b.addr + HEADER + b.size }

  /** Strictly address-ordered, no two blocks touching. */
  ghost predicate Good(l: seq<Block>) { forall i, j | 0 <= i < j < |l| :: End(l[i]) < l[j].addr }

  ghost predicate In(b: Block, x: nat) { b.addr <= x < End(b) }

  ghost predicate Occupied(l: seq<Block>, x: nat) { exists i :: 0 <= i < |l| && In(l[i], x) }

  /** The bytes of the blocks, headers included. */
  function Bytes(l: seq<Block>): nat { if l == [] then 0 else HEADER + l[0].size + Bytes(l[1..]) }

  lemma {:induction false} BytesJoin(a: seq<Block>, b: seq<Block>)
    ensures Bytes(a + b) == Bytes(a) + Bytes(b)
  {
    if a == [] {
      assert a + b == b;
    } else {
      assert (a + b)[1..] == a[1..] + b;
      BytesJoin(a[1..], b);
    }
  }

  /** How many blocks lie below an address. */
  function Below(l: seq<Block>, a: nat): (n: nat)
    ensures n <= |l| && (forall i | 0 <= i < n :: l[i].addr < a) && (n < |l| ==> l[n].addr >= a)
  { if l == [] || l[0].addr >= a then 0 else 1 + Below(l[1..], a) }

  /** Two touching blocks as one: the second header becomes space. */
  function Merge(a: Block, b: Block): Block { Block(a.addr, a.size + HEADER + b.size) }

  /** A block in front of the ones above it, merged with the first if they touch. */
  function Front(b: Block, right: seq<Block>): (r: seq<Block>)
    ensures r != [] && r[0].addr == b.addr
  { if right != [] && End(b) == right[0].addr then [Merge(b, right[0])] + right[1..] else [b] + right }

  /** The blocks below in front of it, the last merged with it if they touch. */
  function Back(left: seq<Block>, s: seq<Block>): seq<Block>
    requires s != []
  {
    if left != [] && End(left[|left| - 1]) == s[0].addr then left[..|left| - 1] + ([Merge(left[|left| - 1], s[0])] + s[1..])
    else left + s
  }

  /** `heap_insert_free`: into its place, merged with the successor, then with the predecessor, when they touch. */
  function Insert(l: seq<Block>, b: Block): seq<Block> {
    var i := Below(l, b.addr);
    Back(l[..i], Front(b, l[i..]))
  }

  /** The new block lies clear of every free one. */
  ghost predicate Clear(l: seq<Block>, b: Block) { forall i | 0 <= i < |l| :: End(l[i]) <= b.addr || End(b) <= l[i].addr }

  ghost predicate AllBefore(l: seq<Block>, a: nat) { forall k | 0 <= k < |l| :: End(l[k]) <= a }

  ghost predicate AllAfter(l: seq<Block>, a: nat) { forall k | 0 <= k < |l| :: a <= l[k].addr }

  /** The list splits around the place of insertion. */
  lemma Around(l: seq<Block>, b: Block)
    requires Good(l) && Clear(l, b)
    ensures var i := Below(l, b.addr); Good(l[..i]) && Good(l[i..]) && AllBefore(l[..i], b.addr) && AllAfter(l[i..], End(b))
  {
    var i := Below(l, b.addr);
    forall k | i <= k < |l| ensures End(b) <= l[k].addr {
      assert k > i ==> End(l[i]) < l[k].addr;
    }
    assert forall k | 0 <= k < |l[i..]| :: l[i..][k] == l[i + k];
  }

  lemma FrontIsGood(b: Block, right: seq<Block>)
    requires Good(right) && AllAfter(right, End(b))
    ensures Good(Front(b, right))
  {
    var r := Front(b, right);
    if right != [] && End(b) == right[0].addr {
      assert forall k | 0 < k < |r| :: r[k] == right[k];
      assert End(r[0]) == End(right[0]);
    } else {
      assert forall k | 0 < k < |r| :: r[k] == right[k - 1];
      assert forall k | 0 < k < |right| :: End(right[0]) < right[k].addr;
    }
  }

  lemma BackIsGood(left: seq<Block>, s: seq<Block>)
    requires Good(left) && Good(s) && s != [] && AllBefore(left, s[0].addr)
    ensures Good(Back(left, s))
  {
    var r := Back(left, s);
    var n := |left|;
    if left != [] && End(left[n - 1]) == s[0].addr {
      assert forall k | 0 <= k < n - 1 :: r[k] == left[k] && End(r[k]) < left[n - 1].addr;
      assert r[n - 1].addr == left[n - 1].addr && End(r[n - 1]) == End(s[0]);
      assert forall k | n <= k < |r| :: r[k] == s[k - n + 1];
    } else {
      assert forall k | 0 <= k < n - 1 :: End(left[k]) < left[n - 1].addr;
      assert forall k | 0 <= k < n :: r[k] == left[k] && End(left[k]) < s[0].addr;
      assert forall k | n <= k < |r| :: r[k] == s[k - n];
    }
  }

  /** Insertion keeps the list ordered with no two blocks touching. */
  lemma InsertIsGood(l: seq<Block>, b: Block)
    requires Good(l) && Clear(l, b)
    ensures Good(Insert(l, b))
  {
    var i := Below(l, b.addr);
    Around(l, b);
    FrontIsGood(b, l[i..]);
    BackIsGood(l[..i], Front(b, l[i..]));
  }

  lemma FrontBytes(b: Block, right: seq<Block>)
    ensures Bytes(Front(b, right)) == HEADER + b.size + Bytes(right)
  {
    var r := Front(b, right);
    assert r[1..] == if right != [] && End(b) == right[0].addr then right[1..] else right;
  }

  lemma BackBytes(left: seq<Block>, s: seq<Block>)
    requires s != []
    ensures Bytes(Back(left, s)) == Bytes(left) + Bytes(s)
  {
    var n := |left|;
    if left != [] && End(left[n - 1]) == s[0].addr {
      var m := [Merge(left[n - 1], s[0])] + s[1..];
      assert m[1..] == s[1..] && left == left[..n - 1] + [left[n - 1]];
      BytesJoin(left[..n - 1], m);
      BytesJoin(left[..n - 1], [left[n - 1]]);
    } else {
      BytesJoin(left, s);
    }
  }

  /** Insertion adds the block's bytes, no more and no fewer. */
  lemma InsertBytes(l: seq<Block>, b: Block)
    ensures Bytes(Insert(l, b)) == Bytes(l) + HEADER + b.size
  {
    var i := Below(l, b.addr);
    FrontBytes(b, l[i..]);
    BackBytes(l[..i], Front(b, l[i..]));
    assert l == l[..i] + l[i..];
    BytesJoin(l[..i], l[i..]);
  }

  lemma OccupiedJoin(a: seq<Block>, b: seq<Block>, x: nat)
    ensures Occupied(a + b, x) <==> Occupied(a, x) || Occupied(b, x)
  {
    if Occupied(a, x) { var i :| 0 <= i < |a| && In(a[i], x); assert In((a + b)[i], x); }
    if Occupied(b, x) { var i :| 0 <= i < |b| && In(b[i], x); assert In((a + b)[|a| + i], x); }
  }

  lemma OccupiedHead(s: seq<Block>, x: nat)
    requires s != []
    ensures Occupied(s, x) <==> In(s[0], x) || Occupied(s[1..], x)
  {
    assert s == [s[0]] + s[1..];
    OccupiedJoin([s[0]], s[1..], x);
    assert [s[0]][0] == s[0];
  }

  lemma FrontOccupies(b: Block, right: seq<Block>, x: nat)
    ensures Occupied(Front(b, right), x) <==> In(b, x) || Occupied(right, x)
  {
    var r := Front(b, right);
    OccupiedHead(r, x);
    if right != [] { OccupiedHead(right, x); }
    assert r[1..] == if right != [] && End(b) == right[0].addr then right[1..] else right;
  }

  lemma BackOccupies(left: seq<Block>, s: seq<Block>, x: nat)
    requires s != []
    ensures Occupied(Back(left, s), x) <==> Occupied(left, x) || Occupied(s, x)
  {
    var n := |left|;
    if left != [] && End(left[n - 1]) == s[0].addr {
      var m := [Merge(left[n - 1], s[0])] + s[1..];
      assert m[1..] == s[1..] && left == left[..n - 1] + [left[n - 1]];
      OccupiedJoin(left[..n - 1], m, x);
      OccupiedJoin(left[..n - 1], [left[n - 1]], x);
      OccupiedHead(m, x);
      OccupiedHead(s, x);
      assert [left[n - 1]][0] == left[n - 1];
    } else {
      OccupiedJoin(left, s, x);
    }
  }

  /** Insertion makes exactly the block's addresses free. */
  lemma InsertOccupies(l: seq<Block>, b: Block, x: nat)
    ensures Occupied(Insert(l, b), x) <==> Occupied(l, x) || In(b, x)
  {
    var i := Below(l, b.addr);
    FrontOccupies(b, l[i..], x);
    BackOccupies(l[..i], Front(b, l[i..]), x);
    assert l == l[..i] + l[i..];
    OccupiedJoin(l[..i], l[i..], x);
  }
}
