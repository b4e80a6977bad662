/** The lock-order validator (kernel/core/lockdep.c): a bit matrix kept transitively closed in place. */
module Lockdep {
  import opened LockGraph

  datatype Verdict = Accepted | TooManyHeld | RecursiveLock | CycleFound

  /** The validator's state as a value: known locks, the closed relation, and what each core holds. */
  datatype State = State(nodes: seq<Lock>, matrix: Pairs, held: seq<seq<Lock>>)

  datatype Recorded = Recorded(nodes: seq<Lock>, matrix: Pairs, cycle: bool)

  /** `get_or_create_node`: a full table stops tracking new locks. */
  function Intern(nodes: seq<Lock>, l: Lock, maxNodes: nat): (r: seq<Lock>)
    ensures nodes <= r && (l in r <==> l in nodes || |nodes| < maxNodes)
  {
    if l in nodes || |nodes| >= maxNodes then nodes else nodes + [l]
  }

  /** Recording, lock by lock, that `n` is acquired while `hs` are held. */
  ghost function Record(nodes: seq<Lock>, c: Pairs, hs: seq<Lock>, n: Lock, maxNodes: nat): Recorded
    decreases |hs|
  {
    if hs == [] then Recorded(nodes, c, false)
    else
      var nodes' := Intern(nodes, hs[0], maxNodes);
      if hs[0] !in nodes' then Record(nodes', c, hs[1..], n, maxNodes)
      else if (n, hs[0]) in c then Recorded(nodes', c, true)
      else Record(nodes', if (hs[0], n) in c then c else Joined(c, hs[0], n), hs[1..], n, maxNodes)
  }

  ghost function Acquire(s: State, core: nat, l: Lock, maxNodes: nat, maxHeld: nat): (r: (Verdict, State))
    requires core < |s.held|
  {
    var hs := s.held[core];
    if |hs| >= maxHeld then (TooManyHeld, s)
    else if l in hs then (RecursiveLock, s)
    else
      var nodes := Intern(s.nodes, l, maxNodes);
      var after := s.held[core := hs + [l]];
      if l !in nodes then (Accepted, State(nodes, s.matrix, after))
      else
        var r := Record(nodes, s.matrix, hs, l, maxNodes);
        if r.cycle then (CycleFound, State(r.nodes, r.matrix, s.held))
        else (Accepted, State(r.nodes, r.matrix, after))
  }

  /** The pairs one acquisition makes visible: tracked locks held, then the new lock. */
  ghost function NewPairs(nodes: seq<Lock>, hs: seq<Lock>, n: Lock): Pairs {
    set h | h in hs && h in nodes :: (h, n)
  }

  /** Recording keeps an exact acyclic closure, and reports a cycle exactly when the new pairs have one. */
  lemma {:induction false} RecordExact(obs: Pairs, nodes: seq<Lock>, c: Pairs, hs: seq<Lock>, n: Lock, maxNodes: nat)
    requires Closes(obs, c) && Acyclic(obs) && n !in hs
    requires forall h | h in hs :: h in nodes || |nodes| >= maxNodes
    ensures var r := Record(nodes, c, hs, n, maxNodes);
            var more := obs + NewPairs(nodes, hs, n);
            && r.nodes == nodes
            && (r.cycle <==> !Acyclic(more))
            && (!r.cycle ==> Closes(more, r.matrix))
    decreases |hs|
  {
    var more := obs + NewPairs(nodes, hs, n);
    if hs == [] {
      assert more == obs;
    } else {
      var h := hs[0];
      assert forall x :: x in hs <==> x == h || x in hs[1..];
      if h !in nodes {
        assert NewPairs(nodes, hs, n) == NewPairs(nodes, hs[1..], n);
        RecordExact(obs, nodes, c, hs[1..], n, maxNodes);
      } else if (n, h) in c {
        assert (h, n) in NewPairs(nodes, hs, n);
        EdgeBackIsCycle(obs, c, more, h, n);
      } else {
        JoinCloses(obs, c, h, n);
        if (h, n) in c { JoinKnown(obs, c, h, n); }
        RecordExact(obs + {(h, n)}, nodes, Joined(c, h, n), hs[1..], n, maxNodes);
        assert obs + {(h, n)} + NewPairs(nodes, hs[1..], n) == more;
      }
    }
  }

  const MASK_BITS := 8

  function Mask(i: nat): (m: bv8)
    requires i < MASK_BITS
  {
    (1 as bv8) << i
  }

  /** Setting one bit of a byte sets that bit and no other. */
  lemma MaskMeaning(w: bv8, i: nat, j: nat)
    requires i < MASK_BITS && j < MASK_BITS
    ensures ((w | Mask(i)) & Mask(j) != 0) <==> (i == j || w & Mask(j) != 0)
  {
    assert Mask(0) == 1 && Mask(1) == 2 && Mask(2) == 4 && Mask(3) == 8;
    assert Mask(4) == 16 && Mask(5) == 32 && Mask(6) == 64 && Mask(7) == 128;
    assert i in {0, 1, 2, 3, 4, 5, 6, 7} && j in {0, 1, 2, 3, 4, 5, 6, 7};
  }

  class Validator {
    const maxNodes: nat
    const maxHeld: nat
    var nodes: seq<Lock>
    var held: seq<seq<Lock>>
    const graph: array2<bv8>
    ghost var matrix: Pairs  // the relation between locks that the bits spell

    predicate Edge(a: nat, b: nat)
      requires a < graph.Length0 && b < graph.Length1 * MASK_BITS
      reads graph
    {
      graph[a, b / MASK_BITS] & Mask(b % MASK_BITS) != 0
    }

    ghost predicate Valid()
      reads this, graph
    {
      && graph.Length0 == maxNodes == graph.Length1 * MASK_BITS
      && |nodes| <= maxNodes
      && (forall i, j | 0 <= i < j < |nodes| :: nodes[i] != nodes[j])
      && (forall a, b | 0 <= a < maxNodes && 0 <= b < maxNodes && Edge(a, b) :: a < |nodes| && b < |nodes|)
      && Spells(matrix)
    }

    ghost predicate Spells(c: Pairs)
      requires graph.Length0 == graph.Length1 * MASK_BITS && |nodes| <= graph.Length0
      reads this, graph
    {
      && (forall a, b | 0 <= a < |nodes| && 0 <= b < |nodes| :: (nodes[a], nodes[b]) in c <==> Edge(a, b))
      && (forall p | p in c :: p.0 in nodes && p.1 in nodes)
    }

    ghost function View(): State
      reads this
    {
      State(nodes, matrix, held)
    }

    constructor (cores: nat, maxNodes: nat, maxHeld: nat)
      requires maxNodes % MASK_BITS == 0
      ensures Valid() && fresh(graph) && this.maxNodes == maxNodes && this.maxHeld == maxHeld
      ensures View() == State([], {}, seq(cores, _ => []))
    {
      this.maxNodes, this.maxHeld := maxNodes, maxHeld;
      nodes, held, matrix := [], seq(cores, _ => []), {};
      graph := new bv8[maxNodes, maxNodes / MASK_BITS]((_, _) => 0);
    }

    method SetEdge(a: nat, b: nat)
      requires a < graph.Length0 && b < graph.Length1 * MASK_BITS
      modifies graph
      ensures forall x, y | 0 <= x < graph.Length0 && 0 <= y < graph.Length1 * MASK_BITS ::
                Edge(x, y) <==> old(Edge(x, y)) || (x == a && y == b)
    {
      graph[a, b / MASK_BITS] := graph[a, b / MASK_BITS] | Mask(b % MASK_BITS);
      forall x, y | 0 <= x < graph.Length0 && 0 <= y < graph.Length1 * MASK_BITS
        ensures Edge(x, y) <==> old(Edge(x, y)) || (x == a && y == b)
      {
        if x == a && y / MASK_BITS == b / MASK_BITS {
          MaskMeaning(old(graph[a, b / MASK_BITS]), b % MASK_BITS, y % MASK_BITS);
        }
      }
    }

    method GetOrCreateNode(l: Lock) returns (r: int)
      requires Valid()
      modifies this`nodes
      ensures Valid() && nodes == Intern(old(nodes), l, maxNodes)
      ensures if l in nodes then 0 <= r < |nodes| && nodes[r] == l else r == -1
    {
      var i := 0;
      while i < |nodes|
        invariant 0 <= i <= |nodes| && l !in nodes[..i]
      {
        if nodes[i] == l { return i; }
        i := i + 1;
      }
      if |nodes| >= maxNodes { return -1; }
      ghost var was := nodes;
      nodes := nodes + [l];
      r := |nodes| - 1;
      assert forall a, b | 0 <= a < |nodes| && 0 <= b < |nodes| && Edge(a, b) :: a < |was| && b < |was|;
      assert forall a | 0 <= a < |was| :: nodes[a] == was[a];
    }

    /** The in-place closure update: rows that reach `h`, then row `h` itself. */
    method Close(h: nat, n: nat)
      requires Valid() && h < |nodes| && n < |nodes| && h != n
      requires !Edge(n, h)
      modifies graph
      ensures graph.Length0 == maxNodes == graph.Length1 * MASK_BITS && |nodes| <= maxNodes
      ensures forall x, y | 0 <= x < maxNodes && 0 <= y < maxNodes ::
                Edge(x, y) <==> old(Edge(x, y)) || ((x == h || old(Edge(x, h))) && (y == n || old(Edge(n, y))))
    {
      SetEdge(h, n);
      var x := 0;
      while x < |nodes|
        invariant 0 <= x <= |nodes|
        invariant forall a, b | 0 <= a < maxNodes && 0 <= b < maxNodes ::
                    Edge(a, b) <==> old(Edge(a, b)) || (a == h && b == n)
                                    || (a < x && old(Edge(a, h)) && (b == n || old(Edge(n, b))))
      {
        if Edge(x, h) {
          SetEdge(x, n);
          var y := 0;
          while y < |nodes|
            invariant 0 <= y <= |nodes|
            invariant forall a, b | 0 <= a < maxNodes && 0 <= b < maxNodes ::
                        Edge(a, b) <==> old(Edge(a, b)) || (a == h && b == n)
                                        || (a < x && old(Edge(a, h)) && (b == n || old(Edge(n, b))))
                                        || (a == x && (b == n || (b < y && old(Edge(n, b)))))
          {
            if Edge(n, y) { SetEdge(x, y); }
            y := y + 1;
          }
        }
        x := x + 1;
      }
      var y := 0;
      while y < |nodes|
        invariant 0 <= y <= |nodes|
        invariant forall a, b | 0 <= a < maxNodes && 0 <= b < maxNodes ::
                    Edge(a, b) <==> old(Edge(a, b)) || (a == h && b == n)
                                    || (old(Edge(a, h)) && (b == n || old(Edge(n, b))))
                                    || (a == h && b < y && old(Edge(n, b)))
      {
        if Edge(n, y) { SetEdge(h, y); }
        y := y + 1;
      }
    }

    /** The same update seen as a relation between locks. */
    method CloseLocks(h: nat, n: nat)
      requires Valid() && h < |nodes| && n < |nodes| && h != n && !Edge(n, h)
      modifies graph, this`matrix
      ensures Valid() && matrix == Joined(old(matrix), nodes[h], nodes[n])
    {
      Close(h, n);
      matrix := Joined(matrix, nodes[h], nodes[n]);
      forall x, y ensures (x, y) in matrix <==>
            (x, y) in old(matrix) || ((x == nodes[h] || (x, nodes[h]) in old(matrix)) && (y == nodes[n] || (nodes[n], y) in old(matrix)))
      {
        JoinedMember(old(matrix), nodes[h], nodes[n], x, y);
      }
    }

    /** Some observed pairs the matrix is the exact, acyclic closure of. */
    ghost predicate Exact(obs: Pairs)
      requires Valid()
      reads this, graph
    {
      Closes(obs, matrix) && Acyclic(obs)
    }

    /** One turn of the recording loop: the node of a held lock, the check, the update. */
    method RecordOne(h: Lock, n: nat, ghost obs: Pairs) returns (cycle: bool, ghost more: Pairs)
      requires Valid() && Exact(obs) && n < |nodes| && nodes[n] != h
      modifies this`nodes, this`matrix, graph
      ensures Valid() && nodes == Intern(old(nodes), h, maxNodes)
      ensures cycle <==> h in nodes && (nodes[n], h) in old(matrix)
      ensures matrix == if cycle || h !in nodes || (h, nodes[n]) in old(matrix) then old(matrix)
                        else Joined(old(matrix), h, nodes[n])
      ensures !cycle ==> Exact(more)
    {
      more := obs;
      var k := GetOrCreateNode(h);
      if k < 0 { return false, obs; }
      if Edge(n, k) { return true, obs; }
      if !Edge(k, n) {
        JoinCloses(obs, matrix, h, nodes[n]);
        CloseLocks(k, n);
        more := obs + {(h, nodes[n])};
      }
      cycle := false;
    }

    /** The recording loop of `lockdep_acquire`. */
    method RecordHeld(hs: seq<Lock>, n: nat, ghost obs: Pairs) returns (cycle: bool)
      requires Valid() && Exact(obs) && n < |nodes| && nodes[n] !in hs
      modifies this`nodes, this`matrix, graph
      ensures Valid()
      ensures Recorded(nodes, matrix, cycle) == Record(old(nodes), old(matrix), hs, old(nodes)[n], maxNodes)
    {
      ghost var l := nodes[n];
      ghost var o := obs;
      var i := 0;
      while i < |hs|
        invariant 0 <= i <= |hs| && Valid() && n < |nodes| && nodes[n] == l && Exact(o)
        invariant Record(nodes, matrix, hs[i..], l, maxNodes) == Record(old(nodes), old(matrix), hs, l, maxNodes)
      {
        assert hs[i..][0] == hs[i] && hs[i..][1..] == hs[i + 1..];
        cycle, o := RecordOne(hs[i], n, o);
        if cycle { return; }
        i := i + 1;
      }
      cycle := false;
    }

    /** `lockdep_acquire`; any verdict but `Accepted` is a panic. */
    method AcquireLock(core: nat, l: Lock, ghost obs: Pairs) returns (v: Verdict)
      requires Valid() && core < |held| && Exact(obs)
      modifies this`nodes, this`held, this`matrix, graph
      ensures Valid()
      ensures (v, View()) == Acquire(old(View()), core, l, maxNodes, maxHeld)
    {
      hide Closes, Acyclic, Record;
      var hs := held[core];
      if |hs| >= maxHeld { return TooManyHeld; }
      var i := 0;
      while i < |hs|
        invariant 0 <= i <= |hs| && l !in hs[..i]
      {
        if hs[i] == l { return RecursiveLock; }
        i := i + 1;
      }
      var n := GetOrCreateNode(l);
      if n >= 0 {
        var cycle := RecordHeld(hs, n, obs);
        if cycle { return CycleFound; }
      }
      held := held[core := hs + [l]];
      v := Accepted;
    }

    /** `lockdep_release`: drops the last occurrence, keeping the order of the rest. */
    method ReleaseLock(core: nat, l: Lock) returns (found: bool)
      requires Valid() && core < |held|
      modifies this`held
      ensures Valid() && found == (l in old(held)[core])
      ensures held == old(held)[core := Without(old(held)[core], l)]
    {
      var hs := held[core];
      var i := |hs| - 1;
      while i >= 0
        invariant -1 <= i < |hs| && forall j | i < j < |hs| :: hs[j] != l
      {
        if hs[i] == l {
          held := held[core := hs[..i] + hs[i + 1..]];
          WithoutAt(hs, l, i);
          return true;
        }
        i := i - 1;
      }
      WithoutNone(hs, l);
      found := false;
    }
  }

  /** A sequence with the last occurrence of `l` removed. */
  function Without(hs: seq<Lock>, l: Lock): (r: seq<Lock>) {
    if hs == [] then []
    else if hs[|hs| - 1] == l then hs[..|hs| - 1]
    else Without(hs[..|hs| - 1], l) + [hs[|hs| - 1]]
  }

  lemma {:induction false} WithoutAt(hs: seq<Lock>, l: Lock, i: nat)
    requires i < |hs| && hs[i] == l && forall j | i < j < |hs| :: hs[j] != l
    ensures Without(hs, l) == hs[..i] + hs[i + 1..]
    decreases |hs|
  {
    var k := |hs| - 1;
    if i < k {
      var front := hs[..k];
      WithoutAt(front, l, i);
      assert front[..i] + front[i + 1..] + [hs[k]] == hs[..i] + hs[i + 1..];
    }
  }

  lemma {:induction false} WithoutNone(hs: seq<Lock>, l: Lock)
    requires l !in hs
    ensures Without(hs, l) == hs
  {
    if hs != [] { WithoutNone(hs[..|hs| - 1], l); }
  }
}
