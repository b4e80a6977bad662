/** Lock-order relations and their transitive closure. */
module LockGraph {

  type Lock = int
  type Pairs = set<(Lock, Lock)>

  /** A non-empty walk from `a` to `b` along observed pairs. */
  ghost predicate Walk(obs: Pairs, w: seq<Lock>, a: Lock, b: Lock) {
    |w| >= 2 && w[0] == a && w[|w| - 1] == b && forall i | 0 <= i < |w| - 1 :: (w[i], w[i + 1]) in obs
  }

  ghost predicate Path(obs: Pairs, a: Lock, b: Lock) {
    exists w :: Walk(obs, w, a, b)
  }

  /** `c` is exactly the transitive closure of `obs`. */
  ghost predicate Closes(obs: Pairs, c: Pairs) {
    forall a, b :: (a, b) in c <==> Path(obs, a, b)
  }

  ghost predicate Acyclic(obs: Pairs) {
    forall a :: !Path(obs, a, a)
  }

  /** What the validator's matrix becomes when `h` is seen held while `n` is acquired. */
  ghost function Joined(c: Pairs, h: Lock, n: Lock): Pairs {
    var before := {h} + set p | p in c && p.1 == h :: p.0;
    var later := {n} + set p | p in c && p.0 == n :: p.1;
    c + set x, y | x in before && y in later :: (x, y)
  }

  lemma JoinedMember(c: Pairs, h: Lock, n: Lock, x: Lock, y: Lock)
    ensures (x, y) in Joined(c, h, n) <==>
            (x, y) in c || ((x == h || (x, h) in c) && (y == n || (n, y) in c))
  {
    var before := {h} + set p | p in c && p.1 == h :: p.0;
    var later := {n} + set p | p in c && p.0 == n :: p.1;
    assert x in before <==> x == h || (x, h) in c by {
      if (x, h) in c { assert (x, h).0 == x; }
    }
    assert y in later <==> y == n || (n, y) in c by {
      if (n, y) in c { assert (n, y).1 == y; }
    }
  }

  lemma FirstEdge(obs: Pairs, w: seq<Lock>, a: Lock, b: Lock)
    requires Walk(obs, w, a, b)
    ensures (a, w[1]) in obs
  {
    assert (w[0], w[0 + 1]) in obs;
  }

  lemma EmptyCloses()
    ensures Closes({}, {}) && Acyclic({})
  {
    var none: Pairs := {};
    forall a, b ensures !Path(none, a, b) {
      if Path(none, a, b) {
        var w :| Walk(none, w, a, b);
        FirstEdge(none, w, a, b);
      }
    }
  }

  lemma EdgeIsPath(obs: Pairs, a: Lock, b: Lock)
    requires (a, b) in obs
    ensures Path(obs, a, b)
  {
    assert Walk(obs, [a, b], a, b);
  }

  lemma PathJoin(obs: Pairs, a: Lock, b: Lock, c: Lock)
    requires Path(obs, a, b) && Path(obs, b, c)
    ensures Path(obs, a, c)
  {
    var v :| Walk(obs, v, a, b);
    var w :| Walk(obs, w, b, c);
    var u := v + w[1..];
    forall i | 0 <= i < |u| - 1 ensures (u[i], u[i + 1]) in obs {
      if i < |v| - 1 {
      } else {
        assert u[i] == w[i - |v| + 1];
        assert u[i + 1] == w[i - |v| + 2];
      }
    }
    assert Walk(obs, u, a, c);
  }

  lemma PathGrows(obs: Pairs, more: Pairs, a: Lock, b: Lock)
    requires obs <= more && Path(obs, a, b)
    ensures Path(more, a, b)
  {
    var w :| Walk(obs, w, a, b);
    assert Walk(more, w, a, b);
  }

  /** Every walk over the enlarged pairs is already in the joined matrix. */
  lemma {:induction false} WalkIsJoined(obs: Pairs, c: Pairs, h: Lock, n: Lock, w: seq<Lock>, x: Lock, y: Lock)
    requires Closes(obs, c) && Acyclic(obs) && h != n && (n, h) !in c
    requires Walk(obs + {(h, n)}, w, x, y)
    ensures (x, y) in Joined(c, h, n)
    decreases |w|
  {
    var z := w[1];
    assert (x, z) in obs + {(h, n)};
    JoinedMember(c, h, n, x, y);
    if (x, z) in obs {
      EdgeIsPath(obs, x, z);
      assert (x, z) in c;
    }
    if |w| > 2 {
      assert Walk(obs + {(h, n)}, w[1..], z, y);
      WalkIsJoined(obs, c, h, n, w[1..], z, y);
      JoinedMember(c, h, n, z, y);
      if (x, z) in obs {
        if (z, y) in c { PathJoin(obs, x, z, y); }
        if (z, h) in c { PathJoin(obs, x, z, h); }
      }
    }
  }

  /** Everything in the joined matrix is a walk over the enlarged pairs. */
  lemma JoinedIsPath(obs: Pairs, c: Pairs, h: Lock, n: Lock, x: Lock, y: Lock)
    requires Closes(obs, c) && (x, y) in Joined(c, h, n)
    ensures Path(obs + {(h, n)}, x, y)
  {
    var more := obs + {(h, n)};
    JoinedMember(c, h, n, x, y);
    if (x, y) in c {
      PathGrows(obs, more, x, y);
    } else {
      EdgeIsPath(more, h, n);
      if x != h {
        PathGrows(obs, more, x, h);
        PathJoin(more, x, h, n);
      }
      if y != n {
        PathGrows(obs, more, n, y);
        PathJoin(more, x, n, y);
      }
    }
  }

  /** One join keeps the matrix an exact, acyclic closure, provided the validator saw no edge back. */
  lemma JoinCloses(obs: Pairs, c: Pairs, h: Lock, n: Lock)
    requires Closes(obs, c) && Acyclic(obs) && h != n && (n, h) !in c
    ensures Closes(obs + {(h, n)}, Joined(c, h, n)) && Acyclic(obs + {(h, n)})
  {
    var more := obs + {(h, n)};
    forall x, y ensures (x, y) in Joined(c, h, n) <==> Path(more, x, y) {
      if Path(more, x, y) {
        var w :| Walk(more, w, x, y);
        WalkIsJoined(obs, c, h, n, w, x, y);
      }
      if (x, y) in Joined(c, h, n) { JoinedIsPath(obs, c, h, n, x, y); }
    }
    forall x ensures !Path(more, x, x) {
      JoinedMember(c, h, n, x, x);
      if (x, x) in Joined(c, h, n) && x != h && x != n {
        PathJoin(obs, n, x, h);
      }
    }
  }

  /** A pair the matrix already has adds nothing. */
  lemma JoinKnown(obs: Pairs, c: Pairs, h: Lock, n: Lock)
    requires Closes(obs, c) && (h, n) in c
    ensures Joined(c, h, n) == c
  {
    forall x, y | (x, y) in Joined(c, h, n) ensures (x, y) in c {
      JoinedMember(c, h, n, x, y);
      if (x, h) in c { PathJoin(obs, x, h, n); }
      if (n, y) in c && (x, n) in c { PathJoin(obs, x, n, y); }
      if (n, y) in c && x == h { PathJoin(obs, h, n, y); }
    }
  }

  /** An edge back is exactly a cycle through the new pair. */
  lemma EdgeBackIsCycle(obs: Pairs, c: Pairs, more: Pairs, h: Lock, n: Lock)
    requires Closes(obs, c) && (n, h) in c && obs <= more && (h, n) in more
    ensures !Acyclic(more)
  {
    PathGrows(obs, more, n, h);
    EdgeIsPath(more, h, n);
    PathJoin(more, n, h, n);
  }
}
