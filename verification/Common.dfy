/** What several modules need: an optional value, and queues in which nothing stands twice. */
module Common {

  datatype Option<+T> = None | Some(value: T)

  ghost predicate Distinct<T>(q: seq<T>) { forall i, j | 0 <= i < j < |q| :: q[i] != q[j] }

  /** The queue with every occurrence of `t` unlinked. */
  function Without(q: seq<nat>, t: nat): (r: seq<nat>)
    ensures forall x :: x in r <==> x in q && x != t
  {
    if q == [] then [] else if q[0] == t then Without(q[1..], t) else [q[0]] + Without(q[1..], t)
  }

  lemma TailKeeps<T>(q: seq<T>)
    requires Distinct(q) && q != []
    ensures Distinct(q[1..]) && q[0] !in q[1..] && forall x :: x in q <==> x == q[0] || x in q[1..]
  {
    assert forall i | 0 <= i < |q[1..]| :: q[1..][i] == q[i + 1];
    assert q == [q[0]] + q[1..];
  }

  lemma {:induction false} WithoutDistinct(q: seq<nat>, t: nat)
    requires Distinct(q)
    ensures Distinct(Without(q, t))
  {
    if q != [] {
      TailKeeps(q);
      WithoutDistinct(q[1..], t);
      assert q[0] !in Without(q[1..], t);
    }
  }

  lemma {:induction false} OnceIn<T>(q: seq<T>, t: T)
    requires Distinct(q)
    ensures multiset(q)[t] == if t in q then 1 else 0
  {
    if q != [] {
      TailKeeps(q);
      OnceIn(q[1..], t);
      assert q == [q[0]] + q[1..];
    }
  }

  lemma {:induction false} WithoutLength(q: seq<nat>, t: nat)
    requires Distinct(q)
    ensures |Without(q, t)| == |q| - if t in q then 1 else 0
  {
    if q != [] {
      TailKeeps(q);
      WithoutLength(q[1..], t);
    }
  }
}
