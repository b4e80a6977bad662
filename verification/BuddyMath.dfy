/** Powers of two, alignment and buddies, by halving. */
module BuddyMath {

  function Pow(o: nat): (r: nat)
    ensures r > 0
  { if o == 0 then 1 else 2 * Pow(o - 1) }

  /** A multiple of `Pow(o)`. */
  predicate Aligned(h: nat, o: nat) { o == 0 || (h % 2 == 0 && Aligned(h / 2, o - 1)) }

  /** `h` with bit `o` flipped: exclusive-or with `1 << o`. */
  function BuddyOf(h: nat, o: nat): nat {
    if o == 0 then (if h % 2 == 0 then h + 1 else h - 1) else 2 * BuddyOf(h / 2, o - 1) + h % 2
  }

  function Min(a: nat, b: nat): nat { if a < b then a else b }

  /** The buddy of a block is the block next to it that completes a block twice the size, and the relation is symmetric. */
  lemma {:induction false} BuddyFacts(h: nat, o: nat)
    requires Aligned(h, o)
    ensures var b := BuddyOf(h, o);
            && (b == h + Pow(o) || b + Pow(o) == h) && Aligned(b, o) && BuddyOf(b, o) == h
            && Aligned(Min(h, b), o + 1) && Min(h, b) + Pow(o + 1) == (if h < b then b else h) + Pow(o)
  {
    if o > 0 {
      BuddyFacts(h / 2, o - 1);
      assert BuddyOf(h, o) / 2 == BuddyOf(h / 2, o - 1);
      assert Min(h, BuddyOf(h, o)) / 2 == Min(h / 2, BuddyOf(h / 2, o - 1));
    }
  }

  /** Halving a block: the upper half is the lower half's buddy. */
  lemma {:induction false} HalfFacts(h: nat, o: nat)
    requires Aligned(h, o + 1)
    ensures Aligned(h, o) && Aligned(h + Pow(o), o) && BuddyOf(h, o) == h + Pow(o) && BuddyOf(h + Pow(o), o) == h
  {
    if o > 0 {
      HalfFacts(h / 2, o - 1);
      assert (h + Pow(o)) / 2 == h / 2 + Pow(o - 1);
    }
  }

  lemma {:induction false} PowMonotone(a: nat, b: nat)
    requires a <= b
    ensures Pow(a) <= Pow(b)
  {
    if a < b { PowMonotone(a, b - 1); }
  }
}
