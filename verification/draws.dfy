/** Random choices. The random sources (`rng`, `choose`, `lerp`,
    `Math.random`) are not part of this model; every draw is instead an
    arbitrary natural number supplied by the caller, and the functions here
    turn it into a choice within the legal range. */
module Draws {

  /** `choose(xs)`: one element of a non-empty list, picked by `draw`. */
  function Choose<T>(xs: seq<T>, draw: nat): (r: T)
    requires |xs| > 0
    ensures r in xs
  {
    xs[draw % |xs|]
  }

  /** Every element of the list is the outcome of some draw, so a claim made
      for all draws is a claim about every possible choice. */
  lemma ChooseCovers<T>(xs: seq<T>, k: nat)
    requires k < |xs|
    ensures Choose(xs, k) == xs[k]
  {
  }

  /** A number in the inclusive range [lo, hi], picked by `draw`. */
  function Pick(lo: nat, hi: nat, draw: nat): (r: nat)
    requires lo <= hi
    ensures lo <= r <= hi
  {
    lo + draw % (hi - lo + 1)
  }

  /** A fair coin: `rng() < 0.5`. */
  predicate Coin(draw: nat)
  {
    draw % 2 == 0
  }
}
