/** The driver of `ts/maze/generators/maze-generator.ts`: `generate` calls
    `iterate` for as long as `isDone` is false. A generator is given as its
    step function on a state value (the maze together with the generator's
    own fields), its completion test, an invariant the step keeps and a
    measure the step lowers. */
module Generators {

  /** `r` is reached from `s` by exactly `k` passes of the driver loop: each
      pass starts in a state that is not done and applies `iterate` once. */
  ghost predicate Passes<S(!new)>(iterate: S --> S, isDone: S -> bool, s: S, k: nat, r: S)
    decreases k
  {
    if k == 0 then r == s
    else !isDone(s) && iterate.requires(s) && Passes(iterate, isDone, iterate(s), k - 1, r)
  }

  /** One more pass at the end of a run of passes. */
  lemma {:induction false} PassesExtend<S(!new)>(iterate: S --> S, isDone: S -> bool, s: S, k: nat, r: S)
    requires Passes(iterate, isDone, s, k, r)
    requires !isDone(r) && iterate.requires(r)
    ensures Passes(iterate, isDone, s, k + 1, iterate(r))
    decreases k
  {
    if k > 0 {
      PassesExtend(iterate, isDone, iterate(s), k - 1, r);
    }
  }

  /** Along passes that keep `inv`, a quantity every pass raises by exactly
      one has grown by the number of passes. */
  lemma {:induction false} PassesCount<S(!new)>(iterate: S --> S, isDone: S -> bool, inv: S -> bool, g: S -> int, s: S, k: nat, r: S)
    requires inv(s)
    requires forall t :: inv(t) && !isDone(t) ==> iterate.requires(t) && inv(iterate(t)) && g(iterate(t)) == g(t) + 1
    requires Passes(iterate, isDone, s, k, r)
    ensures g(r) == g(s) + k
    decreases k
  {
    if k > 0 {
      PassesCount(iterate, isDone, inv, g, iterate(s), k - 1, r);
    }
  }

  /** `generate`: iterate until done. It returns only in a done state, after
      the passes recorded by `Passes`; a state that is done on entry is
      returned unchanged. */
  method Generate<S(!new)>(iterate: S --> S, isDone: S -> bool, ghost inv: S -> bool, ghost rank: S -> nat, s: S)
    returns (r: S, passes: nat)
    requires inv(s)
    requires forall t :: inv(t) && !isDone(t) ==>
               iterate.requires(t) && inv(iterate(t)) && rank(iterate(t)) < rank(t)
    ensures isDone(r) && inv(r)
    ensures Passes(iterate, isDone, s, passes, r)
    ensures passes <= rank(s)
    ensures isDone(s) ==> r == s && passes == 0
  {
    r, passes := s, 0;
    while !isDone(r)
      invariant inv(r)
      invariant Passes(iterate, isDone, s, passes, r)
      invariant passes + rank(r) <= rank(s)
      invariant isDone(s) ==> r == s && passes == 0
      decreases rank(r)
    {
      PassesExtend(iterate, isDone, s, passes, r);
      r, passes := iterate(r), passes + 1;
    }
  }
}
