/** A counted chain of invertible steps, run forwards and backwards. */
module Chain {
  /** Steps `0 .. count` in increasing order. */
  function Forward<S>(f: (S, nat) -> S, s: S, count: nat): S
  {
    if count == 0 then s else f(Forward(f, s, count - 1), count - 1)
  }

  /** Steps `count .. 0` in decreasing order. */
  function Backward<S>(g: (S, nat) -> S, s: S, count: nat): S
    decreases count
  {
    if count == 0 then s else Backward(g, g(s, count - 1), count - 1)
  }

  /** `g` undoes `f` at every step. */
  ghost predicate Undoes<S(!new)>(g: (S, nat) -> S, f: (S, nat) -> S)
  {
    forall s: S, k: nat :: g(f(s, k), k) == s
  }

  lemma {:induction false} BackwardForward<S(!new)>(f: (S, nat) -> S, g: (S, nat) -> S, s: S, count: nat)
    requires Undoes(g, f)
    ensures Backward(g, Forward(f, s, count), count) == s
    decreases count
  {
    if count > 0 {
      BackwardForward(f, g, s, count - 1);
    }
  }

  lemma {:induction false} ForwardBackward<S(!new)>(f: (S, nat) -> S, g: (S, nat) -> S, s: S, count: nat)
    requires Undoes(f, g)
    ensures Forward(f, Backward(g, s, count), count) == s
    decreases count
  {
    if count > 0 {
      ForwardBackward(f, g, g(s, count - 1), count - 1);
    }
  }
}
