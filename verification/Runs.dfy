/** Runs of a step function over a list of moves, oldest first. */
module Runs {

  function Fold<S, M>(f: (S, M) -> S, s: S, moves: seq<M>): S {
    if moves == [] then s else f(Fold(f, s, moves[..|moves| - 1]), moves[|moves| - 1])
  }

  lemma OneMore<S, M>(f: (S, M) -> S, s: S, moves: seq<M>, m: M)
    ensures Fold(f, s, moves + [m]) == f(Fold(f, s, moves), m)
  {
    assert (moves + [m])[..|moves|] == moves;
  }

  lemma {:induction false} InParts<S, M>(f: (S, M) -> S, s: S, first: seq<M>, second: seq<M>)
    ensures Fold(f, s, first + second) == Fold(f, Fold(f, s, first), second)
  {
    if second == [] {
      assert first + second == first;
    } else {
      var n := |second| - 1;
      InParts(f, s, first, second[..n]);
      OneMore(f, s, first + second[..n], second[n]);
      assert first + second == first + second[..n] + [second[n]];
    }
  }

  /** The moves and one more. */
  function After<S, M>(f: (S, M) -> S, s: S, moves: seq<M>, m: M): (more: seq<M>)
    ensures more == moves + [m] && Fold(f, s, more) == f(Fold(f, s, moves), m)
  {
    OneMore(f, s, moves, m);
    moves + [m]
  }

  lemma TwoMoves<S, M>(f: (S, M) -> S, s: S, a: M, b: M)
    ensures Fold(f, s, [a, b]) == f(f(s, a), b)
  {
    OneMore(f, s, [], a);
    OneMore(f, s, [a], b);
    assert [] + [a] == [a] && [a] + [b] == [a, b];
  }
}
