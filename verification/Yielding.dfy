/** Iterators that hand their elements to a consumer, which may break off at any turn. */
module Yielding {

  /** The consumer does not break off in its first turns. */
  ghost predicate GoesOn(stop: nat -> bool, turns: nat) {
    forall i: nat | i < turns :: !stop(i)
  }

  lemma GoesOnLonger(stop: nat -> bool, turns: nat)
    requires GoesOn(stop, turns)
    ensures GoesOn(stop, turns + 1) <==> !stop(turns)
  {
  }
}
