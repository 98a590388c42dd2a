/** Properties of the steps of a run, each given the events before it. */
module Histories {

  /** Step `k` of the run has property `p`, which sees the events before it. */
  predicate HoldsAt<E>(p: (seq<E>, E) -> bool, events: seq<E>, k: nat) {
    k < |events| && p(events[..k], events[k])
  }

  /** Some step of the run has property `p`. */
  ghost predicate Ever<E>(p: (seq<E>, E) -> bool, events: seq<E>) {
    exists k: nat :: HoldsAt(p, events, k)
  }

  lemma EverStep<E>(p: (seq<E>, E) -> bool, events: seq<E>)
    requires events != []
    ensures var rest := events[..|events| - 1];
            Ever(p, events) <==> Ever(p, rest) || p(rest, events[|events| - 1])
  {
    var rest, last := events[..|events| - 1], |events| - 1;
    assert forall k: nat :: k < last ==> rest[..k] == events[..k];
    if p(rest, events[last]) {
      assert HoldsAt(p, events, last);
    }
    if k: nat :| HoldsAt(p, rest, k) {
      assert HoldsAt(p, events, k);
    }
    if k: nat :| HoldsAt(p, events, k) && k < last {
      assert HoldsAt(p, rest, k);
    }
  }
}
