/**
 * The reducer capability (`protocol State` and its `apply` extension, NimbleFeedback.swift lines 6-29).
 *
 * A state type supplies a total `reduce(state, event)`; here it is any function value of type
 * `(S, E) -> S`. Folding an event list means applying `reduce` event after event, left to right.
 */
module Reducer {

  /** Left fold of `reduce` over `events`, first event first. */
  function Fold<S, E>(reduce: (S, E) -> S, s: S, events: seq<E>): S
    decreases |events|
  {
    if events == [] then s else Fold(reduce, reduce(s, events[0]), events[1..])
  }

  /** Folding no events leaves the state as it is. */
  lemma FoldEmpty<S, E>(reduce: (S, E) -> S, s: S)
    ensures Fold(reduce, s, []) == s
  {
  }

  /** Folding a single event is one call of `reduce`. */
  lemma FoldSingle<S, E>(reduce: (S, E) -> S, s: S, e: E)
    ensures Fold(reduce, s, [e]) == reduce(s, e)
  {
    assert [e][1..] == [];
  }

  /** Folding a concatenation folds the first part, then the second part from where the first stopped. */
  lemma {:induction false} FoldAppend<S, E>(reduce: (S, E) -> S, s: S, xs: seq<E>, ys: seq<E>)
    ensures Fold(reduce, s, xs + ys) == Fold(reduce, Fold(reduce, s, xs), ys)
    decreases |xs|
  {
    if xs == [] {
      assert xs + ys == ys;
    } else {
      assert (xs + ys)[0] == xs[0];
      assert (xs + ys)[1..] == xs[1..] + ys;
      FoldAppend(reduce, reduce(s, xs[0]), xs[1..], ys);
    }
  }

  /** The last event of a fold is applied last, to the result of folding the others. */
  lemma FoldSnoc<S, E>(reduce: (S, E) -> S, s: S, events: seq<E>, e: E)
    ensures Fold(reduce, s, events + [e]) == reduce(Fold(reduce, s, events), e)
  {
    FoldAppend(reduce, s, events, [e]);
    FoldSingle(reduce, Fold(reduce, s, events), e);
  }

  /**
   * A variable holding a state value. `Apply` is the `mutating func apply(_:)` of the source:
   * it replaces the held value by `reduce(value, event)`.
   */
  class StateVar<S, E> {
    const reduce: (S, E) -> S
    var value: S

    constructor (reduce: (S, E) -> S, initial: S)
      ensures this.reduce == reduce && value == initial
    {
      this.reduce := reduce;
      value := initial;
    }

    /** Only the held value changes, and it becomes `reduce(old value, event)`. */
    method Apply(event: E)
      modifies this`value
      ensures value == reduce(old(value), event)
    {
      value := reduce(value, event);
    }
  }
}
