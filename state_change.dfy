/**
 * The expectation builder `StateChangeExpectation` and its resolution policy
 * (NimbleFeedback.swift lines 31-156).
 *
 * The host framework's assertion target is represented by the value it evaluates to (`None` when
 * the target yields no value). A terminal call does not return anything in the source; it issues
 * one or two assertions to the host. Here a terminal call returns the list of assertions it issues,
 * in order, each recording its polarity (`to` or `notTo`), its failure message, which value it
 * checks, the boolean the matcher produced and the side effects run while evaluating it.
 */
module StateChange {
  import opened Options
  import opened Reducer

  /** Whether an assertion expects its predicate to hold (`to`) or not to hold (`notTo`). */
  datatype Polarity = To | NotTo

  function Negate(p: Polarity): (q: Polarity)
    ensures q != p
  {
    if p == To then NotTo else To
  }

  /** The value an assertion checks: the untransformed target value, or the value after the changes. */
  datatype Subject = PreState | PostFold

  /** The change callback. Its body is foreign code; only the fact that it ran is observable here. */
  datatype SideEffect = SideEffect(name: string)

  /** What happens while an assertion's value is evaluated: the callback runs, or an event is folded in. */
  datatype Effect<E> = RanChange(callback: SideEffect) | Applied(event: E)

  /** The builder: the assertion target, the ordered events and the optional change callback. */
  datatype Builder<S, E> = Builder(target: Option<S>, events: seq<E>, change: Option<SideEffect>)

  /** One assertion issued to the host framework. */
  datatype Issued<E> = Issued(polarity: Polarity, message: string, subject: Subject, matched: bool, effects: seq<Effect<E>>)

  /** `noChanges`: there is nothing to apply, so a single assertion suffices. */
  predicate NoChanges<S, E>(b: Builder<S, E>)
  {
    |b.events| == 0 && b.change.None?
  }

  // ---------------------------------------------------------------------------------------------
  // Building

  /** `after(_ events: T.Event...)`: the events in the order given, no callback. */
  function After<S, E>(target: Option<S>, events: seq<E>): (b: Builder<S, E>)
    ensures b.target == target && b.events == events && b.change.None?
    ensures NoChanges(b) <==> events == []
  {
    Builder(target, events, None)
  }

  /** `after(_ events: [T.Event])`: the same builder as the variadic form. */
  function AfterList<S, E>(target: Option<S>, events: seq<E>): (b: Builder<S, E>)
    ensures b == After(target, events)
    ensures NoChanges(b) <==> |events| == 0
  {
    Builder(target, events, None)
  }

  /** `after(_ change:, _ events: T.Event...)`: a callback and the events; never "no changes". */
  function AfterChange<S, E>(target: Option<S>, change: SideEffect, events: seq<E>): (b: Builder<S, E>)
    ensures b.target == target && b.events == events && b.change == Some(change)
    ensures !NoChanges(b)
  {
    Builder(target, events, Some(change))
  }

  /** The builder the direct `to`/`toHave`/`toMatch` on a target create: no events, no callback. */
  function Direct<S, E>(target: Option<S>): (b: Builder<S, E>)
    ensures b.target == target && NoChanges(b)
  {
    Builder(target, [], None)
  }

  // ---------------------------------------------------------------------------------------------
  // Polarity selection

  /** `afterTo`: negated exactly when the after assertion is expected to fail. */
  function AfterPolarity(expectToFail: bool): (p: Polarity)
    ensures p == NotTo <==> expectToFail
  {
    if expectToFail then NotTo else To
  }

  /**
   * `beforeTo`: the after polarity when the result should stay the same, otherwise its opposite
   * (for both values of `expectToFail`).
   */
  function BeforePolarity(expectToFail: bool, expectSameResult: bool): (p: Polarity)
    ensures expectSameResult ==> p == AfterPolarity(expectToFail)
    ensures !expectSameResult ==> p == Negate(AfterPolarity(expectToFail))
  {
    if expectSameResult then AfterPolarity(expectToFail) else if expectToFail then To else NotTo
  }

  // ---------------------------------------------------------------------------------------------
  // Matcher evaluation and outcome

  /** The boolean the predicate built by `predicate(_:with:)` reports: an absent value counts as false. */
  predicate MatchResult<S>(value: Option<S>, matcher: S -> bool)
  {
    value.Some? && matcher(value.value)
  }

  /** A `to` assertion passes when the matcher reported true, a `notTo` assertion when it reported false. */
  predicate Passes(p: Polarity, matched: bool)
  {
    if p == To then matched else !matched
  }

  predicate Passed<E>(i: Issued<E>)
  {
    Passes(i.polarity, i.matched)
  }

  /** The terminal call succeeds when every assertion it issued passed. */
  predicate AllPass<E>(r: seq<Issued<E>>)
  {
    forall i :: 0 <= i < |r| ==> Passed(r[i])
  }

  // ---------------------------------------------------------------------------------------------
  // Applying the changes

  /** The trace of `change?()`: one entry when a callback is set, none otherwise. */
  function ChangeEffects<E>(change: Option<SideEffect>): seq<Effect<E>>
  {
    if change.Some? then [RanChange(change.value)] else []
  }

  /** The trace of folding `events`: one entry per event, in order. */
  function AppliedEffects<E>(events: seq<E>): seq<Effect<E>>
    decreases |events|
  {
    if events == [] then [] else [Applied(events[0])] + AppliedEffects(events[1..])
  }

  lemma {:induction false} AppliedEffectsAt<E>(events: seq<E>)
    ensures |AppliedEffects(events)| == |events|
    ensures forall k :: 0 <= k < |events| ==> AppliedEffects(events)[k] == Applied(events[k])
    decreases |events|
  {
    if events != [] {
      AppliedEffectsAt(events[1..]);
    }
  }

  lemma AppliedEffectsSnoc<E>(events: seq<E>, e: E)
    ensures AppliedEffects(events + [e]) == AppliedEffects(events) + [Applied(e)]
  {
    AppliedEffectsAt(events + [e]);
    AppliedEffectsAt(events);
  }

  /**
   * `afterChanges(to:)`: run the callback if there is one, then fold the events into a fresh copy of
   * the state through the mutating `apply`. Returns the folded state and what ran, in order.
   */
  method AfterChanges<S, E>(b: Builder<S, E>, reduce: (S, E) -> S, state: S) returns (r: S, effects: seq<Effect<E>>)
    ensures r == Fold(reduce, state, b.events)
    ensures effects == ChangeEffects<E>(b.change) + AppliedEffects(b.events)
  {
    effects := [];
    if b.change.Some? {
      effects := [RanChange(b.change.value)];
    }
    var acc := new StateVar(reduce, state);
    var i := 0;
    while i < |b.events|
      invariant 0 <= i <= |b.events|
      invariant acc.reduce == reduce
      invariant acc.value == Fold(reduce, state, b.events[..i])
      invariant effects == ChangeEffects<E>(b.change) + AppliedEffects(b.events[..i])
    {
      assert b.events[..i + 1] == b.events[..i] + [b.events[i]];
      FoldSnoc(reduce, state, b.events[..i], b.events[i]);
      AppliedEffectsSnoc(b.events[..i], b.events[i]);
      effects := effects + [Applied(b.events[i])];
      acc.Apply(b.events[i]);
      i := i + 1;
    }
    assert b.events[..i] == b.events;
    r := acc.value;
  }

  /** `apply(_:then:)`: a matcher that first folds the events into its argument. */
  function ApplyThen<S, E>(reduce: (S, E) -> S, events: seq<E>, matcher: S -> bool): S -> bool
  {
    s => matcher(Fold(reduce, s, events))
  }

  /** Folding in two batches is the same matcher as folding their concatenation. */
  lemma ApplyThenCompose<S, E>(reduce: (S, E) -> S, xs: seq<E>, ys: seq<E>, matcher: S -> bool, s: S)
    ensures ApplyThen(reduce, xs + ys, matcher)(s) == ApplyThen(reduce, xs, ApplyThen(reduce, ys, matcher))(s)
  {
    FoldAppend(reduce, s, xs, ys);
  }

  // ---------------------------------------------------------------------------------------------
  // Resolution

  const WithoutEvents := " without any events"
  const BeforeEvents := " before applying events"
  const AfterEvents := " after applying events"

  /** The lazily evaluated after assertion: callback and fold run only when the target has a value. */
  function AfterAssertion<S, E>(b: Builder<S, E>, reduce: (S, E) -> S, matcher: S -> bool, afterTo: Polarity, msg: string): Issued<E>
  {
    if b.target.Some? then
      Issued(afterTo, msg + AfterEvents, PostFold, matcher(Fold(reduce, b.target.value, b.events)),
             ChangeEffects<E>(b.change) + AppliedEffects(b.events))
    else
      Issued(afterTo, msg + AfterEvents, PostFold, false, [])
  }

  /** The assertions `resolve(_:to:expectToFail:expectSameResult:)` issues, in order. */
  function Resolution<S, E>(b: Builder<S, E>, reduce: (S, E) -> S, matcher: S -> bool, msg: string,
                            expectToFail: bool, expectSameResult: bool): seq<Issued<E>>
  {
    var afterTo := AfterPolarity(expectToFail);
    var beforeTo := BeforePolarity(expectToFail, expectSameResult);
    if NoChanges(b) then
      [Issued(afterTo, msg + WithoutEvents, PreState, MatchResult(b.target, matcher), [])]
    else
      [Issued(beforeTo, msg + BeforeEvents, PreState, MatchResult(b.target, matcher), []),
       AfterAssertion(b, reduce, matcher, afterTo, msg)]
  }

  /** `resolve`, statement by statement: pick polarities, then issue the assertions one after another. */
  method Resolve<S, E>(b: Builder<S, E>, reduce: (S, E) -> S, matcher: S -> bool, msg: string,
                       expectToFail: bool, expectSameResult: bool) returns (issued: seq<Issued<E>>)
    ensures issued == Resolution(b, reduce, matcher, msg, expectToFail, expectSameResult)
  {
    var afterTo := AfterPolarity(expectToFail);
    var beforeTo := BeforePolarity(expectToFail, expectSameResult);
    if NoChanges(b) {
      issued := [Issued(afterTo, msg + WithoutEvents, PreState, MatchResult(b.target, matcher), [])];
    } else {
      issued := [Issued(beforeTo, msg + BeforeEvents, PreState, MatchResult(b.target, matcher), [])];
      var matched := false;
      var effects: seq<Effect<E>> := [];
      if b.target.Some? {
        var folded;
        folded, effects := AfterChanges(b, reduce, b.target.value);
        matched := matcher(folded);
      }
      issued := issued + [Issued(afterTo, msg + AfterEvents, PostFold, matched, effects)];
    }
  }

  /** Count, order, message suffix, polarity and checked value of the issued assertions. */
  lemma ResolutionShape<S, E>(b: Builder<S, E>, reduce: (S, E) -> S, matcher: S -> bool, msg: string,
                              expectToFail: bool, expectSameResult: bool)
    ensures var r := Resolution(b, reduce, matcher, msg, expectToFail, expectSameResult);
      |r| == (if NoChanges(b) then 1 else 2) &&
      r[0].subject == PreState && r[0].matched == MatchResult(b.target, matcher)
    ensures var r := Resolution(b, reduce, matcher, msg, expectToFail, expectSameResult);
      NoChanges(b) ==>
        r[0].polarity == AfterPolarity(expectToFail) && r[0].message == msg + " without any events"
    ensures var r := Resolution(b, reduce, matcher, msg, expectToFail, expectSameResult);
      !NoChanges(b) ==>
        r[0].polarity == BeforePolarity(expectToFail, expectSameResult) &&
        r[0].message == msg + " before applying events" &&
        r[1].polarity == AfterPolarity(expectToFail) &&
        r[1].message == msg + " after applying events" &&
        r[1].subject == PostFold &&
        r[1].matched == MatchResult(b.target, ApplyThen(reduce, b.events, matcher))
  {
  }

  /** When the target yields no value, every issued assertion sees `false` and nothing runs. */
  lemma AbsentValueIsFalse<S, E>(b: Builder<S, E>, reduce: (S, E) -> S, matcher: S -> bool, msg: string,
                                 expectToFail: bool, expectSameResult: bool)
    requires b.target.None?
    ensures var r := Resolution(b, reduce, matcher, msg, expectToFail, expectSameResult);
      forall i :: 0 <= i < |r| ==> !r[i].matched && r[i].effects == []
  {
  }

  /** The terminal call succeeds exactly when each assertion, with its polarity, agrees with its matcher result. */
  lemma ResolutionOutcome<S, E>(b: Builder<S, E>, reduce: (S, E) -> S, matcher: S -> bool, msg: string,
                                expectToFail: bool, expectSameResult: bool)
    ensures AllPass(Resolution(b, reduce, matcher, msg, expectToFail, expectSameResult)) <==>
      if NoChanges(b) then
        Passes(AfterPolarity(expectToFail), MatchResult(b.target, matcher))
      else
        Passes(BeforePolarity(expectToFail, expectSameResult), MatchResult(b.target, matcher)) &&
        Passes(AfterPolarity(expectToFail), MatchResult(b.target, ApplyThen(reduce, b.events, matcher)))
  {
    var r := Resolution(b, reduce, matcher, msg, expectToFail, expectSameResult);
    ResolutionShape(b, reduce, matcher, msg, expectToFail, expectSameResult);
    if !NoChanges(b) {
      assert AllPass(r) <==> Passed(r[0]) && Passed(r[1]);
    }
  }

  // ---------------------------------------------------------------------------------------------
  // The change callback

  /** Everything that ran during a terminal call, assertion after assertion. */
  function Trace<E>(r: seq<Issued<E>>): seq<Effect<E>>
    decreases |r|
  {
    if r == [] then [] else r[0].effects + Trace(r[1..])
  }

  /** How many times the change callback ran in a trace. */
  function ChangeRuns<E>(t: seq<Effect<E>>): nat
    decreases |t|
  {
    if t == [] then 0 else (if t[0].RanChange? then 1 else 0) + ChangeRuns(t[1..])
  }

  lemma {:induction false} ChangeRunsAppend<E>(t: seq<Effect<E>>, u: seq<Effect<E>>)
    ensures ChangeRuns(t + u) == ChangeRuns(t) + ChangeRuns(u)
    decreases |t|
  {
    if t == [] {
      assert t + u == u;
    } else {
      assert (t + u)[1..] == t[1..] + u;
      ChangeRunsAppend(t[1..], u);
    }
  }

  lemma {:induction false} NoRunsWhileFolding<E>(events: seq<E>)
    ensures ChangeRuns(AppliedEffects(events)) == 0
    decreases |events|
  {
    if events != [] {
      ChangeRunsAppend([Applied(events[0])], AppliedEffects(events[1..]));
      NoRunsWhileFolding(events[1..]);
    }
  }

  /**
   * The callback runs exactly once when one is set and the target has a value, never otherwise; it
   * runs first, every later entry folds an event, the events are folded in order, and nothing runs
   * while a pre-state assertion (before, or the single no-changes one) is evaluated.
   */
  lemma SideEffectOnce<S, E>(b: Builder<S, E>, reduce: (S, E) -> S, matcher: S -> bool, msg: string,
                             expectToFail: bool, expectSameResult: bool)
    ensures var r := Resolution(b, reduce, matcher, msg, expectToFail, expectSameResult);
      forall i :: 0 <= i < |r| && r[i].subject == PreState ==> r[i].effects == []
    ensures var t := Trace(Resolution(b, reduce, matcher, msg, expectToFail, expectSameResult));
      ChangeRuns(t) == (if b.change.Some? && b.target.Some? then 1 else 0)
    ensures var t := Trace(Resolution(b, reduce, matcher, msg, expectToFail, expectSameResult));
      b.change.Some? && b.target.Some? ==>
        t[0] == RanChange(b.change.value) && forall k :: 1 <= k < |t| ==> t[k].Applied?
    ensures var t := Trace(Resolution(b, reduce, matcher, msg, expectToFail, expectSameResult));
      b.target.Some? ==> AppliedEffects(b.events) == (if b.change.Some? then t[1..] else t)
  {
    var r := Resolution(b, reduce, matcher, msg, expectToFail, expectSameResult);
    var t := Trace(r);
    if NoChanges(b) {
      assert t == [] + Trace(r[1..]);
    } else {
      assert r[1..][0] == r[1] && r[1..][1..] == [];
      assert Trace(r[1..]) == r[1].effects + Trace<E>([]);
      assert t == r[1].effects;
      var c := ChangeEffects<E>(b.change);
      if b.target.Some? {
        assert t == c + AppliedEffects(b.events);
        ChangeRunsAppend(c, AppliedEffects(b.events));
        NoRunsWhileFolding(b.events);
        AppliedEffectsAt(b.events);
        if b.change.Some? {
          assert t[1..] == AppliedEffects(b.events);
        }
      }
    }
  }

  // ---------------------------------------------------------------------------------------------
  // Terminal operations

  /** The matcher `{ query($0) == nil }` the query forms resolve with. */
  function IsNilQuery<S, Q>(query: S -> Option<Q>): S -> bool
  {
    s => query(s).None?
  }

  /** `resolve(_:toBecomeNonNil:)`: the nil-query matcher, message "be a nil query", no same-result flag. */
  function ResolveQuery<S, E, Q>(b: Builder<S, E>, reduce: (S, E) -> S, query: S -> Option<Q>, toBecomeNonNil: bool): seq<Issued<E>>
  {
    Resolution(b, reduce, IsNilQuery(query), "be a nil query", toBecomeNonNil, false)
  }

  /**
   * `to(query)` on a builder: with changes it passes iff the query is nil before and non-nil after;
   * without changes it issues a single `notTo` of the nil check, so it passes iff the query is non-nil
   * now, or the target has no value at all.
   */
  function ChangeTo<S, E, Q>(b: Builder<S, E>, reduce: (S, E) -> S, query: S -> Option<Q>): (r: seq<Issued<E>>)
    ensures |r| == (if NoChanges(b) then 1 else 2)
    ensures !NoChanges(b) ==> r[0].polarity == To && r[1].polarity == NotTo
    ensures AllPass(r) <==>
      if NoChanges(b) then
        b.target.Some? ==> query(b.target.value).Some?
      else
        b.target.Some? && query(b.target.value).None? && query(Fold(reduce, b.target.value, b.events)).Some?
  {
    ResolutionShape(b, reduce, IsNilQuery(query), "be a nil query", true, false);
    ResolutionOutcome(b, reduce, IsNilQuery(query), "be a nil query", true, false);
    ResolveQuery(b, reduce, query, true)
  }

  /** `toHave(query)` on a builder resolves exactly as `to(query)`. */
  function ChangeToHave<S, E, Q>(b: Builder<S, E>, reduce: (S, E) -> S, query: S -> Option<Q>): (r: seq<Issued<E>>)
    ensures r == ChangeTo(b, reduce, query)
  {
    ResolveQuery(b, reduce, query, true)
  }

  /**
   * `notTo(query)`: with changes it passes iff the query is non-nil before and nil after; without
   * changes it passes iff the target has a value whose query is nil.
   */
  function ChangeNotTo<S, E, Q>(b: Builder<S, E>, reduce: (S, E) -> S, query: S -> Option<Q>): (r: seq<Issued<E>>)
    ensures |r| == (if NoChanges(b) then 1 else 2)
    ensures !NoChanges(b) ==> r[0].polarity == NotTo && r[1].polarity == To
    ensures AllPass(r) <==>
      if NoChanges(b) then
        b.target.Some? && query(b.target.value).None?
      else
        b.target.Some? && query(b.target.value).Some? && query(Fold(reduce, b.target.value, b.events)).None?
  {
    ResolutionShape(b, reduce, IsNilQuery(query), "be a nil query", false, false);
    ResolutionOutcome(b, reduce, IsNilQuery(query), "be a nil query", false, false);
    ResolveQuery(b, reduce, query, false)
  }

  /** `toTurn(matcher)`: with changes it passes iff the matcher goes from false to true. */
  function ChangeToTurn<S, E>(b: Builder<S, E>, reduce: (S, E) -> S, matcher: S -> bool): (r: seq<Issued<E>>)
    ensures |r| == (if NoChanges(b) then 1 else 2)
    ensures !NoChanges(b) ==> r[0].polarity == NotTo && r[1].polarity == To
    ensures AllPass(r) <==>
      if NoChanges(b) then
        b.target.Some? && matcher(b.target.value)
      else
        b.target.Some? && !matcher(b.target.value) && matcher(Fold(reduce, b.target.value, b.events))
  {
    ResolutionShape(b, reduce, matcher, "match", false, false);
    ResolutionOutcome(b, reduce, matcher, "match", false, false);
    Resolution(b, reduce, matcher, "match", false, false)
  }

  /** `toStay(matcher)`: with changes it passes iff the matcher is true both before and after. */
  function ChangeToStay<S, E>(b: Builder<S, E>, reduce: (S, E) -> S, matcher: S -> bool): (r: seq<Issued<E>>)
    ensures |r| == (if NoChanges(b) then 1 else 2)
    ensures !NoChanges(b) ==> r[0].polarity == To && r[1].polarity == To
    ensures AllPass(r) <==>
      if NoChanges(b) then
        b.target.Some? && matcher(b.target.value)
      else
        b.target.Some? && matcher(b.target.value) && matcher(Fold(reduce, b.target.value, b.events))
  {
    ResolutionShape(b, reduce, matcher, "match", false, true);
    ResolutionOutcome(b, reduce, matcher, "match", false, true);
    Resolution(b, reduce, matcher, "match", false, true)
  }

  /**
   * The direct `to(query)` on a target: one assertion, "be a nil query without any events"; it passes
   * iff the query is non-nil now, or the target has no value.
   */
  function ExpectTo<S, E, Q>(target: Option<S>, reduce: (S, E) -> S, query: S -> Option<Q>): (r: seq<Issued<E>>)
    ensures |r| == 1 && r[0].polarity == NotTo && r[0].subject == PreState
    ensures r[0].message == "be a nil query without any events"
    ensures AllPass(r) <==> (target.Some? ==> query(target.value).Some?)
  {
    ChangeTo(Direct(target), reduce, query)
  }

  /** The direct `toHave(query)` is the direct `to(query)`. */
  function ExpectToHave<S, E, Q>(target: Option<S>, reduce: (S, E) -> S, query: S -> Option<Q>): (r: seq<Issued<E>>)
    ensures r == ExpectTo(target, reduce, query)
  {
    ExpectTo(target, reduce, query)
  }

  /** The direct `toMatch(matcher)`: one `to` assertion, "match without any events", on the current value. */
  function ExpectToMatch<S, E>(target: Option<S>, reduce: (S, E) -> S, matcher: S -> bool): (r: seq<Issued<E>>)
    ensures |r| == 1 && r[0].polarity == To && r[0].subject == PreState
    ensures r[0].message == "match without any events"
    ensures AllPass(r) <==> target.Some? && matcher(target.value)
  {
    ResolutionShape(Direct<S, E>(target), reduce, matcher, "match", false, false);
    ResolutionOutcome(Direct<S, E>(target), reduce, matcher, "match", false, false);
    Resolution(Direct(target), reduce, matcher, "match", false, false)
  }
}
