# nimble-feedback, modelled in Dafny

nimble-feedback is a small fluent assertion helper for the Nimble matcher framework. A test wraps a
value of a reducer-capable `State` type in a Nimble `Expectation`. It chains `.after(events...)`, with
an optional leading change callback, and ends with a terminal call: `to`, `toHave`, `notTo`, `toTurn`
or `toStay`. The terminal call evaluates the target, runs the callback if there is one, folds the
events into the state, and issues one or two Nimble assertions with the right polarities.

The model has four modules:

- `Options` (`options.dfy`): the optional type.
- `Reducer` (`reducer.dfy`): the `State` capability. `reduce` is a function value `(S, E) -> S`.
  `Fold` is the left fold that `events.reduce(into:) { $0.apply($1) }` computes. `StateVar` is a
  class whose `Apply` method is the mutating `apply(_:)`.
- `StateChange` (`state_change.dfy`): the builder `StateChangeExpectation` and its terminal operations.
  - A builder is a triple: the evaluated target value (`Option<S>`), the events and the optional callback.
  - `Resolution` is the list of assertions that `resolve` issues. Each record holds the polarity
    (`to`/`notTo`), the message, the checked value (pre-state or post-fold), the matcher's boolean, and
    the trace of what ran while the value was evaluated.
  - `Resolve` and `AfterChanges` are the statement-by-statement methods. They are proved equal to that
    specification.
  - The callback's body is foreign code. It appears only as a `RanChange` trace entry.
- `DummyFixture` (`dummy_state.dfy`): the three-event `DummyState` reducer and its `isAlpha`, used as a
  concrete instance.

`Sources/NimbleFeedback/NimbleFeedback.swift` and `NimbleFeedback/NimbleFeedback.swift` match line for
line. They differ in access modifiers (`public` against internal) and in the module qualification of
`Predicate` at lines 146-147: `Nimble.Predicate` in the first, plain `Predicate` in the second. The
table cites the first; the same lines of the second are modelled by the same members.

Behaviour the model makes explicit:

- Line 136 gives the before assertion the opposite polarity of the after assertion for both values of
  `expectToFail`, unless `expectSameResult` is set. The model follows that line literally (see
  `BeforePolarity`). There is no asymmetric case.
- A target with no value yields matcher result `false` (line 148). So a `notTo` assertion on such a
  target passes. For the direct `to(query)` and `toHave(query)` (one `notTo` of the nil check), this
  means they pass on a target with no value. `ExpectTo` and `ChangeTo` state this exactly.
- The after matcher is applied through `flatMap` (line 148). So the callback and the fold run only
  when the target has a value (`SideEffectOnce`).
- With no events and no callback, `toTurn` and `toStay` issue a single `to` assertion. They check only
  the current value.

## Model

| member | source | states |
|---|---|---|
| `Reducer.Fold` | Sources/NimbleFeedback/NimbleFeedback.swift:76 | definition of the left fold of `reduce` over the events; its properties are in `FoldEmpty`, `FoldSingle`, `FoldAppend`, `FoldSnoc` and `AfterChanges` |
| `Reducer.StateVar.Apply` | Sources/NimbleFeedback/NimbleFeedback.swift:26-28 | only the held value changes, and it becomes `reduce(old value, event)` |
| `Reducer.FoldEmpty` | Sources/NimbleFeedback/NimbleFeedback.swift:76 | folding an empty event list leaves the state unchanged |
| `Reducer.FoldSingle` | Sources/NimbleFeedback/NimbleFeedback.swift:76 | folding one event is one `reduce` call, as `apply` does |
| `Reducer.FoldAppend` | Sources/NimbleFeedback/NimbleFeedback.swift:76 | folding `xs + ys` folds `xs`, then `ys` from that result (left fold in list order) |
| `Reducer.FoldSnoc` | Sources/NimbleFeedback/NimbleFeedback.swift:76 | the last event is reduced last, into the fold of the earlier ones |
| `StateChange.NoChanges` | Sources/NimbleFeedback/NimbleFeedback.swift:70-72 | definition of `noChanges` (no events and no callback); its properties are in `After`, `AfterList`, `AfterChange`, `Direct` and `ResolutionShape` |
| `StateChange.AfterChanges` | Sources/NimbleFeedback/NimbleFeedback.swift:74-77 | the result is the left fold of the events from the given state; the trace is the callback (if set) followed by one entry per event, in order |
| `StateChange.ApplyThen` | Sources/NimbleFeedback/NimbleFeedback.swift:153-155 | definition of `apply(_:then:)`; its properties are in `ApplyThenCompose` and `ResolutionShape` |
| `StateChange.ApplyThenCompose` | Sources/NimbleFeedback/NimbleFeedback.swift:153-155 | `apply(xs + ys, then: m)` is `apply(xs, then: apply(ys, then: m))` |
| `StateChange.After` | Sources/NimbleFeedback/NimbleFeedback.swift:35-37 | captures the events in order with no callback; no changes iff the events are empty |
| `StateChange.AfterList` | Sources/NimbleFeedback/NimbleFeedback.swift:39-41 | the list form builds the same builder as the variadic form |
| `StateChange.AfterChange` | Sources/NimbleFeedback/NimbleFeedback.swift:43-45 | captures callback and events; such a builder never has "no changes" |
| `StateChange.Direct` | Sources/NimbleFeedback/NimbleFeedback.swift:47-59 | the builder that the direct calls create at lines 48 and 57 (empty events, nil callback) has no changes in the sense of `noChanges` (lines 70-72) |
| `StateChange.AfterPolarity` | Sources/NimbleFeedback/NimbleFeedback.swift:135 | the after assertion is `notTo` exactly when `expectToFail` |
| `StateChange.BeforePolarity` | Sources/NimbleFeedback/NimbleFeedback.swift:136 | the before assertion has the after polarity when `expectSameResult`, otherwise its opposite |
| `StateChange.MatchResult` | Sources/NimbleFeedback/NimbleFeedback.swift:146-151 | definition of the matcher result the built predicate reports (`flatMap(matcher) ?? false`); its properties are in `AbsentValueIsFalse` and `ResolutionOutcome` |
| `StateChange.AfterAssertion` | Sources/NimbleFeedback/NimbleFeedback.swift:142-148 | definition of the lazily evaluated after assertion; its properties are in `ResolutionShape`, `AbsentValueIsFalse` and `SideEffectOnce` |
| `StateChange.Resolution` | Sources/NimbleFeedback/NimbleFeedback.swift:131-144 | definition of the assertions `resolve` issues, in order; its properties are in `Resolve`, `ResolutionShape`, `ResolutionOutcome` and `SideEffectOnce` |
| `StateChange.Resolve` | Sources/NimbleFeedback/NimbleFeedback.swift:131-144 | issuing the assertions one after another, with the after value computed by `AfterChanges`, yields exactly `Resolution` |
| `StateChange.ResolutionShape` | Sources/NimbleFeedback/NimbleFeedback.swift:138-143 | one assertion ("… without any events", after polarity, current value) when there are no changes; otherwise two in order: before ("… before applying events", current value), then after ("… after applying events", the value the matcher sees is the `apply(_:then:)` fold) |
| `StateChange.AbsentValueIsFalse` | Sources/NimbleFeedback/NimbleFeedback.swift:146-151 | a target with no value makes every matcher result false, and nothing runs |
| `StateChange.ResolutionOutcome` | Sources/NimbleFeedback/NimbleFeedback.swift:131-151 | the call passes iff each assertion's polarity agrees with its matcher result |
| `StateChange.SideEffectOnce` | Sources/NimbleFeedback/NimbleFeedback.swift:138-142 | pre-state assertions run nothing; the callback runs exactly once iff it is set and the target has a value; it runs first, and every later entry folds an event, in order |
| `StateChange.IsNilQuery` | Sources/NimbleFeedback/NimbleFeedback.swift:99 | definition of the matcher `{ query($0) == nil }`; its properties are in `ChangeTo`, `ChangeNotTo` and `ExpectTo` |
| `StateChange.ResolveQuery` | Sources/NimbleFeedback/NimbleFeedback.swift:98-100 | definition of `resolve(_:toBecomeNonNil:)`; its properties are in `ChangeTo`, `ChangeToHave` and `ChangeNotTo` |
| `StateChange.ChangeTo` | Sources/NimbleFeedback/NimbleFeedback.swift:86-88 | with changes: passes iff the query is nil before and non-nil after (before `to`, after `notTo` of the nil check); without changes: one assertion that passes iff the query is non-nil or the target has no value |
| `StateChange.ChangeToHave` | Sources/NimbleFeedback/NimbleFeedback.swift:90-92 | resolves exactly as `to(query)` |
| `StateChange.ChangeNotTo` | Sources/NimbleFeedback/NimbleFeedback.swift:94-100 | with changes: passes iff the query is non-nil before and nil after; without changes: iff the target has a value whose query is nil |
| `StateChange.ChangeToTurn` | Sources/NimbleFeedback/NimbleFeedback.swift:114-116 | with changes: opposite polarities, passes iff the matcher goes from false to true |
| `StateChange.ChangeToStay` | Sources/NimbleFeedback/NimbleFeedback.swift:122-124 | with changes: equal polarities, passes iff the matcher is true before and after |
| `StateChange.ExpectTo` | Sources/NimbleFeedback/NimbleFeedback.swift:47-50 | one `notTo` assertion "be a nil query without any events" on the current value; passes iff the query is non-nil or the target has no value |
| `StateChange.ExpectToHave` | Sources/NimbleFeedback/NimbleFeedback.swift:52-54 | same as the direct `to(query)` |
| `StateChange.ExpectToMatch` | Sources/NimbleFeedback/NimbleFeedback.swift:56-59 | one `to` assertion "match without any events"; passes iff the target has a value that the matcher accepts |
| `DummyFixture.Reduce` | NimbleFeedbackTests/DummyState.swift:13-19 | `lastEvent` is cleared exactly by `.none`; any other event becomes `lastEvent` |
| `DummyFixture.IsAlpha` | NimbleFeedbackTests/DummyState.swift:21-26 | absent iff `lastEvent` is absent; otherwise true iff `lastEvent` is `.alpha` |
| `DummyFixture.ReduceForgetsPrior` | NimbleFeedbackTests/DummyState.swift:13-19 | `reduce` ignores the prior state; applying an event twice equals applying it once |
| `DummyFixture.FoldLastEvent` | NimbleFeedbackTests/DummyState.swift:16 | after a non-empty event list the state is determined by the last event alone |
| `DummyFixture.ToHaveLastEvent` | Sources/NimbleFeedback/NimbleFeedback.swift:90-92 | for a non-empty event list, `after(events).toHave(\.lastEvent)` passes iff the record was empty and the last event is not `.none` |
| `DummyFixture.NotToLastEvent` | Sources/NimbleFeedback/NimbleFeedback.swift:94-96 | for a non-empty event list, `after(events).notTo(\.lastEvent)` passes iff an event was recorded and the last event is `.none` |
| `DummyFixture.ToTurnIsAlpha` | Sources/NimbleFeedback/NimbleFeedback.swift:114-116 | `after(events).toTurn { $0.isAlpha == true }` passes iff the record was not `.alpha` and the last event is `.alpha` |
| `DummyFixture.Scenarios` | Sources/NimbleFeedback/NimbleFeedback.swift:86-124 | `after(.alpha).toHave(\.lastEvent)` from nil passes; `after(.none).notTo(\.lastEvent)` from `.alpha` passes; `after(.alpha).toTurn(isAlpha == true)` passes from nil and fails from `.alpha` |
| `DummyFixture.AfterFormsAgree` | Tests/NimbleFeedbackTests/NimbleFeedbackTests.swift:14-20 | `after(.alpha)` and `after([.alpha])` both capture `[.alpha]` and are the same builder |
| `DummyFixture.ApplyScenarios` | NimbleFeedbackTests/DummyStateTests.swift:12-32 | `apply(.alpha)`, `apply(.none)` and `apply(.beta)` from an empty record give `lastEvent` `.alpha`/nil/`.beta` and `isAlpha` true/nil/false |

## Left out

- Nimble's `Expectation`, `Predicate` and `PredicateResult` are not modelled. Nor is the rendering of failure messages. The target is represented by the value it evaluates to, and an assertion by its polarity, its message and the boolean its matcher reports.
- The throwing `s.evaluate()` (line 148) is not modelled. A throw is reported by Nimble, outside this library's logic.
- The target is assumed to evaluate to the same value for the before and the after assertion. Whether or not Nimble re-evaluates the expression for each assertion, nothing of this library runs between the two evaluations.
- The body of the change callback is arbitrary foreign code. Only the fact and the order of its run are recorded. Any effect it has on the value under test is not modelled.
- The query result type `Q` is left generic. Queries are functions `S -> Option<Q>`, and only whether they are nil matters.
- The differences between the two copies of the library are not modelled: the `public`/internal access modifiers, and `Nimble.Predicate` against plain `Predicate` at lines 146-147. The `Package.swift` packaging is not modelled either. None of these change behaviour.
