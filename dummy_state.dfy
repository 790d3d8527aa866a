/**
 * `DummyState` (NimbleFeedbackTests/DummyState.swift): a reducer with three events that records the
 * last event it saw, `.none` clearing the record. It instantiates the fold and the builder.
 */
module DummyFixture {
  import opened Options
  import opened Reducer
  import opened StateChange

  /** `.none`, `.alpha`, `.beta`. */
  datatype Event = NoneEvent | Alpha | Beta

  datatype DummyState = DummyState(lastEvent: Option<Event>)

  /** `reduce`: `.none` clears `lastEvent`, any other event becomes it. */
  function Reduce(state: DummyState, event: Event): (r: DummyState)
    ensures r.lastEvent.None? <==> event == NoneEvent
    ensures r.lastEvent.Some? ==> r.lastEvent.value == event
  {
    state.(lastEvent := if event == NoneEvent then None else Some(event))
  }

  /** The key path `\.lastEvent`, used as a query. */
  function LastEvent(s: DummyState): Option<Event>
  {
    s.lastEvent
  }

  /** `isAlpha`: absent when there is no last event, otherwise whether it is `.alpha`. */
  function IsAlpha(s: DummyState): (r: Option<bool>)
    ensures r.None? <==> s.lastEvent.None?
    ensures r.Some? ==> (r.value <==> s.lastEvent == Some(Alpha))
  {
    match s.lastEvent
    case Some(le) => Some(le == Alpha)
    case None => None
  }

  /** The matcher `{ $0.isAlpha == true }`. */
  predicate IsAlphaTrue(s: DummyState)
  {
    IsAlpha(s) == Some(true)
  }

  /** `reduce` ignores the prior state, so applying an event twice is applying it once. */
  lemma ReduceForgetsPrior(s: DummyState, t: DummyState, e: Event)
    ensures Reduce(s, e) == Reduce(t, e)
    ensures Reduce(Reduce(s, e), e) == Reduce(s, e)
  {
  }

  /** After a non-empty event list, the state is determined by the last event alone. */
  lemma {:induction false} FoldLastEvent(s: DummyState, events: seq<Event>)
    requires events != []
    ensures Fold(Reduce, s, events) == Reduce(s, events[|events| - 1])
    decreases |events|
  {
    if |events| == 1 {
      FoldSingle(Reduce, s, events[0]);
    } else {
      FoldLastEvent(Reduce(s, events[0]), events[1..]);
    }
  }

  /** `after(events).toHave(\.lastEvent)` passes iff the record was empty and the last event is not `.none`. */
  lemma ToHaveLastEvent(s: DummyState, events: seq<Event>)
    requires events != []
    ensures AllPass(ChangeToHave(After(Some(s), events), Reduce, LastEvent)) <==>
      s.lastEvent.None? && events[|events| - 1] != NoneEvent
  {
    FoldLastEvent(s, events);
  }

  /** `after(events).notTo(\.lastEvent)` passes iff an event was recorded and the last event is `.none`. */
  lemma NotToLastEvent(s: DummyState, events: seq<Event>)
    requires events != []
    ensures AllPass(ChangeNotTo(After(Some(s), events), Reduce, LastEvent)) <==>
      s.lastEvent.Some? && events[|events| - 1] == NoneEvent
  {
    FoldLastEvent(s, events);
  }

  /** `after(events).toTurn { $0.isAlpha == true }` passes iff the record was not `.alpha` and the last event is. */
  lemma ToTurnIsAlpha(s: DummyState, events: seq<Event>)
    requires events != []
    ensures AllPass(ChangeToTurn(After(Some(s), events), Reduce, IsAlphaTrue)) <==>
      s.lastEvent != Some(Alpha) && events[|events| - 1] == Alpha
  {
    FoldLastEvent(s, events);
  }

  /** The concrete scenarios: `.alpha` from an empty record, `.none` from `.alpha`, and `toTurn` both ways. */
  lemma Scenarios()
    ensures AllPass(ChangeToHave(After(Some(DummyState(None)), [Alpha]), Reduce, LastEvent))
    ensures AllPass(ChangeNotTo(After(Some(DummyState(Some(Alpha))), [NoneEvent]), Reduce, LastEvent))
    ensures AllPass(ChangeToTurn(After(Some(DummyState(None)), [Alpha]), Reduce, IsAlphaTrue))
    ensures !AllPass(ChangeToTurn(After(Some(DummyState(Some(Alpha))), [Alpha]), Reduce, IsAlphaTrue))
  {
    ToHaveLastEvent(DummyState(None), [Alpha]);
    NotToLastEvent(DummyState(Some(Alpha)), [NoneEvent]);
    ToTurnIsAlpha(DummyState(None), [Alpha]);
    ToTurnIsAlpha(DummyState(Some(Alpha)), [Alpha]);
  }

  /** Both `after` forms capture `[.alpha]`, in order, with no callback. */
  lemma AfterFormsAgree(s: DummyState)
    ensures After(Some(s), [Alpha]).events == [Alpha]
    ensures AfterList(Some(s), [Alpha]).events == [Alpha]
    ensures After(Some(s), [Alpha]) == AfterList(Some(s), [Alpha])
  {
  }

  /** `apply(.alpha)` records `.alpha`, `apply(.none)` clears the record; `isAlpha` follows. */
  method ApplyScenarios() returns (afterAlpha: DummyState, afterNone: DummyState, afterBeta: DummyState)
    ensures afterAlpha.lastEvent == Some(Alpha) && IsAlpha(afterAlpha) == Some(true)
    ensures afterNone.lastEvent == None && IsAlpha(afterNone) == None
    ensures afterBeta.lastEvent == Some(Beta) && IsAlpha(afterBeta) == Some(false)
  {
    var state := new StateVar(Reduce, DummyState(None));
    state.Apply(Alpha);
    afterAlpha := state.value;
    state.value := DummyState(None);
    state.Apply(NoneEvent);
    afterNone := state.value;
    state.value := DummyState(None);
    state.Apply(Beta);
    afterBeta := state.value;
  }
}
