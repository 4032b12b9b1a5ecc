/**
 * The decision mapper: the classifier's raw prediction and class
 * probabilities become a final state (with a bias towards "Normal"), a
 * confidence, and the label, advice and colour of that state; plus the
 * action-plan text and the forecast hour shown beside it.
 */
module Decision {
  import opened Wrappers

  /** "Normal" (class 1) wins outright once its probability is strictly above this. */
  const NormalBias: real := 0.30

  /** Label, advice and banner colour of one state. */
  datatype StateInfo = StateInfo(title: string, advice: string, colorType: string)

  /** The `states` table, keyed by final state. */
  const States: map<int, StateInfo> := map[
    0 := StateInfo("\U{1F534} LOW SUPPLY", "Empty station alert. Riders won't find bikes.", "error"),
    1 := StateInfo("\U{1F7E2} NORMAL", "Balanced flow. Station is healthy.", "success"),
    2 := StateInfo("\U{1F535} HIGH SUPPLY", "Full station alert. Riders won't find docks.", "info")
  ]

  /**
   * Why the block stops: an index read past the end of the probability
   * vector (`probs[i]`), or a final state the table has no entry for
   * (`states[final_state]`).
   */
  datatype Failure = ProbabilityIndex(index: int) | UnknownState(state: int)

  /** What the dashboard shows for one prediction. */
  datatype Decision = Decision(finalState: int, info: StateInfo, confidence: real)

  /**
   * The final state: 1 whenever the "Normal" probability exceeds the bias
   * threshold, otherwise the classifier's own prediction.
   */
  function FinalState(predicted: int, probs: seq<real>): (r: Result<int, Failure>)
    ensures r.Failure? <==> |probs| < 2
    ensures r.Failure? ==> r.error == ProbabilityIndex(1)
    ensures r.Success? && r.value != predicted ==> r.value == 1 && probs[1] > NormalBias
    ensures r.Success? && probs[1] > NormalBias ==> r.value == 1
    ensures r.Success? && probs[1] <= NormalBias ==> r.value == predicted
  {
    if |probs| < 2 then Failure(ProbabilityIndex(1))
    else if probs[1] > NormalBias then Success(1)
    else Success(predicted)
  }

  /**
   * The whole block: final state, then the table lookup, then the
   * confidence read from the probability of the final (possibly overridden)
   * state.
   */
  function Decide(predicted: int, probs: seq<real>): (r: Result<Decision, Failure>)
    ensures r.Success? <==>
      |probs| >= 2 && (probs[1] > NormalBias || (0 <= predicted <= 2 && predicted < |probs|))
    ensures r.Success? ==> r.value.finalState in States
                           && r.value.info == States[r.value.finalState]
                           && r.value.finalState < |probs|
                           && r.value.confidence == probs[r.value.finalState]
    ensures |probs| >= 2 && probs[1] > NormalBias ==> r == Success(Decision(1, States[1], probs[1]))
    ensures r.Success? && probs[1] <= NormalBias ==> r.value.finalState == predicted
    ensures |probs| < 2 ==> r == Failure(ProbabilityIndex(1))
    ensures |probs| >= 2 && probs[1] <= NormalBias && predicted !in States ==> r == Failure(UnknownState(predicted))
    ensures |probs| >= 2 && probs[1] <= NormalBias && predicted in States && predicted >= |probs| ==>
      r == Failure(ProbabilityIndex(predicted))
  {
    match FinalState(predicted, probs)
    case Failure(e) => Failure(e)
    case Success(s) =>
      if s !in States then Failure(UnknownState(s))
      else if s >= |probs| then Failure(ProbabilityIndex(s))
      else Success(Decision(s, States[s], probs[s]))
  }

  /**
   * The table is defined for exactly the three states 0, 1 and 2, with
   * three distinct colours and distinct labels.
   */
  lemma StatesTable()
    ensures States.Keys == {0, 1, 2}
    ensures States[0].colorType == "error" && States[1].colorType == "success" && States[2].colorType == "info"
    ensures States[0].title != States[1].title && States[1].title != States[2].title && States[0].title != States[2].title
  {
  }

  /**
   * When the override fires the reported confidence is the "Normal"
   * probability, so it too exceeds the threshold, whatever the raw
   * prediction was.
   */
  lemma OverrideConfidence(predicted: int, probs: seq<real>)
    requires |probs| >= 2 && probs[1] > NormalBias
    ensures Decide(predicted, probs).Success?
    ensures Decide(predicted, probs).value.confidence > NormalBias
    ensures Decide(predicted, probs).value.info.title == "\U{1F7E2} NORMAL"
  {
  }

  /** Feeding the final state back in as the prediction changes nothing. */
  lemma DecideIdempotent(predicted: int, probs: seq<real>)
    requires Decide(predicted, probs).Success?
    ensures Decide(Decide(predicted, probs).value.finalState, probs) == Decide(predicted, probs)
  {
  }

  /** The action-plan text for a final state. */
  function ActionPlan(finalState: int): (a: string)
    ensures a == "ADD BIKES" <==> finalState == 0
    ensures a == "CLEAR DOCKS" <==> finalState == 2
    ensures a == "MONITOR" <==> finalState != 0 && finalState != 2
  {
    if finalState == 0 then "ADD BIKES"
    else if finalState == 2 then "CLEAR DOCKS"
    else "MONITOR"
  }

  /**
   * The action agrees with the state table: bikes are added on the "error"
   * (low supply) state, docks are cleared on the "info" (high supply)
   * state, and the "success" (normal) state is only monitored.
   */
  lemma ActionAgreesWithStates(s: int)
    requires s in States
    ensures ActionPlan(s) == "ADD BIKES" <==> States[s].colorType == "error"
    ensures ActionPlan(s) == "CLEAR DOCKS" <==> States[s].colorType == "info"
    ensures ActionPlan(s) == "MONITOR" <==> States[s].colorType == "success"
  {
  }

  /** The hour the forecast is for: two hours on, on the 24-hour clock. */
  function ForecastHour(hour: int): (h: int)
    ensures 0 <= h < 24
  {
    (hour + 2) % 24
  }

  /** On the slider's range the forecast hour moves two ahead and wraps 22 to 0 and 23 to 1. */
  lemma ForecastHourWraps(hour: int)
    requires 0 <= hour <= 23
    ensures ForecastHour(hour) == if hour < 22 then hour + 2 else hour - 22
  {
  }

  /** On the slider's range no two hours share a forecast hour. */
  lemma ForecastHourInjective(h1: int, h2: int)
    requires 0 <= h1 <= 23 && 0 <= h2 <= 23
    requires ForecastHour(h1) == ForecastHour(h2)
    ensures h1 == h2
  {
    ForecastHourWraps(h1);
    ForecastHourWraps(h2);
  }
}
