/**
 * The submit guard and request payload (script.js lines 123-142) and the
 * choice of what the results panel shows (`displayResults`, lines 161-190).
 */
module Results {
  import opened Optional
  import opened SymptomSet

  /** One prediction returned by the backend. */
  datatype Prediction = Prediction(
    disease: string,
    matchPercentage: real,
    description: string,
    precautions: seq<string>,
    medications: seq<string>)

  /** What the results panel shows. */
  datatype Panel =
    | Blank                       // nothing yet
    | LoadError                   // the vocabulary request failed
    | SelectionWarning            // submit with nothing selected
    | RequestError                // the prediction request failed
    | NoMatch                     // the backend found no disease
    | Cards(predictions: seq<Prediction>)

  /** The outcome of a `fetch` and its JSON decoding. */
  datatype Fetched<T> = Received(data: T) | Failed

  /**
   * The body of the prediction request: `None` when nothing is selected (no
   * request is made), otherwise every selected symptom once, in the order the
   * symptoms were selected.
   */
  function Payload(selection: seq<string>): (r: Option<seq<string>>)
    requires NoDup(selection)
    ensures r.None? <==> |selection| == 0
    ensures r.Some? ==> NoDup(r.value) && r.value == selection
  {
    if |selection| == 0 then None else Some(selection)
  }

  /**
   * `displayResults(predictions)`: a missing or empty prediction list gives the
   * "no match" panel, anything else one card per prediction in the given order;
   * the panel never holds an empty list of cards.
   */
  function DisplayResults(predictions: Option<seq<Prediction>>): (p: Panel)
    ensures p == NoMatch <==> predictions == None || predictions == Some([])
    ensures p != NoMatch ==> p == Cards(predictions.value) && |p.predictions| > 0
  {
    if predictions.None? || |predictions.value| == 0 then NoMatch
    else Cards(predictions.value)
  }
}
