/** Loading the dataset from the Firestore proxy: the payload-shape check,
    the non-empty check, and how each failure becomes the message the
    dashboard shows. The request itself is a parameter: its outcome, as the
    `fetch` promise would settle, is given to the model. */
module Api {
  import opened Base
  import opened Text
  import opened Js

  const TimeoutMessage := "API request timed out."
  const ShapeMessage := "Unexpected API response format." + " Expected { photos: { id: photo } }."
  const EmptyMessage := "API returned no photos."
  const DefaultMessage := "Unable to load API data."
  const AbortErrorName := "AbortError"

  /** `typeof v === 'object'` (true for `null`, arrays and objects). */
  predicate IsObjectType(v: Value) {
    v.Null? || v.Arr? || v.Obj?
  }

  /** `isExpectedApiPayload(data)`: a plain object whose `photos` is a plain
      object. */
  function IsExpectedApiPayload(data: Value): (r: bool)
    ensures r <==> data.Obj? && Get(data, "photos").Obj?
    ensures data.Null? || !IsObjectType(data) || data.Arr? ==> !r
  {
    var photos := Get(data, "photos");
    Truthy(data) && IsObjectType(data) && !data.Arr?
      && Truthy(photos) && IsObjectType(photos) && !photos.Arr?
  }

  /** `Object.keys(v).length` for a value that is not `null` or `undefined`:
      a string and an array have one key per element. */
  function KeyCount(v: Value): nat {
    match v
    case Obj(fields) => |fields|
    case Arr(items) => |items|
    case Str(s) => |s|
    case _ => 0
  }

  /** `ensureNonEmpty(dataset)`: the dataset when its `photos` has a key,
      otherwise `null` (here `None`). */
  function EnsureNonEmpty(dataset: Value): (r: Option<Value>)
    ensures r == Some(dataset) <==> KeyCount(Get(dataset, "photos")) > 0
    ensures r.None? <==> KeyCount(Get(dataset, "photos")) == 0
  {
    if KeyCount(Or(Get(dataset, "photos"), Obj([]))) > 0 then Some(dataset) else None
  }

  /** For a payload that passed the shape check, non-empty means `photos`
      has at least one photo id. */
  lemma EnsureNonEmptyOfPayload(dataset: Value)
    requires IsExpectedApiPayload(dataset)
    ensures EnsureNonEmpty(dataset).Some? <==> |Keys(Get(dataset, "photos"))| > 0
  {
  }

  // ---------------------------------------------------------------- failures

  /** A thrown error: its `name` and its `message` (empty when it has none). */
  datatype Thrown = Thrown(name: string, message: string)

  /** A promise that settled: fulfilled with a value or rejected with an error. */
  datatype Settled<T> = Fulfilled(value: T) | Rejected(error: Thrown)

  /** The parts of a `fetch` response the loader reads; `body` is how
      `res.json()` settles. */
  datatype HttpResponse = HttpResponse(ok: bool, status: int, body: Settled<Value>)

  function Raise<T>(message: string): Settled<T> {
    Rejected(Thrown("Error", message))
  }

  function StatusMessage(status: int): string {
    "API request failed (" + IntToString(status) + ")."
  }

  /** The body of the `try` block of `fetchAndNormalize`, before the `catch`
      rewrites an abort. */
  function Normalize(response: Settled<HttpResponse>): Settled<Value> {
    match response
    case Rejected(e) => Rejected(e)
    case Fulfilled(res) =>
      if !res.ok then Raise(StatusMessage(res.status))
      else
        match res.body
        case Rejected(e) => Rejected(e)
        case Fulfilled(payload) =>
          if !IsExpectedApiPayload(payload) then Raise(ShapeMessage)
          else
            var dataset := EnsureNonEmpty(payload);
            if dataset.None? then Raise(EmptyMessage) else Fulfilled(dataset.value)
  }

  /** `fetchAndNormalize(url)` given how the request settles. */
  function FetchAndNormalize(response: Settled<HttpResponse>): (r: Settled<Value>)
    ensures r.Fulfilled? <==>
              && response.Fulfilled? && response.value.ok && response.value.body.Fulfilled?
              && IsExpectedApiPayload(response.value.body.value)
              && |Keys(Get(response.value.body.value, "photos"))| > 0
    ensures r.Fulfilled? ==> r.value == response.value.body.value
    ensures r.Rejected? ==> r.error.name != AbortErrorName
  {
    var r := Normalize(response);
    if r.Rejected? && r.error.name == AbortErrorName then Raise(TimeoutMessage) else r
  }

  /** The checks run in order (status, then shape, then non-emptiness), and
      each failure has its own message; an abort anywhere reads as a time-out. */
  lemma FetchAndNormalizeFailures(response: Settled<HttpResponse>)
    ensures response.Rejected? ==>
              FetchAndNormalize(response) ==
                (if response.error.name == AbortErrorName then Raise(TimeoutMessage) else Rejected(response.error))
    ensures response.Fulfilled? && !response.value.ok ==>
              FetchAndNormalize(response) == Raise(StatusMessage(response.value.status))
    ensures response.Fulfilled? && response.value.ok && response.value.body.Rejected? ==>
              var e := response.value.body.error;
              FetchAndNormalize(response) == (if e.name == AbortErrorName then Raise(TimeoutMessage) else Rejected(e))
    ensures response.Fulfilled? && response.value.ok && response.value.body.Fulfilled?
            && !IsExpectedApiPayload(response.value.body.value) ==>
              FetchAndNormalize(response) == Raise(ShapeMessage)
    ensures response.Fulfilled? && response.value.ok && response.value.body.Fulfilled?
            && IsExpectedApiPayload(response.value.body.value)
            && |Keys(Get(response.value.body.value, "photos"))| == 0 ==>
              FetchAndNormalize(response) == Raise(EmptyMessage)
  {
  }

  /** The four messages of the loader are pairwise different, so the
      message alone tells which check failed. */
  lemma MessagesDistinct(status: int)
    ensures StatusMessage(status) != ShapeMessage && StatusMessage(status) != EmptyMessage
    ensures StatusMessage(status) != TimeoutMessage
    ensures ShapeMessage != EmptyMessage && ShapeMessage != TimeoutMessage && EmptyMessage != TimeoutMessage
  {
    var head := "API request failed (";
    var m := StatusMessage(status);
    assert m == head + (IntToString(status) + ").");
    assert m[12] == head[12] == 'f';
    assert ShapeMessage[12] == "Unexpected API response format."[12] == 'P';
    assert EmptyMessage[12] == ' ' && TimeoutMessage[12] == 't';
  }

  /** `fetchData()`: the dataset, or the message of whatever was thrown, with
      a fixed message for an error that has none. */
  function FetchData(response: Settled<HttpResponse>): (r: Result<Value>)
    ensures r.Ok? <==> FetchAndNormalize(response).Fulfilled?
    ensures r.Ok? ==> r.value == FetchAndNormalize(response).value
    ensures r.Failure? ==> r.message != ""
    ensures r.Failure? ==> var m := FetchAndNormalize(response).error.message;
                           r.message == (if m == "" then DefaultMessage else m)
  {
    match FetchAndNormalize(response)
    case Fulfilled(dataset) => Ok(dataset)
    case Rejected(e) => Failure(if e.message != "" then e.message else DefaultMessage)
  }
}
