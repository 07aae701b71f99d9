/** The `training` slice of the Redux store: the lists of trainings, availability windows
    and training requests the scheduler reads, plus the loading and error flags. Each
    reducer is a pure function from the old state and the action's payload to the new
    state (the slice's in-place "mutations" produce a new state in Redux). */
module TrainingSlice {
  import opened Records

  datatype TrainingState = TrainingState(
    trainings: seq<Record>,
    availability: seq<Record>,
    requests: seq<Record>,
    loading: Value,
    error: Value)

  /** The slice's `initialState`: empty lists, not loading, no error. */
  function InitialState(): (s: TrainingState)
    ensures s.trainings == [] && s.availability == [] && s.requests == []
    ensures s.loading == Bool(false) && s.error == Null
  {
    TrainingState([], [], [], Bool(false), Null)
  }

  /** `setTrainings`: the trainings become the payload; nothing else changes. */
  function SetTrainings(s: TrainingState, payload: seq<Record>): (r: TrainingState)
    ensures r.trainings == payload
    ensures r.availability == s.availability && r.requests == s.requests
    ensures r.loading == s.loading && r.error == s.error
  {
    s.(trainings := payload)
  }

  /** `addTraining`: the payload is appended to the trainings. */
  function AddTraining(s: TrainingState, payload: Record): (r: TrainingState)
    ensures |r.trainings| == |s.trainings| + 1
    ensures r.trainings[..|s.trainings|] == s.trainings && r.trainings[|s.trainings|] == payload
    ensures r.availability == s.availability && r.requests == s.requests
    ensures r.loading == s.loading && r.error == s.error
  {
    s.(trainings := Push(s.trainings, payload))
  }

  /** `updateTraining`: the payload is merged into the first training with its id. */
  function UpdateTraining(s: TrainingState, payload: Record): (r: TrainingState)
    ensures |r.trainings| == |s.trainings|
    ensures (forall j :: 0 <= j < |s.trainings| ==> Get(s.trainings[j], IdField) != Get(payload, IdField)) ==> r == s
    ensures forall k :: IsFirstWithId(s.trainings, k, Get(payload, IdField)) ==>
      && r.trainings[k] == Spread(s.trainings[k], payload)
      && forall j :: 0 <= j < |s.trainings| && j != k ==> r.trainings[j] == s.trainings[j]
    ensures r.availability == s.availability && r.requests == s.requests
    ensures r.loading == s.loading && r.error == s.error
  {
    s.(trainings := MergeById(s.trainings, payload))
  }

  /** `setAvailability`: the availability windows become the payload; nothing else changes. */
  function SetAvailability(s: TrainingState, payload: seq<Record>): (r: TrainingState)
    ensures r.availability == payload
    ensures r.trainings == s.trainings && r.requests == s.requests
    ensures r.loading == s.loading && r.error == s.error
  {
    s.(availability := payload)
  }

  /** `addAvailability`: the payload is appended to the availability windows. */
  function AddAvailability(s: TrainingState, payload: Record): (r: TrainingState)
    ensures |r.availability| == |s.availability| + 1
    ensures r.availability[..|s.availability|] == s.availability && r.availability[|s.availability|] == payload
    ensures r.trainings == s.trainings && r.requests == s.requests
    ensures r.loading == s.loading && r.error == s.error
  {
    s.(availability := Push(s.availability, payload))
  }

  /** `setRequests`: the requests become the payload; nothing else changes. */
  function SetRequests(s: TrainingState, payload: seq<Record>): (r: TrainingState)
    ensures r.requests == payload
    ensures r.trainings == s.trainings && r.availability == s.availability
    ensures r.loading == s.loading && r.error == s.error
  {
    s.(requests := payload)
  }

  /** `addRequest`: the payload is appended to the requests. */
  function AddRequest(s: TrainingState, payload: Record): (r: TrainingState)
    ensures |r.requests| == |s.requests| + 1
    ensures r.requests[..|s.requests|] == s.requests && r.requests[|s.requests|] == payload
    ensures r.trainings == s.trainings && r.availability == s.availability
    ensures r.loading == s.loading && r.error == s.error
  {
    s.(requests := Push(s.requests, payload))
  }

  /** `updateRequest`: the payload is merged into the first request with its id; the
      trainings are untouched. */
  function UpdateRequest(s: TrainingState, payload: Record): (r: TrainingState)
    ensures |r.requests| == |s.requests|
    ensures (forall j :: 0 <= j < |s.requests| ==> Get(s.requests[j], IdField) != Get(payload, IdField)) ==> r == s
    ensures forall k :: IsFirstWithId(s.requests, k, Get(payload, IdField)) ==>
      && r.requests[k] == Spread(s.requests[k], payload)
      && forall j :: 0 <= j < |s.requests| && j != k ==> r.requests[j] == s.requests[j]
    ensures r.trainings == s.trainings && r.availability == s.availability
    ensures r.loading == s.loading && r.error == s.error
  {
    s.(requests := MergeById(s.requests, payload))
  }

  /** `setLoading`: only the loading flag changes. */
  function SetLoading(s: TrainingState, payload: Value): (r: TrainingState)
    ensures r.loading == payload
    ensures r.trainings == s.trainings && r.availability == s.availability && r.requests == s.requests
    ensures r.error == s.error
  {
    s.(loading := payload)
  }

  /** `setError`: only the error changes. */
  function SetError(s: TrainingState, payload: Value): (r: TrainingState)
    ensures r.error == payload
    ensures r.trainings == s.trainings && r.availability == s.availability && r.requests == s.requests
    ensures r.loading == s.loading
  {
    s.(error := payload)
  }

  /** Dispatching the same `updateTraining` twice leaves the state as one dispatch does. */
  lemma UpdateTrainingIdempotent(s: TrainingState, payload: Record)
    ensures UpdateTraining(UpdateTraining(s, payload), payload) == UpdateTraining(s, payload)
  {
    MergeByIdIdempotent(s.trainings, payload);
  }

  /** Dispatching the same `updateRequest` twice leaves the state as one dispatch does. */
  lemma UpdateRequestIdempotent(s: TrainingState, payload: Record)
    ensures UpdateRequest(UpdateRequest(s, payload), payload) == UpdateRequest(s, payload)
  {
    MergeByIdIdempotent(s.requests, payload);
  }

  /** A training added under a fresh id can be found and updated afterwards: the update
      lands on the added record, at the end of the list. */
  lemma UpdateAfterAddTraining(s: TrainingState, added: Record, payload: Record)
    requires forall j :: 0 <= j < |s.trainings| ==> Get(s.trainings[j], IdField) != Get(added, IdField)
    requires Get(payload, IdField) == Get(added, IdField)
    ensures UpdateTraining(AddTraining(s, added), payload).trainings == s.trainings + [Spread(added, payload)]
  {
    var t := AddTraining(s, added).trainings;
    assert IsFirstWithId(t, |s.trainings|, Get(payload, IdField));
  }
}
