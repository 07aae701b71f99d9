/** The `users` slice of the Redux store: trainers, trainees and clients, plus the loading
    and error flags. The client records are what the scheduler's priority lookup reads;
    `updateClient` is how an administrator's new priority score reaches it. */
module UserSlice {
  import opened Wrappers
  import opened Records
  import Scheduling

  datatype UserState = UserState(
    trainers: seq<Record>,
    trainees: seq<Record>,
    clients: seq<Record>,
    loading: Value,
    error: Value)

  /** The slice's `initialState`: empty lists, not loading, no error. */
  function InitialState(): (s: UserState)
    ensures s.trainers == [] && s.trainees == [] && s.clients == []
    ensures s.loading == Bool(false) && s.error == Null
  {
    UserState([], [], [], Bool(false), Null)
  }

  /** `setTrainers`: the trainers become the payload; nothing else changes. */
  function SetTrainers(s: UserState, payload: seq<Record>): (r: UserState)
    ensures r.trainers == payload
    ensures r.trainees == s.trainees && r.clients == s.clients
    ensures r.loading == s.loading && r.error == s.error
  {
    s.(trainers := payload)
  }

  /** `setTrainees`: the trainees become the payload; nothing else changes. */
  function SetTrainees(s: UserState, payload: seq<Record>): (r: UserState)
    ensures r.trainees == payload
    ensures r.trainers == s.trainers && r.clients == s.clients
    ensures r.loading == s.loading && r.error == s.error
  {
    s.(trainees := payload)
  }

  /** `setClients`: the clients become the payload; nothing else changes. */
  function SetClients(s: UserState, payload: seq<Record>): (r: UserState)
    ensures r.clients == payload
    ensures r.trainers == s.trainers && r.trainees == s.trainees
    ensures r.loading == s.loading && r.error == s.error
  {
    s.(clients := payload)
  }

  /** `addTrainer`: the payload is appended to the trainers. */
  function AddTrainer(s: UserState, payload: Record): (r: UserState)
    ensures |r.trainers| == |s.trainers| + 1
    ensures r.trainers[..|s.trainers|] == s.trainers && r.trainers[|s.trainers|] == payload
    ensures r.trainees == s.trainees && r.clients == s.clients
    ensures r.loading == s.loading && r.error == s.error
  {
    s.(trainers := Push(s.trainers, payload))
  }

  /** `addTrainee`: the payload is appended to the trainees. */
  function AddTrainee(s: UserState, payload: Record): (r: UserState)
    ensures |r.trainees| == |s.trainees| + 1
    ensures r.trainees[..|s.trainees|] == s.trainees && r.trainees[|s.trainees|] == payload
    ensures r.trainers == s.trainers && r.clients == s.clients
    ensures r.loading == s.loading && r.error == s.error
  {
    s.(trainees := Push(s.trainees, payload))
  }

  /** `addClient`: the payload is appended to the clients. */
  function AddClient(s: UserState, payload: Record): (r: UserState)
    ensures |r.clients| == |s.clients| + 1
    ensures r.clients[..|s.clients|] == s.clients && r.clients[|s.clients|] == payload
    ensures r.trainers == s.trainers && r.trainees == s.trainees
    ensures r.loading == s.loading && r.error == s.error
  {
    s.(clients := Push(s.clients, payload))
  }

  /** `updateClient`: the payload is merged into the first client with its id. */
  function UpdateClient(s: UserState, payload: Record): (r: UserState)
    ensures |r.clients| == |s.clients|
    ensures (forall j :: 0 <= j < |s.clients| ==> Get(s.clients[j], IdField) != Get(payload, IdField)) ==> r == s
    ensures forall k :: IsFirstWithId(s.clients, k, Get(payload, IdField)) ==>
      && r.clients[k] == Spread(s.clients[k], payload)
      && forall j :: 0 <= j < |s.clients| && j != k ==> r.clients[j] == s.clients[j]
    ensures r.trainers == s.trainers && r.trainees == s.trainees
    ensures r.loading == s.loading && r.error == s.error
  {
    s.(clients := MergeById(s.clients, payload))
  }

  /** `setLoading`: only the loading flag changes. */
  function SetLoading(s: UserState, payload: Value): (r: UserState)
    ensures r.loading == payload
    ensures r.trainers == s.trainers && r.trainees == s.trainees && r.clients == s.clients
    ensures r.error == s.error
  {
    s.(loading := payload)
  }

  /** `setError`: only the error changes. */
  function SetError(s: UserState, payload: Value): (r: UserState)
    ensures r.error == payload
    ensures r.trainers == s.trainers && r.trainees == s.trainees && r.clients == s.clients
    ensures r.loading == s.loading
  {
    s.(error := payload)
  }

  /** Dispatching the same `updateClient` twice leaves the state as one dispatch does. */
  lemma UpdateClientIdempotent(s: UserState, payload: Record)
    ensures UpdateClient(UpdateClient(s, payload), payload) == UpdateClient(s, payload)
  {
    MergeByIdIdempotent(s.clients, payload);
  }

  // ---------------------------------------------------------------------------
  // The scheduler's view of the client records

  /** What the scheduler reads from a client record: a string `id` and a numeric
      `priorityScore`; any other value reads as absent. */
  function SchedulerClient(c: Record): (r: Scheduling.Client)
    ensures r.id.Some? <==> Get(c, IdField).Str?
    ensures r.id.Some? ==> Get(c, IdField) == Str(r.id.value)
    ensures r.priorityScore.Some? <==> Get(c, "priorityScore").Num?
    ensures r.priorityScore.Some? ==> Get(c, "priorityScore") == Num(r.priorityScore.value)
  {
    var id := Get(c, IdField);
    var score := Get(c, "priorityScore");
    Scheduling.Client(
      if id.Str? then Some(id.s) else None,
      if score.Num? then Some(score.n) else None)
  }

  function SchedulerClients(clients: seq<Record>): (r: seq<Scheduling.Client>)
    ensures |r| == |clients|
    ensures forall i :: 0 <= i < |clients| ==> r[i] == SchedulerClient(clients[i])
  {
    seq(|clients|, i requires 0 <= i < |clients| => SchedulerClient(clients[i]))
  }

  /** After `updateClient({ id, priorityScore: p })` for a client that exists, the
      scheduler's first-match lookup of that id reads priority `p`. */
  lemma UpdatedPriorityIsRead(s: UserState, id: string, p: int)
    requires exists k :: 0 <= k < |s.clients| && Get(s.clients[k], IdField) == Str(id)
    ensures var payload := map[IdField := Str(id), "priorityScore" := Num(p)];
      Scheduling.Priority(SchedulerClients(UpdateClient(s, payload).clients), Some(id)) == p
  {
    var payload := map[IdField := Str(id), "priorityScore" := Num(p)];
    var k := FindIndex(s.clients, Str(id));
    assert Get(payload, IdField) == Str(id);
    assert IsFirstWithId(s.clients, k, Str(id));
    var updated := UpdateClient(s, payload).clients;
    var view := SchedulerClients(updated);
    assert updated[k] == Spread(s.clients[k], payload);
    assert Get(updated[k], "priorityScore") == Num(p);
    assert view[k].id == Some(id) && view[k].priorityScore == Some(p);
    assert forall j :: 0 <= j < k ==> view[j].id != Some(id);
    Scheduling.PriorityIsFirstMatch(view, Some(id));
  }
}
