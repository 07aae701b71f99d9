/** The priority-based scheduling engine: slot overlap, conflict search, the priority
    rule that picks a winner between a new request and the bookings it collides with,
    the trainer availability check, and the first-fit search for alternative slots.

    Times are minutes since midnight; a date is an opaque calendar-day identifier that is
    only ever compared for equality, so that no time zone enters the model. Identifiers
    the source reads from optional record fields are `Option<Id>`, with `None` standing
    for `undefined`; JavaScript's `===` on such fields is equality of options. */
module Scheduling {
  import opened Wrappers
  import opened Seqs

  type Id = string
  type Date = string
  /** Wall-clock time on a date, in minutes since midnight. */
  type Minute = int

  /** The one status that takes a booking out of conflict consideration. */
  const Cancelled: string := "cancelled"

  datatype Slot = Slot(date: Date, start: Minute, end: Minute)

  /** A slot offered for a given trainer (the objects `generateAlternativeSlots` returns). */
  datatype TrainerSlot = TrainerSlot(slot: Slot, trainerId: Option<Id>)

  /** A training session or a training request. */
  datatype Booking = Booking(
    id: Id,
    date: Date,
    start: Minute,
    end: Minute,
    trainerId: Option<Id>,
    clientId: Option<Id>,
    status: string)
  {
    function Span(): Slot { Slot(date, start, end) }
  }

  /** A window in which a trainer declared themself available. */
  datatype Window = Window(
    id: Id,
    trainerId: Option<Id>,
    date: Date,
    start: Minute,
    end: Minute,
    maxTrainees: int,
    status: string)
  {
    function Span(): Slot { Slot(date, start, end) }
  }

  /** The fields of a client record the scheduler reads. */
  datatype Client = Client(id: Option<Id>, priorityScore: Option<int>)

  // ---------------------------------------------------------------------------
  // Overlap

  /** Minute `m` lies in the half-open interval of `s`. */
  predicate Within(m: Minute, s: Slot) {
    s.start <= m < s.end
  }

  /** `isTimeSlotOverlapping`: two slots overlap when they are on the same date and
      their half-open intervals intersect. */
  function IsTimeSlotOverlapping(a: Slot, b: Slot): (r: bool)
    ensures a.date != b.date ==> !r
    ensures a.start < a.end && b.start < b.end ==>
              (r <==> a.date == b.date && exists m :: Within(m, a) && Within(m, b))
  {
    if a.date == b.date && a.start < b.end && b.start < a.end then
      var m := if a.start < b.start then b.start else a.start;
      assert a.start < a.end && b.start < b.end ==> Within(m, a) && Within(m, b);
      true
    else
      false
  }

  /** Overlap does not depend on the order of its arguments. */
  lemma OverlapSymmetric(a: Slot, b: Slot)
    ensures IsTimeSlotOverlapping(a, b) == IsTimeSlotOverlapping(b, a)
  {
  }

  /** Back-to-back slots (one ends when the other starts) do not overlap. */
  lemma TouchingSlotsDoNotOverlap(a: Slot, b: Slot)
    requires a.end == b.start
    ensures !IsTimeSlotOverlapping(a, b) && !IsTimeSlotOverlapping(b, a)
  {
  }

  /** A non-empty slot overlaps itself. */
  lemma SlotOverlapsItself(a: Slot)
    requires a.start < a.end
    ensures IsTimeSlotOverlapping(a, a)
  {
  }

  // ---------------------------------------------------------------------------
  // Conflicts

  /** The optional trainer argument of `findConflicts` filters only when it is truthy:
      present and not the empty string. */
  predicate FiltersByTrainer(trainerId: Option<Id>) {
    trainerId.Some? && trainerId.value != ""
  }

  /** The condition `findConflicts` applies to each booking. */
  predicate IsConflict(slot: Slot, b: Booking, trainerId: Option<Id>) {
    && b.status != Cancelled
    && (!FiltersByTrainer(trainerId) || b.trainerId == trainerId)
    && IsTimeSlotOverlapping(slot, b.Span())
  }

  /** `findConflicts`: the active bookings that overlap `slot`, restricted to one trainer
      when `trainerId` is truthy, in input order. */
  function FindConflicts(slot: Slot, bookings: seq<Booking>, trainerId: Option<Id>): (r: seq<Booking>)
    ensures IsSubsequence(r, bookings)
    ensures forall i :: 0 <= i < |r| ==>
      && r[i].status != Cancelled
      && r[i].date == slot.date && slot.start < r[i].end && r[i].start < slot.end
      && (trainerId.Some? && trainerId.value != "" ==> r[i].trainerId == trainerId)
    ensures forall i :: 0 <= i < |bookings| ==>
              (&& bookings[i].status != Cancelled
               && bookings[i].date == slot.date && slot.start < bookings[i].end && bookings[i].start < slot.end
               && (trainerId.None? || trainerId.value == "" || bookings[i].trainerId == trainerId)
               ==> bookings[i] in r)
    ensures IsFilterOf(r, bookings, b => IsConflict(slot, b, trainerId))
  {
    Filter(bookings, b => IsConflict(slot, b, trainerId))
  }

  // ---------------------------------------------------------------------------
  // Priorities

  /** `clients.find(c => c.id === id)`: the first client with a matching id. */
  function FindClient(clients: seq<Client>, id: Option<Id>): (r: Option<Client>)
    ensures r.None? <==> forall i :: 0 <= i < |clients| ==> clients[i].id != id
    ensures r.Some? ==> exists i :: (0 <= i < |clients| && clients[i] == r.value
      && clients[i].id == id && forall j :: 0 <= j < i ==> clients[j].id != id)
  {
    if clients == [] then None
    else if clients[0].id == id then Some(clients[0])
    else
      var r := FindClient(clients[1..], id);
      if r.Some? then
        var i :| 0 <= i < |clients[1..]| && clients[1..][i] == r.value
          && clients[1..][i].id == id && forall j :: 0 <= j < i ==> clients[1..][j].id != id;
        assert clients[i + 1] == r.value && forall j :: 0 <= j < i + 1 ==> clients[j].id != id;
        r
      else
        r
  }

  /** `client?.priorityScore || 0`: the score of the first client with the given id, with
      an unknown client or a missing score counting as 0. */
  function Priority(clients: seq<Client>, id: Option<Id>): int {
    match FindClient(clients, id)
    case None => 0
    case Some(c) => c.priorityScore.GetOr(0)
  }

  /** The priority read for an id is the score of the first client carrying that id,
      0 when that client has no score, and 0 when no client carries the id. */
  lemma PriorityIsFirstMatch(clients: seq<Client>, id: Option<Id>)
    ensures (forall i :: 0 <= i < |clients| ==> clients[i].id != id) ==> Priority(clients, id) == 0
    ensures forall i :: 0 <= i < |clients| ==>
              (clients[i].id == id && (forall j :: 0 <= j < i ==> clients[j].id != id)
               ==> Priority(clients, id) == clients[i].priorityScore.GetOr(0))
  {
    var r := FindClient(clients, id);
    if r.Some? {
      var i :| 0 <= i < |clients| && clients[i] == r.value
        && clients[i].id == id && forall j :: 0 <= j < i ==> clients[j].id != id;
      assert forall i' :: (0 <= i' < |clients| && clients[i'].id == id
        && (forall j :: 0 <= j < i' ==> clients[j].id != id)) ==> i' == i;
    }
  }

  function BookingPriority(clients: seq<Client>, b: Booking): int {
    Priority(clients, b.clientId)
  }

  /** `Math.max(...priorities, 0)`: the highest conflict priority, floored at 0. */
  function MaxConflictPriority(conflicts: seq<Booking>, clients: seq<Client>): (m: int)
    ensures m >= 0
    ensures forall i :: 0 <= i < |conflicts| ==> BookingPriority(clients, conflicts[i]) <= m
    ensures m == 0 || exists i :: 0 <= i < |conflicts| && BookingPriority(clients, conflicts[i]) == m
  {
    if conflicts == [] then 0
    else
      var p := BookingPriority(clients, conflicts[0]);
      var rest := MaxConflictPriority(conflicts[1..], clients);
      assert forall i :: 1 <= i < |conflicts| ==> conflicts[i] == conflicts[1..][i - 1];
      if p > rest then p else rest
  }

  /** `b` has a priority no conflict exceeds. */
  predicate AtTopPriority(b: Booking, conflicts: seq<Booking>, clients: seq<Client>) {
    forall k :: 0 <= k < |conflicts| ==> BookingPriority(clients, conflicts[k]) <= BookingPriority(clients, b)
  }

  // ---------------------------------------------------------------------------
  // Resolution

  datatype Winner = NewRequest | Existing

  /** The explanation attached to a resolution, with the priorities it quotes. */
  datatype Reason =
    | HigherPriority(newPriority: int, maxConflictPriority: int)
    | ExistingEqualOrHigher(maxConflictPriority: int, newPriority: int)
    | NoConflicts

  datatype Resolution = Resolution(winner: Winner, newRequest: Booking, affected: seq<Booking>, reason: Reason)

  /** Among the conflicts, filtering on "priority equals `m`" selects the same bookings as
      "no conflict has a higher priority" when `m` is the highest conflict priority. */
  lemma TopFilterIsAtTop(conflicts: seq<Booking>, clients: seq<Client>, m: int, top: seq<Booking>)
    requires forall i :: 0 <= i < |conflicts| ==> BookingPriority(clients, conflicts[i]) <= m
    requires exists i :: 0 <= i < |conflicts| && BookingPriority(clients, conflicts[i]) == m
    requires IsFilterOf(top, conflicts, b => BookingPriority(clients, b) == m)
    ensures IsFilterOf(top, conflicts, b => AtTopPriority(b, conflicts, clients))
  {
    var p := (b: Booking) => BookingPriority(clients, b) == m;
    var q := (b: Booking) => AtTopPriority(b, conflicts, clients);
    forall x | x in conflicts
      ensures p(x) == q(x)
    {
      var i :| 0 <= i < |conflicts| && BookingPriority(clients, conflicts[i]) == m;
      var j :| 0 <= j < |conflicts| && conflicts[j] == x;
      assert q(x) ==> BookingPriority(clients, conflicts[i]) <= BookingPriority(clients, x);
    }
    FilterOfCongruent(top, conflicts, p, q);
  }

  /** `resolveConflictByPriority`, as the source computes it (maximum floored at 0). */
  function ResolveConflictByPriority(newRequest: Booking, conflicts: seq<Booking>, clients: seq<Client>): (r: Resolution)
    ensures r.newRequest == newRequest
    ensures IsSubsequence(r.affected, conflicts)
    // A strictly higher new priority wins and displaces every conflict.
    ensures var np := Priority(clients, newRequest.clientId);
      np > 0 && (forall i :: 0 <= i < |conflicts| ==> BookingPriority(clients, conflicts[i]) < np)
      ==> && r.winner == NewRequest && r.affected == conflicts
          && r.reason == HigherPriority(np, MaxConflictPriority(conflicts, clients))
    // Otherwise an incumbent at or above the new priority (and at least 0) wins, and exactly
    // the incumbents at the top priority are reported.
    ensures var np := Priority(clients, newRequest.clientId);
      (exists i :: 0 <= i < |conflicts| && BookingPriority(clients, conflicts[i]) >= np
        && BookingPriority(clients, conflicts[i]) >= 0)
      ==> && r.winner == Existing
          && |r.affected| > 0
          && IsFilterOf(r.affected, conflicts, b => AtTopPriority(b, conflicts, clients))
          && r.reason == ExistingEqualOrHigher(MaxConflictPriority(conflicts, clients), np)
    // In the remaining case nothing is displaced and the new request wins.
    ensures var np := Priority(clients, newRequest.clientId);
      np <= 0 && (forall i :: 0 <= i < |conflicts| ==> BookingPriority(clients, conflicts[i]) < 0)
      ==> r.winner == NewRequest && r.affected == [] && r.reason == NoConflicts
    ensures conflicts == [] ==> r.winner == NewRequest && r.affected == []
  {
    var newPriority := Priority(clients, newRequest.clientId);
    var maxPriority := MaxConflictPriority(conflicts, clients);
    if newPriority > maxPriority then
      SubsequenceReflexive(conflicts);
      Resolution(NewRequest, newRequest, conflicts, HigherPriority(newPriority, maxPriority))
    else
      var top := Filter(conflicts, b => BookingPriority(clients, b) == maxPriority);
      if |top| > 0 && maxPriority >= newPriority then
        assert top[0] in conflicts;
        TopFilterIsAtTop(conflicts, clients, maxPriority, top);
        Resolution(Existing, newRequest, top, ExistingEqualOrHigher(maxPriority, newPriority))
      else
        assert forall i :: 0 <= i < |conflicts| ==> BookingPriority(clients, conflicts[i]) != maxPriority;
        Resolution(NewRequest, newRequest, [], NoConflicts)
  }

  /** Ties go to the incumbent: a new request whose priority equals the top conflict
      priority loses. */
  lemma TieGoesToIncumbent(newRequest: Booking, conflicts: seq<Booking>, clients: seq<Client>, i: nat)
    requires i < |conflicts|
    requires BookingPriority(clients, conflicts[i]) == Priority(clients, newRequest.clientId)
    requires BookingPriority(clients, conflicts[i]) >= 0
    ensures ResolveConflictByPriority(newRequest, conflicts, clients).winner == Existing
  {
  }

  /** With every conflict priority negative and a new priority of at most 0, the floor at 0
      leaves no conflict at the maximum, so the source falls through to its "No conflicts"
      answer although a conflict exists: the request wins and nothing is displaced. */
  lemma NegativePrioritiesReportNoConflicts()
    ensures
      var held := Booking("t1", "2024-05-06", 540, 600, Some("trainer-1"), Some("c1"), "approved");
      var request := Booking("r1", "2024-05-06", 570, 630, Some("trainer-1"), Some("c2"), "pending");
      var clients := [Client(Some("c1"), Some(-1)), Client(Some("c2"), Some(-5))];
      && FindConflicts(request.Span(), [held], Some("trainer-1")) == [held]
      && ResolveConflictByPriority(request, [held], clients)
         == Resolution(NewRequest, request, [], NoConflicts)
  {
    var held := Booking("t1", "2024-05-06", 540, 600, Some("trainer-1"), Some("c1"), "approved");
    var request := Booking("r1", "2024-05-06", 570, 630, Some("trainer-1"), Some("c2"), "pending");
    var clients := [Client(Some("c1"), Some(-1)), Client(Some("c2"), Some(-5))];
    assert IsConflict(request.Span(), held, Some("trainer-1"));
    assert held in FindConflicts(request.Span(), [held], Some("trainer-1"));
    PriorityIsFirstMatch(clients, Some("c1"));
    PriorityIsFirstMatch(clients, Some("c2"));
    assert BookingPriority(clients, held) == -1;
    assert Priority(clients, request.clientId) == -5;
  }

  /** The highest priority among a non-empty list of conflicts, with no floor. */
  function TopConflictPriority(conflicts: seq<Booking>, clients: seq<Client>): (m: int)
    requires conflicts != []
    ensures forall i :: 0 <= i < |conflicts| ==> BookingPriority(clients, conflicts[i]) <= m
    ensures exists i :: 0 <= i < |conflicts| && BookingPriority(clients, conflicts[i]) == m
  {
    var p := BookingPriority(clients, conflicts[0]);
    if |conflicts| == 1 then p
    else
      var rest := TopConflictPriority(conflicts[1..], clients);
      assert forall i :: 1 <= i < |conflicts| ==> conflicts[i] == conflicts[1..][i - 1];
      if p > rest then p else rest
  }

  /** The priority rule with the maximum taken over the conflicts themselves (0 only when
      there are none): any conflict now blocks a request that does not outrank all of
      them. */
  function ResolveByTopPriority(newRequest: Booking, conflicts: seq<Booking>, clients: seq<Client>): (r: Resolution)
    ensures r.newRequest == newRequest
    ensures IsSubsequence(r.affected, conflicts)
    ensures conflicts == [] ==> r.winner == NewRequest && r.affected == []
    ensures conflicts != [] ==>
      (r.winner == NewRequest <==>
        forall i :: 0 <= i < |conflicts| ==> BookingPriority(clients, conflicts[i]) < Priority(clients, newRequest.clientId))
    ensures conflicts != [] && r.winner == NewRequest ==> r.affected == conflicts
    ensures r.winner == Existing ==>
      |r.affected| > 0 && IsFilterOf(r.affected, conflicts, b => AtTopPriority(b, conflicts, clients))
  {
    var newPriority := Priority(clients, newRequest.clientId);
    var maxPriority := if conflicts == [] then 0 else TopConflictPriority(conflicts, clients);
    if newPriority > maxPriority then
      SubsequenceReflexive(conflicts);
      Resolution(NewRequest, newRequest, conflicts, HigherPriority(newPriority, maxPriority))
    else
      var top := Filter(conflicts, b => BookingPriority(clients, b) == maxPriority);
      if |top| > 0 && maxPriority >= newPriority then
        assert top[0] in conflicts;
        TopFilterIsAtTop(conflicts, clients, maxPriority, top);
        Resolution(Existing, newRequest, top, ExistingEqualOrHigher(maxPriority, newPriority))
      else
        Resolution(NewRequest, newRequest, [], NoConflicts)
  }

  /** The corrected rule differs from the source only when conflicts exist and all of them
      have negative priority. */
  lemma ResolveAgreesUnlessAllNegative(newRequest: Booking, conflicts: seq<Booking>, clients: seq<Client>)
    requires conflicts == [] || exists i :: 0 <= i < |conflicts| && BookingPriority(clients, conflicts[i]) >= 0
    ensures ResolveByTopPriority(newRequest, conflicts, clients) == ResolveConflictByPriority(newRequest, conflicts, clients)
  {
    if conflicts != [] {
      var m := TopConflictPriority(conflicts, clients);
      var m' := MaxConflictPriority(conflicts, clients);
      assert m == m';
    }
  }

  // ---------------------------------------------------------------------------
  // Availability

  /** Window `w` belongs to the trainer, is on the slot's date and contains the slot. */
  predicate Covers(w: Window, trainerId: Option<Id>, slot: Slot) {
    && w.trainerId == trainerId
    && w.date == slot.date
    && w.start <= slot.start
    && slot.end <= w.end
  }

  /** `availability.some(...)`: some single window covers the slot. */
  function SomeWindowCovers(windows: seq<Window>, trainerId: Option<Id>, slot: Slot): (r: bool)
    ensures r <==> exists k :: (0 <= k < |windows| && windows[k].trainerId == trainerId
      && windows[k].date == slot.date && windows[k].start <= slot.start && slot.end <= windows[k].end)
  {
    if windows == [] then false
    else if Covers(windows[0], trainerId, slot) then true
    else
      assert forall k :: 1 <= k < |windows| ==> windows[k] == windows[1..][k - 1];
      SomeWindowCovers(windows[1..], trainerId, slot)
  }

  /** The three outcomes of `checkTrainerAvailability`. */
  datatype AvailabilityCheck =
    | Available
    | NotInAvailability      // "Trainer not available for this time slot"
    | AlreadyBooked(conflicts: seq<Booking>)   // "Time slot already booked"

  /** `checkTrainerAvailability`: containment in one declared window first, then the
      conflict search for this trainer. */
  function CheckTrainerAvailability(slot: Slot, trainerId: Option<Id>, windows: seq<Window>, bookings: seq<Booking>): (r: AvailabilityCheck)
    ensures r.NotInAvailability? <==> forall k :: 0 <= k < |windows| ==> !Covers(windows[k], trainerId, slot)
    ensures r.AlreadyBooked? ==> r.conflicts == FindConflicts(slot, bookings, trainerId) && r.conflicts != []
    ensures r.Available? <==>
      (exists k :: 0 <= k < |windows| && Covers(windows[k], trainerId, slot))
      && FindConflicts(slot, bookings, trainerId) == []
  {
    if !SomeWindowCovers(windows, trainerId, slot) then NotInAvailability
    else
      var conflicts := FindConflicts(slot, bookings, trainerId);
      if |conflicts| > 0 then AlreadyBooked(conflicts) else Available
  }

  /** Neither the status nor the capacity of a window is consulted. */
  lemma WindowStatusIgnored(slot: Slot, trainerId: Option<Id>, windows: seq<Window>, windows': seq<Window>, bookings: seq<Booking>)
    requires |windows| == |windows'|
    requires forall k :: 0 <= k < |windows| ==> windows'[k] == windows[k].(status := windows'[k].status, maxTrainees := windows'[k].maxTrainees)
    ensures CheckTrainerAvailability(slot, trainerId, windows, bookings) == CheckTrainerAvailability(slot, trainerId, windows', bookings)
  {
    assert forall k :: 0 <= k < |windows| ==> (Covers(windows[k], trainerId, slot) <==> Covers(windows'[k], trainerId, slot));
  }

  // ---------------------------------------------------------------------------
  // Alternatives

  /** The span of window `w`, offered for `trainerId`, passes the availability check. */
  predicate OffersAlternative(w: Window, trainerId: Option<Id>, windows: seq<Window>, bookings: seq<Booking>) {
    CheckTrainerAvailability(w.Span(), trainerId, windows, bookings).Available?
  }

  /** The windows declared by `trainerId`, in order. */
  function TrainerWindows(windows: seq<Window>, trainerId: Option<Id>): (r: seq<Window>)
    ensures forall i :: 0 <= i < |r| ==> r[i] in windows && r[i].trainerId == trainerId
    ensures IsFilterOf(r, windows, (w: Window) => w.trainerId == trainerId)
  {
    Filter(windows, (w: Window) => w.trainerId == trainerId)
  }

  /** Reference definition: every window of `pool` whose span passes the check, in order,
      as a slot for `trainerId`. */
  function Alternatives(trainerId: Option<Id>, pool: seq<Window>, windows: seq<Window>, bookings: seq<Booking>): (r: seq<TrainerSlot>)
    ensures |r| <= |pool|
  {
    if pool == [] then []
    else if OffersAlternative(pool[0], trainerId, windows, bookings) then
      [TrainerSlot(pool[0].Span(), trainerId)] + Alternatives(trainerId, pool[1..], windows, bookings)
    else
      Alternatives(trainerId, pool[1..], windows, bookings)
  }

  /** `a` is offered for `trainerId`, passes the availability check, and is the span of
      a window of `pool`. */
  ghost predicate SoundAlternative(a: TrainerSlot, trainerId: Option<Id>, pool: seq<Window>, windows: seq<Window>, bookings: seq<Booking>) {
    && a.trainerId == trainerId
    && CheckTrainerAvailability(a.slot, trainerId, windows, bookings).Available?
    && exists w :: w in pool && w.Span() == a.slot
  }

  lemma {:induction false} AlternativesSound(trainerId: Option<Id>, pool: seq<Window>, windows: seq<Window>, bookings: seq<Booking>)
    ensures forall a :: a in Alternatives(trainerId, pool, windows, bookings) ==>
      SoundAlternative(a, trainerId, pool, windows, bookings)
    decreases |pool|
  {
    if pool != [] {
      AlternativesSound(trainerId, pool[1..], windows, bookings);
      assert forall w :: w in pool[1..] ==> w in pool;
    }
  }

  lemma {:induction false} AlternativesAppend(trainerId: Option<Id>, a: seq<Window>, b: seq<Window>, windows: seq<Window>, bookings: seq<Booking>)
    ensures Alternatives(trainerId, a + b, windows, bookings)
         == Alternatives(trainerId, a, windows, bookings) + Alternatives(trainerId, b, windows, bookings)
    decreases |a|
  {
    if a == [] {
      assert a + b == b;
    } else {
      assert (a + b)[1..] == a[1..] + b;
      AlternativesAppend(trainerId, a[1..], b, windows, bookings);
    }
  }

  /** Scanning one more window of `pool` extends the alternatives found so far by at
      most that window's span. */
  lemma AlternativesExtend(trainerId: Option<Id>, pool: seq<Window>, i: nat, windows: seq<Window>, bookings: seq<Booking>)
    requires i < |pool|
    ensures Alternatives(trainerId, pool[..i + 1], windows, bookings)
         == Alternatives(trainerId, pool[..i], windows, bookings)
            + if OffersAlternative(pool[i], trainerId, windows, bookings) then [TrainerSlot(pool[i].Span(), trainerId)] else []
  {
    assert pool[..i + 1] == pool[..i] + [pool[i]];
    AlternativesAppend(trainerId, pool[..i], [pool[i]], windows, bookings);
    assert [pool[i]][1..] == [];
  }

  /** A trainer's own window always contains its own span, so only a booking conflict can
      keep it from being offered as an alternative. */
  lemma OwnWindowRejectedOnlyByConflicts(w: Window, windows: seq<Window>, bookings: seq<Booking>)
    requires w in windows
    ensures OffersAlternative(w, w.trainerId, windows, bookings)
        <==> FindConflicts(w.Span(), bookings, w.trainerId) == []
  {
    var k :| 0 <= k < |windows| && windows[k] == w;
    assert Covers(windows[k], w.trainerId, w.Span());
  }

  /** The first `n` alternatives, where `n` is `count` clamped to what exists. */
  function FirstAlternatives(all: seq<TrainerSlot>, count: int): seq<TrainerSlot> {
    all[..if count < 0 then 0 else if count < |all| then count else |all|]
  }

  /** Stopping the scan once `count` alternatives are found, or when the pool is exhausted,
      yields the first `count` alternatives of the whole pool. */
  lemma FirstFitIsPrefix(trainerId: Option<Id>, pool: seq<Window>, i: nat, windows: seq<Window>, bookings: seq<Booking>, count: int)
    requires i <= |pool|
    requires |Alternatives(trainerId, pool[..i], windows, bookings)| <= if count < 0 then 0 else count
    requires i == |pool| || |Alternatives(trainerId, pool[..i], windows, bookings)| >= count
    ensures Alternatives(trainerId, pool[..i], windows, bookings)
         == FirstAlternatives(Alternatives(trainerId, pool, windows, bookings), count)
  {
    assert pool == pool[..i] + pool[i..];
    AlternativesAppend(trainerId, pool[..i], pool[i..], windows, bookings);
  }

  /** `generateAlternativeSlots`: a first-fit scan over the original trainer's windows,
      keeping the spans that pass the availability check, until `count` are found. */
  method GenerateAlternativeSlots(original: TrainerSlot, windows: seq<Window>, bookings: seq<Booking>, count: int)
    returns (alternatives: seq<TrainerSlot>)
    ensures count <= 0 ==> alternatives == []
    ensures |alternatives| <= if count < 0 then 0 else count
    ensures alternatives == FirstAlternatives(
      Alternatives(original.trainerId, TrainerWindows(windows, original.trainerId), windows, bookings), count)
    ensures forall a :: a in alternatives ==>
      SoundAlternative(a, original.trainerId, TrainerWindows(windows, original.trainerId), windows, bookings)
  {
    var trainerId := original.trainerId;
    var relevant := TrainerWindows(windows, trainerId);
    alternatives := [];
    var i := 0;
    // The source's `break` once `count` alternatives are collected is the second
    // conjunct of the loop guard.
    while i < |relevant| && |alternatives| < count
      invariant 0 <= i <= |relevant|
      invariant alternatives == Alternatives(trainerId, relevant[..i], windows, bookings)
      invariant |alternatives| <= if count < 0 then 0 else count
    {
      var w := relevant[i];
      var slot := w.Span();
      AlternativesExtend(trainerId, relevant, i, windows, bookings);
      var check := CheckTrainerAvailability(slot, trainerId, windows, bookings);
      if check.Available? {
        alternatives := alternatives + [TrainerSlot(slot, trainerId)];
      }
      i := i + 1;
    }
    FirstFitIsPrefix(trainerId, relevant, i, windows, bookings, count);
    AlternativesSound(trainerId, relevant, windows, bookings);
  }
}
