# Training scheduler core in Dafny

A model of the scheduling core of the TrainingReactJs application (a training-management
front end in which clients request training sessions, trainers publish availability
windows and administrators approve requests), together with the Redux store slices that
hold its data and the e-mail chip field used by its forms.

- `scheduling.dfy` — module `Scheduling`: the overlap predicate, the conflict finder,
  the priority-based conflict resolver, the trainer availability check and the
  alternative-slot generator. Times are minutes since midnight; dates are opaque strings
  compared for equality; optional identifiers are `Option<string>`, `None` standing for
  `undefined`.
- `records.dfy` — module `Records`: store records as maps from field name to a primitive
  value, object spread, `push`, `findIndex` by id and the merge-by-id step both slices use.
- `training_slice.dfy` / `user_slice.dfy` — modules `TrainingSlice` and `UserSlice`: every
  reducer as a pure function from state and payload to state, plus the reading of a client
  record as the scheduler's `Client`.
- `email_input.dfy` — module `EmailInput`: the address validator (the regular expression
  `^[^\s@]+@[^\s@]+\.[^\s@]+$` stated as a predicate), split/trim/join of the string
  value, adding and removing chips, and the Enter/Backspace key handling.
- `seqs.dfy`, `wrappers.dfy` — modules `Seqs` (order-preserving filter with its
  characterisation) and `Wrappers` (`Option`).

Where the code and its own comments disagree, the model follows the code:

- The resolver floors the highest conflict priority at 0 (`Math.max(..., 0)`), so when
  every conflict has a negative priority and the new request's priority is at most 0 the
  code answers "new wins, nothing affected, No conflicts" although conflicts exist. The
  comments at scheduling.js:78 (an existing booking of higher priority wins) and
  scheduling.js:92 (the new request wins when there are no conflicts) say otherwise. See
  "## Findings".
- With no conflicts and a positive new priority, the code takes the "higher priority"
  branch (reason quoting the priority against 0), not the "No conflicts" fall-through the
  comment at scheduling.js:92 describes; winner and affected list are the same either way.
- No operation validates that a slot starts before it ends; malformed slots are accepted
  and the model says what the comparisons give for them.

## Model

| member | source | states |
|---|---|---|
| Scheduling.IsTimeSlotOverlapping | TrainingReactJs/src/utils/scheduling.js:11-20 | Slots on different dates never overlap; for non-empty slots, overlap holds exactly when the dates agree and some minute lies in both half-open intervals. |
| Scheduling.OverlapSymmetric | TrainingReactJs/src/utils/scheduling.js:11-20 | Overlap does not depend on argument order. |
| Scheduling.TouchingSlotsDoNotOverlap | TrainingReactJs/src/utils/scheduling.js:19 | A slot ending exactly when another starts overlaps it in neither order. |
| Scheduling.SlotOverlapsItself | TrainingReactJs/src/utils/scheduling.js:19 | A non-empty slot overlaps itself. |
| Seqs.Filter | TrainingReactJs/src/utils/scheduling.js:30 | The result is an order-preserving subsequence holding exactly the elements that pass the predicate, each with its original multiplicity. |
| Scheduling.FindConflicts | TrainingReactJs/src/utils/scheduling.js:29-40 | The conflicts are, in order and with nothing dropped, exactly the bookings that are not cancelled, belong to the trainer when a non-empty trainer id is given, and overlap the requested slot. |
| Scheduling.FindClient | TrainingReactJs/src/utils/scheduling.js:50 | No client is found exactly when no client carries the id; otherwise the found client is the first one carrying it. |
| Scheduling.PriorityIsFirstMatch | TrainingReactJs/src/utils/scheduling.js:50-57 | The priority read for an id is the score of the first client with that id, 0 when that client has no score, 0 when no client has the id. |
| Scheduling.MaxConflictPriority | TrainingReactJs/src/utils/scheduling.js:62-66 | The value is at least 0, bounds every conflict's priority, and is either 0 or attained by some conflict. |
| Scheduling.TopFilterIsAtTop | TrainingReactJs/src/utils/scheduling.js:79-81 | Keeping the conflicts whose priority equals the attained maximum keeps exactly those no other conflict outranks. |
| Scheduling.ResolveConflictByPriority | TrainingReactJs/src/utils/scheduling.js:49-99 | A strictly higher positive new priority wins and displaces all conflicts, the reason quoting the new priority and the floored maximum; a conflict at or above the new priority and at least 0 makes the incumbents win, reporting exactly the top-priority conflicts, the reason quoting the maximum and the new priority; otherwise nothing is displaced and the reason is "No conflicts"; no conflicts means the new request wins. |
| Scheduling.TieGoesToIncumbent | TrainingReactJs/src/utils/scheduling.js:78-90 | A new request tied with a non-negative conflict priority loses. |
| Scheduling.NegativePrioritiesReportNoConflicts | TrainingReactJs/src/utils/scheduling.js:63-98 | A real overlapping booking whose client has priority -1, against a request with priority -5, is resolved as "new wins, nothing affected, No conflicts". |
| Scheduling.TopConflictPriority | TrainingReactJs/src/utils/scheduling.js:62-66 | For non-empty conflicts, the value bounds every conflict priority and is attained by one, with no floor. |
| Scheduling.ResolveByTopPriority | TrainingReactJs/src/utils/scheduling.js:49-99 | Corrected rule: with conflicts present the new request wins exactly when it outranks every one of them, and then displaces all of them; otherwise the incumbents at the top priority are reported. |
| Scheduling.ResolveAgreesUnlessAllNegative | TrainingReactJs/src/utils/scheduling.js:62-98 | The corrected rule and the code agree whenever there are no conflicts or some conflict priority is non-negative. |
| Scheduling.SomeWindowCovers | TrainingReactJs/src/utils/scheduling.js:116-126 | True exactly when a single window of the trainer, on the slot's date, contains the slot. |
| Scheduling.CheckTrainerAvailability | TrainingReactJs/src/utils/scheduling.js:109-149 | "Not in availability" exactly when no single window covers the slot; "already booked" carries the trainer's non-empty conflict list; "available" exactly when a window covers the slot and there are no conflicts. |
| Scheduling.WindowStatusIgnored | TrainingReactJs/src/utils/scheduling.js:116-126 | Changing the status or capacity of windows never changes the availability answer. |
| Scheduling.TrainerWindows | TrainingReactJs/src/utils/scheduling.js:169-171 | The windows kept are, in order, exactly those whose trainer id equals the original slot's. |
| Scheduling.Alternatives | TrainingReactJs/src/utils/scheduling.js:173-187 | Reference definition of the unbounded scan; never yields more slots than windows scanned. |
| Scheduling.AlternativesSound | TrainingReactJs/src/utils/scheduling.js:173-187 | Every offered slot carries the original trainer id, passes the availability check and is the span of a scanned window. |
| Scheduling.AlternativesAppend | TrainingReactJs/src/utils/scheduling.js:173-187 | Scanning two window lists one after the other yields the concatenation of their alternatives. |
| Scheduling.AlternativesExtend | TrainingReactJs/src/utils/scheduling.js:183-186 | Scanning one more window adds its span exactly when that span passes the availability check. |
| Scheduling.OwnWindowRejectedOnlyByConflicts | TrainingReactJs/src/utils/scheduling.js:176-186 | A trainer's own declared window is offered exactly when its span has no booking conflict. |
| Scheduling.FirstFitIsPrefix | TrainingReactJs/src/utils/scheduling.js:173-174 | Stopping the scan once `count` slots are found, or at the end, gives the first `count` alternatives of the full scan. |
| Scheduling.GenerateAlternativeSlots | TrainingReactJs/src/utils/scheduling.js:159-190 | Returns the first `count` alternatives (none when `count` is at most 0) of the trainer's windows in order, each sound. |
| Records.Spread | TrainingReactJs/src/store/slices/trainingSlice.js:26 | The merged record has the fields of both, the payload's values winning. |
| Records.SpreadIdempotent | TrainingReactJs/src/store/slices/trainingSlice.js:26 | Spreading the same payload twice equals spreading it once. |
| Records.Push | TrainingReactJs/src/store/slices/trainingSlice.js:19 | One more element, at the end, the rest untouched. |
| Records.FindIndex | TrainingReactJs/src/store/slices/trainingSlice.js:22-24 | -1 exactly when no record carries the id, otherwise the first index that does. |
| Records.MergeById | TrainingReactJs/src/store/slices/trainingSlice.js:21-28 | Same length; with no record of the payload's id the list is unchanged; otherwise only the first such record changes, to its merge with the payload; every id stays in place. |
| Records.MergeByIdIdempotent | TrainingReactJs/src/store/slices/trainingSlice.js:21-28 | Merging the same payload twice equals merging it once. |
| TrainingSlice.InitialState | TrainingReactJs/src/store/slices/trainingSlice.js:3-9 | The store starts with no trainings, no availability windows and no requests, loading false and error null. |
| TrainingSlice.SetTrainings | TrainingReactJs/src/store/slices/trainingSlice.js:15-17 | The trainings become the payload; the other fields keep their values. |
| TrainingSlice.AddTraining | TrainingReactJs/src/store/slices/trainingSlice.js:18-20 | The payload is appended to the trainings; all else unchanged. |
| TrainingSlice.UpdateTraining | TrainingReactJs/src/store/slices/trainingSlice.js:21-28 | Only the first training with the payload's id changes, to its merge with the payload; an absent id leaves the state unchanged. |
| TrainingSlice.SetAvailability | TrainingReactJs/src/store/slices/trainingSlice.js:29-31 | The availability becomes the payload; the other fields keep their values. |
| TrainingSlice.AddAvailability | TrainingReactJs/src/store/slices/trainingSlice.js:32-34 | The payload is appended to the availability; all else unchanged. |
| TrainingSlice.SetRequests | TrainingReactJs/src/store/slices/trainingSlice.js:35-37 | The requests become the payload; the other fields keep their values. |
| TrainingSlice.AddRequest | TrainingReactJs/src/store/slices/trainingSlice.js:38-40 | The payload is appended to the requests; all else unchanged. |
| TrainingSlice.UpdateRequest | TrainingReactJs/src/store/slices/trainingSlice.js:41-46 | Only the first request with the payload's id changes, to its merge with the payload; an absent id leaves the state unchanged. |
| TrainingSlice.SetLoading | TrainingReactJs/src/store/slices/trainingSlice.js:47-49 | The loading flag becomes the payload; the lists and error are unchanged. |
| TrainingSlice.SetError | TrainingReactJs/src/store/slices/trainingSlice.js:50-52 | The error becomes the payload; the lists and loading flag are unchanged. |
| TrainingSlice.UpdateTrainingIdempotent | TrainingReactJs/src/store/slices/trainingSlice.js:21-28 | Dispatching the same training update twice equals dispatching it once. |
| TrainingSlice.UpdateRequestIdempotent | TrainingReactJs/src/store/slices/trainingSlice.js:41-46 | Dispatching the same request update twice equals dispatching it once. |
| TrainingSlice.UpdateAfterAddTraining | TrainingReactJs/src/store/slices/trainingSlice.js:18-28 | A training added under a fresh id is the one a later update with that id changes. |
| UserSlice.InitialState | TrainingReactJs/src/store/slices/userSlice.js:3-9 | The store starts with no trainers, trainees or clients, loading false and error null. |
| UserSlice.SetTrainers | TrainingReactJs/src/store/slices/userSlice.js:15-17 | The trainers become the payload; the other fields keep their values. |
| UserSlice.SetTrainees | TrainingReactJs/src/store/slices/userSlice.js:18-20 | The trainees become the payload; the other fields keep their values. |
| UserSlice.SetClients | TrainingReactJs/src/store/slices/userSlice.js:21-23 | The clients become the payload; the other fields keep their values. |
| UserSlice.AddTrainer | TrainingReactJs/src/store/slices/userSlice.js:24-26 | The payload is appended to the trainers; all else unchanged. |
| UserSlice.AddTrainee | TrainingReactJs/src/store/slices/userSlice.js:27-29 | The payload is appended to the trainees; all else unchanged. |
| UserSlice.AddClient | TrainingReactJs/src/store/slices/userSlice.js:30-32 | The payload is appended to the clients; all else unchanged. |
| UserSlice.UpdateClient | TrainingReactJs/src/store/slices/userSlice.js:33-38 | Only the first client with the payload's id changes, to its merge with the payload; an unknown id leaves the state unchanged. |
| UserSlice.SetLoading | TrainingReactJs/src/store/slices/userSlice.js:39-41 | The loading flag becomes the payload; the lists and error are unchanged. |
| UserSlice.SetError | TrainingReactJs/src/store/slices/userSlice.js:42-44 | The error becomes the payload; the lists and loading flag are unchanged. |
| UserSlice.UpdateClientIdempotent | TrainingReactJs/src/store/slices/userSlice.js:33-38 | Dispatching the same client update twice equals dispatching it once. |
| UserSlice.SchedulerClient | TrainingReactJs/src/utils/scheduling.js:50-51 | The scheduler sees an id exactly when the record's id is a string, and a score exactly when its priorityScore is a number, with those values. |
| UserSlice.UpdatedPriorityIsRead | TrainingReactJs/src/store/slices/userSlice.js:33-38 | After updating an existing client's priorityScore to p, the scheduler's lookup of that client id reads p. |
| EmailInput.IsValidEmail | TrainingReactJs/src/components/common/EmailInput.jsx:82-84 | True exactly when the address is a non-empty run of non-space non-@ characters, @, such a run, a dot, and such a run. |
| EmailInput.MatchesValid | TrainingReactJs/src/components/common/EmailInput.jsx:83 | A matching address has no whitespace, its first @ is not at the start, no @ follows it, and a dot lies strictly inside the part after it. |
| EmailInput.ValidEmailIsTrimmed | TrainingReactJs/src/components/common/EmailInput.jsx:83 | A valid address is non-empty and has no whitespace at its ends. |
| EmailInput.Split | TrainingReactJs/src/components/common/EmailInput.jsx:16 | At least one piece, none containing the separator, and joining the pieces with the separator gives the string back. |
| EmailInput.Trim | TrainingReactJs/src/components/common/EmailInput.jsx:16 | The result has no whitespace at either end and is the string with only whitespace removed from its two ends. |
| EmailInput.TrimKeepsOut | TrainingReactJs/src/components/common/EmailInput.jsx:16 | Trimming never introduces a character. |
| EmailInput.TrimOfTrimmed | TrainingReactJs/src/components/common/EmailInput.jsx:16 | A string without whitespace at its ends is its own trim. |
| EmailInput.TrimAfterSpace | TrainingReactJs/src/components/common/EmailInput.jsx:16 | The space the joined value puts before an address is trimmed away. |
| EmailInput.ParseEmails | TrainingReactJs/src/components/common/EmailInput.jsx:16 | The empty value gives no chips; otherwise the chips are, in order, the non-empty trimmed comma-separated pieces, each comma-free and trimmed. |
| EmailInput.SplitJoined | TrainingReactJs/src/components/common/EmailInput.jsx:90 | Splitting a comma-and-space joined list at commas gives the first entry and then each later entry preceded by one space. |
| EmailInput.ParseJoinRoundTrip | TrainingReactJs/src/components/common/EmailInput.jsx:90 | A list of non-empty, comma-free, trimmed entries parses back from its joined value unchanged. |
| EmailInput.Initial | TrainingReactJs/src/components/common/EmailInput.jsx:16-17 | The first render has empty typed text and the chips parsed from the value (none for the empty value), each non-empty and comma-free. |
| EmailInput.AddEmail | TrainingReactJs/src/components/common/EmailInput.jsx:86-94 | A value is emitted exactly when the address is valid and not yet a chip; then it is appended, the typed text cleared and the joined list emitted; otherwise nothing changes; no duplicates are introduced. |
| EmailInput.RemoveAt | TrainingReactJs/src/components/common/EmailInput.jsx:97 | Exactly the element at the index is removed when the index is in range; otherwise the list is unchanged. |
| EmailInput.RemoveEmail | TrainingReactJs/src/components/common/EmailInput.jsx:96-100 | Exactly the chip at the index goes (one fewer chip) or, out of range, none; typed text is kept; the joined list is emitted. |
| EmailInput.KeyDown | TrainingReactJs/src/components/common/EmailInput.jsx:70-80 | Enter adds the trimmed typed text when it is a new valid address and otherwise does nothing; Backspace on empty text removes the last chip, keeps the (empty) typed text and emits the shorter list; other keys do nothing. |
| EmailInput.AddEmailValueReparses | TrainingReactJs/src/components/common/EmailInput.jsx:86-94 | With valid comma-free chips, the value emitted on adding a comma-free address parses back to the new chip list. |
| EmailInput.CommaAddressSplitsOnReparse | TrainingReactJs/src/components/common/EmailInput.jsx:82-94 | The address `a,b@c.d` is valid and is added as one chip, but the value emitted for it parses back as the two chips `a` and `b@c.d` (reachable only through a suggestion entry holding a comma). |
| EmailInput.AddChip | TrainingReactJs/src/components/common/EmailInput.jsx:86-94 | Corrected add: a value is emitted exactly when the address is valid, comma-free and not yet a chip; then it is appended, the typed text cleared and the joined list emitted; otherwise nothing changes; no duplicates are introduced. |
| EmailInput.AddChipValueReparses | TrainingReactJs/src/components/common/EmailInput.jsx:86-94 | With the corrected add, chips stay valid and comma-free, and every emitted value parses back to the chip list, whatever address is offered. |

## Left out

- Date and time construction: `new Date(date + "T" + time)` is replaced by minutes since midnight on an opaque date string; time zones, invalid dates (`NaN` comparisons) and time strings that are not `HH:MM` are not modelled.
- Slot validation: the code performs none, so the model has none; the overlap equivalence with a shared minute is stated for non-empty slots only, because for empty or inverted slots the code's comparisons have no such reading.
- Reason strings: the resolver's and the availability check's human-readable messages are the constructors of `Reason` and `AvailabilityCheck`, carrying the priorities they quote, not the formatted text.
- Priority values: scores are integers; non-numeric `priorityScore` values (strings, `NaN`, booleans) and non-string ids are read as absent by `UserSlice.SchedulerClient`; JavaScript's coercing comparisons on such values are not modelled.
- Record field values are primitives only (`undefined`, `null`, booleans, integers, strings); nested objects, arrays and floating-point numbers are not modelled.
- Scheduling.Alternatives: its own contract states only the length bound; what it contains is stated by AlternativesSound, AlternativesExtend and FirstFitIsPrefix, which keeps the recursive definition cheap to verify.
- Scheduling.GenerateAlternativeSlots: the default `count = 3` is not modelled as a default; callers pass the count. The generated slot is the window's span tagged with the original trainer id, as in the code.
- The slice reducers' Immer-style in-place mutation is modelled as returning a new state; the Redux store, action creators and dispatch are not modelled.
- EmailInput: suggestions (the sample-address list, its case-insensitive filtering and the click-outside handler), the comma-paste branch of the input-change handler (which clears typed text holding a comma, so Enter never submits one; `KeyDown` does not carry that guard and accepts a typed comma address), rendering, and the effect that re-parses the `value` prop on later changes are not modelled; `Initial` covers the first render only.
- EmailInput.KeyDown keeps the code's behaviour and adds through the as-written `AddEmail`; the corrected `AddChip` (see "## Findings") is stated beside it, not substituted into the key handler.
- EmailInput.IsWhitespace covers the characters of JavaScript's `\s` class; Unicode normalisation and surrogate pairs are not modelled (strings are sequences of characters).
- The rest of the application (persistence layer, cost negotiation, the admin request page's and dashboard's own conflict scans, the availability form's date ranges, routing and page components) is not part of this model.

## Findings

| source | as written | input that shows it | evidently intended | confidence | as-written member | corrected member |
|---|---|---|---|---|---|---|
| TrainingReactJs/src/utils/scheduling.js:63-98 | The highest conflict priority is floored at 0, so if every conflict's priority is negative no conflict equals the maximum and, with a new priority of at most 0, the resolver returns "new wins, nothing affected, No conflicts" | one overlapping approved booking whose client has priority -1, and a request whose client has priority -5 | the incumbent at the top priority (-1) wins, since the new request does not outrank it; likewise a request of priority 0 against a single conflict of priority -3 is answered "new wins" with nothing displaced, where the corrected rule displaces the conflict, so a caller approving the request and rescheduling the affected bookings would leave both booked | medium, not executed | Scheduling.NegativePrioritiesReportNoConflicts | Scheduling.ResolveByTopPriority |
| TrainingReactJs/src/components/common/EmailInput.jsx:82-94 | The validator's `[^\s@]` runs admit commas, so `addEmail` accepts an address containing a comma and emits the list joined with `", "`; the value then splits that address in two when it is parsed back | the address `a,b@c.d` added to an empty field: emitted value `a,b@c.d`, parsed back as `a` and `b@c.d`; only a suggestion entry holding a comma can reach `addEmail` with such an address, because the change handler at EmailInput.jsx:49-57 clears typed text that contains a comma, and the parse-back happens only if the parent feeds the emitted value back as `value` | an address is a chip only if it holds no comma, the character separating chips in the value, so the emitted value always parses back to the chip list | low, not executed | EmailInput.CommaAddressSplitsOnReparse | EmailInput.AddChip |
