# Therapy Connect scheduling core in Dafny

A model of the scheduling engine of the Therapy Connect API
(`therapy_connect/therapy/`). Therapists publish availability slots;
patients open a therapy panel per issue, pick a therapist for it, and
book, reschedule or cancel appointments inside the therapist's slots; a
periodic job closes appointments whose time has passed. The model states
and proves the rules that decide which of these requests are accepted,
what each accepted request writes, and which invariants the store keeps.

Modules, one per source file of the core, preceded by the query-set layer they share:

- `Queries` (`queries.dfy`): the query-set operations the code relies on —
  `filter` as `Filter`, `.first()` as `Find`, `.count()` as `Count`,
  `order_by` as `SortBy` — with their algebra (filters compose by
  conjunction, keep order, counts add up).
- `Models` (`models.dfy`): the records (slot, panel, appointment), time as
  whole minutes, Django's `week_day`, `Availability.clean`, the store as a
  class `Db` with auto-increment ids, and the store invariants: slots of one
  therapist and date never overlap, at most one active panel per patient and
  issue, at most two reschedules per panel, and every rescheduled
  appointment points back to an earlier, canceled one.
- `Services` (`services.dfy`): the day-name lookup and the availability
  search filters.
- `Serializers` (`serializers.dfy`): every validation rule as a function
  returning `Pass` or the first failing check, and the update paths
  (therapist panel update, reschedule, cancel) as methods on `Db`.
- `Tasks` (`tasks.dfy`): the auto-completion job as a loop over the
  appointment table.
- `Views` (`views.dfy`): access checks and list queries as functions, and
  the create/update/delete endpoints as methods on `Db` that validate and
  then write.

Time: an instant is minutes since 1970-01-01T00:00, a date is days since
1970-01-01, a time of day is minutes since midnight (0..1439). `DateOf`,
`TimeOf` and `Combine` are `dt.date()`, `dt.time()` and `datetime.combine`;
`TimeOf(t + d)` wraps past midnight exactly as `(t + timedelta).time()`
does. The current time, and the meeting link that the external link
generator returns, are parameters of the operations that use them.

Where the written code and its own descriptions disagree the model follows
the code:

- Rescheduling checks availability but makes no appointment-conflict
  check, so a reschedule can land on a time another patient has booked
  (`Serializers.RescheduleIgnoresConflicts`).
- The booking conflict check selects scheduled appointments that *start*
  in `[t - d, t + d)`; it is not an interval-overlap test
  (`Serializers.ConflictWindowMissesLongerAppointment`).
- The availability check compares only the time of day of the end, so an
  appointment running past midnight is accepted against a slot that ends
  before midnight (`Serializers.CoversWrapsPastMidnight`).
- `completed` is not a terminal panel status: a therapist may pause a
  completed panel, and nothing stops it.
- No code of the core sets a panel's `assigned_at`; the model never
  changes it.

## Model

| member | source | states |
|---|---|---|
| Queries.Filter | therapy_connect/therapy/services.py:36-56 | a query-set `filter` keeps exactly the rows meeting the condition, never adds one, and never grows the set |
| Queries.FilterFilter | therapy_connect/therapy/services.py:36-56 | chained filters select what one filter on the conjunction selects |
| Queries.Find | therapy_connect/therapy/views.py:258-263 | a `get` on a condition finds the first row meeting it, and finds none exactly when no row meets it |
| Queries.Count | therapy_connect/therapy/serializers.py:457-460 | a `count()` is at most the table size and is zero exactly when no row meets the condition |
| Queries.CountIsFilterLength | therapy_connect/therapy/tasks.py:13-17 | the rows counted are the rows a filter returns |
| Queries.SortBy | therapy_connect/therapy/views.py:420-423 | `order_by` returns the same rows, as a permutation, in ascending key order |
| Queries.FilterKeepsSorted | therapy_connect/therapy/services.py:56-58 | filtering an ordered query set keeps it ordered |
| Models.Combine | therapy_connect/therapy/serializers.py:52-55 | combining a date and a time of day yields an instant whose date and time of day are exactly those two |
| Models.SplitCombine | therapy_connect/therapy/serializers.py:392-397 | every instant is the combination of its own date and time of day |
| Models.WeekDay | therapy_connect/therapy/services.py:43 | a date's `week_day` lies in 1..7 |
| Models.WeekDayCycle | therapy_connect/therapy/services.py:43 | week days repeat every seven days, each date's week day follows its predecessor's (Saturday 7 wraps to Sunday 1), and 1970-01-04 is a Sunday (1), which fixes the week day of every date |
| Models.Clean | therapy_connect/therapy/models.py:34-56 | `clean` accepts exactly when date, start and end are all present, start is before end, and no other slot (own id excluded) of the same therapist and date overlaps half-open |
| Models.DisjointIsUnique | therapy_connect/therapy/models.py:24-29 | in a store of well-formed, pairwise non-overlapping slots no two slots share (therapist, date, start, end), so `unique_together` never fires |
| Models.CleanInsertKeepsDisjoint | therapy_connect/therapy/models.py:41-56 | inserting a slot that `clean` accepts keeps every slot well-formed and the store free of overlaps |
| Models.CleanUpdateKeepsDisjoint | therapy_connect/therapy/models.py:44-56 | rewriting a stored slot with values `clean` accepts (own id excluded) keeps the store free of overlaps and its ids increasing |
| Models.SlotOrderKeyIsLexicographic | therapy_connect/therapy/models.py:22 | the single integer key orders slots by date first and start time second |
| Models.OrderedSlots | therapy_connect/therapy/models.py:22 | the default ordering is a permutation of the slots, sorted by the (date, start_time) key, with each slot's (date, start_time) never after the next one's |
| Models.PanelIndex | therapy_connect/therapy/views.py:185 | the lookup by id finds a panel with that id, and finds none exactly when no panel has it |
| Models.AppointmentIndex | therapy_connect/therapy/views.py:485 | the lookup by id finds an appointment with that id, and finds none exactly when no appointment has it |
| Models.Db.constructor | therapy_connect/therapy/models.py:12-29 | an empty store (the `Availability` table, and the `TherapyPanel` and `Appointment` tables as their migrations create them) satisfies every store invariant |
| Services.GetDayOfWeekNumber | therapy_connect/therapy/services.py:4-15 | a number is returned exactly for the seven English day names; it lies in 1..7 and names that day (Sunday 1 ... Saturday 7) |
| Services.DayNumberInvertsDayNames | therapy_connect/therapy/services.py:6-14 | the lookup inverts the table of names: each number 1..7 comes back from its own name, so the mapping is a bijection |
| Services.FilterAvailabilityIsConjunction | therapy_connect/therapy/services.py:18-58 | the three narrowing steps select exactly the slots meeting every given filter (therapist, recognised week day, inclusive time bounds), in input order |
| Services.FilterAvailabilitySelects | therapy_connect/therapy/services.py:28-58 | a slot is returned exactly when it is in the query set and meets every given filter; so every result has the requested therapist id and the result is a subset of the input |
| Services.NoParamsKeepsAll | therapy_connect/therapy/services.py:46-58 | with no parameter the query set comes back unchanged |
| Services.UnknownDayIgnored | therapy_connect/therapy/services.py:40-43 | a day name that is not recognised filters nothing: the result equals the one without it |
| Services.FilterAvailability | therapy_connect/therapy/services.py:18-58 | the result is a sub-multiset of the query set and every slot in it lies within the inclusive time bounds (the full selection condition is `Services.FilterAvailabilitySelects`) |
| Services.FilterAvailabilityKeepsOrder | therapy_connect/therapy/services.py:56-58 | filtering keeps the default (date, start_time) order |
| Serializers.GetDayOfWeek | therapy_connect/therapy/serializers.py:26-28 | the day name shown for a slot is a recognised name that the day filter maps back to the slot's `week_day` |
| Serializers.ValidateAvailability | therapy_connect/therapy/serializers.py:30-85 | a slot is accepted exactly when date, start and end are present, start < end, the start lies after now, and no other slot of the therapist on that date overlaps (the slot being updated excluded) |
| Serializers.ValidationAgreesWithClean | therapy_connect/therapy/serializers.py:44-83 | the serializer accepts exactly what `clean` accepts and additionally a future start |
| Serializers.ResaveUnchangedPasses | therapy_connect/therapy/serializers.py:66-83 | in an overlap-free store, re-saving an unchanged future slot never conflicts with itself |
| Serializers.ValidatePanelCreate | therapy_connect/therapy/serializers.py:112-125 | creating a panel fails exactly when the patient already has an active panel for the issue |
| Serializers.NewPanel | therapy_connect/therapy/serializers.py:127-134 | the created panel belongs to the patient and issue, is active, has no therapist, no dates and no notes |
| Serializers.CreateKeepsPanelsConsistent | therapy_connect/therapy/serializers.py:112-134 | adding the new active, unassigned panel after validation keeps "one active panel per patient and issue" |
| Serializers.ValidatePatientUpdate | therapy_connect/therapy/serializers.py:160-235 | first update: accepted exactly when a therapist is given who treats the issue, has a slot, and is not on another active panel of the patient for the issue; later: any therapist is refused and only `status = paused` is accepted |
| Serializers.PatientUpdated | therapy_connect/therapy/serializers.py:137-154 | a patient save writes the given therapist and status and keeps id, patient, issue, `assigned_at`, `last_session_date` and both notes |
| Serializers.TherapistFixedOnceChosen | therapy_connect/therapy/serializers.py:172-227 | an accepted first update assigns a suggested therapist with slots; once assigned, an accepted update keeps the therapist and sets status paused |
| Serializers.ActiveWithTherapistCheckRedundant | therapy_connect/therapy/serializers.py:198-211 | under the store invariant the "active panel with this therapist" check can never fail for an unassigned panel |
| Serializers.PatientUpdateKeepsPanelsConsistent | therapy_connect/therapy/serializers.py:160-235 | an accepted patient update keeps the panel invariants |
| Serializers.ValidateTherapistStatus | therapy_connect/therapy/serializers.py:284-290 | a therapist may set any status but `active` |
| Serializers.ValidateTherapistUpdate | therapy_connect/therapy/serializers.py:270-290 | a therapist update is accepted exactly when some field is given and the status, if given, is not `active` |
| Serializers.TherapistUpdated | therapy_connect/therapy/serializers.py:292-297 | the given fields are written, `last_session_date` becomes now exactly when status is set to completed, and therapist, patient, issue and `assigned_at` never change |
| Serializers.TherapistUpdateKeepsPanelsConsistent | therapy_connect/therapy/serializers.py:284-297 | an accepted therapist update never re-activates a panel and keeps the panel invariants |
| Serializers.TherapistUpdatePanel | therapy_connect/therapy/serializers.py:292-297 | the store's panel is replaced by its updated record, nothing else changes, and the invariants hold |
| Serializers.ValidateAppointment | therapy_connect/therapy/serializers.py:371-418 | a booking is accepted exactly when the panel is the requester's and has a therapist, the time is at least 6 h ahead, a slot covers it (wrapped end), and no scheduled appointment of the therapist starts in [t - d, t + d); duration defaults to 60 |
| Serializers.ConflictWindowSoundForShorter | therapy_connect/therapy/serializers.py:405-416 | if no scheduled appointment of the therapist is longer than the new one, an accepted booking overlaps none of them |
| Serializers.NewAppointment | therapy_connect/therapy/views.py:271-278 | the booked record takes time, duration, status, platform and payment status from the request or the model defaults (60 minutes, scheduled, zoom, pending), carries the generated link, and is no reschedule |
| Serializers.ConflictWindowMissesLongerAppointment | therapy_connect/therapy/serializers.py:405-411 | a longer earlier appointment still running at the new start lies outside the window |
| Serializers.CoversWithoutWrap | therapy_connect/therapy/serializers.py:392-397 | when the appointment ends on its own date, a covering slot contains the whole appointment |
| Serializers.CoversWrapsPastMidnight | therapy_connect/therapy/serializers.py:392-397 | an appointment 23:30-00:30 is accepted against a slot ending at 23:59 |
| Serializers.ValidateReschedule | therapy_connect/therapy/serializers.py:435-488 | a reschedule is accepted exactly when the new time is given, the appointment is scheduled and the requester's, at least 6 h away, the panel has fewer than 2 reschedules, the new time is 6 h ahead and covered by a slot |
| Serializers.RescheduleIgnoresConflicts | therapy_connect/therapy/serializers.py:435-488 | a reschedule onto another patient's booked time with the same therapist is accepted |
| Serializers.StatusChangeKeepsCounts | therapy_connect/therapy/serializers.py:457-460 | changing an appointment's status leaves every panel's reschedule count alone |
| Serializers.RescheduleKeepsAppointmentsConsistent | therapy_connect/therapy/serializers.py:457-515 | an accepted reschedule raises the panel's count by one, within the limit of two, and the new record points back to the old, now canceled one |
| Serializers.RescheduleKeepsLineage | therapy_connect/therapy/serializers.py:494-515 | after a reschedule every replacement record, the new one included, points back to an older record that is canceled |
| Serializers.Rescheduled | therapy_connect/therapy/serializers.py:494-509 | the replacement is a scheduled record at the new time on the same panel, copies duration, platform, link and payment status, points back to the old record and counts as a reschedule of the panel |
| Serializers.RescheduleAppointment | therapy_connect/therapy/serializers.py:490-515 | inserts a scheduled copy at the new time (same panel, duration, platform, link, payment status, `rescheduled_from` = old) and marks the old one canceled; the invariants hold |
| Serializers.ValidateCancel | therapy_connect/therapy/serializers.py:518-546 | a cancel is accepted exactly when a reason is given that is not blank after trimming and holds no null character (a reason that does is refused as such), and the appointment is scheduled, the requester's, and at least 6 h away |
| Serializers.Strip | therapy_connect/therapy/serializers.py:519 | the trimmed reason is empty exactly when the given text is all whitespace, and otherwise neither starts nor ends with whitespace |
| Serializers.StripIdempotent | therapy_connect/therapy/serializers.py:519 | trimming a trimmed text changes nothing |
| Serializers.StatusChangeKeepsAppointmentsConsistent | therapy_connect/therapy/serializers.py:548-552 | changing the status of a scheduled appointment keeps the appointment invariants |
| Serializers.CancelAppointment | therapy_connect/therapy/serializers.py:548-559 | status becomes canceled and the reason is stored; no other field or record changes |
| Tasks.SweptChangesOnlyDue | therapy_connect/therapy/tasks.py:13-17 | exactly the scheduled appointments with `scheduled_time <= now - 60` become completed; every other field and record is unchanged |
| Tasks.SweptIdempotent | therapy_connect/therapy/tasks.py:13-17 | a second run at the same instant changes nothing and finds nothing due |
| Tasks.SweptLaterAbsorbs | therapy_connect/therapy/tasks.py:12-17 | a run followed by a later run equals the later run alone |
| Tasks.SweptScheduledCount | therapy_connect/therapy/tasks.py:13-18 | the number of scheduled appointments drops by exactly the count the job reports |
| Tasks.Swept | therapy_connect/therapy/tasks.py:13-17 | the table after the bulk update has the same length, no due appointment left, and each record differs from the old one at most in its status |
| Tasks.CompleteDue | therapy_connect/therapy/tasks.py:13-18 | the loop yields the swept table and the number of due appointments, and keeps the appointment invariants |
| Tasks.AutoCompleteAppointments | therapy_connect/therapy/tasks.py:8-18 | the store's appointments become the swept table, the returned count is the number selected, and nothing else changes |
| Views.AppendSlotKeepsInvariants | therapy_connect/therapy/views.py:46-49 | storing an accepted slot under the next id keeps the slot invariants |
| Views.RemoveSlotKeepsInvariants | therapy_connect/therapy/views.py:111-119 | deleting a slot keeps the slot invariants |
| Views.CreateAvailability | therapy_connect/therapy/views.py:46-49 | a request missing `date`, `start_time` or `end_time` is refused as incomplete first; a complete request from a non-therapist gets 404; a slot is stored under the next id for the requesting therapist exactly when validation accepts it |
| Views.OwnSlotIndex | therapy_connect/therapy/views.py:89-97 | the slot found has the id and belongs to the requesting therapist; none is found when the user is not a therapist or owns no slot with that id |
| Views.UpdateAvailability | therapy_connect/therapy/views.py:89-97 | only the owner's slot is found (else 404); for it the update succeeds exactly when validation (own id excluded) passes, rewriting that slot in place with the same id and therapist, and otherwise returns the validation error and changes nothing |
| Views.DeleteAvailability | therapy_connect/therapy/views.py:111-119 | the owner's slot is removed, else 404 and nothing changes |
| Views.RetrievePanel | therapy_connect/therapy/views.py:183-200 | a panel is returned only to its patient or its assigned therapist; an unknown id is 404, anyone else is refused |
| Views.RetrievePanelComplete | therapy_connect/therapy/views.py:183-200 | with unique ids, the patient and the assigned therapist always get the panel |
| Views.ListPanels | therapy_connect/therapy/views.py:227-237 | a user with a patient profile lists all and only their own panels, otherwise a therapist all and only the panels assigned to them, anyone else nothing |
| Views.ListedPanelsRetrievable | therapy_connect/therapy/views.py:227-237 | every listed panel can be opened by the same user |
| Views.UnassignedPanelsHiddenFromTherapists | therapy_connect/therapy/views.py:234-235 | a user without a patient profile lists only assigned panels |
| Views.AppendPanelKeepsInvariants | therapy_connect/therapy/views.py:131-139 | storing a validated new panel under the next id keeps the panel invariants |
| Views.CreatePanel | therapy_connect/therapy/views.py:131-139 | a non-patient is refused; a patient's panel is stored, active and unassigned, exactly when validation accepts it |
| Views.UpdatePanel | therapy_connect/therapy/views.py:163-200 | access is checked first; a patient user gets the patient rules, otherwise the therapist rules; the update succeeds exactly when those pass, replacing the panel in place, and otherwise returns their error and changes nothing |
| Views.AppendAppointmentKeepsInvariants | therapy_connect/therapy/views.py:271-278 | storing a new, never rescheduled appointment under the next id keeps every reschedule count and lineage link |
| Views.OwnPanelIndex | therapy_connect/therapy/views.py:258-263 | the panel found has the id and belongs to the requester; none is found when no panel with that id is theirs |
| Views.CreateAppointment | therapy_connect/therapy/views.py:250-283 | a missing or zero `panel_id` is refused, so is a panel not the requester's; for an own panel the booking succeeds exactly when the booking rules pass, storing the record with the generated link under the next id, and otherwise returns their error |
| Views.CreatedAppointmentIsBookable | therapy_connect/therapy/views.py:271-278 | the stored record is 6 h ahead, covered by a slot, outside the conflict window, never rescheduled, and carries the link |
| Views.OwnAppointmentIndex | therapy_connect/therapy/views.py:289-290 | the appointment found has the id and belongs to one of the requester's panels; none is found otherwise |
| Views.UpdateAppointment | therapy_connect/therapy/views.py:314-358 | a missing action is refused before the lookup, another patient's appointment is 404; `reschedule` and `cancel` succeed exactly when their rules pass, with their writes (the reason stored trimmed), and otherwise return the rule's error; any other action is refused |
| Views.RetrieveAppointment | therapy_connect/therapy/views.py:477-501 | unknown id is 404; a patient gets only appointments of their panels, otherwise a therapist only those of their panels; anyone else is refused |
| Views.RetrievedOnlyByParticipants | therapy_connect/therapy/views.py:488-499 | a retrieved appointment's panel has the requester as patient or as therapist |
| Views.RetrieveAppointmentComplete | therapy_connect/therapy/views.py:477-501 | with increasing ids, the panel's patient, and a user without a patient profile who is the panel's therapist, always get the appointment |
| Views.PatientProfileShadowsTherapist | therapy_connect/therapy/views.py:488-496 | a user with both profiles who is a panel's therapist can open the panel but is refused its appointments |
| Views.PatientAppointments | therapy_connect/therapy/views.py:408-423 | only patients may list; the list is ordered by scheduled time ascending and has as many rows as the patient has scheduled appointments |
| Views.PatientAppointmentsSelect | therapy_connect/therapy/views.py:420-423 | the patient list holds exactly the patient's scheduled appointments |
| Views.ListedAppointmentsRetrievable | therapy_connect/therapy/views.py:420-423 | every appointment a patient lists can be opened by that patient |
| Views.AsciiLowerIdempotent | therapy_connect/therapy/views.py:448 | lower-casing the status parameter twice is lower-casing it once, and leaves no upper-case letter |
| Views.TherapistAppointments | therapy_connect/therapy/views.py:434-463 | only therapists may list; `scheduled` lists ascending, `completed` and `canceled` descending by scheduled time, anything else ascending |
| Views.TherapistAppointmentsSelect | therapy_connect/therapy/views.py:451-463 | the therapist list holds exactly the therapist's appointments that the parameter admits: future scheduled, completed, canceled, or all |
| Views.TherapistAppointmentsIgnoreCase | therapy_connect/therapy/views.py:448 | the status parameter is read without regard to case |

## Left out

- Views.TherapistAppointments: `str.lower()` is modelled on ASCII letters only; other Unicode case mappings are not modelled.
- Views.CreatePanel: for a user without a patient profile the serializer's profile lookup fails before the view's own check does; the model reports that refusal as `PermissionDenied` without modelling the unhandled lookup error.
- Views.RetrieveAppointment: when a therapist asks for an appointment of a panel that has no therapist yet, the source fails on the missing therapist; the model reports `PermissionDenied`.
- HTTP status codes, response bodies, the read-only retrieve serializers and `get_serializer_class` beyond the role dispatch of the panel update.
- The therapist-side cancel endpoint: the serializer it imports is not defined in `serializers.py`, so there is nothing to model.
- The meeting-link generator is not part of this model; its result is the `link` parameter of `Views.CreateAppointment`.
- Tasks.AutoCompleteAppointments: returns the number of completed appointments, not the message text built from it.
- Time zones and sub-minute precision: time is whole minutes of UTC, and `timezone.now()` is the `now` parameter.
- Concurrency: each request is atomic over the store; the race between a check and the write is not modelled.
- `created_at` fields and other audit columns are not modelled.
- Serializers.AppointmentData: `scheduledTime` is always present; a booking request that omits `scheduled_time` is refused by the framework's required-field check before any code of the core runs, and that refusal is not modelled.
- Field-level parsing (date and time formats, type coercion of query parameters, blank strings becoming absent parameters) is folded into the `Option`/`Field` inputs.
- Serializers.Strip: trims the ASCII whitespace `str.strip()` removes (space, tab through carriage return, and U+001C to U+001F); the non-ASCII Unicode whitespace it also removes (U+0085, U+00A0, U+2000 and the like) is not modelled, and a blank reason is reported as missing rather than with DRF's separate "blank" message.
- Accounts, profiles, signals, schemas, settings, URLs and migrations are outside the scheduling core; the migrations only fix the status enums and the 60-minute default duration used here.
