/**
 * The validation rules of the scheduling engine and the update paths that
 * follow them: availability slots, the therapy-panel state machine,
 * appointment booking, rescheduling and cancellation.
 */
module Serializers {
  import opened Queries
  import opened Models
  import Services

  /** Booking, rescheduling and canceling need the appointment at least six hours away. */
  const LeadTime: int := 6 * 60

  /** The appointment length when the request gives none. */
  const DefaultDuration: nat := 60

  // ---------------------------------------------------------------- AvailabilitySerializer

  /** `get_day_of_week`: the English name of the slot's week day, which the day filter reads back. */
  function GetDayOfWeek(s: Slot): (name: string)
    ensures name in DayNames
    ensures Services.GetDayOfWeekNumber(name) == Some(WeekDay(s.date))
  {
    Services.DayNumberInvertsDayNames(WeekDay(s.date));
    DayNames[WeekDay(s.date) - 1]
  }

  /** The id to leave out of the overlap check: the slot being updated, none on create. */
  function ExcludedId(instance: Option<Slot>): Option<nat> {
    if instance.Some? then Some(instance.value.id) else None
  }

  /**
   * `AvailabilitySerializer.validate` for `therapist`: all three fields, a
   * start before the end, a start after `now`, and no overlap with another
   * slot of the therapist on that date. `instance` is the slot being updated.
   */
  function ValidateAvailability(therapist: nat, f: SlotFields, instance: Option<Slot>, now: Instant,
                                slots: seq<Slot>): (r: Outcome)
    ensures r == Pass <==>
              Complete(f) && f.startTime.value < f.endTime.value
              && Combine(f.date.value, f.startTime.value) > now
              && !HasOverlap(slots, therapist, f.date.value, f.startTime.value, f.endTime.value, ExcludedId(instance))
    ensures r == Fail(SlotNotInFuture) ==> Complete(f) && Combine(f.date.value, f.startTime.value) <= now
  {
    if !Complete(f) then Fail(Required("date, start_time, end_time"))
    else if f.startTime.value >= f.endTime.value then Fail(StartNotBeforeEnd)
    else if Combine(f.date.value, f.startTime.value) <= now then Fail(SlotNotInFuture)
    // the source repeats the start/end test here; it can no longer fail
    else if f.startTime.value >= f.endTime.value then Fail(StartNotBeforeEnd)
    else if HasOverlap(slots, therapist, f.date.value, f.startTime.value, f.endTime.value, ExcludedId(instance))
    then Fail(OverlappingSlot)
    else Pass
  }

  /**
   * The serializer and `Availability.clean` are two copies of one rule: they
   * agree on every slot, except that only the serializer demands a future start.
   */
  lemma ValidationAgreesWithClean(therapist: nat, f: SlotFields, instance: Option<Slot>, now: Instant,
                                  slots: seq<Slot>)
    ensures ValidateAvailability(therapist, f, instance, now, slots) == Pass <==>
              Clean(ExcludedId(instance), therapist, f, slots) == Pass
              && Combine(f.date.value, f.startTime.value) > now
  {
  }

  /**
   * In a disjoint store, re-saving a future slot unchanged never conflicts
   * with itself: its own id is left out of the overlap check.
   */
  lemma ResaveUnchangedPasses(slots: seq<Slot>, k: nat, next: nat, now: Instant)
    requires SlotsWellFormed(slots) && SlotsDisjoint(slots) && SlotIdsBelow(slots, next)
    requires k < |slots| && Combine(slots[k].date, slots[k].startTime) > now
    ensures var s := slots[k];
            ValidateAvailability(s.therapist, SlotFields(Some(s.date), Some(s.startTime), Some(s.endTime)),
                                 Some(s), now, slots) == Pass
  {
    var s := slots[k];
    forall i | 0 <= i < |slots| && slots[i].id != s.id
      ensures !SlotOverlaps(slots[i], s.therapist, s.date, s.startTime, s.endTime)
    {
      assert i != k;
    }
  }

  // ---------------------------------------------------------------- TherapyPanelCreateSerializer

  /** Some panel of `patient` for `issue` is active. */
  predicate HasActivePanel(panels: seq<Panel>, patient: nat, issue: nat) {
    exists i :: 0 <= i < |panels| && ActiveFor(panels[i], patient, issue)
  }

  /** `TherapyPanelCreateSerializer.validate`: a patient opens at most one active panel per issue. */
  function ValidatePanelCreate(patient: nat, issue: nat, panels: seq<Panel>): (r: Outcome)
    ensures r == Pass <==> forall i :: 0 <= i < |panels| ==> !ActiveFor(panels[i], patient, issue)
    ensures r != Pass ==> r == Fail(ActivePanelExists)
  {
    if HasActivePanel(panels, patient, issue) then Fail(ActivePanelExists) else Pass
  }

  /** The record `create` saves: active, with no therapist, no dates and no notes. */
  function NewPanel(id: nat, patient: nat, issue: nat): (r: Panel)
    ensures r.id == id && ActiveFor(r, patient, issue)
    ensures r.therapist.None? && r.assignedAt.None? && r.lastSessionDate.None?
    ensures r.progressNotes.None? && r.completionNotes.None?
  {
    Panel(id, patient, issue, None, PanelStatus.Active, None, None, None, None)
  }

  /** A validated creation keeps the panel invariants. */
  lemma CreateKeepsPanelsConsistent(panels: seq<Panel>, id: nat, patient: nat, issue: nat)
    requires PanelsConsistent(panels)
    requires ValidatePanelCreate(patient, issue, panels) == Pass
    ensures PanelsConsistent(panels + [NewPanel(id, patient, issue)])
  {
    var t := panels + [NewPanel(id, patient, issue)];
    forall i, j | 0 <= i < |t| && 0 <= j < |t| && i != j && t[i].status == PanelStatus.Active
      ensures !ActiveFor(t[j], t[i].patient, t[i].issue)
    {
      if i == |panels| {
        assert !ActiveFor(panels[j], patient, issue);
      } else if j == |panels| {
        assert !ActiveFor(panels[i], patient, issue);
      }
    }
  }

  // ---------------------------------------------------------------- TherapyPanelPatientUpdateSerializer

  /** The therapist's specialties include the issue (the suggested list). */
  predicate Suggested(specialties: map<nat, set<nat>>, therapist: nat, issue: nat) {
    therapist in specialties && issue in specialties[therapist]
  }

  /** The therapist has at least one availability slot (`availabilities.exists()`). */
  predicate HasSlots(slots: seq<Slot>, therapist: nat) {
    exists i :: 0 <= i < |slots| && slots[i].therapist == therapist
  }

  /** The patient has an active panel with this therapist for this issue. */
  predicate ActiveWithTherapist(panels: seq<Panel>, patient: nat, issue: nat, therapist: nat) {
    exists i :: 0 <= i < |panels| && ActiveFor(panels[i], patient, issue) && panels[i].therapist == Some(therapist)
  }

  /** The writable fields of a patient update; the therapist may be given as null. */
  datatype PatientPanelData = PatientPanelData(therapist: Field<Option<nat>>, status: Field<PanelStatus>)

  /**
   * `TherapyPanelPatientUpdateSerializer.validate` for `patient` on `panel`.
   * While the panel has no therapist the patient must pick one who is
   * suggested, has availability and is not on another active panel of this
   * patient and issue; afterwards the patient may only pause the panel.
   */
  function ValidatePatientUpdate(patient: nat, panel: Panel, data: PatientPanelData,
                                 specialties: map<nat, set<nat>>, slots: seq<Slot>, panels: seq<Panel>): (r: Outcome)
    ensures panel.therapist.None? ==>
              (r == Pass <==>
                 data.therapist.Given? && data.therapist.value.Some?
                 && Suggested(specialties, data.therapist.value.value, panel.issue)
                 && HasSlots(slots, data.therapist.value.value)
                 && !ActiveWithTherapist(panels, patient, panel.issue, data.therapist.value.value))
    ensures panel.therapist.Some? ==> (r == Pass <==> data.therapist.Absent? && data.status == Given(Paused))
    ensures panel.therapist.Some? && data.therapist.Given? ==> r == Fail(TherapistLocked)
  {
    if panel.therapist.None? then
      if data.therapist.Absent? then Fail(Required("therapist"))
      else if data.therapist.value.None? || !Suggested(specialties, data.therapist.value.value, panel.issue)
      then Fail(TherapistNotSuggested)
      else if !HasSlots(slots, data.therapist.value.value) then Fail(TherapistWithoutSlots)
      else if ActiveWithTherapist(panels, patient, panel.issue, data.therapist.value.value)
      then Fail(ActivePanelWithTherapist)
      else Pass
    else if data.therapist.Given? then Fail(TherapistLocked)
    else if data.status.Given? then
      if data.status.value != Paused then Fail(StatusNotPaused) else Pass
    else Fail(InvalidPanelUpdate)
  }

  /** What `save` writes for a patient: each given field, nothing else. */
  function PatientUpdated(panel: Panel, data: PatientPanelData): (q: Panel)
    ensures q.id == panel.id && q.patient == panel.patient && q.issue == panel.issue
    ensures q.therapist == (if data.therapist.Given? then data.therapist.value else panel.therapist)
    ensures q.status == (if data.status.Given? then data.status.value else panel.status)
    ensures q.lastSessionDate == panel.lastSessionDate && q.assignedAt == panel.assignedAt
    ensures q.progressNotes == panel.progressNotes && q.completionNotes == panel.completionNotes
  {
    var p := if data.therapist.Given? then panel.(therapist := data.therapist.value) else panel;
    if data.status.Given? then p.(status := data.status.value) else p
  }

  /** Once a panel has a therapist, no accepted patient update changes it; before, the first one sets it. */
  lemma TherapistFixedOnceChosen(patient: nat, panel: Panel, data: PatientPanelData,
                                 specialties: map<nat, set<nat>>, slots: seq<Slot>, panels: seq<Panel>)
    requires ValidatePatientUpdate(patient, panel, data, specialties, slots, panels) == Pass
    ensures panel.therapist.Some? ==> PatientUpdated(panel, data).therapist == panel.therapist
    ensures panel.therapist.Some? ==> PatientUpdated(panel, data).status == Paused
    ensures panel.therapist.None? ==>
              var t := PatientUpdated(panel, data).therapist;
              t.Some? && Suggested(specialties, t.value, panel.issue) && HasSlots(slots, t.value)
  {
  }

  /**
   * Under the panel invariants the fourth first-update check can never
   * fire: the panel being updated is the patient's only active one for the
   * issue, and it has no therapist.
   */
  lemma ActiveWithTherapistCheckRedundant(panels: seq<Panel>, k: nat, therapist: nat)
    requires PanelsConsistent(panels)
    requires k < |panels| && panels[k].therapist.None?
    ensures !ActiveWithTherapist(panels, panels[k].patient, panels[k].issue, therapist)
  {
    assert panels[k].status == PanelStatus.Active;
    forall i | 0 <= i < |panels| && panels[i].therapist == Some(therapist)
      ensures !ActiveFor(panels[i], panels[k].patient, panels[k].issue)
    {
      assert i != k;
    }
  }

  /** An accepted patient update keeps the panel invariants. */
  lemma PatientUpdateKeepsPanelsConsistent(panels: seq<Panel>, k: nat, patient: nat, data: PatientPanelData,
                                           specialties: map<nat, set<nat>>, slots: seq<Slot>)
    requires PanelsConsistent(panels) && k < |panels|
    requires ValidatePatientUpdate(patient, panels[k], data, specialties, slots, panels) == Pass
    ensures PanelsConsistent(panels[k := PatientUpdated(panels[k], data)])
  {
    var q := PatientUpdated(panels[k], data);
    var t := panels[k := q];
    assert q.status == PanelStatus.Active ==> panels[k].status == PanelStatus.Active;
    forall i, j | 0 <= i < |t| && 0 <= j < |t| && i != j && t[i].status == PanelStatus.Active
      ensures !ActiveFor(t[j], t[i].patient, t[i].issue)
    {
      assert !ActiveFor(panels[j], panels[i].patient, panels[i].issue);
    }
  }

  // ---------------------------------------------------------------- TherapyPanelTherapistUpdateSerializer

  /** The writable fields of a therapist update. */
  datatype TherapistPanelData = TherapistPanelData(
    status: Field<PanelStatus>, progressNotes: Field<Option<string>>, completionNotes: Field<Option<string>>)

  /** `validate_status`: a therapist may only pause or complete a panel. */
  function ValidateTherapistStatus(value: PanelStatus): (r: Outcome)
    ensures r == Pass <==> !value.Active?
  {
    if !value.Paused? && !value.Completed? then Fail(TherapistStatusInvalid) else Pass
  }

  /** Field validation (`validate_status`) and then `validate`: at least one field must be given. */
  function ValidateTherapistUpdate(data: TherapistPanelData): (r: Outcome)
    ensures r == Pass <==>
              (data.status.Given? || data.progressNotes.Given? || data.completionNotes.Given?)
              && data.status != Given(PanelStatus.Active)
  {
    if data.status.Given? && ValidateTherapistStatus(data.status.value) != Pass
    then ValidateTherapistStatus(data.status.value)
    else if data.status.Absent? && data.progressNotes.Absent? && data.completionNotes.Absent?
    then Fail(EmptyUpdate)
    else Pass
  }

  /** What the therapist's `update` writes: the given fields, and `last_session_date = now` on completion. */
  function TherapistUpdated(panel: Panel, data: TherapistPanelData, now: Instant): (q: Panel)
    ensures q.id == panel.id && q.patient == panel.patient && q.issue == panel.issue
    ensures q.therapist == panel.therapist && q.assignedAt == panel.assignedAt
    ensures q.status == (if data.status.Given? then data.status.value else panel.status)
    ensures q.lastSessionDate == (if data.status == Given(PanelStatus.Completed) then Some(now) else panel.lastSessionDate)
    ensures q.progressNotes == (if data.progressNotes.Given? then data.progressNotes.value else panel.progressNotes)
    ensures q.completionNotes == (if data.completionNotes.Given? then data.completionNotes.value else panel.completionNotes)
  {
    var p := if data.status == Given(PanelStatus.Completed) then panel.(lastSessionDate := Some(now)) else panel;
    var p := if data.status.Given? then p.(status := data.status.value) else p;
    var p := if data.progressNotes.Given? then p.(progressNotes := data.progressNotes.value) else p;
    if data.completionNotes.Given? then p.(completionNotes := data.completionNotes.value) else p
  }

  /** An accepted therapist update on an assigned panel keeps the panel invariants: it never re-activates. */
  lemma TherapistUpdateKeepsPanelsConsistent(panels: seq<Panel>, k: nat, data: TherapistPanelData, now: Instant)
    requires PanelsConsistent(panels) && k < |panels| && panels[k].therapist.Some?
    requires ValidateTherapistUpdate(data) == Pass
    ensures PanelsConsistent(panels[k := TherapistUpdated(panels[k], data, now)])
  {
    var q := TherapistUpdated(panels[k], data, now);
    var t := panels[k := q];
    assert q.status == PanelStatus.Active ==> panels[k].status == PanelStatus.Active;
    forall i, j | 0 <= i < |t| && 0 <= j < |t| && i != j && t[i].status == PanelStatus.Active
      ensures !ActiveFor(t[j], t[i].patient, t[i].issue)
    {
      assert !ActiveFor(panels[j], panels[i].patient, panels[i].issue);
    }
  }

  /** `TherapyPanelTherapistUpdateSerializer.update` on the panel at index `k`. */
  method TherapistUpdatePanel(db: Db, k: nat, data: TherapistPanelData, now: Instant)
    requires db.Valid() && k < |db.panels| && db.panels[k].therapist.Some?
    requires ValidateTherapistUpdate(data) == Pass
    modifies db
    ensures db.Valid()
    ensures db.panels == old(db.panels)[k := TherapistUpdated(old(db.panels[k]), data, now)]
    ensures db.slots == old(db.slots) && db.appointments == old(db.appointments)
    ensures db.nextSlotId == old(db.nextSlotId) && db.nextPanelId == old(db.nextPanelId)
    ensures db.nextAppointmentId == old(db.nextAppointmentId)
  {
    var instance := db.panels[k];
    if data.status == Given(PanelStatus.Completed) {
      instance := instance.(lastSessionDate := Some(now));
    }
    if data.status.Given? {
      instance := instance.(status := data.status.value);
    }
    if data.progressNotes.Given? {
      instance := instance.(progressNotes := data.progressNotes.value);
    }
    if data.completionNotes.Given? {
      instance := instance.(completionNotes := data.completionNotes.value);
    }
    TherapistUpdateKeepsPanelsConsistent(db.panels, k, data, now);
    db.panels := db.panels[k := instance];
  }

  // ---------------------------------------------------------------- AppointmentSerializer

  /** The user is the panel's patient (`panel.patient.user == user`). */
  predicate OwnsPanel(user: User, panel: Panel) {
    user.patientProfile == Some(panel.patient)
  }

  /**
   * Slot `s` of `therapist` lies on the date of `t`, starts by the time of
   * day of `t` and ends no earlier than the time of day of `t + d`, which
   * wraps past midnight.
   */
  predicate Covers(s: Slot, therapist: nat, t: Instant, d: nat) {
    s.therapist == therapist && s.date == DateOf(t) && s.startTime <= TimeOf(t) && s.endTime >= TimeOf(t + d)
  }

  /** The therapist has a slot covering the appointment (no therapist: no slot matches). */
  predicate Available(slots: seq<Slot>, therapist: Option<nat>, t: Instant, d: nat) {
    therapist.Some? && exists i :: 0 <= i < |slots| && Covers(slots[i], therapist.value, t, d)
  }

  /** A scheduled appointment starting in [t - d, t + d): the window the conflict check uses. */
  predicate InConflictWindow(a: Appointment, t: Instant, d: nat) {
    a.status == Scheduled && t - d <= a.scheduledTime < t + d
  }

  /** Some scheduled appointment of the therapist starts in the conflict window. */
  predicate HasConflict(appts: seq<Appointment>, panels: seq<Panel>, therapist: nat, t: Instant, d: nat) {
    exists i :: 0 <= i < |appts| && InConflictWindow(appts[i], t, d) && TherapistOf(panels, appts[i]) == Some(therapist)
  }

  /** The writable fields of a booking request. */
  datatype AppointmentData = AppointmentData(
    scheduledTime: Instant, duration: Option<nat>, platform: Option<Platform>,
    status: Option<AppointmentStatus>, paymentStatus: Option<PaymentStatus>)

  /** `data.get("duration", 60)` */
  function DurationOf(data: AppointmentData): nat {
    if data.duration.Some? then data.duration.value else DefaultDuration
  }

  /**
   * `AppointmentSerializer.validate` for a new booking by `user` on `panel`:
   * the panel is the user's and has a therapist, the time is at least six
   * hours ahead, a slot covers it and no scheduled appointment of the
   * therapist starts in the conflict window.
   */
  function ValidateAppointment(user: User, panel: Option<Panel>, data: AppointmentData, now: Instant,
                               panels: seq<Panel>, slots: seq<Slot>, appts: seq<Appointment>): (r: Outcome)
    ensures r == Pass <==>
              panel.Some? && OwnsPanel(user, panel.value) && panel.value.therapist.Some?
              && data.scheduledTime >= now + LeadTime
              && Available(slots, panel.value.therapist, data.scheduledTime, DurationOf(data))
              && !HasConflict(appts, panels, panel.value.therapist.value, data.scheduledTime, DurationOf(data))
    ensures (panel.Some? && OwnsPanel(user, panel.value) && panel.value.therapist.Some?
             && data.scheduledTime < now + LeadTime) ==> r == Fail(TooSoon)
  {
    if panel.None? || !OwnsPanel(user, panel.value) then Fail(InvalidPanel)
    else if panel.value.therapist.None? then Fail(NoTherapistAssigned)
    else if data.scheduledTime < now + LeadTime then Fail(TooSoon)
    else if !Available(slots, panel.value.therapist, data.scheduledTime, DurationOf(data)) then Fail(TherapistUnavailable)
    else if HasConflict(appts, panels, panel.value.therapist.value, data.scheduledTime, DurationOf(data))
    then Fail(AppointmentConflict)
    else Pass
  }

  /** The record `save(meeting_link=link)` creates: request fields, model defaults for the rest. */
  function NewAppointment(id: nat, panel: nat, data: AppointmentData, link: string): (r: Appointment)
    ensures r.id == id && r.panel == panel && r.scheduledTime == data.scheduledTime
    ensures r.duration == (if data.duration.Some? then data.duration.value else DefaultDuration)
    ensures r.status == (if data.status.Some? then data.status.value else Scheduled)
    ensures r.platform == (if data.platform.Some? then data.platform.value else Zoom)
    ensures r.paymentStatus == (if data.paymentStatus.Some? then data.paymentStatus.value else Pending)
    ensures r.meetingLink == Some(link) && r.cancellationReason.None? && r.rescheduledFrom.None?
  {
    Appointment(id, panel, data.scheduledTime, DurationOf(data),
                if data.status.Some? then data.status.value else Scheduled,
                if data.platform.Some? then data.platform.value else Zoom,
                Some(link),
                if data.paymentStatus.Some? then data.paymentStatus.value else Pending,
                None, None)
  }

  /** The two intervals [a, a + da) and [b, b + db) share a minute. */
  predicate IntervalsOverlap(a: Instant, da: nat, b: Instant, db: nat) {
    a < b + db && b < a + da
  }

  /**
   * The conflict window is conservative when no scheduled appointment of the
   * therapist is longer than the new one: a booking that passes never
   * overlaps one of them.
   */
  lemma ConflictWindowSoundForShorter(appts: seq<Appointment>, panels: seq<Panel>, therapist: nat,
                                      t: Instant, d: nat, i: nat)
    requires !HasConflict(appts, panels, therapist, t, d)
    requires i < |appts| && appts[i].status == Scheduled && TherapistOf(panels, appts[i]) == Some(therapist)
    requires appts[i].duration <= d
    ensures !IntervalsOverlap(appts[i].scheduledTime, appts[i].duration, t, d)
  {
    assert !InConflictWindow(appts[i], t, d);
  }

  /**
   * The window is not an interval-overlap test: an earlier, longer
   * appointment that is still running at the new start lies outside it.
   */
  lemma ConflictWindowMissesLongerAppointment()
    ensures var a := Appointment(1, 1, 1000 - 90, 120, Scheduled, Zoom, None, Pending, None, None);
            !InConflictWindow(a, 1000, 60) && IntervalsOverlap(a.scheduledTime, a.duration, 1000, 60)
  {
  }

  /** Where the appointment ends on its own date, a covering slot holds the whole appointment. */
  lemma CoversWithoutWrap(s: Slot, therapist: nat, t: Instant, d: nat)
    requires Covers(s, therapist, t, d) && TimeOf(t) + d < MinutesPerDay
    ensures Combine(s.date, s.startTime) <= t && t + d <= Combine(s.date, s.endTime)
  {
    SplitCombine(t);
    assert t + d == Combine(DateOf(t), TimeOf(t) + d);
  }

  /**
   * The end check reads only the time of day of `t + d`, so an appointment
   * that runs past midnight passes against a slot that ends before midnight.
   */
  lemma CoversWrapsPastMidnight()
    ensures var s := Slot(1, 7, 20000, 22 * 60, 23 * 60 + 59);
            var t := Combine(20000, 23 * 60 + 30);
            Covers(s, 7, t, 60) && t + 60 > Combine(s.date, s.endTime)
  {
    var t := Combine(20000, 23 * 60 + 30);
    assert t + 60 == Combine(20001, 30);
  }

  // ---------------------------------------------------------------- RescheduleAppointmentSerializer

  /**
   * `RescheduleAppointmentSerializer.validate` for `user` moving `appt` (of
   * `panel`) to `newTime`: still scheduled, the user's own, at least six
   * hours away, fewer than two reschedules in the panel, the new time six
   * hours away as well, and a slot covering it. No conflict check is made.
   */
  function ValidateReschedule(user: User, appt: Appointment, panel: Panel, newTime: Option<Instant>,
                              now: Instant, slots: seq<Slot>, appts: seq<Appointment>): (r: Outcome)
    requires panel.id == appt.panel
    ensures r == Pass <==>
              newTime.Some? && appt.status == Scheduled && OwnsPanel(user, panel)
              && appt.scheduledTime >= now + LeadTime
              && RescheduleCount(appts, panel.id) < RescheduleLimit
              && newTime.value >= now + LeadTime
              && Available(slots, panel.therapist, newTime.value, appt.duration)
    ensures (RescheduleCount(appts, panel.id) >= RescheduleLimit && newTime.Some? && appt.status == Scheduled
             && OwnsPanel(user, panel) && appt.scheduledTime >= now + LeadTime) ==> r == Fail(RescheduleLimitReached)
  {
    if newTime.None? then Fail(Required("new_scheduled_time"))
    else if appt.status != Scheduled then Fail(NotScheduled)
    else if !OwnsPanel(user, panel) then Fail(NotOwner)
    else if appt.scheduledTime < now + LeadTime then Fail(TooSoon)
    else if RescheduleCount(appts, panel.id) >= RescheduleLimit then Fail(RescheduleLimitReached)
    else if newTime.value < now + LeadTime then Fail(TooSoon)
    else if !Available(slots, panel.therapist, newTime.value, appt.duration) then Fail(TherapistUnavailable)
    else Pass
  }

  /** The record `_create_new_appointment` inserts: a scheduled copy at the new time that points back. */
  function Rescheduled(prev: Appointment, id: nat, newTime: Instant): (r: Appointment)
    ensures r.id == id && r.scheduledTime == newTime && r.status == Scheduled
    ensures r.rescheduledFrom == Some(prev.id) && RescheduledIn(prev.panel)(r)
    ensures r.panel == prev.panel && r.duration == prev.duration && r.platform == prev.platform
    ensures r.meetingLink == prev.meetingLink && r.paymentStatus == prev.paymentStatus
    ensures r.cancellationReason.None?
  {
    Appointment(id, prev.panel, newTime, prev.duration, Scheduled, prev.platform, prev.meetingLink,
                prev.paymentStatus, None, Some(prev.id))
  }

  /**
   * A reschedule that passes does not look at the therapist's other
   * appointments: it is accepted onto a time another patient has booked.
   */
  lemma RescheduleIgnoresConflicts()
    ensures var panel := Panel(1, 10, 3, Some(7), PanelStatus.Active, None, None, None, None);
            var other := Panel(2, 11, 3, Some(7), PanelStatus.Active, None, None, None, None);
            var slot := Slot(1, 7, 20000, 9 * 60, 12 * 60);
            var mine := Appointment(1, 1, Combine(20000, 9 * 60), 60, Scheduled, Zoom, None, Pending, None, None);
            var theirs := Appointment(2, 2, Combine(20000, 10 * 60), 60, Scheduled, Zoom, None, Pending, None, None);
            var now := Combine(19990, 0);
            ValidateReschedule(User(Some(10), None), mine, panel, Some(theirs.scheduledTime), now, [slot], [mine, theirs]) == Pass
            && HasConflict([mine, theirs], [panel, other], 7, theirs.scheduledTime, 60)
  {
    var panel := Panel(1, 10, 3, Some(7), PanelStatus.Active, None, None, None, None);
    var other := Panel(2, 11, 3, Some(7), PanelStatus.Active, None, None, None, None);
    var slot := Slot(1, 7, 20000, 9 * 60, 12 * 60);
    var mine := Appointment(1, 1, Combine(20000, 9 * 60), 60, Scheduled, Zoom, None, Pending, None, None);
    var theirs := Appointment(2, 2, Combine(20000, 10 * 60), 60, Scheduled, Zoom, None, Pending, None, None);
    assert theirs.scheduledTime + 60 == Combine(20000, 11 * 60);
    assert Covers([slot][0], 7, theirs.scheduledTime, 60);
    var panels := [panel, other];
    assert panels[0].id == 1 && panels[1].id == 2;
    assert PanelIndex(panels, 2) == Some(1);
    assert RescheduleCount([mine, theirs], 1) == 0;
    assert InConflictWindow([mine, theirs][1], theirs.scheduledTime, 60);
    assert Available([slot], panel.therapist, theirs.scheduledTime, 60);
    assert ValidateReschedule(User(Some(10), None), mine, panel, Some(theirs.scheduledTime), Combine(19990, 0), [slot], [mine, theirs]) == Pass;
    assert TherapistOf(panels, theirs) == Some(7);
  }

  /** Canceling a scheduled appointment or completing it leaves its panel's reschedule count alone. */
  lemma StatusChangeKeepsCounts(appts: seq<Appointment>, k: nat, a: Appointment, panel: nat)
    requires k < |appts| && a.panel == appts[k].panel && a.rescheduledFrom == appts[k].rescheduledFrom
    ensures RescheduleCount(appts[k := a], panel) == RescheduleCount(appts, panel)
  {
    CountUpdate(appts, k, a, RescheduledIn(panel));
  }

  /**
   * A validated reschedule keeps the appointment invariants: the panel's
   * count grows by one and stays within the limit, and the new record points
   * back to the old one, which is now canceled.
   */
  lemma RescheduleKeepsAppointmentsConsistent(appts: seq<Appointment>, k: nat, next: nat, newTime: Instant)
    requires AppointmentIdsBelow(appts, next) && AppointmentsConsistent(appts)
    requires k < |appts| && appts[k].status == Scheduled
    requires RescheduleCount(appts, appts[k].panel) < RescheduleLimit
    ensures var t := appts[k := appts[k].(status := Canceled)] + [Rescheduled(appts[k], next, newTime)];
            AppointmentIdsBelow(t, next + 1) && AppointmentsConsistent(t)
            && RescheduleCount(t, appts[k].panel) == RescheduleCount(appts, appts[k].panel) + 1
  {
    var t := appts[k := appts[k].(status := Canceled)] + [Rescheduled(appts[k], next, newTime)];
    forall panel: nat
      ensures RescheduleCount(t, panel) <= RescheduleLimit
    {
      RescheduleCountStep(appts, k, next, newTime, panel);
    }
    RescheduleCountStep(appts, k, next, newTime, appts[k].panel);
    RescheduleKeepsLineage(appts, k, next, newTime);
  }

  /** A reschedule adds one to the count of the rescheduled panel and leaves every other count alone. */
  lemma RescheduleCountStep(appts: seq<Appointment>, k: nat, next: nat, newTime: Instant, panel: nat)
    requires k < |appts|
    ensures var t := appts[k := appts[k].(status := Canceled)] + [Rescheduled(appts[k], next, newTime)];
            RescheduleCount(t, panel) == RescheduleCount(appts, panel) + (if panel == appts[k].panel then 1 else 0)
  {
    var prev := appts[k];
    var canceled := appts[k := prev.(status := Canceled)];
    StatusChangeKeepsCounts(appts, k, prev.(status := Canceled), panel);
    CountAppend(canceled, Rescheduled(prev, next, newTime), RescheduledIn(panel));
  }

  /** After a reschedule every replacement, the new one included, still points back to an earlier canceled record. */
  lemma RescheduleKeepsLineage(appts: seq<Appointment>, k: nat, next: nat, newTime: Instant)
    requires AppointmentIdsBelow(appts, next) && AppointmentsConsistent(appts)
    requires k < |appts| && appts[k].status == Scheduled
    ensures var t := appts[k := appts[k].(status := Canceled)] + [Rescheduled(appts[k], next, newTime)];
            forall i :: 0 <= i < |t| && t[i].rescheduledFrom.Some? ==>
              t[i].rescheduledFrom.value < t[i].id
              && exists j :: 0 <= j < |t| && t[j].id == t[i].rescheduledFrom.value && t[j].status == Canceled
  {
    var prev := appts[k];
    var canceled := appts[k := prev.(status := Canceled)];
    var t := canceled + [Rescheduled(prev, next, newTime)];
    forall i | 0 <= i < |t| && t[i].rescheduledFrom.Some?
      ensures t[i].rescheduledFrom.value < t[i].id
      ensures exists j :: 0 <= j < |t| && t[j].id == t[i].rescheduledFrom.value && t[j].status == Canceled
    {
      if i == |canceled| {
        assert t[k].id == prev.id && t[k].status == Canceled;
      } else {
        assert t[i] == canceled[i];
        var j :| 0 <= j < |appts| && appts[j].id == appts[i].rescheduledFrom.value && appts[j].status == Canceled;
        assert j != k;
        assert t[j] == appts[j];
      }
    }
  }

  /**
   * `_create_new_appointment` for the appointment at index `k`: inserts the
   * replacement, then marks the old record canceled. Returns the replacement.
   */
  method RescheduleAppointment(db: Db, k: nat, newTime: Instant) returns (created: Appointment)
    requires db.Valid() && k < |db.appointments| && db.appointments[k].status == Scheduled
    requires RescheduleCount(db.appointments, db.appointments[k].panel) < RescheduleLimit
    modifies db
    ensures db.Valid()
    ensures created == Rescheduled(old(db.appointments[k]), old(db.nextAppointmentId), newTime)
    ensures db.appointments == old(db.appointments)[k := old(db.appointments[k]).(status := Canceled)] + [created]
    ensures RescheduleCount(db.appointments, created.panel) == old(RescheduleCount(db.appointments, db.appointments[k].panel)) + 1
    ensures db.slots == old(db.slots) && db.panels == old(db.panels)
    ensures db.nextSlotId == old(db.nextSlotId) && db.nextPanelId == old(db.nextPanelId)
    ensures db.nextAppointmentId == old(db.nextAppointmentId) + 1
  {
    var before, next := db.appointments, db.nextAppointmentId;
    var appointment := before[k];
    RescheduleKeepsAppointmentsConsistent(before, k, next, newTime);
    created := Rescheduled(appointment, next, newTime);
    var inserted := before + [created];
    appointment := appointment.(status := Canceled);
    assert inserted[k := appointment] == before[k := appointment] + [created];
    db.appointments, db.nextAppointmentId := inserted, next + 1;
    db.appointments := inserted[k := appointment];
  }

  // ---------------------------------------------------------------- CancelAppointmentSerializer

  /**
   * The ASCII characters `str.strip()` removes: space, tab through carriage
   * return, and the four separators U+001C through U+001F.
   */
  predicate IsSpace(c: char) {
    c == ' ' || '\t' <= c <= '\r' || '\U{1C}' <= c <= '\U{1F}'
  }

  /** `s` without its leading whitespace. */
  function StripLeading(s: string): (r: string)
    ensures |r| <= |s| && r == s[|s| - |r|..]
    ensures r == [] || !IsSpace(r[0])
    ensures forall i :: 0 <= i < |s| - |r| ==> IsSpace(s[i])
  {
    if s != [] && IsSpace(s[0]) then
      var r := StripLeading(s[1..]);
      assert s[1..][|s| - 1 - |r|..] == s[|s| - |r|..];
      assert forall i :: 0 < i < |s| - |r| ==> s[i] == s[1..][i - 1];
      r
    else s
  }

  /** `s` without its trailing whitespace. */
  function StripTrailing(s: string): (r: string)
    ensures |r| <= |s| && r == s[..|r|]
    ensures r == [] || !IsSpace(r[|r| - 1])
    ensures forall i :: |r| <= i < |s| ==> IsSpace(s[i])
  {
    if s != [] && IsSpace(s[|s| - 1]) then
      var r := StripTrailing(s[..|s| - 1]);
      assert s[..|s| - 1][..|r|] == s[..|r|];
      r
    else s
  }

  /**
   * `CharField`'s `trim_whitespace`: the text between the leading and the
   * trailing whitespace; empty exactly when `s` is all whitespace.
   */
  function Strip(s: string): (r: string)
    ensures r == [] <==> forall i :: 0 <= i < |s| ==> IsSpace(s[i])
    ensures r != [] ==> !IsSpace(r[0]) && !IsSpace(r[|r| - 1])
  {
    var t := StripLeading(s);
    var r := StripTrailing(t);
    assert t == [] ==> forall i :: 0 <= i < |s| ==> IsSpace(s[i]);
    r
  }

  /** Stripping twice is stripping once: a stored reason is already trimmed. */
  lemma StripIdempotent(s: string)
    ensures Strip(Strip(s)) == Strip(s)
  {
    var r := Strip(s);
    if r != [] {
      assert StripLeading(r) == r;
      assert StripTrailing(r) == r;
    }
  }

  /**
   * `CancelAppointmentSerializer` field and object validation: a non-blank
   * reason free of null characters, and the appointment still scheduled, the user's own and at
   * least six hours away.
   */
  function ValidateCancel(user: User, appt: Appointment, panel: Panel, reason: Option<string>, now: Instant): (r: Outcome)
    requires panel.id == appt.panel
    ensures r == Pass <==>
              reason.Some? && Strip(reason.value) != "" && '\0' !in Strip(reason.value)
              && appt.status == Scheduled && OwnsPanel(user, panel) && appt.scheduledTime >= now + LeadTime
    ensures reason.Some? && Strip(reason.value) != "" && '\0' in Strip(reason.value) ==> r == Fail(NullCharacter)
    ensures (reason.Some? && Strip(reason.value) != "" && '\0' !in Strip(reason.value)
             && appt.status == Scheduled && OwnsPanel(user, panel)
             && appt.scheduledTime < now + LeadTime) ==> r == Fail(TooSoon)
  {
    if reason.None? || Strip(reason.value) == "" then Fail(Required("cancellation_reason"))
    else if '\0' in Strip(reason.value) then Fail(NullCharacter)
    else if appt.status != Scheduled then Fail(NotScheduled)
    else if !OwnsPanel(user, panel) then Fail(NotOwner)
    else if appt.scheduledTime < now + LeadTime then Fail(TooSoon)
    else Pass
  }

  /** A status change of a scheduled appointment keeps the appointment invariants. */
  lemma StatusChangeKeepsAppointmentsConsistent(appts: seq<Appointment>, k: nat, a: Appointment, next: nat)
    requires AppointmentIdsBelow(appts, next) && AppointmentsConsistent(appts)
    requires k < |appts| && appts[k].status == Scheduled
    requires a.id == appts[k].id && a.panel == appts[k].panel && a.rescheduledFrom == appts[k].rescheduledFrom
    ensures AppointmentIdsBelow(appts[k := a], next) && AppointmentsConsistent(appts[k := a])
  {
    var t := appts[k := a];
    forall panel: nat
      ensures RescheduleCount(t, panel) == RescheduleCount(appts, panel)
    {
      StatusChangeKeepsCounts(appts, k, a, panel);
    }
    forall i | 0 <= i < |t| && t[i].rescheduledFrom.Some?
      ensures exists j :: 0 <= j < |t| && t[j].id == t[i].rescheduledFrom.value && t[j].status == Canceled
    {
      var j :| 0 <= j < |appts| && appts[j].id == appts[i].rescheduledFrom.value && appts[j].status == Canceled;
      assert j != k;
      assert t[j] == appts[j];
    }
  }

  /** `CancelAppointmentSerializer.update` on the appointment at index `k`. */
  method CancelAppointment(db: Db, k: nat, reason: string)
    requires db.Valid() && k < |db.appointments| && db.appointments[k].status == Scheduled
    modifies db
    ensures db.Valid()
    ensures db.appointments ==
              old(db.appointments)[k := old(db.appointments[k]).(status := Canceled, cancellationReason := Some(reason))]
    ensures db.slots == old(db.slots) && db.panels == old(db.panels)
    ensures db.nextSlotId == old(db.nextSlotId) && db.nextPanelId == old(db.nextPanelId)
    ensures db.nextAppointmentId == old(db.nextAppointmentId)
  {
    var instance := db.appointments[k];
    instance := instance.(status := Canceled);
    instance := instance.(cancellationReason := Some(reason));
    StatusChangeKeepsAppointmentsConsistent(db.appointments, k, instance, db.nextAppointmentId);
    db.appointments := db.appointments[k := instance];
  }
}
