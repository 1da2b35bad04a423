/**
 * The records of the scheduling engine and the database that stores them:
 * availability slots, therapy panels and appointments, with the rule that
 * `Availability.clean` enforces and the invariants the store keeps.
 *
 * Time is counted in whole minutes of UTC: an instant is minutes since
 * 1970-01-01T00:00, a date is days since 1970-01-01 and a time of day is
 * minutes since midnight.
 */
module Models {
  import opened Queries

  const MinutesPerDay: int := 1440

  /** Minutes since 1970-01-01T00:00 UTC. */
  type Instant = int
  /** Days since 1970-01-01 (a Thursday). */
  type Date = int
  /** Minutes since midnight. */
  type TimeOfDay = m: int | 0 <= m < 1440

  /** `dt.date()` */
  function DateOf(t: Instant): Date { t / MinutesPerDay }

  /** `dt.time()`: wraps past midnight. */
  function TimeOf(t: Instant): TimeOfDay { t % MinutesPerDay }

  /** `datetime.combine(date, time)` */
  function Combine(d: Date, m: TimeOfDay): (t: Instant)
    ensures DateOf(t) == d && TimeOf(t) == m
  {
    d * MinutesPerDay + m
  }

  /** An instant is the combination of its own date and time of day. */
  lemma SplitCombine(t: Instant)
    ensures Combine(DateOf(t), TimeOf(t)) == t
  {
  }

  /** Django's `week_day` of a date: Sunday is 1, Monday 2, ..., Saturday 7. */
  function WeekDay(d: Date): (k: int)
    ensures 1 <= k <= 7
  {
    (d + 4) % 7 + 1
  }

  /**
   * Week days repeat every seven days, each day is the one after its
   * predecessor (Saturday 7 wrapping to Sunday 1), and 1970-01-04 was a
   * Sunday; together these fix the week day of every date.
   */
  lemma WeekDayCycle(d: Date)
    ensures WeekDay(d + 7) == WeekDay(d)
    ensures WeekDay(d + 1) == WeekDay(d) % 7 + 1
    ensures WeekDay(3) == 1
  {
  }

  /** English day names, indexed by `week_day - 1` (what `strftime("%A")` prints). */
  const DayNames: seq<string> :=
    ["Sunday", "Monday", "Tuesday", "Wednesday", "Thursday", "Friday", "Saturday"]

  /** A field of request data: left out of the request, or given with a value. */
  datatype Field<+T> = Absent | Given(value: T)

  /** The errors the engine reports, one per rule it checks. */
  datatype Error =
    | Required(field: string)     // a required field is missing or blank
    | StartNotBeforeEnd           // availability start is not before its end
    | SlotNotInFuture             // availability does not start after now
    | OverlappingSlot             // availability overlaps one of the same therapist and date
    | ActivePanelExists           // the patient has an active panel for the issue
    | TherapistNotSuggested       // chosen therapist does not treat the issue
    | TherapistWithoutSlots       // chosen therapist has no availability at all
    | ActivePanelWithTherapist    // the patient has an active panel with that therapist for the issue
    | TherapistLocked             // the panel's therapist can no longer be changed
    | StatusNotPaused             // a patient may only pause a panel
    | InvalidPanelUpdate          // neither therapist nor status given
    | TherapistStatusInvalid      // a therapist may only pause or complete a panel
    | NullCharacter               // a text field contains a null character
    | EmptyUpdate                 // a therapist update with no field
    | InvalidPanel                // no panel, or a panel of another patient
    | NoTherapistAssigned         // the panel has no therapist yet
    | TooSoon                     // the time is less than the lead time away
    | TherapistUnavailable        // no availability slot covers the appointment
    | AppointmentConflict         // the therapist already has an appointment then
    | NotScheduled                // the appointment is no longer scheduled
    | NotOwner                    // the appointment belongs to another patient
    | RescheduleLimitReached      // the panel was already rescheduled twice
    | InvalidAction               // an appointment update names no known action
    | PermissionDenied
    | NotFound

  datatype Outcome = Pass | Fail(error: Error)
  datatype Result<+T> = Ok(value: T) | Err(error: Error)

  /** The authenticated principal, given by the profiles it has. */
  datatype User = User(patientProfile: Option<nat>, therapistProfile: Option<nat>)

  // ---------------------------------------------------------------- Availability

  /** A stored availability slot (`created_at` is not modelled). */
  datatype Slot = Slot(id: nat, therapist: nat, date: Date, startTime: TimeOfDay, endTime: TimeOfDay)

  /** Date, start and end of a slot as they stand before validation: each may be missing. */
  datatype SlotFields = SlotFields(date: Option<Date>, startTime: Option<TimeOfDay>, endTime: Option<TimeOfDay>)

  /** The three fields are all present. */
  predicate Complete(f: SlotFields) {
    f.date.Some? && f.startTime.Some? && f.endTime.Some?
  }

  /** Slot `s` overlaps, half-open, the window [start, end) of `therapist` on `date`. */
  predicate SlotOverlaps(s: Slot, therapist: nat, date: Date, start: TimeOfDay, end: TimeOfDay) {
    s.therapist == therapist && s.date == date && s.startTime < end && s.endTime > start
  }

  /** Some stored slot other than the one with id `exclude` overlaps the window. */
  predicate HasOverlap(slots: seq<Slot>, therapist: nat, date: Date, start: TimeOfDay, end: TimeOfDay,
                       exclude: Option<nat>)
  {
    exists i :: 0 <= i < |slots| && SlotOverlaps(slots[i], therapist, date, start, end)
                && (exclude.None? || slots[i].id != exclude.value)
  }

  /**
   * `Availability.clean`: the slot with id `id` (None before its first save)
   * of `therapist` needs all three fields, a start before its end, and no
   * overlap with another slot of the same therapist on the same date.
   */
  function Clean(id: Option<nat>, therapist: nat, f: SlotFields, slots: seq<Slot>): (r: Outcome)
    ensures r == Pass <==>
              Complete(f) && f.startTime.value < f.endTime.value
              && !HasOverlap(slots, therapist, f.date.value, f.startTime.value, f.endTime.value, id)
  {
    if !Complete(f) then Fail(Required("date, start_time, end_time"))
    else if f.startTime.value >= f.endTime.value then Fail(StartNotBeforeEnd)
    else if HasOverlap(slots, therapist, f.date.value, f.startTime.value, f.endTime.value, id)
    then Fail(OverlappingSlot)
    else Pass
  }

  /** Every stored slot starts before it ends. */
  ghost predicate SlotsWellFormed(slots: seq<Slot>) {
    forall i :: 0 <= i < |slots| ==> slots[i].startTime < slots[i].endTime
  }

  /** No two stored slots of the same therapist and date overlap. */
  ghost predicate SlotsDisjoint(slots: seq<Slot>) {
    forall i, j :: 0 <= i < |slots| && 0 <= j < |slots| && i != j ==>
      !SlotOverlaps(slots[i], slots[j].therapist, slots[j].date, slots[j].startTime, slots[j].endTime)
  }

  /** The `unique_together` constraint on (therapist, date, start_time, end_time). */
  ghost predicate UniqueTogether(slots: seq<Slot>) {
    forall i, j :: 0 <= i < j < |slots| ==>
      (slots[i].therapist, slots[i].date, slots[i].startTime, slots[i].endTime)
      != (slots[j].therapist, slots[j].date, slots[j].startTime, slots[j].endTime)
  }

  /** Slot ids increase along the table and stay below the next id to hand out. */
  ghost predicate SlotIdsBelow(slots: seq<Slot>, next: nat) {
    (forall i, j :: 0 <= i < j < |slots| ==> slots[i].id < slots[j].id)
    && forall i :: 0 <= i < |slots| ==> slots[i].id < next
  }

  /** Disjoint non-empty slots can never collide on the uniqueness constraint. */
  lemma DisjointIsUnique(slots: seq<Slot>)
    requires SlotsWellFormed(slots) && SlotsDisjoint(slots)
    ensures UniqueTogether(slots)
  {
    forall i, j | 0 <= i < j < |slots|
      ensures (slots[i].therapist, slots[i].date, slots[i].startTime, slots[i].endTime)
              != (slots[j].therapist, slots[j].date, slots[j].startTime, slots[j].endTime)
    {
      assert !SlotOverlaps(slots[i], slots[j].therapist, slots[j].date, slots[j].startTime, slots[j].endTime);
    }
  }

  /** A slot that passes `clean` can be added to a disjoint store and keeps it disjoint. */
  lemma CleanInsertKeepsDisjoint(slots: seq<Slot>, s: Slot)
    requires SlotsWellFormed(slots) && SlotsDisjoint(slots)
    requires Clean(None, s.therapist, SlotFields(Some(s.date), Some(s.startTime), Some(s.endTime)), slots) == Pass
    ensures SlotsWellFormed(slots + [s]) && SlotsDisjoint(slots + [s])
  {
    var t := slots + [s];
    forall i, j | 0 <= i < |t| && 0 <= j < |t| && i != j
      ensures !SlotOverlaps(t[i], t[j].therapist, t[j].date, t[j].startTime, t[j].endTime)
    {
      if i == |slots| {
        assert !SlotOverlaps(slots[j], s.therapist, s.date, s.startTime, s.endTime);
      } else if j == |slots| {
        assert !SlotOverlaps(slots[i], s.therapist, s.date, s.startTime, s.endTime);
      }
    }
  }

  /**
   * Re-saving the slot at index `k` with new fields that pass `clean` under
   * its own id keeps the store disjoint: the slot is only compared with the
   * others.
   */
  lemma CleanUpdateKeepsDisjoint(slots: seq<Slot>, k: nat, s: Slot, next: nat)
    requires SlotsWellFormed(slots) && SlotsDisjoint(slots) && SlotIdsBelow(slots, next)
    requires k < |slots| && s.id == slots[k].id
    requires Clean(Some(s.id), s.therapist, SlotFields(Some(s.date), Some(s.startTime), Some(s.endTime)), slots) == Pass
    ensures SlotsWellFormed(slots[k := s]) && SlotsDisjoint(slots[k := s]) && SlotIdsBelow(slots[k := s], next)
  {
    var t := slots[k := s];
    forall i, j | 0 <= i < |t| && 0 <= j < |t| && i != j
      ensures !SlotOverlaps(t[i], t[j].therapist, t[j].date, t[j].startTime, t[j].endTime)
    {
      if i == k {
        assert slots[j].id != s.id;
        assert !SlotOverlaps(slots[j], s.therapist, s.date, s.startTime, s.endTime);
      } else if j == k {
        assert slots[i].id != s.id;
        assert !SlotOverlaps(slots[i], s.therapist, s.date, s.startTime, s.endTime);
      }
    }
  }

  /** `Meta.ordering = ["date", "start_time"]` as one integer key. */
  function SlotOrderKey(s: Slot): int {
    Combine(s.date, s.startTime)
  }

  /** The integer key orders slots by date first and start time second. */
  lemma SlotOrderKeyIsLexicographic(a: Slot, b: Slot)
    ensures SlotOrderKey(a) <= SlotOrderKey(b) <==>
              a.date < b.date || (a.date == b.date && a.startTime <= b.startTime)
  {
    if a.date < b.date {
      assert SlotOrderKey(b) - SlotOrderKey(a) == (b.date - a.date) * MinutesPerDay + b.startTime - a.startTime;
      assert (b.date - a.date) * MinutesPerDay >= MinutesPerDay;
    } else if a.date > b.date {
      assert SlotOrderKey(a) - SlotOrderKey(b) == (a.date - b.date) * MinutesPerDay + a.startTime - b.startTime;
      assert (a.date - b.date) * MinutesPerDay >= MinutesPerDay;
    }
  }

  /** `Availability.objects.all()`: the slots in their default order. */
  function OrderedSlots(slots: seq<Slot>): (r: seq<Slot>)
    ensures multiset(r) == multiset(slots)
    ensures SortedBy(r, SlotOrderKey)
    ensures forall i, j :: 0 <= i < j < |r| ==>
              r[i].date < r[j].date || (r[i].date == r[j].date && r[i].startTime <= r[j].startTime)
  {
    var r := SortBy(slots, SlotOrderKey);
    assert forall i, j :: 0 <= i < j < |r| ==> SlotOrderKey(r[i]) <= SlotOrderKey(r[j]);
    forall i, j | 0 <= i < j < |r|
      ensures r[i].date < r[j].date || (r[i].date == r[j].date && r[i].startTime <= r[j].startTime)
    {
      SlotOrderKeyIsLexicographic(r[i], r[j]);
    }
    r
  }

  // ---------------------------------------------------------------- Therapy panels

  datatype PanelStatus = Active | Paused | Completed

  /** A patient-issue engagement; `therapist` stays None until the patient picks one. */
  datatype Panel = Panel(
    id: nat, patient: nat, issue: nat, therapist: Option<nat>, status: PanelStatus,
    assignedAt: Option<Instant>, lastSessionDate: Option<Instant>,
    progressNotes: Option<string>, completionNotes: Option<string>)

  /** Panel ids increase along the table and stay below the next id to hand out. */
  ghost predicate PanelIdsBelow(panels: seq<Panel>, next: nat) {
    (forall i, j :: 0 <= i < j < |panels| ==> panels[i].id < panels[j].id)
    && forall i :: 0 <= i < |panels| ==> panels[i].id < next
  }

  /** Panel `p` is active for this patient and issue. */
  predicate ActiveFor(p: Panel, patient: nat, issue: nat) {
    p.patient == patient && p.issue == issue && p.status == PanelStatus.Active
  }

  /**
   * The panel invariants: an unassigned panel is still active, and a patient
   * has at most one active panel per issue.
   */
  ghost predicate PanelsConsistent(panels: seq<Panel>) {
    (forall i :: 0 <= i < |panels| && panels[i].therapist.None? ==> panels[i].status == PanelStatus.Active)
    && (forall i, j :: 0 <= i < |panels| && 0 <= j < |panels| && i != j && panels[i].status == PanelStatus.Active ==>
          !ActiveFor(panels[j], panels[i].patient, panels[i].issue))
  }

  // ---------------------------------------------------------------- Appointments

  datatype AppointmentStatus = Scheduled | Completed | Canceled
  datatype Platform = GoogleMeet | Zoom | Skype | Other
  datatype PaymentStatus = Pending | Paid | Refunded | Failed

  /** An appointment (`created_at`, `canceled_by` and `is_deleted` are not modelled). */
  datatype Appointment = Appointment(
    id: nat, panel: nat, scheduledTime: Instant, duration: nat, status: AppointmentStatus,
    platform: Platform, meetingLink: Option<string>, paymentStatus: PaymentStatus,
    cancellationReason: Option<string>, rescheduledFrom: Option<nat>)

  /** Appointment ids increase along the table and stay below the next id to hand out. */
  ghost predicate AppointmentIdsBelow(appts: seq<Appointment>, next: nat) {
    (forall i, j :: 0 <= i < j < |appts| ==> appts[i].id < appts[j].id)
    && forall i :: 0 <= i < |appts| ==> appts[i].id < next
  }

  /** A panel may be rescheduled at most this many times. */
  const RescheduleLimit: nat := 2

  /** The appointment of panel `panel` was created by a reschedule. */
  function RescheduledIn(panel: nat): Appointment -> bool {
    (a: Appointment) => a.panel == panel && a.rescheduledFrom.Some?
  }

  /** Number of appointments of a panel that replace an earlier one. */
  function RescheduleCount(appts: seq<Appointment>, panel: nat): nat {
    Count(appts, RescheduledIn(panel))
  }

  /**
   * The appointment invariants: no panel exceeds the reschedule limit, and
   * every replacement points back to an older appointment that was canceled.
   */
  ghost predicate AppointmentsConsistent(appts: seq<Appointment>) {
    (forall panel: nat :: RescheduleCount(appts, panel) <= RescheduleLimit)
    && forall i :: 0 <= i < |appts| && appts[i].rescheduledFrom.Some? ==>
         appts[i].rescheduledFrom.value < appts[i].id
         && exists j :: 0 <= j < |appts| && appts[j].id == appts[i].rescheduledFrom.value
                        && appts[j].status == Canceled
  }

  /** `filter(id=id)` on panels. */
  function PanelWithId(id: nat): Panel -> bool {
    (p: Panel) => p.id == id
  }

  /** Position of the panel with id `id` in the table, if there is one. */
  function PanelIndex(panels: seq<Panel>, id: nat): (r: Option<nat>)
    ensures r.Some? ==> r.value < |panels| && panels[r.value].id == id
    ensures r.None? <==> forall i :: 0 <= i < |panels| ==> panels[i].id != id
  {
    var r := Find(panels, PanelWithId(id));
    assert r.None? ==> forall i :: 0 <= i < |panels| ==> !PanelWithId(id)(panels[i]);
    r
  }

  /** The therapist of the panel an appointment belongs to (`appointment.panel.therapist`). */
  function TherapistOf(panels: seq<Panel>, a: Appointment): Option<nat> {
    match PanelIndex(panels, a.panel)
    case Some(i) => panels[i].therapist
    case None => None
  }

  /** The patient of the panel an appointment belongs to (`appointment.panel.patient`). */
  function PatientOf(panels: seq<Panel>, a: Appointment): Option<nat> {
    match PanelIndex(panels, a.panel)
    case Some(i) => Some(panels[i].patient)
    case None => None
  }

  /** `filter(id=id)` on appointments. */
  function AppointmentWithId(id: nat): Appointment -> bool {
    (a: Appointment) => a.id == id
  }

  /** Position of the appointment with id `id` in the table, if there is one. */
  function AppointmentIndex(appts: seq<Appointment>, id: nat): (r: Option<nat>)
    ensures r.Some? ==> r.value < |appts| && appts[r.value].id == id
    ensures r.None? <==> forall i :: 0 <= i < |appts| ==> appts[i].id != id
  {
    var r := Find(appts, AppointmentWithId(id));
    assert r.None? ==> forall i :: 0 <= i < |appts| ==> !AppointmentWithId(id)(appts[i]);
    r
  }

  /** The three record stores with their auto-increment counters. */
  class Db {
    var slots: seq<Slot>
    var panels: seq<Panel>
    var appointments: seq<Appointment>
    var nextSlotId: nat
    var nextPanelId: nat
    var nextAppointmentId: nat

    ghost predicate Valid()
      reads this
    {
      && SlotIdsBelow(slots, nextSlotId) && SlotsWellFormed(slots) && SlotsDisjoint(slots)
      && PanelIdsBelow(panels, nextPanelId) && PanelsConsistent(panels)
      && AppointmentIdsBelow(appointments, nextAppointmentId) && AppointmentsConsistent(appointments)
    }

    constructor ()
      ensures Valid()
      ensures slots == [] && panels == [] && appointments == []
    {
      slots, panels, appointments := [], [], [];
      nextSlotId, nextPanelId, nextAppointmentId := 1, 1, 1;
    }
  }
}
