/**
 * The periodic job that closes appointments: every scheduled appointment
 * whose start is at least an hour in the past becomes completed.
 */
module Tasks {
  import opened Queries
  import opened Models
  import Serializers

  /** An appointment is closed this long after its start, whatever its duration. */
  const CompletionDelay: int := 60

  /** `filter(status="scheduled", scheduled_time__lte=now - 1h)` */
  function DueAt(now: Instant): Appointment -> bool {
    (a: Appointment) => a.status == Scheduled && a.scheduledTime <= now - CompletionDelay
  }

  /** Still scheduled, whatever the time. */
  function IsScheduled(): Appointment -> bool {
    (a: Appointment) => a.status == Scheduled
  }

  /** One appointment after the job has run at `now`. */
  function Sweep(a: Appointment, now: Instant): Appointment {
    if DueAt(now)(a) then a.(status := AppointmentStatus.Completed) else a
  }

  /** The appointment table after the job has run at `now`. */
  function Swept(s: seq<Appointment>, now: Instant): (r: seq<Appointment>)
    ensures |r| == |s|
    ensures forall i :: 0 <= i < |r| ==> !DueAt(now)(r[i]) && r[i] == s[i].(status := r[i].status)
  {
    seq(|s|, i requires 0 <= i < |s| => Sweep(s[i], now))
  }

  /** The job only changes status, and only of the due appointments, which it completes. */
  lemma SweptChangesOnlyDue(s: seq<Appointment>, now: Instant, i: nat)
    requires i < |s|
    ensures Swept(s, now)[i].status == (if DueAt(now)(s[i]) then AppointmentStatus.Completed else s[i].status)
    ensures Swept(s, now)[i] == s[i].(status := Swept(s, now)[i].status)
  {
  }

  /** Running the job a second time at the same instant changes nothing. */
  lemma SweptIdempotent(s: seq<Appointment>, now: Instant)
    ensures Swept(Swept(s, now), now) == Swept(s, now)
    ensures Count(Swept(s, now), DueAt(now)) == 0
  {
    var r := Swept(s, now);
    forall i | 0 <= i < |r|
      ensures !DueAt(now)(r[i])
    {
    }
  }

  /** A run at `now` followed by a later run is the later run alone. */
  lemma SweptLaterAbsorbs(s: seq<Appointment>, now: Instant, later: Instant)
    requires now <= later
    ensures Swept(Swept(s, now), later) == Swept(s, later)
  {
  }

  /**
   * The scheduled appointments drop by exactly the number the job reports:
   * the ones it completes.
   */
  lemma {:induction false} SweptScheduledCount(s: seq<Appointment>, now: Instant)
    ensures Count(Swept(s, now), IsScheduled()) + Count(s, DueAt(now)) == Count(s, IsScheduled())
  {
    if s != [] {
      var n := |s| - 1;
      assert Swept(s, now)[..n] == Swept(s[..n], now);
      SweptScheduledCount(s[..n], now);
    }
  }

  /**
   * The bulk `update(status="completed")` over a table: returns the swept
   * table and the number of rows it changed, and keeps the table's invariants.
   */
  method CompleteDue(appts: seq<Appointment>, next: nat, now: Instant) returns (swept: seq<Appointment>, count: nat)
    requires AppointmentIdsBelow(appts, next) && AppointmentsConsistent(appts)
    ensures swept == Swept(appts, now)
    ensures count == Count(appts, DueAt(now))
    ensures AppointmentIdsBelow(swept, next) && AppointmentsConsistent(swept)
  {
    swept := appts;
    count := 0;
    var i := 0;
    while i < |appts|
      invariant 0 <= i <= |appts| == |swept|
      invariant forall j :: 0 <= j < i ==> swept[j] == Sweep(appts[j], now)
      invariant forall j :: i <= j < |appts| ==> swept[j] == appts[j]
      invariant AppointmentIdsBelow(swept, next) && AppointmentsConsistent(swept)
      invariant count == Count(appts[..i], DueAt(now))
    {
      CountPrefix(appts, i, DueAt(now));
      var a := swept[i];
      if a.status == Scheduled && a.scheduledTime <= now - CompletionDelay {
        var done := a.(status := AppointmentStatus.Completed);
        Serializers.StatusChangeKeepsAppointmentsConsistent(swept, i, done, next);
        swept := swept[i := done];
        count := count + 1;
      }
      i := i + 1;
    }
    assert appts[..i] == appts;
  }

  /** `auto_complete_appointments`: completes every due appointment and returns how many. */
  method AutoCompleteAppointments(db: Db, now: Instant) returns (count: nat)
    requires db.Valid()
    modifies db
    ensures db.Valid()
    ensures db.appointments == Swept(old(db.appointments), now)
    ensures count == Count(old(db.appointments), DueAt(now))
    ensures db.slots == old(db.slots) && db.panels == old(db.panels)
    ensures db.nextSlotId == old(db.nextSlotId) && db.nextPanelId == old(db.nextPanelId)
    ensures db.nextAppointmentId == old(db.nextAppointmentId)
  {
    var swept;
    swept, count := CompleteDue(db.appointments, db.nextAppointmentId, now);
    db.appointments := swept;
  }
}
