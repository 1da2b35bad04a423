/**
 * The request handlers: who may see or change a panel, an availability slot
 * or an appointment, which rows each list returns and in what order, and
 * how a request is validated and then written to the store.
 */
module Views {
  import opened Queries
  import opened Models
  import opened Serializers

  // ---------------------------------------------------------------- availability

  /** Appending a slot that passes `clean` under the next id keeps the slot invariants. */
  lemma AppendSlotKeepsInvariants(slots: seq<Slot>, next: nat, s: Slot)
    requires SlotIdsBelow(slots, next) && SlotsWellFormed(slots) && SlotsDisjoint(slots)
    requires s.id == next
    requires Clean(None, s.therapist, SlotFields(Some(s.date), Some(s.startTime), Some(s.endTime)), slots) == Pass
    ensures SlotIdsBelow(slots + [s], next + 1) && SlotsWellFormed(slots + [s]) && SlotsDisjoint(slots + [s])
  {
    CleanInsertKeepsDisjoint(slots, s);
  }

  /** Removing one slot keeps the slot invariants. */
  lemma RemoveSlotKeepsInvariants(slots: seq<Slot>, next: nat, k: nat)
    requires SlotIdsBelow(slots, next) && SlotsWellFormed(slots) && SlotsDisjoint(slots)
    requires k < |slots|
    ensures var t := slots[..k] + slots[k + 1..];
            SlotIdsBelow(t, next) && SlotsWellFormed(t) && SlotsDisjoint(t)
  {
    var t := slots[..k] + slots[k + 1..];
    assert forall i :: 0 <= i < |t| ==> t[i] == slots[if i < k then i else i + 1];
  }

  /**
   * `CreateAvailabilityView`: the requesting therapist's slot is validated
   * and stored under the next id. The framework's required-field check of
   * `date`, `start_time` and `end_time` comes first; then a user without a
   * therapist profile gets 404.
   */
  method CreateAvailability(db: Db, user: User, f: SlotFields, now: Instant) returns (r: Result<Slot>)
    requires db.Valid()
    modifies db
    ensures db.Valid()
    ensures !Complete(f) ==> r == Err(Required("date, start_time, end_time"))
    ensures user.therapistProfile.None? && Complete(f) ==> r == Err(NotFound)
    ensures r.Ok? <==>
              user.therapistProfile.Some? && ValidateAvailability(user.therapistProfile.value, f, None, now, old(db.slots)) == Pass
    ensures r.Ok? ==> r.value == Slot(old(db.nextSlotId), user.therapistProfile.value, f.date.value, f.startTime.value, f.endTime.value)
                      && db.slots == old(db.slots) + [r.value] && db.nextSlotId == old(db.nextSlotId) + 1
    ensures r.Err? ==> db.slots == old(db.slots) && db.nextSlotId == old(db.nextSlotId)
    ensures db.panels == old(db.panels) && db.appointments == old(db.appointments)
    ensures db.nextPanelId == old(db.nextPanelId) && db.nextAppointmentId == old(db.nextAppointmentId)
  {
    if !Complete(f) {
      return Err(Required("date, start_time, end_time"));
    }
    if user.therapistProfile.None? {
      return Err(NotFound);
    }
    var therapist := user.therapistProfile.value;
    var v := ValidateAvailability(therapist, f, None, now, db.slots);
    if v.Fail? {
      return Err(v.error);
    }
    var s := Slot(db.nextSlotId, therapist, f.date.value, f.startTime.value, f.endTime.value);
    ValidationAgreesWithClean(therapist, f, None, now, db.slots);
    AppendSlotKeepsInvariants(db.slots, db.nextSlotId, s);
    db.slots := db.slots + [s];
    db.nextSlotId := db.nextSlotId + 1;
    r := Ok(s);
  }

  /** `get_object` of the slot views: the slot with this id that belongs to the requesting therapist. */
  function OwnSlotIndex(user: User, slots: seq<Slot>, id: nat): (r: Option<nat>)
    ensures r.Some? ==> r.value < |slots| && slots[r.value].id == id && user.therapistProfile == Some(slots[r.value].therapist)
    ensures r.None? ==> user.therapistProfile.None? ||
                        forall i :: 0 <= i < |slots| && slots[i].id == id ==> slots[i].therapist != user.therapistProfile.value
  {
    if user.therapistProfile.None? then None
    else match Find(slots, OwnSlot(user.therapistProfile.value, id))
      case None => None
      case Some(k) => Some(k)
  }

  /** `filter(id=pk, therapist=therapist)` */
  function OwnSlot(therapist: nat, id: nat): Slot -> bool {
    (s: Slot) => s.id == id && s.therapist == therapist
  }

  /**
   * `UpdateAvailabilityView`: the therapist's own slot, re-validated with
   * its own id left out of the overlap check, then rewritten in place.
   */
  method UpdateAvailability(db: Db, user: User, id: nat, f: SlotFields, now: Instant) returns (r: Result<Slot>)
    requires db.Valid()
    modifies db
    ensures db.Valid()
    ensures OwnSlotIndex(user, old(db.slots), id).None? ==> r == Err(NotFound)
    ensures OwnSlotIndex(user, old(db.slots), id).Some? ==>
              var k := OwnSlotIndex(user, old(db.slots), id).value;
              var v := ValidateAvailability(old(db.slots)[k].therapist, f, Some(old(db.slots)[k]), now, old(db.slots));
              (v == Pass ==> r.Ok?) && (v.Fail? ==> r == Err(v.error))
    ensures r.Ok? ==>
              var k := OwnSlotIndex(user, old(db.slots), id).value;
              ValidateAvailability(r.value.therapist, f, Some(old(db.slots)[k]), now, old(db.slots)) == Pass
              && r.value == Slot(id, old(db.slots)[k].therapist, f.date.value, f.startTime.value, f.endTime.value)
              && db.slots == old(db.slots)[k := r.value]
    ensures r.Err? ==> db.slots == old(db.slots)
    ensures db.panels == old(db.panels) && db.appointments == old(db.appointments)
    ensures db.nextSlotId == old(db.nextSlotId) && db.nextPanelId == old(db.nextPanelId)
    ensures db.nextAppointmentId == old(db.nextAppointmentId)
  {
    var found := OwnSlotIndex(user, db.slots, id);
    if found.None? {
      return Err(NotFound);
    }
    var k := found.value;
    var instance := db.slots[k];
    var v := ValidateAvailability(instance.therapist, f, Some(instance), now, db.slots);
    if v.Fail? {
      return Err(v.error);
    }
    var s := Slot(id, instance.therapist, f.date.value, f.startTime.value, f.endTime.value);
    ValidationAgreesWithClean(instance.therapist, f, Some(instance), now, db.slots);
    CleanUpdateKeepsDisjoint(db.slots, k, s, db.nextSlotId);
    db.slots := db.slots[k := s];
    r := Ok(s);
  }

  /** `DeleteAvailabilityView`: removes the therapist's own slot. */
  method DeleteAvailability(db: Db, user: User, id: nat) returns (r: Outcome)
    requires db.Valid()
    modifies db
    ensures db.Valid()
    ensures r == Pass <==> OwnSlotIndex(user, old(db.slots), id).Some?
    ensures r != Pass ==> r == Fail(NotFound) && db.slots == old(db.slots)
    ensures r == Pass ==> var k := OwnSlotIndex(user, old(db.slots), id).value;
                          db.slots == old(db.slots)[..k] + old(db.slots)[k + 1..]
    ensures db.panels == old(db.panels) && db.appointments == old(db.appointments)
    ensures db.nextSlotId == old(db.nextSlotId) && db.nextPanelId == old(db.nextPanelId)
    ensures db.nextAppointmentId == old(db.nextAppointmentId)
  {
    var found := OwnSlotIndex(user, db.slots, id);
    if found.None? {
      return Fail(NotFound);
    }
    var k := found.value;
    RemoveSlotKeepsInvariants(db.slots, db.nextSlotId, k);
    db.slots := db.slots[..k] + db.slots[k + 1..];
    r := Pass;
  }

  // ---------------------------------------------------------------- therapy panels

  /** The user is the panel's patient, or the therapist assigned to it. */
  predicate MayAccessPanel(user: User, p: Panel) {
    (user.patientProfile.Some? && p.patient == user.patientProfile.value)
    || (user.therapistProfile.Some? && p.therapist == user.therapistProfile)
  }

  /**
   * `TherapyPanelRetrieveUpdateView.get_object`: 404 for an unknown id, then
   * the panel's own patient, then its assigned therapist; anyone else is refused.
   */
  function RetrievePanel(user: User, panels: seq<Panel>, id: nat): (r: Result<Panel>)
    ensures r.Ok? ==> r.value in panels && r.value.id == id && MayAccessPanel(user, r.value)
    ensures r == Err(NotFound) <==> forall i :: 0 <= i < |panels| ==> panels[i].id != id
    ensures r.Err? ==> r.error == NotFound || r.error == PermissionDenied
  {
    match PanelIndex(panels, id)
    case None => Err(NotFound)
    case Some(k) =>
      var p := panels[k];
      if user.patientProfile.Some? && p.patient == user.patientProfile.value then Ok(p)
      else if user.therapistProfile.Some? && p.therapist.Some? && p.therapist.value == user.therapistProfile.value then Ok(p)
      else Err(PermissionDenied)
  }

  /** With increasing ids, every panel the user may access is returned for its id. */
  lemma RetrievePanelComplete(user: User, panels: seq<Panel>, next: nat, i: nat)
    requires PanelIdsBelow(panels, next) && i < |panels| && MayAccessPanel(user, panels[i])
    ensures RetrievePanel(user, panels, panels[i].id) == Ok(panels[i])
  {
    var k := PanelIndex(panels, panels[i].id).value;
    assert panels[k].id == panels[i].id;
    assert k == i;
  }

  /** `filter(patient=...)` */
  function OfPatient(patient: nat): Panel -> bool {
    (p: Panel) => p.patient == patient
  }

  /** `filter(therapist=...)` */
  function AssignedTo(therapist: nat): Panel -> bool {
    (p: Panel) => p.therapist == Some(therapist)
  }

  /**
   * `TherapyPanelListView.get_queryset`: a patient's own panels, else a
   * therapist's assigned panels, else nothing.
   */
  function ListPanels(user: User, panels: seq<Panel>): (r: seq<Panel>)
    ensures forall i :: 0 <= i < |r| ==> r[i] in panels && MayAccessPanel(user, r[i])
    ensures user.patientProfile.Some? ==>
              forall i :: 0 <= i < |panels| && panels[i].patient == user.patientProfile.value ==> panels[i] in r
    ensures user.patientProfile.None? && user.therapistProfile.Some? ==>
              forall i :: 0 <= i < |panels| && panels[i].therapist == user.therapistProfile ==> panels[i] in r
    ensures user.patientProfile.None? && user.therapistProfile.None? ==> r == []
    ensures user.patientProfile.Some? ==> forall i :: 0 <= i < |r| ==> r[i].patient == user.patientProfile.value
    ensures user.patientProfile.None? ==> forall i :: 0 <= i < |r| ==> r[i].therapist.Some? && r[i].therapist == user.therapistProfile
  {
    if user.patientProfile.Some? then Filter(panels, OfPatient(user.patientProfile.value))
    else if user.therapistProfile.Some? then Filter(panels, AssignedTo(user.therapistProfile.value))
    else []
  }

  /** Every listed panel can be opened by the same user. */
  lemma ListedPanelsRetrievable(user: User, panels: seq<Panel>, next: nat, i: nat)
    requires PanelIdsBelow(panels, next) && i < |ListPanels(user, panels)|
    ensures RetrievePanel(user, panels, ListPanels(user, panels)[i].id) == Ok(ListPanels(user, panels)[i])
  {
    var p := ListPanels(user, panels)[i];
    var j :| 0 <= j < |panels| && panels[j] == p;
    RetrievePanelComplete(user, panels, next, j);
  }

  /** A user without a patient profile lists only assigned panels: an unassigned panel is listed to its patient alone. */
  lemma UnassignedPanelsHiddenFromTherapists(user: User, panels: seq<Panel>)
    requires user.patientProfile.None?
    ensures forall i :: 0 <= i < |ListPanels(user, panels)| ==> ListPanels(user, panels)[i].therapist.Some?
  {
  }

  /** A validated creation keeps the store's invariants. */
  lemma AppendPanelKeepsInvariants(panels: seq<Panel>, next: nat, patient: nat, issue: nat)
    requires PanelIdsBelow(panels, next) && PanelsConsistent(panels)
    requires ValidatePanelCreate(patient, issue, panels) == Pass
    ensures PanelIdsBelow(panels + [NewPanel(next, patient, issue)], next + 1)
    ensures PanelsConsistent(panels + [NewPanel(next, patient, issue)])
  {
    CreateKeepsPanelsConsistent(panels, next, patient, issue);
  }

  /**
   * `TherapyPanelCreateView`: only a patient may open a panel, at most one
   * active per issue; it starts active and unassigned.
   */
  method CreatePanel(db: Db, user: User, issue: nat) returns (r: Result<Panel>)
    requires db.Valid()
    modifies db
    ensures db.Valid()
    ensures user.patientProfile.None? ==> r == Err(PermissionDenied)
    ensures r.Ok? <==> user.patientProfile.Some? && ValidatePanelCreate(user.patientProfile.value, issue, old(db.panels)) == Pass
    ensures r.Ok? ==> r.value == NewPanel(old(db.nextPanelId), user.patientProfile.value, issue)
                      && db.panels == old(db.panels) + [r.value] && db.nextPanelId == old(db.nextPanelId) + 1
    ensures r.Err? ==> db.panels == old(db.panels) && db.nextPanelId == old(db.nextPanelId)
    ensures db.slots == old(db.slots) && db.appointments == old(db.appointments)
    ensures db.nextSlotId == old(db.nextSlotId) && db.nextAppointmentId == old(db.nextAppointmentId)
  {
    if user.patientProfile.None? {
      return Err(PermissionDenied);
    }
    var patient := user.patientProfile.value;
    var v := ValidatePanelCreate(patient, issue, db.panels);
    if v.Fail? {
      return Err(v.error);
    }
    var p := NewPanel(db.nextPanelId, patient, issue);
    AppendPanelKeepsInvariants(db.panels, db.nextPanelId, patient, issue);
    db.panels := db.panels + [p];
    db.nextPanelId := db.nextPanelId + 1;
    r := Ok(p);
  }

  /**
   * The patient branch of `UpdatePanel` (`TherapyPanelRetrieveUpdateView`)
   * rewrites a panel without changing its id, so the id invariant survives it.
   */
  lemma ReplacePanelKeepsIds(panels: seq<Panel>, next: nat, k: nat, q: Panel)
    requires PanelIdsBelow(panels, next) && k < |panels| && q.id == panels[k].id
    ensures PanelIdsBelow(panels[k := q], next)
  {
  }

  /**
   * `TherapyPanelRetrieveUpdateView` on PUT: the access check, then the
   * patient rules for a user with a patient profile, otherwise the therapist
   * rules, then the write.
   */
  method UpdatePanel(db: Db, user: User, id: nat, patientData: PatientPanelData, therapistData: TherapistPanelData,
                     specialties: map<nat, set<nat>>, now: Instant) returns (r: Result<Panel>)
    requires db.Valid()
    modifies db
    ensures db.Valid()
    ensures RetrievePanel(user, old(db.panels), id).Err? ==> r == Err(RetrievePanel(user, old(db.panels), id).error)
    ensures RetrievePanel(user, old(db.panels), id).Ok? ==>
              var p := old(db.panels)[PanelIndex(old(db.panels), id).value];
              var v := if user.patientProfile.Some?
                       then ValidatePatientUpdate(user.patientProfile.value, p, patientData, specialties, old(db.slots), old(db.panels))
                       else ValidateTherapistUpdate(therapistData);
              (v == Pass ==> r.Ok?) && (v.Fail? ==> r == Err(v.error))
    ensures r.Ok? ==>
              var k := PanelIndex(old(db.panels), id).value;
              var p := old(db.panels)[k];
              RetrievePanel(user, old(db.panels), id) == Ok(p)
              && db.panels == old(db.panels)[k := r.value]
              && (user.patientProfile.Some? ==>
                    ValidatePatientUpdate(user.patientProfile.value, p, patientData, specialties, old(db.slots), old(db.panels)) == Pass
                    && r.value == PatientUpdated(p, patientData))
              && (user.patientProfile.None? ==>
                    ValidateTherapistUpdate(therapistData) == Pass && r.value == TherapistUpdated(p, therapistData, now))
    ensures r.Err? ==> db.panels == old(db.panels)
    ensures db.slots == old(db.slots) && db.appointments == old(db.appointments)
    ensures db.nextSlotId == old(db.nextSlotId) && db.nextPanelId == old(db.nextPanelId)
    ensures db.nextAppointmentId == old(db.nextAppointmentId)
  {
    var got := RetrievePanel(user, db.panels, id);
    if got.Err? {
      return Err(got.error);
    }
    var k := PanelIndex(db.panels, id).value;
    var p := db.panels[k];
    if user.patientProfile.Some? {
      var v := ValidatePatientUpdate(user.patientProfile.value, p, patientData, specialties, db.slots, db.panels);
      if v.Fail? {
        return Err(v.error);
      }
      var q := PatientUpdated(p, patientData);
      PatientUpdateKeepsPanelsConsistent(db.panels, k, user.patientProfile.value, patientData, specialties, db.slots);
      ReplacePanelKeepsIds(db.panels, db.nextPanelId, k, q);
      db.panels := db.panels[k := q];
      r := Ok(q);
    } else {
      var v := ValidateTherapistUpdate(therapistData);
      if v.Fail? {
        return Err(v.error);
      }
      TherapistUpdatePanel(db, k, therapistData, now);
      r := Ok(db.panels[k]);
    }
  }

  // ---------------------------------------------------------------- appointments

  /** A new, never rescheduled record under the next id keeps the appointment invariants. */
  lemma AppendAppointmentKeepsInvariants(appts: seq<Appointment>, next: nat, a: Appointment)
    requires AppointmentIdsBelow(appts, next) && AppointmentsConsistent(appts)
    requires a.id == next && a.rescheduledFrom.None?
    ensures AppointmentIdsBelow(appts + [a], next + 1) && AppointmentsConsistent(appts + [a])
  {
    var t := appts + [a];
    forall panel: nat
      ensures RescheduleCount(t, panel) == RescheduleCount(appts, panel)
    {
      CountAppend(appts, a, RescheduledIn(panel));
    }
    forall i | 0 <= i < |t| && t[i].rescheduledFrom.Some?
      ensures exists j :: 0 <= j < |t| && t[j].id == t[i].rescheduledFrom.value && t[j].status == Canceled
    {
      var j :| 0 <= j < |appts| && appts[j].id == appts[i].rescheduledFrom.value && appts[j].status == Canceled;
      assert t[j] == appts[j];
    }
  }

  /** `TherapyPanel.objects.get(id=panel_id, patient__user=user)` as a selection predicate. */
  function OwnedPanel(user: User, id: nat): Panel -> bool {
    (p: Panel) => p.id == id && OwnsPanel(user, p)
  }

  /** The requester's own panel with this id, if there is one. */
  function OwnPanelIndex(user: User, panels: seq<Panel>, id: nat): (r: Option<nat>)
    ensures r.Some? ==> r.value < |panels| && panels[r.value].id == id && OwnsPanel(user, panels[r.value])
    ensures r.None? ==> forall i :: 0 <= i < |panels| && panels[i].id == id ==> !OwnsPanel(user, panels[i])
  {
    var r := Find(panels, OwnedPanel(user, id));
    assert r.None? ==> forall i :: 0 <= i < |panels| ==> !OwnedPanel(user, id)(panels[i]);
    r
  }

  /**
   * `CreateAppointmentView.create`: a missing (or zero) `panel_id` is
   * refused, so is a panel that is not the requester's; then the booking
   * rules run and the record is stored with the generated meeting `link`.
   */
  method CreateAppointment(db: Db, user: User, panelId: Option<nat>, data: AppointmentData, link: string, now: Instant)
    returns (r: Result<Appointment>)
    requires db.Valid()
    modifies db
    ensures db.Valid()
    ensures (panelId.None? || panelId == Some(0)) ==> r == Err(Required("panel_id"))
    ensures panelId.Some? && panelId != Some(0) && OwnPanelIndex(user, old(db.panels), panelId.value).None? ==>
              r == Err(InvalidPanel)
    ensures panelId.Some? && panelId != Some(0) && OwnPanelIndex(user, old(db.panels), panelId.value).Some? ==>
              var panel := old(db.panels)[OwnPanelIndex(user, old(db.panels), panelId.value).value];
              var v := ValidateAppointment(user, Some(panel), data, now, old(db.panels), old(db.slots), old(db.appointments));
              (v == Pass ==> r.Ok?) && (v.Fail? ==> r == Err(v.error))
    ensures r.Ok? ==>
              var k := OwnPanelIndex(user, old(db.panels), panelId.value).value;
              ValidateAppointment(user, Some(old(db.panels)[k]), data, now, old(db.panels), old(db.slots), old(db.appointments)) == Pass
              && r.value == NewAppointment(old(db.nextAppointmentId), panelId.value, data, link)
              && db.appointments == old(db.appointments) + [r.value]
              && db.nextAppointmentId == old(db.nextAppointmentId) + 1
    ensures r.Err? ==> db.appointments == old(db.appointments) && db.nextAppointmentId == old(db.nextAppointmentId)
    ensures db.slots == old(db.slots) && db.panels == old(db.panels)
    ensures db.nextSlotId == old(db.nextSlotId) && db.nextPanelId == old(db.nextPanelId)
  {
    if panelId.None? || panelId.value == 0 {
      return Err(Required("panel_id"));
    }
    var found := OwnPanelIndex(user, db.panels, panelId.value);
    if found.None? {
      return Err(InvalidPanel);
    }
    var panel := db.panels[found.value];
    var v := ValidateAppointment(user, Some(panel), data, now, db.panels, db.slots, db.appointments);
    if v.Fail? {
      return Err(v.error);
    }
    var a := NewAppointment(db.nextAppointmentId, panel.id, data, link);
    AppendAppointmentKeepsInvariants(db.appointments, db.nextAppointmentId, a);
    db.appointments := db.appointments + [a];
    db.nextAppointmentId := db.nextAppointmentId + 1;
    r := Ok(a);
  }

  /** A booking that is stored keeps every booking rule for the record it returns. */
  lemma CreatedAppointmentIsBookable(user: User, panel: Panel, data: AppointmentData, now: Instant,
                                     panels: seq<Panel>, slots: seq<Slot>, appts: seq<Appointment>, id: nat, link: string)
    requires ValidateAppointment(user, Some(panel), data, now, panels, slots, appts) == Pass
    ensures var a := NewAppointment(id, panel.id, data, link);
            a.scheduledTime >= now + LeadTime && Available(slots, panel.therapist, a.scheduledTime, a.duration)
            && !HasConflict(appts, panels, panel.therapist.value, a.scheduledTime, a.duration)
            && a.rescheduledFrom.None? && a.meetingLink == Some(link)
  {
  }

  /** `filter(id=pk, panel__patient__user=user)` as a selection predicate. */
  function OwnedAppointment(user: User, panels: seq<Panel>, id: nat): Appointment -> bool {
    (a: Appointment) => a.id == id && user.patientProfile.Some? && PatientOf(panels, a) == user.patientProfile
  }

  /** The requester's own appointment with this id, if there is one. */
  function OwnAppointmentIndex(user: User, panels: seq<Panel>, appts: seq<Appointment>, id: nat): (r: Option<nat>)
    ensures r.Some? ==> r.value < |appts| && appts[r.value].id == id
                        && PanelIndex(panels, appts[r.value].panel).Some?
                        && user.patientProfile.Some? && PatientOf(panels, appts[r.value]) == user.patientProfile
    ensures r.None? ==> forall i :: 0 <= i < |appts| && appts[i].id == id ==>
                          user.patientProfile.None? || PatientOf(panels, appts[i]) != user.patientProfile
  {
    var r := Find(appts, OwnedAppointment(user, panels, id));
    assert r.None? ==> forall i :: 0 <= i < |appts| ==> !OwnedAppointment(user, panels, id)(appts[i]);
    r
  }

  /**
   * `UpdateAppointmentView.update`: a missing action is refused before the
   * lookup, the appointment must be the requester's own, then `reschedule`
   * and `cancel` run their rules and writes and any other action is refused.
   */
  method UpdateAppointment(db: Db, user: User, id: nat, action: Option<string>, newTime: Option<Instant>,
                           reason: Option<string>, now: Instant) returns (r: Result<Appointment>)
    requires db.Valid()
    modifies db
    ensures db.Valid()
    ensures (action.None? || action == Some("")) ==> r == Err(Required("action"))
    ensures action.Some? && action != Some("") && OwnAppointmentIndex(user, old(db.panels), old(db.appointments), id).None? ==>
              r == Err(NotFound)
    ensures action.Some? && action != Some("") && OwnAppointmentIndex(user, old(db.panels), old(db.appointments), id).Some? ==>
              var a := old(db.appointments)[OwnAppointmentIndex(user, old(db.panels), old(db.appointments), id).value];
              var panel := old(db.panels)[PanelIndex(old(db.panels), a.panel).value];
              (action == Some("reschedule") ==>
                 var v := ValidateReschedule(user, a, panel, newTime, now, old(db.slots), old(db.appointments));
                 (v == Pass ==> r.Ok?) && (v.Fail? ==> r == Err(v.error)))
              && (action == Some("cancel") ==>
                    var v := ValidateCancel(user, a, panel, reason, now);
                    (v == Pass ==> r.Ok?) && (v.Fail? ==> r == Err(v.error)))
              && (action != Some("reschedule") && action != Some("cancel") ==> r == Err(InvalidAction))
    ensures r.Ok? ==>
              var k := OwnAppointmentIndex(user, old(db.panels), old(db.appointments), id).value;
              var a := old(db.appointments)[k];
              var panel := old(db.panels)[PanelIndex(old(db.panels), a.panel).value];
              (action == Some("reschedule") ==>
                 ValidateReschedule(user, a, panel, newTime, now, old(db.slots), old(db.appointments)) == Pass
                 && r.value == Rescheduled(a, old(db.nextAppointmentId), newTime.value)
                 && db.appointments == old(db.appointments)[k := a.(status := Canceled)] + [r.value])
              && (action == Some("cancel") ==>
                    ValidateCancel(user, a, panel, reason, now) == Pass
                    && r.value == a.(status := Canceled, cancellationReason := Some(Strip(reason.value)))
                    && db.appointments == old(db.appointments)[k := r.value])
              && (action == Some("reschedule") || action == Some("cancel"))
    ensures r.Err? ==> db.appointments == old(db.appointments) && db.nextAppointmentId == old(db.nextAppointmentId)
    ensures db.slots == old(db.slots) && db.panels == old(db.panels)
    ensures db.nextSlotId == old(db.nextSlotId) && db.nextPanelId == old(db.nextPanelId)
  {
    if action.None? || action.value == "" {
      return Err(Required("action"));
    }
    var found := OwnAppointmentIndex(user, db.panels, db.appointments, id);
    if found.None? {
      return Err(NotFound);
    }
    var k := found.value;
    var a := db.appointments[k];
    var panel := db.panels[PanelIndex(db.panels, a.panel).value];
    if action.value == "reschedule" {
      var v := ValidateReschedule(user, a, panel, newTime, now, db.slots, db.appointments);
      if v.Fail? {
        return Err(v.error);
      }
      var created := RescheduleAppointment(db, k, newTime.value);
      r := Ok(created);
    } else if action.value == "cancel" {
      var v := ValidateCancel(user, a, panel, reason, now);
      if v.Fail? {
        return Err(v.error);
      }
      CancelAppointment(db, k, Strip(reason.value));
      r := Ok(db.appointments[k]);
    } else {
      r := Err(InvalidAction);
    }
  }

  /** A patient user must be the panel's patient; otherwise a therapist user must be the panel's therapist. */
  predicate MayAccessAppointment(user: User, panels: seq<Panel>, a: Appointment) {
    if user.patientProfile.Some? then PatientOf(panels, a) == user.patientProfile
    else user.therapistProfile.Some? && TherapistOf(panels, a) == user.therapistProfile
  }

  /**
   * `AppointmentRetrieveView.get_object`: 404 for an unknown id; a patient
   * must be the panel's patient, else a therapist must be its therapist;
   * anyone else is refused.
   */
  function RetrieveAppointment(user: User, panels: seq<Panel>, appts: seq<Appointment>, id: nat): (r: Result<Appointment>)
    ensures r.Ok? ==> r.value in appts && r.value.id == id && MayAccessAppointment(user, panels, r.value)
    ensures r == Err(NotFound) <==> forall i :: 0 <= i < |appts| ==> appts[i].id != id
    ensures r.Err? ==> r.error == NotFound || r.error == PermissionDenied
  {
    match AppointmentIndex(appts, id)
    case None => Err(NotFound)
    case Some(k) =>
      var a := appts[k];
      if user.patientProfile.Some? then
        if PatientOf(panels, a) != user.patientProfile then Err(PermissionDenied) else Ok(a)
      else if user.therapistProfile.Some? then
        if TherapistOf(panels, a) != user.therapistProfile then Err(PermissionDenied) else Ok(a)
      else Err(PermissionDenied)
  }

  /**
   * With increasing ids, the panel's patient, and a user without a patient
   * profile who is the panel's therapist, get the appointment for its id.
   */
  lemma RetrieveAppointmentComplete(user: User, panels: seq<Panel>, appts: seq<Appointment>, next: nat, i: nat)
    requires AppointmentIdsBelow(appts, next) && i < |appts| && PanelIndex(panels, appts[i].panel).Some?
    requires || (user.patientProfile.Some? && user.patientProfile.value == panels[PanelIndex(panels, appts[i].panel).value].patient)
             || (user.patientProfile.None? && user.therapistProfile.Some?
                 && panels[PanelIndex(panels, appts[i].panel).value].therapist == user.therapistProfile)
    ensures RetrieveAppointment(user, panels, appts, appts[i].id) == Ok(appts[i])
  {
    var k := AppointmentIndex(appts, appts[i].id).value;
    assert appts[k].id == appts[i].id;
    assert k == i;
  }

  /** Only the panel's patient or the panel's therapist ever retrieves an appointment. */
  lemma RetrievedOnlyByParticipants(user: User, panels: seq<Panel>, appts: seq<Appointment>, id: nat)
    requires RetrieveAppointment(user, panels, appts, id).Ok?
    ensures var a := RetrieveAppointment(user, panels, appts, id).value;
            exists k :: 0 <= k < |panels| && panels[k].id == a.panel
                        && ((user.patientProfile.Some? && panels[k].patient == user.patientProfile.value)
                            || (user.therapistProfile.Some? && panels[k].therapist == user.therapistProfile))
  {
    var a := RetrieveAppointment(user, panels, appts, id).value;
    var k := PanelIndex(panels, a.panel).value;
    assert panels[k].id == a.panel;
  }

  /** A user with both profiles is judged as a patient only: the therapist of a panel is refused its appointments. */
  lemma PatientProfileShadowsTherapist()
    ensures var panels := [Panel(1, 10, 3, Some(7), PanelStatus.Active, None, None, None, None)];
            var appts := [Appointment(1, 1, 0, 60, Scheduled, Zoom, None, Pending, None, None)];
            var user := User(Some(11), Some(7));
            MayAccessPanel(user, panels[0]) && RetrieveAppointment(user, panels, appts, 1) == Err(PermissionDenied)
  {
    var panels := [Panel(1, 10, 3, Some(7), PanelStatus.Active, None, None, None, None)];
    var appts := [Appointment(1, 1, 0, 60, Scheduled, Zoom, None, Pending, None, None)];
    assert PanelIndex(panels, 1) == Some(0);
    assert AppointmentIndex(appts, 1) == Some(0);
  }

  // ---------------------------------------------------------------- appointment lists

  /** `order_by("scheduled_time")` */
  function Earliest(): Appointment -> int {
    (a: Appointment) => a.scheduledTime
  }

  /** `order_by("-scheduled_time")` */
  function Latest(): Appointment -> int {
    (a: Appointment) => -a.scheduledTime
  }

  /** `filter(panel__patient__user=user, status="scheduled")` */
  function ScheduledOfPatient(panels: seq<Panel>, patient: nat): Appointment -> bool {
    (a: Appointment) => PatientOf(panels, a) == Some(patient) && a.status == Scheduled
  }

  /**
   * `PatientAppointmentListView.get_queryset`: only patients; their
   * scheduled appointments, earliest first.
   */
  function PatientAppointments(user: User, panels: seq<Panel>, appts: seq<Appointment>): (r: Result<seq<Appointment>>)
    ensures r.Err? <==> user.patientProfile.None?
    ensures r.Err? ==> r.error == PermissionDenied
    ensures r.Ok? ==> SortedBy(r.value, Earliest())
    ensures r.Ok? ==> |r.value| == Count(appts, ScheduledOfPatient(panels, user.patientProfile.value))
  {
    if user.patientProfile.None? then Err(PermissionDenied)
    else
      var rows := Filter(appts, ScheduledOfPatient(panels, user.patientProfile.value));
      CountIsFilterLength(appts, ScheduledOfPatient(panels, user.patientProfile.value));
      Ok(SortBy(rows, Earliest()))
  }

  /** A patient's list holds exactly their scheduled appointments. */
  lemma PatientAppointmentsSelect(user: User, panels: seq<Panel>, appts: seq<Appointment>, a: Appointment)
    requires user.patientProfile.Some?
    ensures a in PatientAppointments(user, panels, appts).value <==>
              a in appts && a.status == Scheduled && PatientOf(panels, a) == user.patientProfile
  {
    var p := ScheduledOfPatient(panels, user.patientProfile.value);
    FilterMembership(appts, p, a);
    SortBySameRows(Filter(appts, p), Earliest(), a);
  }

  /** Every appointment a patient lists can be opened by that patient. */
  lemma ListedAppointmentsRetrievable(user: User, panels: seq<Panel>, appts: seq<Appointment>, next: nat, a: Appointment)
    requires AppointmentIdsBelow(appts, next)
    requires PatientAppointments(user, panels, appts).Ok? && a in PatientAppointments(user, panels, appts).value
    ensures RetrieveAppointment(user, panels, appts, a.id) == Ok(a)
  {
    PatientAppointmentsSelect(user, panels, appts, a);
    var i :| 0 <= i < |appts| && appts[i] == a;
    var k := AppointmentIndex(appts, a.id).value;
    assert appts[k].id == appts[i].id;
    assert k == i;
  }

  /** ASCII lower case of one character. */
  function LowerChar(c: char): char {
    if 'A' <= c <= 'Z' then (c as int - 'A' as int + 'a' as int) as char else c
  }

  /** `str.lower()` on the ASCII letters. */
  function AsciiLower(s: string): (r: string)
    ensures |r| == |s|
  {
    seq(|s|, i requires 0 <= i < |s| => LowerChar(s[i]))
  }

  /** Lower-casing twice is lower-casing once, so a status parameter in any case selects the same rows. */
  lemma AsciiLowerIdempotent(s: string)
    ensures AsciiLower(AsciiLower(s)) == AsciiLower(s)
    ensures forall i :: 0 <= i < |s| ==> !('A' <= AsciiLower(s)[i] <= 'Z')
  {
  }

  /** `filter(panel__therapist=therapist)` */
  function OfTherapistAppointment(panels: seq<Panel>, therapist: nat): Appointment -> bool {
    (a: Appointment) => TherapistOf(panels, a) == Some(therapist)
  }

  /** `filter(status="scheduled", scheduled_time__gte=now)` */
  function UpcomingAt(now: Instant): Appointment -> bool {
    (a: Appointment) => a.status == Scheduled && a.scheduledTime >= now
  }

  /** `filter(status=status)` */
  function InStatus(status: AppointmentStatus): Appointment -> bool {
    (a: Appointment) => a.status == status
  }

  /** Which of a therapist's appointments the (lower-cased) status parameter admits. */
  predicate StatusAdmits(filter: string, a: Appointment, now: Instant) {
    if filter == "scheduled" then a.status == Scheduled && a.scheduledTime >= now
    else if filter == "completed" then a.status == AppointmentStatus.Completed
    else if filter == "canceled" then a.status == Canceled
    else true
  }

  /** The order of the list: latest first for completed and canceled, earliest first otherwise. */
  function ListOrder(filter: string): Appointment -> int {
    if filter == "completed" || filter == "canceled" then Latest() else Earliest()
  }

  /**
   * `TherapistAppointmentListView.get_queryset`: only therapists; their
   * appointments narrowed by the case-insensitive status parameter
   * (`""` when absent): upcoming scheduled ones earliest first, completed or
   * canceled ones latest first, and all of them in the model's default order
   * for any other value.
   */
  function TherapistAppointments(user: User, panels: seq<Panel>, appts: seq<Appointment>, status: string, now: Instant)
    : (r: Result<seq<Appointment>>)
    ensures r.Err? <==> user.therapistProfile.None?
    ensures r.Err? ==> r.error == PermissionDenied
    ensures r.Ok? ==> SortedBy(r.value, ListOrder(AsciiLower(status)))
  {
    if user.therapistProfile.None? then Err(PermissionDenied)
    else
      var filter := AsciiLower(status);
      var rows := Filter(appts, OfTherapistAppointment(panels, user.therapistProfile.value));
      if filter == "scheduled" then Ok(SortBy(Filter(rows, UpcomingAt(now)), Earliest()))
      else if filter == "completed" then Ok(SortBy(Filter(rows, InStatus(AppointmentStatus.Completed)), Latest()))
      else if filter == "canceled" then Ok(SortBy(Filter(rows, InStatus(Canceled)), Latest()))
      else Ok(SortBy(rows, Earliest()))
  }

  /** A therapist's list holds exactly their appointments that the status parameter admits. */
  lemma TherapistAppointmentsSelect(user: User, panels: seq<Panel>, appts: seq<Appointment>, status: string,
                                    now: Instant, a: Appointment)
    requires user.therapistProfile.Some?
    ensures a in TherapistAppointments(user, panels, appts, status, now).value <==>
              a in appts && TherapistOf(panels, a) == user.therapistProfile && StatusAdmits(AsciiLower(status), a, now)
  {
    var filter := AsciiLower(status);
    var own := OfTherapistAppointment(panels, user.therapistProfile.value);
    var rows := Filter(appts, own);
    FilterMembership(appts, own, a);
    var r := TherapistAppointments(user, panels, appts, status, now).value;
    if filter == "scheduled" {
      var sel := Filter(rows, UpcomingAt(now));
      assert r == SortBy(sel, Earliest());
      SortBySameRows(sel, Earliest(), a);
      FilterMembership(rows, UpcomingAt(now), a);
    } else if filter == "completed" {
      var sel := Filter(rows, InStatus(AppointmentStatus.Completed));
      assert r == SortBy(sel, Latest());
      SortBySameRows(sel, Latest(), a);
      FilterMembership(rows, InStatus(AppointmentStatus.Completed), a);
    } else if filter == "canceled" {
      var sel := Filter(rows, InStatus(Canceled));
      assert r == SortBy(sel, Latest());
      SortBySameRows(sel, Latest(), a);
      FilterMembership(rows, InStatus(Canceled), a);
    } else {
      assert r == SortBy(rows, Earliest());
      SortBySameRows(rows, Earliest(), a);
    }
  }

  /** The status parameter is read without regard to case. */
  lemma TherapistAppointmentsIgnoreCase(user: User, panels: seq<Panel>, appts: seq<Appointment>, status: string, now: Instant)
    ensures TherapistAppointments(user, panels, appts, AsciiLower(status), now) == TherapistAppointments(user, panels, appts, status, now)
  {
    AsciiLowerIdempotent(status);
  }
}
