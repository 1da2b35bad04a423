/**
 * The availability search: an English day name to Django's week-day number,
 * and the optional filters of the availability list, each narrowing the set.
 */
module Services {
  import opened Queries
  import opened Models

  /** `get_day_of_week_number`: Sunday is 1, ..., Saturday is 7; any other string has no number. */
  function GetDayOfWeekNumber(name: string): (r: Option<int>)
    ensures r.Some? <==> name in DayNames
    ensures r.Some? ==> 1 <= r.value <= 7 && DayNames[r.value - 1] == name
  {
    if name == "Sunday" then Some(1)
    else if name == "Monday" then Some(2)
    else if name == "Tuesday" then Some(3)
    else if name == "Wednesday" then Some(4)
    else if name == "Thursday" then Some(5)
    else if name == "Friday" then Some(6)
    else if name == "Saturday" then Some(7)
    else None
  }

  /** The lookup inverts the table of day names: a bijection between the seven names and 1..7. */
  lemma DayNumberInvertsDayNames(k: int)
    requires 1 <= k <= 7
    ensures GetDayOfWeekNumber(DayNames[k - 1]) == Some(k)
  {
  }

  /**
   * The query parameters of the availability list. None stands for a
   * parameter that is absent or empty, which the source treats alike.
   */
  datatype AvailabilityParams = AvailabilityParams(
    therapistId: Option<nat>, dayOfWeek: Option<string>,
    startTimeAfter: Option<TimeOfDay>, startTimeBefore: Option<TimeOfDay>,
    endTimeAfter: Option<TimeOfDay>, endTimeBefore: Option<TimeOfDay>)

  const NoParams := AvailabilityParams(None, None, None, None, None, None)

  /** `filter(therapist_id=id)` */
  function OfTherapist(id: nat): Slot -> bool {
    (s: Slot) => s.therapist == id
  }

  /** `filter(date__week_day=k)` */
  function OnWeekDay(k: int): Slot -> bool {
    (s: Slot) => WeekDay(s.date) == k
  }

  /** The conjunction of the inclusive time-of-day bounds that are given (`Q()` when none is). */
  function InTimeBounds(p: AvailabilityParams): Slot -> bool {
    (s: Slot) =>
      (p.startTimeAfter.None? || s.startTime >= p.startTimeAfter.value)
      && (p.startTimeBefore.None? || s.startTime <= p.startTimeBefore.value)
      && (p.endTimeAfter.None? || s.endTime >= p.endTimeAfter.value)
      && (p.endTimeBefore.None? || s.endTime <= p.endTimeBefore.value)
  }

  /** The week-day number the day-name parameter selects, if it names a day. */
  function DayFilter(p: AvailabilityParams): Option<int> {
    if p.dayOfWeek.Some? then GetDayOfWeekNumber(p.dayOfWeek.value) else None
  }

  /** Slot `s` meets every parameter that is given. */
  predicate Matches(s: Slot, p: AvailabilityParams) {
    (p.therapistId.None? || s.therapist == p.therapistId.value)
    && (DayFilter(p).None? || WeekDay(s.date) == DayFilter(p).value)
    && InTimeBounds(p)(s)
  }

  /** `filter_availability`: narrows the query set by therapist, then week day, then time bounds. */
  function FilterAvailability(qs: seq<Slot>, p: AvailabilityParams): (r: seq<Slot>)
    ensures multiset(r) <= multiset(qs)
    ensures forall i :: 0 <= i < |r| ==> InTimeBounds(p)(r[i])
  {
    var byTherapist := if p.therapistId.Some? then Filter(qs, OfTherapist(p.therapistId.value)) else qs;
    var byDay := if DayFilter(p).Some? then Filter(byTherapist, OnWeekDay(DayFilter(p).value)) else byTherapist;
    Filter(byDay, InTimeBounds(p))
  }

  /** `Matches` as a selection predicate. */
  function MatchesAll(p: AvailabilityParams): Slot -> bool {
    (s: Slot) => Matches(s, p)
  }

  /**
   * The three narrowing steps select exactly what the single conjunction of
   * all given filters selects, in the same order and with the same repeats.
   */
  lemma FilterAvailabilityIsConjunction(qs: seq<Slot>, p: AvailabilityParams)
    ensures FilterAvailability(qs, p) == Filter(qs, MatchesAll(p))
  {
    var tq := if p.therapistId.Some? then OfTherapist(p.therapistId.value) else Anything();
    var dq := if DayFilter(p).Some? then OnWeekDay(DayFilter(p).value) else Anything();
    OptionalFilter(qs, p.therapistId.Some?, OfTherapist(if p.therapistId.Some? then p.therapistId.value else 0));
    var byTherapist := Filter(qs, tq);
    OptionalFilter(byTherapist, DayFilter(p).Some?, OnWeekDay(if DayFilter(p).Some? then DayFilter(p).value else 0));
    FilterFilter(qs, tq, dq);
    FilterFilter(qs, Both(tq, dq), InTimeBounds(p));
    FilterCongruent(qs, Both(Both(tq, dq), InTimeBounds(p)), MatchesAll(p));
  }

  /** Every slot returned meets every given filter and comes from the query set, and every such slot is returned. */
  lemma FilterAvailabilitySelects(qs: seq<Slot>, p: AvailabilityParams, s: Slot)
    ensures s in FilterAvailability(qs, p) <==> s in qs && Matches(s, p)
  {
    FilterAvailabilityIsConjunction(qs, p);
    FilterMembership(qs, MatchesAll(p), s);
  }

  /** With no parameter the query set comes back unchanged. */
  lemma NoParamsKeepsAll(qs: seq<Slot>)
    ensures FilterAvailability(qs, NoParams) == qs
  {
    FilterAllKeeps(qs, InTimeBounds(NoParams));
  }

  /** A day name that names no day filters nothing: it is as if it were absent. */
  lemma UnknownDayIgnored(qs: seq<Slot>, p: AvailabilityParams)
    requires p.dayOfWeek.Some? && p.dayOfWeek.value !in DayNames
    ensures FilterAvailability(qs, p) == FilterAvailability(qs, p.(dayOfWeek := None))
  {
    assert InTimeBounds(p) == InTimeBounds(p.(dayOfWeek := None));
  }

  /** Filtering keeps the default (date, start time) order of the slot list. */
  lemma FilterAvailabilityKeepsOrder(qs: seq<Slot>, p: AvailabilityParams)
    requires SortedBy(qs, SlotOrderKey)
    ensures SortedBy(FilterAvailability(qs, p), SlotOrderKey)
  {
    FilterAvailabilityIsConjunction(qs, p);
    FilterKeepsSorted(qs, MatchesAll(p), SlotOrderKey);
  }
}
