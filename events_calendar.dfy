/**
 The event projections of the campus calendar widget: over a fixed list of
 events it computes the events on the selected calendar day, the events of the
 coming seven days in time order, and the dates the calendar marks. The clock
 (`new Date()`) and the user's selection are parameters.
 */
module EventsCalendar {
  import opened Seqs
  import opened Dates

  datatype Option<T> = None | Some(value: T)

  /** The five-valued `type` union of an event. */
  datatype EventType = Academic | Cultural | Sports | Tech | Club

  /** An event record; the source's `type` field is called `kind` here. */
  datatype Event = Event(id: string, title: string, date: Date, kind: EventType, location: string, time: string)

  /** The full year `new Date(y, m, d)` uses: years 0 to 99 stand for 1900 to 1999. */
  function FullYear(y: int): int
  {
    if 0 <= y <= 99 then 1900 + y else y
  }

  /**
   `new Date(y, m, d)`: local midnight of day `d` counted from the first of
   month `m` of the full year, rolling over into later months when `d` passes
   the end of the month.
   */
  function Midnight(y: int, m: int, d: int): (r: Date)
    requires 0 <= m < 12 && d >= 1
    ensures d <= DaysInMonth(FullYear(y), m) ==> r.year == FullYear(y) && r.month == m && r.day == d
    ensures DayNumber(r) == DayNumber(Civil(FullYear(y), m, 1, 0)) + d - 1
    ensures Time(r) == DayNumber(r) * MsPerDay
  {
    SetDate(Civil(FullYear(y), m, 1, 0), d)
  }

  /** Midnight is the first instant of its day: a date falls on that day iff it is less than a day later. */
  lemma MidnightStartsDay(y: int, m: int, d: int, a: Date)
    requires 0 <= m < 12 && d >= 1
    ensures SameDay(a, Midnight(y, m, d)) <==> Time(Midnight(y, m, d)) <= Time(a) < Time(Midnight(y, m, d)) + MsPerDay
  {
    SameDayByTime(a, Midnight(y, m, d));
  }

  const TechFest := Event("1", "TechFest 2025", Midnight(2025, 9, 28), Tech, "Campus Auditorium", "10:00 AM")
  const CulturalFest := Event("2", "Cultural Fest", Midnight(2025, 9, 30), Cultural, "Main Ground", "5:00 PM")
  const SportsTournament := Event("3", "Sports Tournament", Midnight(2025, 10, 2), Sports, "Sports Complex", "8:00 AM")
  const AIWorkshop := Event("4", "AI Workshop", Midnight(2025, 10, 5), Tech, "CS Department", "2:00 PM")
  const MidTermExams := Event("5", "Mid-Term Exams", Midnight(2025, 10, 10), Academic, "Exam Hall", "9:00 AM")

  /** The sample events the widget shows (`dummyEvents`). */
  const DummyEvents: seq<Event> := [TechFest, CulturalFest, SportsTournament, AIWorkshop, MidTermExams]

  /** The sample events are at midnight and listed in time order. */
  lemma DummyEventsContents()
    ensures |DummyEvents| == 5
    ensures forall i :: 0 <= i < |DummyEvents| ==> DummyEvents[i].date.msOfDay == 0
    ensures forall i, j :: 0 <= i < j < |DummyEvents| ==> Time(DummyEvents[i].date) < Time(DummyEvents[j].date)
  {
    forall i, j | 0 <= i < j < |DummyEvents|
      ensures Time(DummyEvents[i].date) < Time(DummyEvents[j].date)
    {
      TimeOrder(DummyEvents[i].date, DummyEvents[j].date);
    }
  }

  /** The badge style of each event type. */
  const EventTypeColors: map<EventType, string> := map[
    Academic := "bg-blue-500/10 text-blue-500 border-blue-500/20",
    Cultural := "bg-purple-500/10 text-purple-500 border-purple-500/20",
    Sports := "bg-orange-500/10 text-orange-500 border-orange-500/20",
    Tech := "bg-primary/10 text-primary border-primary/20",
    Club := "bg-pink-500/10 text-pink-500 border-pink-500/20"
  ]

  /** Every event type has an entry in the colour table, so `eventTypeColors[event.type]` is never undefined. */
  lemma EventTypeColorsTotal()
    ensures forall t: EventType :: t in EventTypeColors
  {
    forall t: EventType
      ensures t in EventTypeColors
    {
      match t
      case Academic =>
      case Cultural =>
      case Sports =>
      case Tech =>
      case Club =>
    }
  }

  /** `eventTypeColors[event.type]`: the badge class of an event. */
  function BadgeClass(e: Event): (c: string)
    ensures e.kind in EventTypeColors && c == EventTypeColors[e.kind]
    ensures c in EventTypeColors.Values
  {
    EventTypeColorsTotal();
    EventTypeColors[e.kind]
  }

  /** The day-match test of the selected-date filter. */
  function OnDay(d: Date): Event -> bool
  {
    (e: Event) => SameDay(e.date, d)
  }

  /** The events on the selected day (`eventsForSelectedDate`); none when no day is selected. */
  function EventsForSelectedDate(events: seq<Event>, selected: Option<Date>): (r: seq<Event>)
    ensures selected == None ==> r == []
    ensures forall e :: e in r <==> selected.Some? && e in events && SameDay(e.date, selected.value)
  {
    match selected
    case None => []
    case Some(d) =>
      FilterMembers(events, OnDay(d));
      Filter(events, OnDay(d))
  }

  /** The selected-date list is an order-preserving subsequence of the event list. */
  lemma SelectedIsSubsequence(events: seq<Event>, selected: Option<Date>)
    ensures IsSubsequence(EventsForSelectedDate(events, selected), events)
  {
    match selected
    case None =>
    case Some(d) => FilterIsSubsequence(events, OnDay(d));
  }

  /** Every event of the selected day occurs as often as in the event list; no other event occurs. */
  lemma SelectedCount(events: seq<Event>, d: Date, e: Event)
    ensures multiset(EventsForSelectedDate(events, Some(d)))[e]
         == if SameDay(e.date, d) then multiset(events)[e] else 0
  {
    FilterCount(events, OnDay(d), e);
  }

  /** Only the calendar day of the selection matters, not its time of day. */
  lemma SelectionIgnoresTimeOfDay(events: seq<Event>, a: Date, b: Date)
    requires SameDay(a, b)
    ensures EventsForSelectedDate(events, Some(a)) == EventsForSelectedDate(events, Some(b))
  {
    FilterExtensional(events, OnDay(a), OnDay(b));
  }

  /** In timestamps, the day-match selects the events between the selected day's midnight and the next one. */
  lemma SelectedByTime(events: seq<Event>, d: Date, e: Event)
    ensures e in EventsForSelectedDate(events, Some(d))
        <==> e in events && Time(d) - d.msOfDay <= Time(e.date) < Time(d) - d.msOfDay + MsPerDay
  {
    SameDayByTime(e.date, d);
  }

  /** The sort key of `upcomingEvents`: `event.date.getTime()`. */
  function EventTime(e: Event): int
  {
    Time(e.date)
  }

  /** The window test `event.date >= today && event.date <= nextWeek`. */
  function InWindow(today: Date): (r: Event -> bool)
    ensures forall e :: r(e) <==> Time(today) <= EventTime(e) <= Time(today) + 7 * MsPerDay
  {
    (e: Event) => Time(today) <= EventTime(e) <= Time(NextWeek(today))
  }

  /** The events of the next seven days, in list order, before sorting. */
  function WindowEvents(events: seq<Event>, today: Date): (r: seq<Event>)
    ensures forall e :: e in r <==> e in events && Time(today) <= EventTime(e) <= Time(today) + 7 * MsPerDay
  {
    FilterMembers(events, InWindow(today));
    Filter(events, InWindow(today))
  }

  /** `upcomingEvents`: the events in the closed window [today, today + 7 days], earliest first. */
  function UpcomingEvents(events: seq<Event>, today: Date): (r: seq<Event>)
    ensures forall e :: e in r <==> e in events && Time(today) <= EventTime(e) <= Time(today) + 7 * MsPerDay
    ensures SortedBy(r, EventTime)
    ensures multiset(r) == multiset(WindowEvents(events, today))
  {
    SortByMembers(WindowEvents(events, today), EventTime);
    SortBy(WindowEvents(events, today), EventTime)
  }

  /** Sorting neither adds nor drops an event: each event in the window occurs as often as in the list. */
  lemma UpcomingCount(events: seq<Event>, today: Date, e: Event)
    ensures multiset(UpcomingEvents(events, today))[e]
         == if Time(today) <= EventTime(e) <= Time(today) + 7 * MsPerDay then multiset(events)[e] else 0
  {
    FilterCount(events, InWindow(today), e);
  }

  /** Events with the same timestamp keep their list order (the sort is stable). */
  lemma UpcomingStable(events: seq<Event>, today: Date, t: int)
    ensures Filter(UpcomingEvents(events, today), (e: Event) => EventTime(e) == t)
         == Filter(WindowEvents(events, today), (e: Event) => EventTime(e) == t)
  {
    SortByStable(WindowEvents(events, today), EventTime, (e: Event) => EventTime(e) == t);
  }

  /**
   The window in calendar days: an event is upcoming when it is later today
   (not earlier than the current time of day), on one of the six following
   days, or on the seventh day at or before the current time of day.
   */
  lemma UpcomingByDay(events: seq<Event>, today: Date, e: Event)
    ensures
      var n, k := DayNumber(today), DayNumber(e.date);
      var inWindow :=
        || (k == n && today.msOfDay <= e.date.msOfDay)
        || n < k < n + 7
        || (k == n + 7 && e.date.msOfDay <= today.msOfDay);
      e in UpcomingEvents(events, today) <==> e in events && inWindow
  {
  }

  /** An event on today's calendar day is upcoming exactly when its time of day has not passed. */
  lemma UpcomingToday(events: seq<Event>, today: Date, e: Event)
    requires SameDay(e.date, today)
    ensures e in UpcomingEvents(events, today) <==> e in events && today.msOfDay <= e.date.msOfDay
  {
    SameDayIff(e.date, today);
    UpcomingByDay(events, today, e);
  }

  /** So an event at midnight today drops out of the list as soon as the clock is past midnight. */
  lemma MidnightTodayExcluded(events: seq<Event>, today: Date, e: Event)
    requires SameDay(e.date, today) && e.date.msOfDay == 0 && today.msOfDay > 0
    ensures e !in UpcomingEvents(events, today)
  {
    UpcomingToday(events, today, e);
  }

  /** An event on the seventh day ahead is upcoming exactly when it is not later in the day than now. */
  lemma UpcomingLastDay(events: seq<Event>, today: Date, e: Event)
    requires SameDay(e.date, NextWeek(today))
    ensures e in UpcomingEvents(events, today) <==> e in events && e.date.msOfDay <= today.msOfDay
  {
    SameDayIff(e.date, NextWeek(today));
    UpcomingByDay(events, today, e);
  }

  /** So an event at midnight seven calendar days ahead is always in the list. */
  lemma MidnightLastDayIncluded(events: seq<Event>, today: Date, e: Event)
    requires e in events && SameDay(e.date, NextWeek(today)) && e.date.msOfDay == 0
    ensures e in UpcomingEvents(events, today)
  {
    UpcomingLastDay(events, today, e);
  }

  /** `datesWithEvents`: the event dates in list order. */
  function DatesWithEvents(events: seq<Event>): (r: seq<Date>)
    ensures |r| == |events|
    ensures forall i :: 0 <= i < |events| ==> r[i] == events[i].date
  {
    Map(events, (e: Event) => e.date)
  }

  /** The calendar marks a day exactly when selecting that day lists at least one event. */
  lemma MarkedDayIff(events: seq<Event>, d: Date)
    ensures (exists i :: 0 <= i < |DatesWithEvents(events)| && SameDay(DatesWithEvents(events)[i], d))
        <==> EventsForSelectedDate(events, Some(d)) != []
  {
    var dates := DatesWithEvents(events);
    var r := EventsForSelectedDate(events, Some(d));
    if i :| 0 <= i < |dates| && SameDay(dates[i], d) {
      assert events[i] in r;
    }
    if r != [] {
      assert r[0] in r;
      var i :| 0 <= i < |events| && events[i] == r[0];
      assert SameDay(dates[i], d);
    }
  }

  /** Filtering the five sample events, one event at a time. */
  lemma FilterDummyEvents(p: Event -> bool)
    ensures Filter(DummyEvents, p)
         == (if p(TechFest) then [TechFest] else [])
          + ((if p(CulturalFest) then [CulturalFest] else [])
          + ((if p(SportsTournament) then [SportsTournament] else [])
          + ((if p(AIWorkshop) then [AIWorkshop] else [])
          + ((if p(MidTermExams) then [MidTermExams] else []) + []))))
  {
    FilterFive(TechFest, CulturalFest, SportsTournament, AIWorkshop, MidTermExams, p);
  }

  /** Selecting 28 October 2025 lists exactly the TechFest. */
  lemma SelectOctober28(ms: int)
    requires 0 <= ms < MsPerDay
    ensures EventsForSelectedDate(DummyEvents, Some(Civil(2025, 9, 28, ms))) == [TechFest]
  {
    FilterDummyEvents(OnDay(Civil(2025, 9, 28, ms)));
  }

  /** Selecting 29 October 2025 lists nothing. */
  lemma SelectOctober29(ms: int)
    requires 0 <= ms < MsPerDay
    ensures EventsForSelectedDate(DummyEvents, Some(Civil(2025, 9, 29, ms))) == []
  {
    FilterDummyEvents(OnDay(Civil(2025, 9, 29, ms)));
  }

  /** One week after a late-October 2025 day is in November, at the same time of day. */
  lemma NextWeekOctober(day: int, ms: int)
    requires 25 <= day <= 31 && 0 <= ms < MsPerDay
    ensures NextWeek(Civil(2025, 9, day, ms)) == Civil(2025, 10, day - 24, ms)
  {
    var d: Date := Civil(2025, 9, day, ms);
    assert SetDate(d, day + 7) == SetDate(Civil(2025, 10, 1, ms), day - 24);
  }

  /** Sorting two events already in time order leaves them as they are. */
  lemma SortTwo(a: Event, b: Event)
    requires EventTime(a) <= EventTime(b)
    ensures SortBy([a, b], EventTime) == [a, b]
  {
    assert SortBy([b], EventTime) == [b];
    assert SortBy([a, b], EventTime) == InsertBy(a, [b], EventTime);
  }

  /** From 25 October 2025 the window up to 1 November holds the first two events. */
  lemma WindowFromOctober25(ms: int)
    requires 0 <= ms < MsPerDay
    ensures WindowEvents(DummyEvents, Civil(2025, 9, 25, ms)) == [TechFest, CulturalFest]
  {
    var today: Date := Civil(2025, 9, 25, ms);
    var nextWeek := NextWeek(today);
    NextWeekOctober(25, ms);
    TimeOrder(TechFest.date, today);
    TimeOrder(CulturalFest.date, nextWeek);
    TimeOrder(nextWeek, SportsTournament.date);
    TimeOrder(nextWeek, AIWorkshop.date);
    TimeOrder(nextWeek, MidTermExams.date);
    var p := InWindow(today);
    assert p(TechFest) && p(CulturalFest) && !p(SportsTournament) && !p(AIWorkshop) && !p(MidTermExams);
    FilterDummyEvents(p);
  }

  /** On 25 October 2025, at any time of day, the next week holds the TechFest and the Cultural Fest, in that order. */
  lemma UpcomingFromOctober25(ms: int)
    requires 0 <= ms < MsPerDay
    ensures UpcomingEvents(DummyEvents, Civil(2025, 9, 25, ms)) == [TechFest, CulturalFest]
  {
    WindowFromOctober25(ms);
    TimeOrder(TechFest.date, CulturalFest.date);
    SortTwo(TechFest, CulturalFest);
  }

  /** From 28 October 2025 after midnight the window up to 4 November holds the second and third events. */
  lemma WindowFromOctober28(ms: int)
    requires 0 < ms < MsPerDay
    ensures WindowEvents(DummyEvents, Civil(2025, 9, 28, ms)) == [CulturalFest, SportsTournament]
  {
    var today: Date := Civil(2025, 9, 28, ms);
    var nextWeek := NextWeek(today);
    NextWeekOctober(28, ms);
    TimeOrder(TechFest.date, today);
    TimeOrder(today, CulturalFest.date);
    TimeOrder(SportsTournament.date, nextWeek);
    TimeOrder(nextWeek, AIWorkshop.date);
    TimeOrder(nextWeek, MidTermExams.date);
    var p := InWindow(today);
    assert !p(TechFest) && p(CulturalFest) && p(SportsTournament) && !p(AIWorkshop) && !p(MidTermExams);
    FilterDummyEvents(p);
  }

  /**
   On 28 October 2025 after midnight the TechFest of that day is no longer
   upcoming, although selecting the day still lists it.
   */
  lemma UpcomingFromOctober28(ms: int)
    requires 0 < ms < MsPerDay
    ensures UpcomingEvents(DummyEvents, Civil(2025, 9, 28, ms)) == [CulturalFest, SportsTournament]
    ensures EventsForSelectedDate(DummyEvents, Some(Civil(2025, 9, 28, ms))) == [TechFest]
  {
    WindowFromOctober28(ms);
    TimeOrder(CulturalFest.date, SportsTournament.date);
    SortTwo(CulturalFest, SportsTournament);
    SelectOctober28(ms);
  }
}
