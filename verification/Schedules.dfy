/** Schedules: weekly windows, calendar events, and the activations both give rise to. */
module Schedules {
  import opened Basics
  import opened LockLattice
  import opened SessionStore
  import opened CivilCalendar
  import opened Text
  import opened Glob

  datatype WeeklySchedule = WeeklySchedule(
    id: string, profile: string, days: seq<nat>, startMinute: nat, endMinute: nat, locks: seq<Lock>, enabled: bool)

  datatype CalendarEvent = CalendarEvent(
    id: string, title: string, calendar: string, location: string,
    start: Timestamp, end: Timestamp, allDay: bool, busy: bool, categories: seq<string>)

  datatype EventMatcher = EventMatcher(
    title: Option<string>, calendar: Option<string>, location: Option<string>, busyOnly: bool,
    allDay: Option<bool>, categories: seq<string>, minDuration: Option<nat>, maxDuration: Option<nat>)

  datatype CalendarSchedule = CalendarSchedule(
    id: string, profile: string, matcher: EventMatcher, padBefore: nat, padAfter: nat, locks: seq<Lock>, enabled: bool)

  /** What a caller snapshots: the configured schedules, the events read, and the zone's offset. */
  datatype Plan = Plan(
    offset: int, weekly: seq<WeeklySchedule>, calendars: seq<CalendarSchedule>, events: seq<CalendarEvent>)

  function DurationSeconds(e: CalendarEvent): nat {
    Max(e.end - e.start, 0)
  }

  predicate MatchesEvent(m: EventMatcher, e: CalendarEvent) {
    && (m.busyOnly ==> e.busy)
    && (m.allDay.Some? ==> m.allDay.value == e.allDay)
    && (m.title.Some? ==> GlobMatch(m.title.value, e.title))
    && (m.location.Some? ==> GlobMatch(m.location.value, e.location))
    && (m.calendar.Some? ==> EqIgnoreCase(m.calendar.value, e.calendar))
    && (m.categories != [] ==>
          exists want, have :: want in m.categories && have in e.categories && EqIgnoreCase(have, want))
    && (m.minDuration.Some? ==> DurationSeconds(e) >= m.minDuration.value)
    && (m.maxDuration.Some? ==> DurationSeconds(e) <= m.maxDuration.value)
  }

  predicate RunsOn(w: WeeklySchedule, date: int) {
    w.enabled && (w.days == [] || Weekday(date) in w.days)
  }

  /** Start and end of the window of `date`; the end falls on the day after when it is not later in the day. */
  function SpanOn(w: WeeklySchedule, date: int, offset: int): (Timestamp, Timestamp) {
    (LocalInstant(date, w.startMinute, offset),
     LocalInstant(if w.endMinute <= w.startMinute then date + 1 else date, w.endMinute, offset))
  }

  function WindowOn(w: WeeklySchedule, date: int, offset: int): Activation {
    Activation(w.profile, WeeklySource(w.id), SpanOn(w, date, offset).0, SpanOn(w, date, offset).1, w.locks)
  }

  predicate OpenOn(w: WeeklySchedule, date: int, now: Timestamp, offset: int) {
    RunsOn(w, date) && SpanOn(w, date, offset).0 <= now < SpanOn(w, date, offset).1
  }

  /** Yesterday's window is asked first, because it may have crossed midnight. */
  function WeeklyActiveAt(w: WeeklySchedule, now: Timestamp, offset: int): Option<Activation> {
    var today := LocalDate(now, offset);
    if OpenOn(w, today - 1, now, offset) then Some(WindowOn(w, today - 1, offset))
    else if OpenOn(w, today, now, offset) then Some(WindowOn(w, today, offset))
    else None
  }

  function EventActivation(c: CalendarSchedule, e: CalendarEvent): Activation {
    Activation(c.profile, CalendarSource(c.id, e.id),
               e.start - c.padBefore, Max(e.end, e.start) + c.padAfter + 1, c.locks)
  }

  /** Every activation a calendar rule produces from a snapshot, live or not. */
  function Activations(c: CalendarSchedule, events: seq<CalendarEvent>): seq<Activation> {
    if !c.enabled || events == [] then []
    else
      var rest := Activations(c, events[..|events| - 1]);
      if MatchesEvent(c.matcher, events[|events| - 1]) then rest + [EventActivation(c, events[|events| - 1])] else rest
  }

  predicate LiveAt(a: Activation, now: Timestamp) {
    a.start <= now < a.end
  }

  function OnlyLive(acts: seq<Activation>, now: Timestamp): seq<Activation> {
    if acts == [] then []
    else
      var rest := OnlyLive(acts[..|acts| - 1], now);
      if LiveAt(acts[|acts| - 1], now) then rest + [acts[|acts| - 1]] else rest
  }

  function WeeklyLive(weekly: seq<WeeklySchedule>, now: Timestamp, offset: int): seq<Activation> {
    if weekly == [] then []
    else
      var rest := WeeklyLive(weekly[..|weekly| - 1], now, offset);
      match WeeklyActiveAt(weekly[|weekly| - 1], now, offset)
      case Some(a) => rest + [a]
      case None => rest
  }

  function CalendarLive(calendars: seq<CalendarSchedule>, events: seq<CalendarEvent>, now: Timestamp): seq<Activation> {
    if calendars == [] then []
    else
      CalendarLive(calendars[..|calendars| - 1], events, now)
      + OnlyLive(Activations(calendars[|calendars| - 1], events), now)
  }

  /** The activations live at `now`: windows first, then calendar rules, each in the order configured. */
  function ActiveAt(plan: Plan, now: Timestamp): seq<Activation> {
    WeeklyLive(plan.weekly, now, plan.offset) + CalendarLive(plan.calendars, plan.events, now)
  }

  lemma {:induction false} LiveHaveBegun(acts: seq<Activation>, now: Timestamp)
    ensures forall a :: a in OnlyLive(acts, now) ==> LiveAt(a, now)
  {
    if acts == [] {
    } else {
      LiveHaveBegun(acts[..|acts| - 1], now);
    }
  }

  lemma {:induction false} WeeklyHaveBegun(weekly: seq<WeeklySchedule>, now: Timestamp, offset: int)
    ensures forall a :: a in WeeklyLive(weekly, now, offset) ==> LiveAt(a, now)
  {
    hide SpanOn, RunsOn, LocalDate;
    if weekly == [] {
    } else {
      WeeklyHaveBegun(weekly[..|weekly| - 1], now, offset);
    }
  }

  lemma {:induction false} CalendarsHaveBegun(calendars: seq<CalendarSchedule>, events: seq<CalendarEvent>,
                                              now: Timestamp)
    ensures forall a :: a in CalendarLive(calendars, events, now) ==> LiveAt(a, now)
  {
    hide OnlyLive, Activations, LiveAt;
    if calendars == [] {
    } else {
      CalendarsHaveBegun(calendars[..|calendars| - 1], events, now);
      LiveHaveBegun(Activations(calendars[|calendars| - 1], events), now);
    }
  }

  /** What should be running at `now` has begun and is not over. */
  lemma ActiveHaveBegun(plan: Plan, now: Timestamp)
    ensures forall a :: a in ActiveAt(plan, now) ==> LiveAt(a, now)
  {
    hide LiveAt, WeeklyLive, CalendarLive;
    WeeklyHaveBegun(plan.weekly, now, plan.offset);
    CalendarsHaveBegun(plan.calendars, plan.events, now);
  }

  /** What validation asks of a weekly window. */
  predicate ValidWindow(w: WeeklySchedule) {
    w.startMinute < 1_440 && w.endMinute < 1_440 && w.startMinute != w.endMinute && forall d :: d in w.days ==> d <= 6
  }

  ghost predicate Validated(plan: Plan) {
    forall w :: w in plan.weekly ==> ValidWindow(w)
  }

  // ----- Next change -----

  /** An instant at which a window near `now` opens or closes. */
  predicate WeeklyEdge(w: WeeklySchedule, date: int, offset: int, t: Timestamp) {
    RunsOn(w, date) && (t == SpanOn(w, date, offset).0 || t == SpanOn(w, date, offset).1)
  }

  predicate CalendarEdge(c: CalendarSchedule, events: seq<CalendarEvent>, t: Timestamp) {
    exists a :: a in Activations(c, events) && (t == a.start || t == a.end)
  }

  ghost predicate ConsideredWeekly(ws: seq<WeeklySchedule>, today: int, offset: int, t: Timestamp) {
    exists w, date :: w in ws && today - 1 <= date <= today + 7 && WeeklyEdge(w, date, offset, t)
  }

  ghost predicate ConsideredCalendar(cs: seq<CalendarSchedule>, events: seq<CalendarEvent>, t: Timestamp) {
    exists c :: c in cs && CalendarEdge(c, events, t)
  }

  /** `best` is the earliest of the candidate instants after `now`. */
  ghost predicate Earliest(best: Option<Timestamp>, now: Timestamp, candidates: iset<Timestamp>) {
    && (best.Some? ==> best.value in candidates && best.value > now)
    && forall t :: t in candidates && t > now ==> best.Some? && best.value <= t
  }

  function Consider(best: Option<Timestamp>, now: Timestamp, t: Timestamp): Option<Timestamp> {
    if t > now then Some(if best.Some? then Min(best.value, t) else t) else best
  }

  lemma ConsiderKeepsEarliest(best: Option<Timestamp>, now: Timestamp, t: Timestamp, candidates: iset<Timestamp>)
    requires Earliest(best, now, candidates)
    ensures Earliest(Consider(best, now, t), now, candidates + iset{t})
  {
  }

  /** The instants the alarm is chosen from. */
  ghost function Candidates(plan: Plan, now: Timestamp): iset<Timestamp> {
    iset t: Timestamp | ConsideredCalendar(plan.calendars, plan.events, t)
                     || ConsideredWeekly(plan.weekly, LocalDate(now, plan.offset), plan.offset, t)
  }

  /** The earliest edge after `now`. */
  method NextChangeAfter(plan: Plan, now: Timestamp) returns (best: Option<Timestamp>)
    ensures Earliest(best, now, Candidates(plan, now))
  {
    best := None;
    ghost var seen: iset<Timestamp> := iset{};
    for i := 0 to |plan.calendars|
      invariant Earliest(best, now, seen)
      invariant forall t :: t in seen <==> ConsideredCalendar(plan.calendars[..i], plan.events, t)
    {
      var c := plan.calendars[i];
      var acts := Activations(c, plan.events);
      ghost var before := seen;
      for j := 0 to |acts|
        invariant Earliest(best, now, seen)
        invariant forall t :: t in seen <==> t in before || exists a :: a in acts[..j] && (t == a.start || t == a.end)
      {
        ConsiderKeepsEarliest(best, now, acts[j].start, seen);
        best := Consider(best, now, acts[j].start);
        seen := seen + iset{acts[j].start};
        ConsiderKeepsEarliest(best, now, acts[j].end, seen);
        best := Consider(best, now, acts[j].end);
        seen := seen + iset{acts[j].end};
        assert acts[..j + 1] == acts[..j] + [acts[j]];
      }
      assert acts[..|acts|] == acts;
      assert plan.calendars[..i + 1] == plan.calendars[..i] + [c];
      forall t ensures t in seen <==> ConsideredCalendar(plan.calendars[..i + 1], plan.events, t) {
        ConsideredCalendarSplits(plan.calendars[..i], c, plan.events, t);
      }
    }
    assert plan.calendars[..|plan.calendars|] == plan.calendars;
    ghost var fromCalendars := seen;
    var today := LocalDate(now, plan.offset);
    for i := 0 to |plan.weekly|
      invariant Earliest(best, now, seen)
      invariant forall t :: t in seen <==>
                    t in fromCalendars || ConsideredWeekly(plan.weekly[..i], today, plan.offset, t)
    {
      var w := plan.weekly[i];
      ghost var before := seen;
      for day := -1 to 8
        invariant Earliest(best, now, seen)
        invariant forall t :: t in seen <==>
                    t in before || exists date :: today - 1 <= date < today + day && WeeklyEdge(w, date, plan.offset, t)
      {
        var date := today + day;
        if !RunsOn(w, date) {
          continue;
        }
        var span := SpanOn(w, date, plan.offset);
        ConsiderKeepsEarliest(best, now, span.0, seen);
        best := Consider(best, now, span.0);
        seen := seen + iset{span.0};
        ConsiderKeepsEarliest(best, now, span.1, seen);
        best := Consider(best, now, span.1);
        seen := seen + iset{span.1};
        assert WeeklyEdge(w, date, plan.offset, span.0) && WeeklyEdge(w, date, plan.offset, span.1);
      }
      assert plan.weekly[..i + 1] == plan.weekly[..i] + [w];
      forall t
        ensures t in seen <==> t in fromCalendars || ConsideredWeekly(plan.weekly[..i + 1], today, plan.offset, t)
      {
        ConsideredWeeklySplits(plan.weekly[..i], w, today, plan.offset, t);
        assert EdgeNear(w, today, plan.offset, t) <==>
            exists date :: today - 1 <= date < today + 8 && WeeklyEdge(w, date, plan.offset, t);
      }
    }
    assert plan.weekly[..|plan.weekly|] == plan.weekly;
  }

  ghost predicate EdgeNear(w: WeeklySchedule, today: int, offset: int, t: Timestamp) {
    exists date :: today - 1 <= date < today + 8 && WeeklyEdge(w, date, offset, t)
  }

  lemma ConsideredWeeklySplits(ws: seq<WeeklySchedule>, w: WeeklySchedule, today: int, offset: int, t: Timestamp)
    ensures ConsideredWeekly(ws + [w], today, offset, t)
       <==> ConsideredWeekly(ws, today, offset, t) || EdgeNear(w, today, offset, t)
  {
    assert forall v :: v in ws + [w] <==> v in ws || v == w;
  }

  lemma ConsideredCalendarSplits(cs: seq<CalendarSchedule>, c: CalendarSchedule, events: seq<CalendarEvent>,
                                 t: Timestamp)
    ensures ConsideredCalendar(cs + [c], events, t) <==> ConsideredCalendar(cs, events, t) || CalendarEdge(c, events, t)
  {
    assert forall v :: v in cs + [c] <==> v in cs || v == c;
  }

  // ----- Nothing changes before the next change -----

  lemma SpanBounds(w: WeeklySchedule, date: int, offset: int)
    requires ValidWindow(w)
    ensures var (start, end) := SpanOn(w, date, offset);
            && date * DAY_SECONDS - offset <= start < (date + 1) * DAY_SECONDS - offset
            && start < end < start + DAY_SECONDS
            && end <= (date + 2) * DAY_SECONDS - offset
  {
    LocalInstantBounds(date, w.startMinute, offset);
    LocalInstantBounds(if w.endMinute <= w.startMinute then date + 1 else date, w.endMinute, offset);
  }

  lemma SpanMoves(w: WeeklySchedule, date: int, k: int, offset: int)
    requires ValidWindow(w)
    ensures SpanOn(w, date + k, offset).0 == SpanOn(w, date, offset).0 + k * DAY_SECONDS
    ensures SpanOn(w, date + k, offset).1 == SpanOn(w, date, offset).1 + k * DAY_SECONDS
  {
  }

  /** A valid window is open at an instant only from yesterday or today, and never from both. */
  lemma OpenIsActive(w: WeeklySchedule, now: Timestamp, offset: int, date: int)
    requires ValidWindow(w) && OpenOn(w, date, now, offset)
    ensures LocalDate(now, offset) - 1 <= date <= LocalDate(now, offset)
    ensures WeeklyActiveAt(w, now, offset) == Some(WindowOn(w, date, offset))
  {
    var today := LocalDate(now, offset);
    LocalDateBounds(now, offset);
    SpanBounds(w, date, offset);
    SpanBounds(w, today - 1, offset);
    SpanMoves(w, today - 1, 1, offset);
  }

  lemma ActiveIsOpen(w: WeeklySchedule, now: Timestamp, offset: int) returns (date: int)
    requires WeeklyActiveAt(w, now, offset).Some?
    ensures LocalDate(now, offset) - 1 <= date <= LocalDate(now, offset) && OpenOn(w, date, now, offset)
    ensures WeeklyActiveAt(w, now, offset).value == WindowOn(w, date, offset)
  {
    date := LocalDate(now, offset);
    if OpenOn(w, date - 1, now, offset) {
      date := date - 1;
    }
  }

  lemma WeekdayRepeats(w: WeeklySchedule, date: int)
    ensures RunsOn(w, date) == RunsOn(w, date - 7)
  {
    assert (date + 3) % 7 == (date - 7 + 3) % 7;
  }

  /** A window that opens after `now` has one of its week that is considered and opens no later. */
  lemma {:induction false} OpeningIsConsidered(w: WeeklySchedule, today: int, date: int, offset: int)
    returns (near: int)
    requires ValidWindow(w) && RunsOn(w, date) && date >= today
    ensures today <= near <= today + 7 && near <= date && RunsOn(w, near)
    ensures SpanOn(w, near, offset).0 <= SpanOn(w, date, offset).0
    ensures near == date || near > today
    decreases date - today
  {
    if date <= today + 7 {
      near := date;
    } else {
      WeekdayRepeats(w, date);
      near := OpeningIsConsidered(w, today, date - 7, offset);
      SpanMoves(w, date, -7, offset);
    }
  }

  lemma WeeklyIsSteady(w: WeeklySchedule, now: Timestamp, t: Timestamp, offset: int)
    requires ValidWindow(w) && now <= t
    requires forall date, e ::
                 LocalDate(now, offset) - 1 <= date <= LocalDate(now, offset) + 7 && WeeklyEdge(w, date, offset, e) ==>
               e <= now || t < e
    ensures WeeklyActiveAt(w, t, offset) == WeeklyActiveAt(w, now, offset)
  {
    hide SpanOn, LocalDate, RunsOn, WeeklyActiveAt;
    var today := LocalDate(now, offset);
    if WeeklyActiveAt(w, now, offset).Some? {
      var d := ActiveIsOpen(w, now, offset);
      assert WeeklyEdge(w, d, offset, SpanOn(w, d, offset).1);
      OpenIsActive(w, t, offset, d);
    } else if WeeklyActiveAt(w, t, offset).Some? {
      var d := ActiveIsOpen(w, t, offset);
      if OpenOn(w, d, now, offset) {
        OpenIsActive(w, now, offset, d);
      }
      assert SpanOn(w, d, offset).0 > now;
      var near := OpeningAfter(w, now, d, offset);
      assert false;
    }
  }

  lemma OpeningAfter(w: WeeklySchedule, now: Timestamp, date: int, offset: int) returns (near: int)
    requires ValidWindow(w) && RunsOn(w, date) && SpanOn(w, date, offset).0 > now
    ensures LocalDate(now, offset) <= near <= LocalDate(now, offset) + 7 && RunsOn(w, near)
    ensures now < SpanOn(w, near, offset).0 <= SpanOn(w, date, offset).0
    ensures WeeklyEdge(w, near, offset, SpanOn(w, near, offset).0)
  {
    hide SpanOn, LocalDate, RunsOn;
    var today := LocalDate(now, offset);
    SpanBounds(w, date, offset);
    LocalDateBounds(now, offset);
    near := OpeningIsConsidered(w, today, date, offset);
    SpanBounds(w, near, offset);
  }

  lemma {:induction false} WeeklyListIsSteady(ws: seq<WeeklySchedule>, now: Timestamp, t: Timestamp, offset: int)
    requires now <= t && forall w :: w in ws ==> ValidWindow(w)
    requires forall e :: ConsideredWeekly(ws, LocalDate(now, offset), offset, e) ==> e <= now || t < e
    ensures WeeklyLive(ws, t, offset) == WeeklyLive(ws, now, offset)
  {
    if ws == [] {
    } else {
      var n := |ws| - 1;
      forall e | ConsideredWeekly(ws[..n], LocalDate(now, offset), offset, e) ensures e <= now || t < e {
        var w, date :|
          && w in ws[..n] && LocalDate(now, offset) - 1 <= date <= LocalDate(now, offset) + 7
          && WeeklyEdge(w, date, offset, e);
        assert w in ws;
        assert ConsideredWeekly(ws, LocalDate(now, offset), offset, e);
      }
      WeeklyListIsSteady(ws[..n], now, t, offset);
      assert ws[n] in ws;
      forall date, e |
        LocalDate(now, offset) - 1 <= date <= LocalDate(now, offset) + 7 && WeeklyEdge(ws[n], date, offset, e)
        ensures e <= now || t < e {
        assert ConsideredWeekly(ws, LocalDate(now, offset), offset, e);
      }
      WeeklyIsSteady(ws[n], now, t, offset);
    }
  }

  lemma {:induction false} LiveIsSteady(acts: seq<Activation>, now: Timestamp, t: Timestamp)
    requires now <= t
    requires forall a :: a in acts ==> (a.start <= now || t < a.start) && (a.end <= now || t < a.end)
    ensures OnlyLive(acts, t) == OnlyLive(acts, now)
  {
    if acts == [] {
    } else {
      LiveIsSteady(acts[..|acts| - 1], now, t);
      assert acts[|acts| - 1] in acts;
    }
  }

  lemma {:induction false} CalendarListIsSteady(cs: seq<CalendarSchedule>, events: seq<CalendarEvent>, now: Timestamp,
                                                t: Timestamp)
    requires now <= t
    requires forall e :: ConsideredCalendar(cs, events, e) ==> e <= now || t < e
    ensures CalendarLive(cs, events, t) == CalendarLive(cs, events, now)
  {
    if cs == [] {
    } else {
      var n := |cs| - 1;
      forall e | ConsideredCalendar(cs[..n], events, e) ensures e <= now || t < e {
        var c :| c in cs[..n] && CalendarEdge(c, events, e);
        assert c in cs;
        assert ConsideredCalendar(cs, events, e);
      }
      CalendarListIsSteady(cs[..n], events, now, t);
      assert cs[n] in cs;
      forall a | a in Activations(cs[n], events)
        ensures (a.start <= now || t < a.start) && (a.end <= now || t < a.end)
      {
        assert CalendarEdge(cs[n], events, a.start) && CalendarEdge(cs[n], events, a.end);
        assert ConsideredCalendar(cs, events, a.start) && ConsideredCalendar(cs, events, a.end);
      }
      LiveIsSteady(Activations(cs[n], events), now, t);
    }
  }

  /**
   * One alarm is enough: what should be running does not change before the next change, and never
   * changes again when there is none.
   */
  lemma NothingChangesBefore(plan: Plan, now: Timestamp, best: Option<Timestamp>, t: Timestamp)
    requires Validated(plan) && Earliest(best, now, Candidates(plan, now))
    requires now <= t && (best.Some? ==> t < best.value)
    ensures ActiveAt(plan, t) == ActiveAt(plan, now)
  {
    var today := LocalDate(now, plan.offset);
    forall e | ConsideredWeekly(plan.weekly, today, plan.offset, e) ensures e <= now || t < e {
      assert e in Candidates(plan, now);
    }
    forall e | ConsideredCalendar(plan.calendars, plan.events, e) ensures e <= now || t < e {
      assert e in Candidates(plan, now);
    }
    WeeklyListIsSteady(plan.weekly, now, t, plan.offset);
    CalendarListIsSteady(plan.calendars, plan.events, now, t);
  }
}
