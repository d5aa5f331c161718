/** When a schedule is active, from the clock, the weekday and the calendar alone. */
module ScheduleMeaning {
  import opened Basics
  import opened SessionStore
  import opened CivilCalendar
  import opened Text
  import opened Glob
  import opened TargetFacts
  import opened Schedules

  // ----- Weekly windows -----

  /** The window is on for a date that is a whole number of weeks from its weekday; 1970-01-01 was a Thursday, 3. */
  predicate NamesDate(w: WeeklySchedule, date: int) {
    w.enabled && (|w.days| == 0 || exists i :: 0 <= i < |w.days| && IsWeekday(date, w.days[i]))
  }

  predicate IsWeekday(date: int, day: nat) {
    day <= 6 && (date + 3 - day) % 7 == 0
  }

  lemma RunsOnExactlyWhen(w: WeeklySchedule, date: int)
    ensures RunsOn(w, date) <==> NamesDate(w, date)
  {
    forall d: nat ensures Weekday(date) == d <==> IsWeekday(date, d) {
    }
    hide Weekday, IsWeekday;
    if w.enabled && w.days != [] {
      if Weekday(date) in w.days {
        var i :| 0 <= i < |w.days| && w.days[i] == Weekday(date);
        assert IsWeekday(date, w.days[i]);
      }
      if i :| 0 <= i < |w.days| && IsWeekday(date, w.days[i]) {
        assert w.days[i] in w.days;
      }
    }
  }

  /** The second of the day a minute falls on; past the last one it is the midnight that ends the day. */
  function SecondOf(minute: nat): int {
    if minute < 1_440 then 60 * minute else 86_400
  }

  /**
   * By the clock on the wall: a window within a day is active between its two minutes on a day it names;
   * one that crosses midnight, after its start on such a day or before its end on the day after one.
   */
  predicate ActiveByTheClock(w: WeeklySchedule, date: int, second: int) {
    if w.startMinute < w.endMinute
    then NamesDate(w, date) && SecondOf(w.startMinute) <= second < SecondOf(w.endMinute)
    else
      || (NamesDate(w, date) && SecondOf(w.startMinute) <= second)
      || (NamesDate(w, date - 1) && second < SecondOf(w.endMinute))
  }

  lemma SpanByTheClock(w: WeeklySchedule, date: int, offset: int)
    ensures var (start, end) := SpanOn(w, date, offset);
            && start == 86_400 * date + SecondOf(w.startMinute) - offset
            && end == 86_400 * date + SecondOf(w.endMinute) - offset
                      + if w.startMinute < w.endMinute then 0 else 86_400
  {
  }

  /** For every window, sound or not. */
  lemma WindowIsActiveExactlyWhen(w: WeeklySchedule, now: Timestamp, offset: int)
    ensures WeeklyActiveAt(w, now, offset).Some? <==>
              ActiveByTheClock(w, (now + offset) / 86_400, (now + offset) % 86_400)
  {
    var date := (now + offset) / 86_400;
    SpanByTheClock(w, date, offset);
    SpanByTheClock(w, date - 1, offset);
    RunsOnExactlyWhen(w, date);
    RunsOnExactlyWhen(w, date - 1);
    assert LocalDate(now, offset) == date;
    hide SpanOn, RunsOn, NamesDate, LocalDate;
  }

  /** What an active window asks for: its profile under its locks, from its start on a day it names to its end. */
  lemma WindowAsksFor(w: WeeklySchedule, now: Timestamp, offset: int) returns (date: int)
    requires WeeklyActiveAt(w, now, offset).Some?
    ensures NamesDate(w, date)
    ensures var a := WeeklyActiveAt(w, now, offset).value;
            && a.profile == w.profile && a.source == WeeklySource(w.id) && a.locks == w.locks
            && a.start <= now < a.end && a.start == 86_400 * date + SecondOf(w.startMinute) - offset
            && a.end == 86_400 * date + SecondOf(w.endMinute) - offset
                        + if w.startMinute < w.endMinute then 0 else 86_400
  {
    date := ActiveIsOpen(w, now, offset);
    RunsOnExactlyWhen(w, date);
    SpanByTheClock(w, date, offset);
    hide SpanOn, RunsOn, WeeklyActiveAt, NamesDate;
  }

  // ----- Calendar rules -----

  /** Every part of the matcher that is there is met by the event. */
  predicate Fits(m: EventMatcher, e: CalendarEvent) {
    && (m.busyOnly ==> e.busy)
    && (m.allDay == Some(true) ==> e.allDay)
    && (m.allDay == Some(false) ==> !e.allDay)
    && (m.title.Some? ==> GlobMatch(m.title.value, e.title))
    && (m.location.Some? ==> GlobMatch(m.location.value, e.location))
    && (m.calendar.Some? ==> SameLetters(m.calendar.value, e.calendar))
    && (|m.categories| > 0 ==>
          exists i, j :: 0 <= i < |m.categories| && 0 <= j < |e.categories|
                         && SameLetters(e.categories[j], m.categories[i]))
    && (m.minDuration.Some? && m.minDuration.value > 0 ==> e.start + m.minDuration.value <= e.end)
    && (m.maxDuration.Some? ==> e.end <= e.start + m.maxDuration.value)
  }

  lemma MatchesEventExactlyWhen(m: EventMatcher, e: CalendarEvent)
    ensures MatchesEvent(m, e) <==> Fits(m, e)
  {
    hide GlobMatch, SameLetters, EqIgnoreCase;
    forall a, b ensures EqIgnoreCase(a, b) <==> SameLetters(a, b) {
      EqIgnoreCaseExactlyWhen(a, b);
    }
    if want, have :| want in m.categories && have in e.categories && EqIgnoreCase(have, want) {
      var i :| 0 <= i < |m.categories| && m.categories[i] == want;
      var j :| 0 <= j < |e.categories| && e.categories[j] == have;
    }
    if i, j :| 0 <= i < |m.categories| && 0 <= j < |e.categories| && SameLetters(e.categories[j], m.categories[i]) {
      assert m.categories[i] in m.categories && e.categories[j] in e.categories;
    }
  }

  /** `a` is what the event, padded, asks of the rule's profile. */
  predicate AsksFor(c: CalendarSchedule, e: CalendarEvent, a: Activation) {
    && a.profile == c.profile && a.source == CalendarSource(c.id, e.id) && a.locks == c.locks
    && a.start + c.padBefore == e.start
    && a.end == c.padAfter + 1 + if e.end < e.start then e.start else e.end
  }

  lemma {:induction false} ActivationsExactlyWhen(c: CalendarSchedule, events: seq<CalendarEvent>, a: Activation)
    ensures a in Activations(c, events) <==>
              c.enabled && exists e :: e in events && Fits(c.matcher, e) && AsksFor(c, e, a)
  {
    hide MatchesEvent, Fits;
    if !c.enabled || events == [] {
    } else {
      var n := |events| - 1;
      ActivationsExactlyWhen(c, events[..n], a);
      MatchesEventExactlyWhen(c.matcher, events[n]);
      assert events == events[..n] + [events[n]];
    }
  }

  // ----- The whole plan -----

  lemma {:induction false} LiveExactlyWhen(acts: seq<Activation>, now: Timestamp, a: Activation)
    ensures a in OnlyLive(acts, now) <==> a in acts && a.start <= now < a.end
  {
    if acts == [] {
    } else {
      LiveExactlyWhen(acts[..|acts| - 1], now, a);
      assert acts == acts[..|acts| - 1] + [acts[|acts| - 1]];
    }
  }

  lemma {:induction false} WeeklyLiveExactlyWhen(ws: seq<WeeklySchedule>, now: Timestamp, offset: int, a: Activation)
    ensures a in WeeklyLive(ws, now, offset) <==> exists w :: w in ws && WeeklyActiveAt(w, now, offset) == Some(a)
  {
    hide WeeklyActiveAt;
    if ws == [] {
    } else {
      WeeklyLiveExactlyWhen(ws[..|ws| - 1], now, offset, a);
      assert ws == ws[..|ws| - 1] + [ws[|ws| - 1]];
    }
  }

  /** A calendar rule asks for `a` at `now`: some event it fits, padded, holds the instant. */
  ghost predicate CalendarAsks(c: CalendarSchedule, events: seq<CalendarEvent>, now: Timestamp, a: Activation) {
    && c.enabled && a.start <= now < a.end
    && exists e :: e in events && Fits(c.matcher, e) && AsksFor(c, e, a)
  }

  lemma {:induction false} CalendarLiveExactlyWhen(cs: seq<CalendarSchedule>, events: seq<CalendarEvent>,
                                                   now: Timestamp, a: Activation)
    ensures a in CalendarLive(cs, events, now) <==> exists c :: c in cs && CalendarAsks(c, events, now, a)
  {
    if cs == [] {
    } else {
      var n := |cs| - 1;
      CalendarLiveExactlyWhen(cs[..n], events, now, a);
      LiveExactlyWhen(Activations(cs[n], events), now, a);
      ActivationsExactlyWhen(cs[n], events, a);
      hide Activations, OnlyLive, Fits, AsksFor;
      assert cs == cs[..n] + [cs[n]];
      assert CalendarAsks(cs[n], events, now, a) <==> a in OnlyLive(Activations(cs[n], events), now);
    }
  }

  /** Everything that should be running now, and nothing else, is what some window or some calendar rule asks for. */
  lemma ActiveExactlyWhen(plan: Plan, now: Timestamp, a: Activation)
    ensures a in ActiveAt(plan, now) <==>
              || (exists w :: w in plan.weekly && WeeklyActiveAt(w, now, plan.offset) == Some(a))
              || (exists c :: c in plan.calendars && CalendarAsks(c, plan.events, now, a))
  {
    hide WeeklyLive, CalendarLive, CalendarAsks, WeeklyActiveAt;
    WeeklyLiveExactlyWhen(plan.weekly, now, plan.offset, a);
    CalendarLiveExactlyWhen(plan.calendars, plan.events, now, a);
  }
}
