/** The preview timeline: everything that will be running in a range, whole rather than clipped. */
module Preview {
  import opened Basics
  import opened SessionStore
  import SessionFacts
  import opened CivilCalendar
  import opened Schedules

  // ----- Order -----

  /** By start, then end, then profile. */
  predicate ActLe(a: Activation, b: Activation) {
    a.start < b.start || (a.start == b.start && (a.end < b.end || (a.end == b.end && StringLe(a.profile, b.profile))))
  }

  function InsertAct(sorted: seq<Activation>, a: Activation): seq<Activation> {
    if sorted == [] then [a]
    else
      var last := sorted[|sorted| - 1];
      if ActLe(last, a) then sorted + [a] else InsertAct(sorted[..|sorted| - 1], a) + [last]
  }

  function SortActs(xs: seq<Activation>): seq<Activation> {
    if xs == [] then [] else InsertAct(SortActs(xs[..|xs| - 1]), xs[|xs| - 1])
  }

  predicate Ordered(xs: seq<Activation>) {
    forall i :: 0 < i < |xs| ==> ActLe(xs[i - 1], xs[i])
  }

  lemma ActLeTotal(a: Activation, b: Activation)
    ensures ActLe(a, b) || ActLe(b, a)
  {
    SessionFacts.StringLeTotal(a.profile, b.profile);
  }

  lemma {:induction false} InsertActAdds(xs: seq<Activation>, a: Activation)
    ensures multiset(InsertAct(xs, a)) == multiset(xs) + multiset{a}
  {
    hide ActLe;
    if xs != [] && !ActLe(xs[|xs| - 1], a) {
      InsertActAdds(xs[..|xs| - 1], a);
      assert xs == xs[..|xs| - 1] + [xs[|xs| - 1]];
    }
  }

  lemma {:induction false} InsertActFacts(xs: seq<Activation>, a: Activation)
    requires Ordered(xs)
    ensures Ordered(InsertAct(xs, a)) && InsertAct(xs, a) != []
    ensures var last := InsertAct(xs, a)[|InsertAct(xs, a)| - 1]; last == a || (xs != [] && last == xs[|xs| - 1])
  {
    hide ActLe;
    if xs != [] && !ActLe(xs[|xs| - 1], a) {
      InsertActFacts(xs[..|xs| - 1], a);
      ActLeTotal(xs[|xs| - 1], a);
    }
  }

  lemma {:induction false} SortActsFacts(xs: seq<Activation>)
    ensures Ordered(SortActs(xs)) && multiset(SortActs(xs)) == multiset(xs)
  {
    hide ActLe, InsertAct;
    if xs == [] {
    } else {
      var n := |xs| - 1;
      SortActsFacts(xs[..n]);
      InsertActFacts(SortActs(xs[..n]), xs[n]);
      InsertActAdds(SortActs(xs[..n]), xs[n]);
      assert xs == xs[..n] + [xs[n]];
    }
  }

  // ----- What is listed -----

  predicate Overlaps(a: Activation, from: Timestamp, to: Timestamp) {
    a.start < to && a.end > from
  }

  /** Division that drops the fraction, as the program's integers do. */
  function TruncatedDiv(a: int, b: int): int
    requires b > 0
  {
    if a >= 0 then a / b else -((-a) / b)
  }

  function DaysToList(from: Timestamp, to: Timestamp): nat {
    Max(TruncatedDiv(to - from, DAY_SECONDS) + 4, 0)
  }

  /** The windows of the first `n` dates from `first` that run and overlap the range. */
  function WindowsFrom(w: WeeklySchedule, first: int, n: nat, plan: Plan, from: Timestamp,
                       to: Timestamp): seq<Activation> {
    if n == 0 then []
    else
      var rest, date := WindowsFrom(w, first, n - 1, plan, from, to), first + n - 1;
      if RunsOn(w, date) && Overlaps(WindowOn(w, date, plan.offset), from, to)
      then rest + [WindowOn(w, date, plan.offset)] else rest
  }

  function WeeklyListed(ws: seq<WeeklySchedule>, plan: Plan, from: Timestamp, to: Timestamp): seq<Activation> {
    if ws == [] then []
    else
      var n := |ws| - 1;
      WeeklyListed(ws[..n], plan, from, to)
      + WindowsFrom(ws[n], LocalDate(from, plan.offset) - 1, DaysToList(from, to), plan, from, to)
  }

  function OnlyOverlapping(acts: seq<Activation>, from: Timestamp, to: Timestamp): seq<Activation> {
    if acts == [] then []
    else
      var rest := OnlyOverlapping(acts[..|acts| - 1], from, to);
      if Overlaps(acts[|acts| - 1], from, to) then rest + [acts[|acts| - 1]] else rest
  }

  function CalendarListed(cs: seq<CalendarSchedule>, plan: Plan, from: Timestamp, to: Timestamp): seq<Activation> {
    if cs == [] then []
    else
      CalendarListed(cs[..|cs| - 1], plan, from, to)
      + OnlyOverlapping(Activations(cs[|cs| - 1], plan.events), from, to)
  }

  function Listed(plan: Plan, from: Timestamp, to: Timestamp): seq<Activation> {
    WeeklyListed(plan.weekly, plan, from, to) + CalendarListed(plan.calendars, plan, from, to)
  }

  method Upcoming(plan: Plan, from: Timestamp, to: Timestamp) returns (out: seq<Activation>)
    ensures out == SortActs(Listed(plan, from, to))
    ensures Ordered(out) && multiset(out) == multiset(Listed(plan, from, to))
  {
    hide RunsOn, WindowOn, Overlaps, LocalDate, TruncatedDiv, Activations, OnlyOverlapping, SortActs, Ordered;
    out := [];
    var first := LocalDate(from, plan.offset);
    var days := TruncatedDiv(to - from, DAY_SECONDS) + 2;
    for i := 0 to |plan.weekly|
      invariant out == WeeklyListed(plan.weekly[..i], plan, from, to)
    {
      var w := plan.weekly[i];
      var before := out;
      var offset := -1;
      while offset <= days
        invariant -1 <= offset <= Max(days + 1, -1)
        invariant out == before + WindowsFrom(w, first - 1, offset + 1, plan, from, to)
      {
        var date := first + offset;
        if RunsOn(w, date) {
          var a := WindowOn(w, date, plan.offset);
          if Overlaps(a, from, to) {
            out := out + [a];
          }
        }
        offset := offset + 1;
      }
      assert plan.weekly[..i + 1][..i] == plan.weekly[..i];
    }
    assert plan.weekly[..|plan.weekly|] == plan.weekly;
    var weekly := out;
    for i := 0 to |plan.calendars|
      invariant out == weekly + CalendarListed(plan.calendars[..i], plan, from, to)
    {
      out := out + OnlyOverlapping(Activations(plan.calendars[i], plan.events), from, to);
      assert plan.calendars[..i + 1][..i] == plan.calendars[..i];
    }
    assert plan.calendars[..|plan.calendars|] == plan.calendars;
    SortActsFacts(out);
    out := SortActs(out);
  }

  // ----- The preview shows exactly what will run -----

  lemma {:induction false} WindowsFromMembers(w: WeeklySchedule, first: int, n: nat, plan: Plan, from: Timestamp,
                                              to: Timestamp, a: Activation)
    ensures a in WindowsFrom(w, first, n, plan, from, to) <==>
              exists date ::
                && first <= date < first + n && RunsOn(w, date)
                && a == WindowOn(w, date, plan.offset) && Overlaps(a, from, to)
  {
    if n == 0 {
    } else {
      WindowsFromMembers(w, first, n - 1, plan, from, to, a);
      assert RunsOn(w, first + n - 1) || !RunsOn(w, first + n - 1);
    }
  }

  /** The dates walked reach every window that can overlap the range. */
  lemma DatesSuffice(w: WeeklySchedule, date: int, plan: Plan, from: Timestamp, to: Timestamp)
    requires ValidWindow(w) && from < to && Overlaps(WindowOn(w, date, plan.offset), from, to)
    ensures LocalDate(from, plan.offset) - 1 <= date < LocalDate(from, plan.offset) - 1 + DaysToList(from, to)
  {
    SpanBounds(w, date, plan.offset);
    LocalDateBounds(from, plan.offset);
  }

  lemma {:induction false} OnlyMembers(acts: seq<Activation>, from: Timestamp, to: Timestamp, now: Timestamp,
                                       a: Activation)
    ensures a in OnlyOverlapping(acts, from, to) <==> a in acts && Overlaps(a, from, to)
    ensures a in OnlyLive(acts, now) <==> a in acts && LiveAt(a, now)
  {
    if acts == [] {
    } else {
      OnlyMembers(acts[..|acts| - 1], from, to, now, a);
      assert acts == acts[..|acts| - 1] + [acts[|acts| - 1]];
    }
  }

  /** `a` is the window's occurrence of some date on which it runs. */
  ghost predicate OccurrenceOf(w: WeeklySchedule, offset: int, a: Activation) {
    exists date :: RunsOn(w, date) && a == WindowOn(w, date, offset)
  }

  ghost predicate WindowOf(ws: seq<WeeklySchedule>, offset: int, a: Activation) {
    exists w :: w in ws && OccurrenceOf(w, offset, a)
  }

  ghost predicate EventOf(cs: seq<CalendarSchedule>, events: seq<CalendarEvent>, a: Activation) {
    exists c :: c in cs && a in Activations(c, events)
  }

  lemma WindowListed(w: WeeklySchedule, plan: Plan, from: Timestamp, to: Timestamp, a: Activation)
    requires from < to && ValidWindow(w)
    ensures a in WindowsFrom(w, LocalDate(from, plan.offset) - 1, DaysToList(from, to), plan, from, to) <==>
              OccurrenceOf(w, plan.offset, a) && Overlaps(a, from, to)
  {
    hide WindowsFrom, ValidWindow, DaysToList, LocalDate, RunsOn, WindowOn, Overlaps;
    var first, days := LocalDate(from, plan.offset) - 1, DaysToList(from, to);
    WindowsFromMembers(w, first, days, plan, from, to, a);
    forall date | RunsOn(w, date) && a == WindowOn(w, date, plan.offset) && Overlaps(a, from, to)
      ensures first <= date < first + days
    {
      DatesSuffice(w, date, plan, from, to);
    }
  }

  lemma {:induction false} WeeklyListedMembers(ws: seq<WeeklySchedule>, plan: Plan, from: Timestamp, to: Timestamp,
                                               a: Activation)
    requires from < to && forall w :: w in ws ==> ValidWindow(w)
    ensures a in WeeklyListed(ws, plan, from, to) <==> WindowOf(ws, plan.offset, a) && Overlaps(a, from, to)
  {
    hide WindowsFrom, ValidWindow, DaysToList, LocalDate, OccurrenceOf, Overlaps;
    if ws == [] {
    } else {
      var n := |ws| - 1;
      WeeklyListedMembers(ws[..n], plan, from, to, a);
      assert ws == ws[..n] + [ws[n]];
      WindowListed(ws[n], plan, from, to, a);
    }
  }

  lemma WindowLive(w: WeeklySchedule, now: Timestamp, offset: int, a: Activation)
    requires ValidWindow(w)
    ensures WeeklyActiveAt(w, now, offset) == Some(a) <==> OccurrenceOf(w, offset, a) && LiveAt(a, now)
  {
    if WeeklyActiveAt(w, now, offset) == Some(a) {
      var date := ActiveIsOpen(w, now, offset);
      assert RunsOn(w, date);
    }
    forall date | RunsOn(w, date) && a == WindowOn(w, date, offset) && LiveAt(a, now)
      ensures WeeklyActiveAt(w, now, offset) == Some(a)
    {
      OpenIsActive(w, now, offset, date);
    }
  }

  lemma {:induction false} WeeklyLiveMembers(ws: seq<WeeklySchedule>, now: Timestamp, offset: int, a: Activation)
    requires forall w :: w in ws ==> ValidWindow(w)
    ensures a in WeeklyLive(ws, now, offset) <==> WindowOf(ws, offset, a) && LiveAt(a, now)
  {
    hide ValidWindow, OccurrenceOf, LiveAt, WeeklyActiveAt;
    if ws == [] {
    } else {
      var n := |ws| - 1;
      WeeklyLiveMembers(ws[..n], now, offset, a);
      assert ws == ws[..n] + [ws[n]];
      WindowLive(ws[n], now, offset, a);
    }
  }

  lemma {:induction false} CalendarMembers(cs: seq<CalendarSchedule>, plan: Plan, from: Timestamp, to: Timestamp,
                                           now: Timestamp, a: Activation)
    ensures a in CalendarListed(cs, plan, from, to) <==> EventOf(cs, plan.events, a) && Overlaps(a, from, to)
    ensures a in CalendarLive(cs, plan.events, now) <==> EventOf(cs, plan.events, a) && LiveAt(a, now)
  {
    if cs == [] {
    } else {
      var n := |cs| - 1;
      CalendarMembers(cs[..n], plan, from, to, now, a);
      OnlyMembers(Activations(cs[n], plan.events), from, to, now, a);
      assert cs == cs[..n] + [cs[n]];
    }
  }

  lemma {:induction false} EventsLast(c: CalendarSchedule, events: seq<CalendarEvent>, a: Activation)
    requires a in Activations(c, events)
    ensures a.start < a.end
  {
    var n := |events| - 1;
    if a in Activations(c, events[..n]) {
      EventsLast(c, events[..n], a);
    }
  }

  lemma LastsWhole(plan: Plan, a: Activation)
    requires Validated(plan) && (WindowOf(plan.weekly, plan.offset, a) || EventOf(plan.calendars, plan.events, a))
    ensures a.start < a.end
  {
    if WindowOf(plan.weekly, plan.offset, a) {
      var w, date :| w in plan.weekly && RunsOn(w, date) && a == WindowOn(w, date, plan.offset);
      SpanBounds(w, date, plan.offset);
    } else {
      var c :| c in plan.calendars && a in Activations(c, plan.events);
      EventsLast(c, plan.events, a);
    }
  }

  /** An activation is shown for a range exactly when it will be running at some instant of it. */
  lemma ShownExactlyWhenItWillRun(plan: Plan, from: Timestamp, to: Timestamp, a: Activation)
    requires Validated(plan) && from < to
    ensures a in SortActs(Listed(plan, from, to)) <==> exists t :: from <= t < to && a in ActiveAt(plan, t)
  {
    SortActsFacts(Listed(plan, from, to));
    assert a in SortActs(Listed(plan, from, to)) <==> a in multiset(Listed(plan, from, to));
    WeeklyListedMembers(plan.weekly, plan, from, to, a);
    CalendarMembers(plan.calendars, plan, from, to, 0, a);
    forall t ensures a in ActiveAt(plan, t) <==>
                       && (WindowOf(plan.weekly, plan.offset, a) || EventOf(plan.calendars, plan.events, a))
                       && LiveAt(a, t)
    {
      WeeklyLiveMembers(plan.weekly, t, plan.offset, a);
      CalendarMembers(plan.calendars, plan, from, to, t, a);
    }
    if a in Listed(plan, from, to) {
      LastsWhole(plan, a);
      var t := Max(from, a.start);
      assert a in ActiveAt(plan, t);
    }
  }

  /** The list is in the order things begin; what begins together is in the order it ends, and then by profile. */
  lemma {:induction false} EarlierFirst(xs: seq<Activation>, i: nat, j: nat)
    requires Ordered(xs) && i < j < |xs|
    ensures xs[i].start <= xs[j].start
    ensures xs[i].start == xs[j].start ==> xs[i].end <= xs[j].end
    ensures xs[i].start == xs[j].start && xs[i].end == xs[j].end ==> StringLe(xs[i].profile, xs[j].profile)
    decreases j - i
  {
    if i + 1 < j {
      EarlierFirst(xs, i, j - 1);
      EarlierFirst(xs, j - 1, j);
      if xs[i].start == xs[j].start && xs[i].end == xs[j].end {
        SessionFacts.StringLeTrans(xs[i].profile, xs[j - 1].profile, xs[j].profile);
      }
    } else {
      assert xs[j - 1] == xs[i];
    }
  }
}
