/**
 * What a recurrence rule asks for, in seconds, weekdays and months: the instants an expansion returns,
 * with no word about how it steps.
 */
module RecurrenceMeaning {
  import opened Basics
  import opened CivilCalendar
  import opened Recurrence
  import P = PassRation

  // ----- The steps of each frequency -----

  /** A whole number of stretches of `seconds` after the start. */
  ghost predicate After(start: Local, l: Local, seconds: int) {
    exists k: nat :: l == start + seconds * k
  }

  /** A whole number of stretches of `months` after the start: same time, same day or the last of the month. */
  ghost predicate MonthsAfter(start: Local, l: Local, months: int) {
    && l % 86_400 == start % 86_400
    && DayOfMonth(l / 86_400) == Min(DayOfMonth(start / 86_400), MonthLength(MonthOf(l / 86_400)))
    && exists k: nat :: MonthOf(l / 86_400) == MonthOf(start / 86_400) + months * k
  }

  /** The rule steps onto `l`. */
  ghost predicate OnStep(r: Rule, start: Local, l: Local) {
    if r.frequency == "SECONDLY" then After(start, l, r.interval)
    else if r.frequency == "MINUTELY" then After(start, l, 60 * r.interval)
    else if r.frequency == "HOURLY" then After(start, l, 3_600 * r.interval)
    else if r.frequency == "DAILY" then After(start, l, 86_400 * r.interval)
    else if r.frequency == "WEEKLY" && |r.byDay| == 0 then After(start, l, 604_800 * r.interval)
    else if r.frequency == "WEEKLY" && r.interval == 1 then After(start, l, 86_400)
    else if r.frequency == "MONTHLY" then MonthsAfter(start, l, r.interval)
    else if r.frequency == "YEARLY" then MonthsAfter(start, l, 12 * r.interval)
    else l == start
  }

  lemma SecondsAfter(r: Rule, start: Local, k: nat, seconds: int)
    requires FixedStep(r) == Some(seconds)
    ensures Candidate(r, start, k) == start + seconds * k
  {
    if k == 0 {
      assert seconds * k == 0;
    }
  }

  lemma CandidateIsAfter(r: Rule, start: Local, l: Local, seconds: int)
    requires FixedStep(r) == Some(seconds)
    ensures After(start, l, seconds) <==> exists k: nat :: l == Candidate(r, start, k)
  {
    forall k: nat ensures Candidate(r, start, k) == start + seconds * k {
      SecondsAfter(r, start, k, seconds);
    }
    hide Candidate, FixedStep;
    if After(start, l, seconds) {
      var k: nat :| l == start + seconds * k;
      assert l == Candidate(r, start, k);
    }
  }

  lemma CandidateIsMonths(r: Rule, start: Local, k: nat, months: int)
    requires FixedStep(r).None? && MonthStep(r) == Some(months)
    ensures Candidate(r, start, k) == MonthsLater(start, months * k)
  {
    hide MonthStart, MonthLength, MonthOf, DayOfMonth, MonthsLater;
    if k == 0 {
      NoMonthsLater(start);
      assert months * k == 0;
    }
  }

  /** A local time is known by its month, its day of the month and its time of day. */
  lemma TimeOfDateIsUnique(a: Local, b: Local)
    requires a % 86_400 == b % 86_400 && MonthOf(a / 86_400) == MonthOf(b / 86_400)
    requires DayOfMonth(a / 86_400) == DayOfMonth(b / 86_400)
    ensures a == b
  {
    hide MonthStart, MonthOf;
    assert a / 86_400 == b / 86_400;
  }

  lemma CandidateIsMonthsAfter(r: Rule, start: Local, l: Local, months: int)
    requires FixedStep(r).None? && MonthStep(r) == Some(months)
    ensures MonthsAfter(start, l, months) <==> exists k: nat :: l == Candidate(r, start, k)
  {
    hide MonthStart, MonthLength, MonthOf, DayOfMonth, MonthsLater, Candidate, FixedStep, MonthStep;
    forall k: nat
      ensures Candidate(r, start, k) == MonthsLater(start, months * k)
      ensures var c := Candidate(r, start, k);
              && c % 86_400 == start % 86_400
              && MonthOf(c / 86_400) == MonthOf(start / 86_400) + months * k
              && DayOfMonth(c / 86_400) == Min(DayOfMonth(start / 86_400), MonthLength(MonthOf(c / 86_400)))
    {
      CandidateIsMonths(r, start, k, months);
      MonthsLaterNeverDrifts(start, months * k);
    }
    if MonthsAfter(start, l, months) {
      var k: nat :| MonthOf(l / 86_400) == MonthOf(start / 86_400) + months * k;
      TimeOfDateIsUnique(l, Candidate(r, start, k));
    }
  }

  /** The candidates are exactly what the frequency, the interval and the start say, in literal units. */
  lemma CandidatesAreTheSteps(r: Rule, start: Local, l: Local)
    requires r.interval >= 1
    ensures OnStep(r, start, l) <==> exists k: nat :: (k == 0 || Recurs(r)) && l == Candidate(r, start, k)
  {
    hide After, MonthsAfter, Candidate;
    if FixedStep(r).Some? {
      CandidateIsAfter(r, start, l, FixedStep(r).value);
    } else if MonthStep(r).Some? {
      CandidateIsMonthsAfter(r, start, l, MonthStep(r).value);
    } else {
      Begins(r, start, 0);
    }
  }

  // ----- The BY parts -----

  /** The month, counted from one, of a date. */
  function MonthNumber(date: int): int {
    MonthOf(date) - 12 * (MonthOf(date) / 12) + 1
  }

  /** A day of the month is named by its number, or by how far it is from the end: -1 is the last. */
  predicate IsDayNamed(date: int, token: int) {
    if token > 0 then DayOfMonth(date) == token
    else DayOfMonth(date) - MonthLength(MonthOf(date)) == token + 1
  }

  /** Every BY part that is there names the date; 0 is Monday. */
  ghost predicate Fits(r: Rule, l: Local) {
    var date := l / 86_400;
    && (|r.byMonth| > 0 ==> exists i :: 0 <= i < |r.byMonth| && r.byMonth[i] == MonthNumber(date))
    && (|r.byMonthDay| > 0 ==> exists i :: 0 <= i < |r.byMonthDay| && IsDayNamed(date, r.byMonthDay[i]))
    && (|r.byDay| > 0 ==> exists i :: 0 <= i < |r.byDay| && IsOn(date, r.byDay[i]))
  }

  /** The date is a whole number of weeks from the first such weekday; 1970-01-01 was a Thursday, 3. */
  predicate IsOn(date: int, weekday: int) {
    0 <= weekday < 7 && (date + 3 - weekday) % 7 == 0
  }

  lemma WeekdaysAreNamed(weekdays: seq<int>, date: int)
    ensures Weekday(date) in weekdays <==> exists i :: 0 <= i < |weekdays| && IsOn(date, weekdays[i])
  {
    forall d ensures Weekday(date) == d <==> IsOn(date, d) {
    }
    hide Weekday, IsOn;
    if i :| 0 <= i < |weekdays| && IsOn(date, weekdays[i]) {
      assert weekdays[i] in weekdays;
    }
    if Weekday(date) in weekdays {
      var i :| 0 <= i < |weekdays| && weekdays[i] == Weekday(date);
    }
  }

  lemma MonthsAreNamed(months: seq<int>, date: int)
    ensures MonthOf(date) % 12 + 1 in months <==> exists i :: 0 <= i < |months| && months[i] == MonthNumber(date)
  {
    hide MonthOf;
    assert MonthNumber(date) == MonthOf(date) % 12 + 1;
    hide MonthNumber;
    if i :| 0 <= i < |months| && months[i] == MonthNumber(date) {
      assert months[i] in months;
    }
  }

  lemma KeepsExactlyWhen(r: Rule, l: Local)
    ensures Keeps(r, l) <==> Fits(r, l)
  {
    var date := l / 86_400;
    hide MonthOf, Weekday, MonthNumber, MonthDayMatches, IsDayNamed, IsOn;
    MonthsAreNamed(r.byMonth, date);
    DaysAreNamed(r.byMonthDay, date);
    WeekdaysAreNamed(r.byDay, date);
  }

  lemma DaysAreNamed(tokens: seq<int>, date: int)
    ensures MonthDayMatches(tokens, date) <==>
              (|tokens| > 0 ==> exists i :: 0 <= i < |tokens| && IsDayNamed(date, tokens[i]))
  {
    hide MonthOf, DayOfMonth, MonthLength;
    forall t ensures IsDayNamed(date, t) <==>
                     DayOfMonth(date) == if t > 0 then t else MonthLength(MonthOf(date)) + 1 + t {
    }
    hide IsDayNamed;
    if MonthDayMatches(tokens, date) && tokens != [] {
      var t :| t in tokens && DayOfMonth(date) == if t > 0 then t else MonthLength(MonthOf(date)) + 1 + t;
      var i :| 0 <= i < |tokens| && tokens[i] == t;
      assert IsDayNamed(date, tokens[i]);
    }
    if i :| 0 <= i < |tokens| && IsDayNamed(date, tokens[i]) {
      assert tokens[i] in tokens;
    }
  }

  // ----- Occurrences -----

  /** With no COUNT, what happens up to the horizon: steps of the rule that fit its BY parts. */
  ghost predicate Happens(r: Rule, start: Local, offset: int, horizon: Timestamp, t: Timestamp) {
    t <= horizon && OnStep(r, start, t + offset) && Fits(r, t + offset)
  }

  /** `earlier` lists, once each and in order, everything that happens before `t`. */
  ghost predicate ListsBefore(earlier: seq<Timestamp>, r: Rule, start: Local, offset: int, horizon: Timestamp,
                              t: Timestamp) {
    && P.Ascending(earlier)
    && forall u :: u in earlier <==> u < t && Happens(r, start, offset, horizon, u)
  }

  /** The kept candidates before the `k`-th are everything that happens before it. */
  lemma KeptAreTheEarlier(r: Rule, start: Local, offset: int, horizon: Timestamp, t: Timestamp, k: nat)
    requires r.interval >= 1 && (k == 0 || Recurs(r))
    requires t == Candidate(r, start, k) - offset && t <= horizon
    ensures ListsBefore(KeptAmong(r, start, offset, k), r, start, offset, horizon, t)
  {
    hide OnStep, Fits, Recurs, Candidate, Keeps, KeptAmong;
    KeptAmongMembers(r, start, offset, k);
    forall u ensures u in KeptAmong(r, start, offset, k) <==> u < t && Happens(r, start, offset, horizon, u) {
      CandidatesAreTheSteps(r, start, u + offset);
      KeepsExactlyWhen(r, u + offset);
      if u in KeptAmong(r, start, offset, k) {
        var j: nat :| j < k && Keeps(r, Candidate(r, start, j)) && u == Candidate(r, start, j) - offset;
        CandidatesAscend(r, start, j, k);
        assert u + offset == Candidate(r, start, j);
      }
      if u < t && Happens(r, start, offset, horizon, u) {
        var j: nat :| (j == 0 || Recurs(r)) && u + offset == Candidate(r, start, j);
        if k < j {
          CandidatesAscend(r, start, k, j);
        }
      }
    }
  }

  /** Fewer than COUNT have happened before, if there is one. */
  ghost predicate InCount(r: Rule, start: Local, offset: int, horizon: Timestamp, t: Timestamp) {
    r.count.Some? ==>
      exists earlier :: ListsBefore(earlier, r, start, offset, horizon, t) && |earlier| < r.count.value
  }

  lemma RankIsTheEarlier(r: Rule, start: Local, offset: int, horizon: Timestamp, t: Timestamp, k: nat)
    requires r.interval >= 1 && (k == 0 || Recurs(r))
    requires t == Candidate(r, start, k) - offset && t <= horizon
    ensures InCount(r, start, offset, horizon, t) <==> (r.count.Some? ==> Rank(r, start, offset, k) < r.count.value)
  {
    KeptAreTheEarlier(r, start, offset, horizon, t, k);
    var kept := KeptAmong(r, start, offset, k);
    hide Happens, Recurs, Candidate, KeptAmong;
    forall earlier | ListsBefore(earlier, r, start, offset, horizon, t) ensures earlier == kept {
      P.SameMembersSameRecord(earlier, kept);
    }
    hide ListsBefore;
    if r.count.Some? && Rank(r, start, offset, k) < r.count.value {
      assert ListsBefore(kept, r, start, offset, horizon, t) && |kept| < r.count.value;
    }
  }

  lemma OccurrenceAt(r: Rule, start: Local, offset: int, horizon: Timestamp, t: Timestamp, k: nat)
    requires r.interval >= 1 && (k == 0 || Recurs(r)) && t == Candidate(r, start, k) - offset
    ensures IsOccurrence(r, start, offset, horizon, t, k) <==>
              Happens(r, start, offset, horizon, t) && InCount(r, start, offset, horizon, t)
  {
    hide OnStep, Keeps, Fits, Candidate, Recurs, Rank, InCount;
    CandidatesAreTheSteps(r, start, t + offset);
    KeepsExactlyWhen(r, t + offset);
    assert t + offset == Candidate(r, start, k);
    if t <= horizon {
      RankIsTheEarlier(r, start, offset, horizon, t, k);
    }
  }

  /**
   * The occurrences of a rule, from its words alone: what happens up to the horizon, and with a COUNT
   * only while fewer have happened before.
   */
  lemma OccursExactlyWhen(r: Rule, start: Local, offset: int, horizon: Timestamp, t: Timestamp)
    requires r.interval >= 1
    ensures Occurs(r, start, offset, horizon, t) <==>
              Happens(r, start, offset, horizon, t) && InCount(r, start, offset, horizon, t)
  {
    hide OnStep, Fits, Candidate, Recurs, Keeps, Rank, InCount;
    if Occurs(r, start, offset, horizon, t) {
      var k: nat :| IsOccurrence(r, start, offset, horizon, t, k);
      OccurrenceAt(r, start, offset, horizon, t, k);
    }
    if Happens(r, start, offset, horizon, t) && InCount(r, start, offset, horizon, t) {
      CandidatesAreTheSteps(r, start, t + offset);
      hide IsOccurrence;
      var k: nat :| (k == 0 || Recurs(r)) && t + offset == Candidate(r, start, k);
      OccurrenceAt(r, start, offset, horizon, t, k);
    }
  }

  /**
   * So what expansion returns for any text, unless one of its two caps stopped it, is what the rule the
   * text reads as asks for, from its words alone.
   */
  lemma ExpandFollowsTheRule(text: string, first: Timestamp, until: Timestamp, endBy: Option<Timestamp>, offset: int,
                             out: seq<Timestamp>, n: nat, t: Timestamp)
    requires ReadRule(text).None? ==> out == []
    requires ReadRule(text).Some? ==>
                 Expanded(ReadRule(text).value, first + offset, offset, Horizon(until, endBy), out, n)
    requires n < MAX_ITERATIONS && |out| < MAX_OCCURRENCES
    ensures t in out <==>
              && ReadRule(text).Some?
              && var r, start := ReadRule(text).value, first + offset;
                 var horizon := if endBy.Some? && endBy.value < until then endBy.value else until;
                 Happens(r, start, offset, horizon, t) && InCount(r, start, offset, horizon, t)
  {
    hide ReadRule, Expanded, Occurs, Happens, InCount;
    ReadRuleSteps(text);
    ExpandReturnsTheGrid(text, first, until, endBy, offset, out, n, t);
    if ReadRule(text).Some? {
      OccursExactlyWhen(ReadRule(text).value, first + offset, offset, Horizon(until, endBy), t);
    }
  }

  /** A weekly rule that names weekdays happens at the time of the start on exactly those, from the start on. */
  lemma WeeklyOnWeekdays(r: Rule, start: Local, offset: int, horizon: Timestamp, t: Timestamp)
    requires r.frequency == "WEEKLY" && r.interval == 1 && r.byDay != [] && r.byMonthDay == [] && r.byMonth == []
    ensures Happens(r, start, offset, horizon, t) <==>
              && t <= horizon && start <= t + offset && (t + offset) % 86_400 == start % 86_400
              && exists d :: d in r.byDay && IsOn((t + offset) / 86_400, d)
  {
    DaysAfter(start, t + offset);
    hide After;
    assert OnStep(r, start, t + offset) <==> After(start, t + offset, 86_400);
    if Fits(r, t + offset) {
      var i :| 0 <= i < |r.byDay| && IsOn((t + offset) / 86_400, r.byDay[i]);
      assert r.byDay[i] in r.byDay;
    }
  }

  lemma DaysAfter(start: Local, l: Local)
    ensures After(start, l, 86_400) <==> start <= l && l % 86_400 == start % 86_400
  {
    if start <= l && l % 86_400 == start % 86_400 {
      var k: nat := (l - start) / 86_400;
      assert l == start + 86_400 * k;
    }
  }
}
