/** Budgets: when an allowance starts over, and what has been used of it. */
module Refills {
  import opened Basics
  import opened CivilCalendar

  datatype Refill =
    | Never
    | Rolling(seconds: nat)
    | Daily(atMinute: nat)
    | Weekly(weekday: nat, atMinute: nat)
    | Monthly(day: nat, atMinute: nat)
  {
    /** The kinds that start over at fixed instants. */
    predicate Resets() {
      Daily? || Weekly? || Monthly?
    }
  }

  /** The day of the month a monthly refill falls on, clamped to the month. */
  function ClampedDay(month: int, day: nat): int {
    MonthStart(month) + Min(Min(Max(day, 1), 31), MonthLength(month)) - 1
  }

  /** Counts down from the wanted day to the first one the month has. */
  method ClampDay(month: int, day: nat) returns (date: int)
    ensures date == ClampedDay(month, day)
  {
    var d := Min(Max(day, 1), 31);
    while d >= 1
      invariant 0 <= d <= 31
      invariant d < Min(Max(day, 1), 31) ==> d >= MonthLength(month)
    {
      if d <= MonthLength(month) {
        return MonthStart(month) + d - 1;
      }
      d := d - 1;
    }
    assert false;
    date := MonthStart(month);
  }

  /** The latest date in the current period the refill is anchored to. */
  function Anchor(refill: Refill, today: int): int
    requires refill.Resets()
  {
    match refill
    case Daily(_) => today
    case Weekly(weekday, _) => today - (Weekday(today) - Min(weekday, 6)) % 7
    case Monthly(day, _) => ClampedDay(MonthOf(today), day)
  }

  function Previous(refill: Refill, date: int): int
    requires refill.Resets()
  {
    match refill
    case Daily(_) => date - 1
    case Weekly(_, _) => date - 7
    case Monthly(day, _) => ClampedDay(MonthOf(date) - 1, day)
  }

  function ResetOn(refill: Refill, date: int, offset: int): Timestamp
    requires refill.Resets()
  {
    LocalInstant(date, refill.atMinute, offset)
  }

  /** The instant the window current at `now` opened. */
  function WindowStart(refill: Refill, now: Timestamp, offset: int): Option<Timestamp> {
    match refill
    case Never => None
    case Rolling(seconds) => Some(now - seconds)
    case _ =>
      var anchor := Anchor(refill, LocalDate(now, offset));
      Some(if ResetOn(refill, anchor, offset) <= now then ResetOn(refill, anchor, offset)
           else ResetOn(refill, Previous(refill, anchor), offset))
  }

  /**
   * Step the anchor back until its reset is at or before `now`. Two tries always suffice: the third
   * and the fallback after it are never reached.
   */
  method WalkBack(refill: Refill, now: Timestamp, offset: int) returns (at: Timestamp)
    requires refill.Resets()
    ensures WindowStart(refill, now, offset) == Some(at)
  {
    var date := Anchor(refill, LocalDate(now, offset));
    PreviousIsPast(refill, now, offset);
    for tries := 0 to 3
      invariant tries <= 1
      invariant tries == 0 ==> date == Anchor(refill, LocalDate(now, offset))
      invariant tries == 1 ==>
                  && date == Previous(refill, Anchor(refill, LocalDate(now, offset)))
                  && ResetOn(refill, Anchor(refill, LocalDate(now, offset)), offset) > now
    {
      at := ResetOn(refill, date, offset);
      if at <= now {
        return at;
      }
      date := Previous(refill, date);
    }
    assert false;
    at := 0;
  }

  // ----- The window start is the latest reset -----

  /** The refill falls on this date. */
  predicate FallsOn(refill: Refill, date: int)
    requires refill.Resets()
  {
    match refill
    case Daily(_) => true
    case Weekly(weekday, _) => Weekday(date) == Min(weekday, 6)
    case Monthly(day, _) => date == ClampedDay(MonthOf(date), day)
  }

  /**
   * The refill is for this date: every one; those on its weekday, 0 being Monday and 1970-01-01 a
   * Thursday; those on its day of the month, or on the last day of a month without it.
   */
  predicate IsFor(refill: Refill, date: int)
    requires refill.Resets()
  {
    match refill
    case Daily(_) => true
    case Weekly(weekday, _) => (date + 3 - Min(weekday, 6)) % 7 == 0
    case Monthly(day, _) => DayOfMonth(date) == Min(Min(Max(day, 1), 31), MonthLength(MonthOf(date)))
  }

  /** The allowance starts over at this instant: at its minute of such a date, or at the midnight that ends it. */
  ghost predicate IsReset(refill: Refill, at: Timestamp, offset: int)
    requires refill.Resets()
  {
    exists date :: IsFor(refill, date) && at == 86_400 * date + 60 * Min(refill.atMinute, 1_440) - offset
  }

  lemma FallsOnExactlyWhen(refill: Refill, date: int)
    requires refill.Resets()
    ensures FallsOn(refill, date) <==> IsFor(refill, date)
  {
    hide MonthOf, MonthStart, MonthLength;
  }

  lemma ClampedStays(month: int, day: nat)
    ensures MonthStart(month) <= ClampedDay(month, day) < MonthStart(month + 1)
    ensures MonthOf(ClampedDay(month, day)) == month
  {
    hide MonthStart, MonthLength;
    MonthsAreContiguous(month);
    MonthIsUnique(ClampedDay(month, day), month);
  }

  lemma WeeklyAnchorFacts(weekday: nat, atMinute: nat, today: int, date: int)
    ensures var refill := Weekly(weekday, atMinute); var anchor := Anchor(refill, today);
            && FallsOn(refill, anchor) && FallsOn(refill, anchor - 7) && anchor <= today < anchor + 7
            && (FallsOn(refill, date) && anchor - 7 < date ==> date >= anchor)
            && (FallsOn(refill, date) && anchor < date ==> date > today)
  {
    var w := Min(weekday, 6);
    var back := (today + 3 - w) % 7;
    assert Anchor(Weekly(weekday, atMinute), today) == today - back;
    SameWeekday(today, w);
    if Weekday(date) == w {
      WeeksApart(date, today - back, w);
    }
  }

  /** Going back to a weekday lands on it, within the week. */
  lemma SameWeekday(today: int, w: int)
    requires 0 <= w < 7
    ensures var back := (today + 3 - w) % 7;
            0 <= back < 7 && Weekday(today - back) == w && Weekday(today - back - 7) == w
  {
    var q := (today + 3 - w) / 7;
    assert today + 3 - w == 7 * q + (today + 3 - w) % 7;
  }

  /** Two dates on one weekday are the same date or at least a week apart. */
  lemma WeeksApart(a: int, b: int, w: int)
    requires Weekday(a) == w && Weekday(b) == w
    ensures a == b || a >= b + 7 || a <= b - 7
  {
    var p, q := (a + 3) / 7, (b + 3) / 7;
    assert a + 3 == 7 * p + w && b + 3 == 7 * q + w;
  }

  lemma MonthlyAnchorFacts(day: nat, atMinute: nat, today: int, date: int)
    ensures var refill := Monthly(day, atMinute); var anchor := Anchor(refill, today);
            && FallsOn(refill, anchor) && FallsOn(refill, Previous(refill, anchor)) && Previous(refill, anchor) < today
            && (FallsOn(refill, date) && Previous(refill, anchor) < date ==> date >= anchor)
            && (FallsOn(refill, date) && anchor < date ==> date > today)
  {
    hide MonthStart, ClampedDay;
    var month, m := MonthOf(today), MonthOf(date);
    ClampedStays(month, day);
    ClampedStays(month - 1, day);
    assert month - 1 + 1 == month;
    if m > month {
      MonthsAscend(month + 1, m);
    } else if m < month - 1 {
      MonthsAscend(m + 1, month - 1);
    }
  }

  /** The anchor and the date before it are the two latest refill dates not after today, or just after. */
  lemma AnchorFacts(refill: Refill, today: int, date: int)
    requires refill.Resets()
    ensures FallsOn(refill, Anchor(refill, today)) && FallsOn(refill, Previous(refill, Anchor(refill, today)))
    ensures Previous(refill, Anchor(refill, today)) < today
    ensures FallsOn(refill, date) && Previous(refill, Anchor(refill, today)) < date ==> date >= Anchor(refill, today)
    ensures FallsOn(refill, date) && Anchor(refill, today) < date ==> date > today
  {
    match refill
    case Daily(_) =>
    case Weekly(weekday, atMinute) => WeeklyAnchorFacts(weekday, atMinute, today, date);
    case Monthly(day, atMinute) => MonthlyAnchorFacts(day, atMinute, today, date);
  }

  lemma PreviousIsPast(refill: Refill, now: Timestamp, offset: int)
    requires refill.Resets()
    ensures ResetOn(refill, Previous(refill, Anchor(refill, LocalDate(now, offset))), offset) <= now
  {
    AnchorFacts(refill, LocalDate(now, offset), 0);
    LocalDateBounds(now, offset);
    LocalInstantBounds(Previous(refill, Anchor(refill, LocalDate(now, offset))), refill.atMinute, offset);
  }

  /** The window start is the greatest reset instant at or before `now`. */
  lemma WindowStartIsTheLatestReset(refill: Refill, now: Timestamp, offset: int)
    requires refill.Resets()
    ensures var start := WindowStart(refill, now, offset).value;
            && IsReset(refill, start, offset) && start <= now
            && forall at :: IsReset(refill, at, offset) && at <= now ==> at <= start
  {
    var today := LocalDate(now, offset);
    var anchor := Anchor(refill, today);
    AnchorFacts(refill, today, anchor);
    PreviousIsPast(refill, now, offset);
    LocalDateBounds(now, offset);
    LocalInstantBounds(anchor, refill.atMinute, offset);
    LocalInstantBounds(Previous(refill, anchor), refill.atMinute, offset);
    var start := WindowStart(refill, now, offset).value;
    FallsOnExactlyWhen(refill, anchor);
    FallsOnExactlyWhen(refill, Previous(refill, anchor));
    forall at | IsReset(refill, at, offset) && at <= now ensures at <= start {
      var date :| IsFor(refill, date) && at == 86_400 * date + 60 * Min(refill.atMinute, 1_440) - offset;
      FallsOnExactlyWhen(refill, date);
      AnchorFacts(refill, today, date);
      LocalInstantBounds(date, refill.atMinute, offset);
    }
  }

  /** Time passing never reopens an older window. */
  lemma WindowStartIsMonotone(refill: Refill, now: Timestamp, later: Timestamp, offset: int)
    requires refill != Never && now <= later
    ensures WindowStart(refill, now, offset).value <= WindowStart(refill, later, offset).value
  {
    if refill.Resets() {
      WindowStartIsTheLatestReset(refill, now, offset);
      WindowStartIsTheLatestReset(refill, later, offset);
    }
  }

  // ----- Use -----

  datatype Rollup = Rollup(at: Timestamp, seconds: nat)

  predicate InWindow(at: Timestamp, from: Option<Timestamp>) {
    from.None? || at >= from.value
  }

  /** Seconds used since `from`; the total stops at the largest counter value instead of wrapping. */
  function UsedSince(rollups: seq<Rollup>, from: Option<Timestamp>): nat {
    if rollups == [] then 0
    else
      var n := |rollups| - 1;
      var before := UsedSince(rollups[..n], from);
      if InWindow(rollups[n].at, from) then Min(before + rollups[n].seconds, MAX_U32) else before
  }

  /** Opens since `from`, in a 32-bit counter. */
  function OpensSince(opens: seq<Timestamp>, from: Option<Timestamp>): nat {
    CountOpens(opens, from) % (MAX_U32 + 1)
  }

  function CountOpens(opens: seq<Timestamp>, from: Option<Timestamp>): nat {
    if opens == [] then 0
    else CountOpens(opens[..|opens| - 1], from) + if InWindow(opens[|opens| - 1], from) then 1 else 0
  }

  function TotalSince(rollups: seq<Rollup>, from: Option<Timestamp>): nat {
    if rollups == [] then 0
    else
      var n := |rollups| - 1;
      TotalSince(rollups[..n], from) + if InWindow(rollups[n].at, from) then rollups[n].seconds else 0
  }

  /** Saturating loses nothing that matters: a budget is spent exactly when the true total reaches it. */
  lemma {:induction false} SpentExactlyWhen(rollups: seq<Rollup>, from: Option<Timestamp>, budget: nat)
    requires budget <= MAX_U32
    ensures UsedSince(rollups, from) >= budget <==> TotalSince(rollups, from) >= budget
    ensures UsedSince(rollups, from) == Min(TotalSince(rollups, from), MAX_U32)
  {
    if rollups == [] {
    } else {
      SpentExactlyWhen(rollups[..|rollups| - 1], from, budget);
    }
  }

  /** The uses of a list that a window open since `from` holds, by position. */
  ghost function Since(instants: seq<Timestamp>, from: Option<Timestamp>): set<int> {
    set i | 0 <= i < |instants| && (from.Some? ==> from.value <= instants[i])
  }

  /** An open is counted once for every time it is listed in the window, from nothing, in a counter that wraps. */
  lemma {:induction false} OpensAreCounted(opens: seq<Timestamp>, from: Option<Timestamp>)
    ensures CountOpens(opens, from) == |Since(opens, from)|
    ensures OpensSince(opens, from) == |Since(opens, from)| % 0x1_0000_0000
  {
    if opens == [] {
      assert Since(opens, from) == {};
    } else {
      var n := |opens| - 1;
      OpensAreCounted(opens[..n], from);
      OneMoreOpen(opens, from);
      hide Since;
    }
  }

  lemma OneMoreOpen(opens: seq<Timestamp>, from: Option<Timestamp>)
    requires opens != []
    ensures var n := |opens| - 1; var before := Since(opens[..n], from);
            && n !in before
            && Since(opens, from) == if from.Some? ==> from.value <= opens[n] then before + {n} else before
  {
  }

  /** The first use of a list that a window holds, and what is used after it, make up the total. */
  lemma {:induction false} SecondsAreAdded(rollups: seq<Rollup>, from: Option<Timestamp>)
    ensures TotalSince(rollups, from) ==
              if rollups == [] then 0
              else (if from.Some? && rollups[0].at < from.value then 0 else rollups[0].seconds)
                   + TotalSince(rollups[1..], from)
  {
    if |rollups| > 1 {
      var n := |rollups| - 1;
      SecondsAreAdded(rollups[..n], from);
      assert rollups[..n][1..] == rollups[1..][..n - 1];
    } else if rollups != [] {
      assert rollups[..0] == [] && rollups[1..] == [];
    }
  }
}
