/** What the figures of a summary count: instants of a day, and records, by what the records say. */
module StatisticsMeaning {
  import opened Basics
  import opened Statistics

  /** The session ran at the instant; one with no end yet runs until now. */
  predicate Covers(r: SessionRecord, x: Timestamp, now: Timestamp) {
    r.startedAt <= x && x < if r.endedAt.Some? then r.endedAt.value else now
  }

  predicate InDay(x: Timestamp, date: int, offset: int) {
    86_400 * date <= x + offset < 86_400 * (date + 1)
  }

  /** The session began on the day, or ran at some instant of it. */
  ghost predicate OnDay(r: SessionRecord, date: int, now: Timestamp, offset: int) {
    InDay(r.startedAt, date, offset) || exists x :: InDay(x, date, offset) && Covers(r, x, now)
  }

  ghost predicate OnSomeDay(r: SessionRecord, first: int, today: int, now: Timestamp, offset: int) {
    exists date :: first <= date <= today && OnDay(r, date, now, offset)
  }

  predicate SomeoneRan(records: seq<SessionRecord>, x: Timestamp, now: Timestamp) {
    exists r :: r in records && Covers(r, x, now)
  }

  /** The instants of `[from, from + n)` at which at least one session ran. */
  ghost function InstantsOf(records: seq<SessionRecord>, from: Timestamp, n: nat, now: Timestamp): set<Timestamp> {
    set x | from <= x < from + n && SomeoneRan(records, x, now)
  }

  ghost function RecordsOn(records: seq<SessionRecord>, date: int, now: Timestamp, offset: int): set<int> {
    set i | 0 <= i < |records| && OnDay(records[i], date, now, offset)
  }

  ghost function RecordsIn(records: seq<SessionRecord>, first: int, today: int, now: Timestamp, offset: int): set<int> {
    set i | 0 <= i < |records| && OnSomeDay(records[i], first, today, now, offset)
  }

  // ----- One record -----

  lemma SpanCovers(r: SessionRecord, x: Timestamp, now: Timestamp)
    ensures Covers(r, x, now) <==> SpanOf(r, now).start <= x < SpanOf(r, now).end
  {
  }

  lemma TouchesExactlyWhen(r: SessionRecord, date: int, now: Timestamp, offset: int)
    ensures Touches(SpanOf(r, now), date, offset) <==> OnDay(r, date, now, offset)
  {
    var s := SpanOf(r, now);
    forall x ensures Covers(r, x, now) <==> s.start <= x < s.end {
      SpanCovers(r, x, now);
    }
    if OverlapOn(s, date, offset) > 0 {
      var x := Max(s.start, DayStart(date, offset));
      assert InDay(x, date, offset) && Covers(r, x, now);
    }
  }

  // ----- Counting -----

  lemma {:induction false} InstantsAreCounted(records: seq<SessionRecord>, from: Timestamp, n: nat, now: Timestamp)
    ensures CoveredCount(SpansOf(records, now), from, n) == |InstantsOf(records, from, n, now)|
  {
    if n == 0 {
      assert InstantsOf(records, from, 0, now) == {};
    } else {
      InstantsAreCounted(records, from, n - 1, now);
      CoveredByRecords(records, from + n - 1, now);
      OneMoreInstant(records, from, n, now);
      hide InstantsOf, Covered, SomeoneRan;
    }
  }

  lemma OneMoreInstant(records: seq<SessionRecord>, from: Timestamp, n: nat, now: Timestamp)
    requires n > 0
    ensures var before, last := InstantsOf(records, from, n - 1, now), from + n - 1;
            && last !in before
            && InstantsOf(records, from, n, now) == if SomeoneRan(records, last, now) then before + {last} else before
  {
    hide SomeoneRan;
  }

  lemma CoveredByRecords(records: seq<SessionRecord>, x: Timestamp, now: Timestamp)
    ensures Covered(SpansOf(records, now), x) <==> SomeoneRan(records, x, now)
  {
    var spans := SpansOf(records, now);
    if Covered(spans, x) {
      var s :| s in spans && s.start <= x < s.end;
      var i :| 0 <= i < |spans| && spans[i] == s;
      SpanCovers(records[i], x, now);
      assert records[i] in records;
    }
    if r :| r in records && Covers(r, x, now) {
      var i :| 0 <= i < |records| && records[i] == r;
      SpanCovers(r, x, now);
      assert spans[i] in spans;
    }
  }

  /** The seconds of a day are the instants of it at which at least one session ran. */
  lemma SecondsOfTheDay(records: seq<SessionRecord>, date: int, now: Timestamp, offset: int)
    ensures CoveredSeconds(SpansOf(records, now), date, offset) ==
              |InstantsOf(records, 86_400 * date - offset, 86_400, now)|
  {
    InstantsAreCounted(records, 86_400 * date - offset, 86_400, now);
  }

  /** The sessions of a day are the records that began on it or ran in it. */
  lemma {:induction false} SessionsOfTheDay(records: seq<SessionRecord>, date: int, now: Timestamp, offset: int)
    ensures TouchCount(SpansOf(records, now), date, offset) == |RecordsOn(records, date, now, offset)|
  {
    hide OnDay, Touches;
    if records == [] {
      assert RecordsOn(records, date, now, offset) == {};
    } else {
      var n := |records| - 1;
      SessionsOfTheDay(records[..n], date, now, offset);
      TouchesExactlyWhen(records[n], date, now, offset);
      assert SpansOf(records, now)[..n] == SpansOf(records[..n], now);
      var before, all := RecordsOn(records[..n], date, now, offset), RecordsOn(records, date, now, offset);
      assert all == if OnDay(records[n], date, now, offset) then before + {n} else before;
    }
  }

  lemma InWindowExactlyWhen(r: SessionRecord, first: int, today: int, now: Timestamp, offset: int)
    ensures InWindow(SpanOf(r, now), first, today, offset) <==> OnSomeDay(r, first, today, now, offset)
  {
    hide OnDay, Touches;
    forall date ensures Touches(SpanOf(r, now), date, offset) <==> OnDay(r, date, now, offset) {
      TouchesExactlyWhen(r, date, now, offset);
    }
  }

  /** The sessions of the window are the records on some day of it, each once. */
  lemma {:induction false} SessionsOfTheWindow(records: seq<SessionRecord>, first: int, today: int, now: Timestamp,
                                               offset: int)
    ensures WindowCount(SpansOf(records, now), first, today, offset) == |RecordsIn(records, first, today, now, offset)|
  {
    hide OnSomeDay, InWindow;
    if records == [] {
      assert RecordsIn(records, first, today, now, offset) == {};
    } else {
      var n := |records| - 1;
      SessionsOfTheWindow(records[..n], first, today, now, offset);
      InWindowExactlyWhen(records[n], first, today, now, offset);
      assert SpansOf(records, now)[..n] == SpansOf(records[..n], now);
      var before := RecordsIn(records[..n], first, today, now, offset);
      var all := RecordsIn(records, first, today, now, offset);
      assert all == if OnSomeDay(records[n], first, today, now, offset) then before + {n} else before;
    }
  }

  /** What a summary says of its days and of its window, by what the records say. */
  lemma SummaryCounts(s: Stats, records: seq<SessionRecord>, first: int, today: int, now: Timestamp, offset: int)
    requires DaysAreRight(s.days, SpansOf(records, now), first, offset)
    requires s.totalSessions == Min(WindowCount(SpansOf(records, now), first, today, offset), MAX_U32)
    ensures forall i :: 0 <= i < |s.days| ==>
              && s.days[i].day == first + i
              && s.days[i].blockedSeconds == |InstantsOf(records, 86_400 * (first + i) - offset, 86_400, now)|
              && s.days[i].sessions == Min(|RecordsOn(records, first + i, now, offset)|, MAX_U32)
    ensures s.totalSessions == Min(|RecordsIn(records, first, today, now, offset)|, MAX_U32)
  {
    hide CoveredSeconds, TouchCount, WindowCount, InstantsOf, RecordsOn, RecordsIn;
    forall date
      ensures CoveredSeconds(SpansOf(records, now), date, offset) ==
                |InstantsOf(records, 86_400 * date - offset, 86_400, now)|
      ensures TouchCount(SpansOf(records, now), date, offset) == |RecordsOn(records, date, now, offset)|
    {
      SecondsOfTheDay(records, date, now, offset);
      SessionsOfTheDay(records, date, now, offset);
    }
    SessionsOfTheWindow(records, first, today, now, offset);
  }

  // ----- Over the window -----

  lemma {:induction false} CountsAdd(spans: seq<Span>, from: Timestamp, n: nat, m: nat)
    ensures CoveredCount(spans, from, n + m) == CoveredCount(spans, from, n) + CoveredCount(spans, from + n, m)
  {
    if m == 0 {
    } else {
      CountsAdd(spans, from, n, m - 1);
    }
  }

  lemma {:induction false} SecondsAddUp(days: seq<DayStat>, spans: seq<Span>, first: int, offset: int)
    requires DaysAreRight(days, spans, first, offset)
    ensures SumSeconds(days) == CoveredCount(spans, 86_400 * first - offset, 86_400 * |days|)
  {
    if days == [] {
    } else {
      var n := |days| - 1;
      SecondsAddUp(days[..n], spans, first, offset);
      CountsAdd(spans, 86_400 * first - offset, 86_400 * n, 86_400);
      assert days[n].blockedSeconds == CoveredSeconds(spans, first + n, offset);
    }
  }

  /** The total is every instant of the window at which some session ran; a day is in a streak by its records. */
  lemma TotalsCount(s: Stats, records: seq<SessionRecord>, first: int, now: Timestamp, offset: int)
    requires DaysAreRight(s.days, SpansOf(records, now), first, offset)
    ensures SumSeconds(s.days) == |InstantsOf(records, 86_400 * first - offset, 86_400 * |s.days|, now)|
    ensures |Hits(s.days)| == |s.days|
    ensures forall i :: 0 <= i < |s.days| ==> (Hits(s.days)[i] <==> RecordsOn(records, first + i, now, offset) != {})
  {
    SecondsAddUp(s.days, SpansOf(records, now), first, offset);
    InstantsAreCounted(records, 86_400 * first - offset, 86_400 * |s.days|, now);
    hide InstantsOf, RecordsOn, CoveredCount, CoveredSeconds, TouchCount;
    forall date ensures TouchCount(SpansOf(records, now), date, offset) == |RecordsOn(records, date, now, offset)| {
      SessionsOfTheDay(records, date, now, offset);
    }
  }
}
