/** Statistics of past sessions: covered seconds and session counts per local day, and streaks. */
module Statistics {
  import opened Basics
  import opened CivilCalendar

  datatype SessionRecord = SessionRecord(profile: string, startedAt: Timestamp, endedAt: Option<Timestamp>)

  /** A half-open stretch of time, `[start, end)`. */
  datatype Span = Span(start: Timestamp, end: Timestamp)

  datatype DayStat = DayStat(day: int, blockedSeconds: nat, sessions: nat)

  datatype Stats = Stats(
    days: seq<DayStat>, currentStreak: nat, longestStreak: nat, totalBlockedSeconds: nat, totalSessions: nat)

  datatype Visit = Visit(index: nat, overlap: nat)

  /** From start to end, an open record lasting until `now`; never of negative length. */
  function SpanOf(r: SessionRecord, now: Timestamp): Span {
    Span(r.startedAt, Max(r.endedAt.GetOr(now), r.startedAt))
  }

  function SpansOf(records: seq<SessionRecord>, now: Timestamp): (spans: seq<Span>)
    ensures |spans| == |records| && forall i :: 0 <= i < |records| ==> spans[i] == SpanOf(records[i], now)
  {
    seq(|records|, i requires 0 <= i < |records| => SpanOf(records[i], now))
  }

  function DayStart(date: int, offset: int): Timestamp {
    date * DAY_SECONDS - offset
  }

  function OverlapOf(s: Span, from: Timestamp, to: Timestamp): nat {
    Max(Min(s.end, to) - Max(s.start, from), 0)
  }

  function OverlapOn(s: Span, date: int, offset: int): nat {
    OverlapOf(s, DayStart(date, offset), DayStart(date + 1, offset))
  }

  /** The session covers part of the day, or began on it. */
  predicate Touches(s: Span, date: int, offset: int) {
    OverlapOn(s, date, offset) > 0 || DayStart(date, offset) <= s.start < DayStart(date + 1, offset)
  }

  // ----- Walking the days -----

  /** The days among the first `n` from `first` that the span touches, in order. */
  function VisitsOf(s: Span, first: int, n: nat, offset: int): seq<Visit> {
    if n == 0 then []
    else
      var rest := VisitsOf(s, first, n - 1, offset);
      if Touches(s, first + n - 1, offset) then rest + [Visit(n - 1, OverlapOn(s, first + n - 1, offset))] else rest
  }

  lemma {:induction false} NoVisits(s: Span, first: int, n: nat, m: nat, offset: int)
    requires n <= m && forall date :: first + n <= date < first + m ==> !Touches(s, date, offset)
    ensures VisitsOf(s, first, m, offset) == VisitsOf(s, first, n, offset)
  {
    if n < m {
      NoVisits(s, first, n, m - 1, offset);
    }
  }

  lemma TouchedDates(s: Span, date: int, offset: int)
    requires s.start <= s.end && Touches(s, date, offset)
    ensures LocalDate(s.start, offset) <= date <= LocalDate(s.end, offset)
  {
    LocalDateBounds(s.start, offset);
    LocalDateBounds(s.end, offset);
  }

  /** Every local day of the window that the span touches, and how much of it is covered. */
  method ForEachLocalDay(s: Span, first: int, today: int, offset: int) returns (visits: seq<Visit>)
    requires s.start <= s.end && first <= today
    ensures visits == VisitsOf(s, first, today - first + 1, offset)
  {
    hide LocalDate, Touches, VisitsOf;
    visits := [];
    var date := Max(LocalDate(s.start, offset), first);
    var last := Min(LocalDate(s.end, offset), today);
    forall d | Touches(s, d, offset) ensures LocalDate(s.start, offset) <= d <= LocalDate(s.end, offset) {
      TouchedDates(s, d, offset);
    }
    VisitStep(s, first, 0, offset);
    NoVisits(s, first, 0, date - first, offset);
    while date <= last
      invariant first <= date
      invariant date > today + 1 ==> date == LocalDate(s.start, offset)
      invariant visits == VisitsOf(s, first, date - first, offset)
    {
      VisitStep(s, first, date - first, offset);
      var dayFrom, dayTo := DayStart(date, offset), DayStart(date + 1, offset);
      var overlap := Min(s.end, dayTo) - Max(s.start, dayFrom);
      if overlap > 0 || (dayFrom <= s.start && s.start < dayTo) {
        visits := visits + [Visit(date - first, Max(overlap, 0))];
      }
      date := date + 1;
    }
    if date <= today + 1 {
      NoVisits(s, first, date - first, today - first + 1, offset);
    } else {
      NoVisits(s, first, today - first + 1, date - first, offset);
    }
  }

  lemma VisitStep(s: Span, first: int, n: nat, offset: int)
    ensures VisitsOf(s, first, 0, offset) == []
    ensures var dayFrom, dayTo := DayStart(first + n, offset), DayStart(first + n + 1, offset);
            var overlap := Min(s.end, dayTo) - Max(s.start, dayFrom);
            VisitsOf(s, first, n + 1, offset) ==
              if overlap > 0 || dayFrom <= s.start < dayTo
              then VisitsOf(s, first, n, offset) + [Visit(n, Max(overlap, 0))]
              else VisitsOf(s, first, n, offset)
  {
  }

  // ----- Counters -----

  /** What the visits add to the counter at `i`. */
  function AmountAt(visits: seq<Visit>, i: nat): nat {
    if visits == [] then 0
    else
      var last := visits[|visits| - 1];
      AmountAt(visits[..|visits| - 1], i) + if last.index == i then last.overlap else 0
  }

  function Once(visits: seq<Visit>): (r: seq<Visit>)
    ensures |r| == |visits| && forall i :: 0 <= i < |r| ==> r[i] == Visit(visits[i].index, 1)
  {
    seq(|visits|, i requires 0 <= i < |visits| => Visit(visits[i].index, 1))
  }

  lemma AmountAppend(visits: seq<Visit>, v: Visit, i: nat)
    ensures AmountAt(visits + [v], i) == AmountAt(visits, i) + if v.index == i then v.overlap else 0
    ensures AmountAt(Once(visits + [v]), i) == AmountAt(Once(visits), i) + if v.index == i then 1 else 0
  {
    assert (visits + [v])[..|visits|] == visits;
    assert Once(visits + [v]) == Once(visits) + [Visit(v.index, 1)];
    assert (Once(visits) + [Visit(v.index, 1)])[..|visits|] == Once(visits);
  }

  /** One more date adds one visit at most. */
  lemma VisitGrows(s: Span, first: int, n: nat, offset: int, i: nat)
    ensures var visits, more := VisitsOf(s, first, n, offset), VisitsOf(s, first, n + 1, offset);
            var touched := i == n && Touches(s, first + n, offset);
            && (forall v :: v in more ==> v in visits || v.index == n)
            && AmountAt(more, i) == AmountAt(visits, i) + (if touched then OverlapOn(s, first + n, offset) else 0)
            && AmountAt(Once(more), i) == AmountAt(Once(visits), i) + if touched then 1 else 0
  {
    hide AmountAt, Once, Touches, OverlapOn;
    AmountAppend(VisitsOf(s, first, n, offset), Visit(n, OverlapOn(s, first + n, offset)), i);
  }

  lemma {:induction false} VisitAmounts(s: Span, first: int, n: nat, offset: int, i: nat)
    requires i < n
    ensures forall v :: v in VisitsOf(s, first, n, offset) ==> v.index < n
    ensures AmountAt(VisitsOf(s, first, n, offset), i) == OverlapOn(s, first + i, offset)
    ensures AmountAt(Once(VisitsOf(s, first, n, offset)), i) == if Touches(s, first + i, offset) then 1 else 0
  {
    hide AmountAt, Once, VisitsOf;
    UntouchedIsNothing(s, first + i, offset);
    if i < n - 1 {
      VisitAmounts(s, first, n - 1, offset, i);
    } else {
      NothingThere(s, first, n - 1, offset, i);
    }
    VisitGrows(s, first, n - 1, offset, i);
  }

  lemma UntouchedIsNothing(s: Span, date: int, offset: int)
    ensures !Touches(s, date, offset) ==> OverlapOn(s, date, offset) == 0
  {
  }

  lemma NoDays(s: Span, first: int, offset: int, i: nat)
    ensures VisitsOf(s, first, 0, offset) == [] && AmountAt([], i) == 0 && AmountAt(Once([]), i) == 0
  {
    hide Touches, OverlapOn;
    assert Once([]) == [];
  }

  lemma {:induction false} NothingThere(s: Span, first: int, n: nat, offset: int, i: nat)
    requires i >= n
    ensures forall v :: v in VisitsOf(s, first, n, offset) ==> v.index < n
    ensures AmountAt(VisitsOf(s, first, n, offset), i) == 0 && AmountAt(Once(VisitsOf(s, first, n, offset)), i) == 0
  {
    hide AmountAt, Once, VisitsOf;
    if n == 0 {
      NoDays(s, first, offset, i);
    } else {
      NothingThere(s, first, n - 1, offset, i);
      VisitGrows(s, first, n - 1, offset, i);
    }
  }

  /** Add each visit to its day's counter, stopping at the largest counter value. */
  method Credit(counts: seq<nat>, visits: seq<Visit>) returns (r: seq<nat>)
    requires forall v :: v in visits ==> v.index < |counts|
    requires forall i :: 0 <= i < |counts| ==> counts[i] <= MAX_U32
    ensures |r| == |counts|
    ensures forall i :: 0 <= i < |r| ==> r[i] == Min(counts[i] + AmountAt(visits, i), MAX_U32)
  {
    r := counts;
    for k := 0 to |visits|
      invariant |r| == |counts|
      invariant forall i :: 0 <= i < |r| ==> r[i] == Min(counts[i] + AmountAt(visits[..k], i), MAX_U32)
    {
      var v := visits[k];
      assert visits[..k + 1][..k] == visits[..k];
      assert v in visits;
      r := r[v.index := Min(r[v.index] + v.overlap, MAX_U32)];
    }
    assert visits[..|visits|] == visits;
  }

  // ----- Merging spans -----

  predicate SpanLe(a: Span, b: Span) {
    a.start < b.start || (a.start == b.start && a.end <= b.end)
  }

  function InsertSpan(sorted: seq<Span>, s: Span): seq<Span> {
    if sorted == [] || SpanLe(s, sorted[0]) then [s] + sorted else [sorted[0]] + InsertSpan(sorted[1..], s)
  }

  function SortSpans(spans: seq<Span>): seq<Span> {
    if spans == [] then [] else InsertSpan(SortSpans(spans[1..]), spans[0])
  }

  predicate ByStart(spans: seq<Span>) {
    forall i, j :: 0 <= i < j < |spans| ==> spans[i].start <= spans[j].start
  }

  lemma {:induction false} InsertSpanFacts(sorted: seq<Span>, s: Span)
    requires ByStart(sorted)
    ensures ByStart(InsertSpan(sorted, s))
    ensures forall t :: t in InsertSpan(sorted, s) <==> t == s || t in sorted
  {
    if sorted != [] && !SpanLe(s, sorted[0]) {
      InsertSpanFacts(sorted[1..], s);
      var rest := InsertSpan(sorted[1..], s);
      assert forall t :: t in sorted <==> t == sorted[0] || t in sorted[1..];
      forall i | 0 <= i < |rest| ensures sorted[0].start <= rest[i].start {
        assert rest[i] in rest;
      }
    }
  }

  lemma {:induction false} SortSpansFacts(spans: seq<Span>)
    ensures ByStart(SortSpans(spans))
    ensures forall t :: t in SortSpans(spans) <==> t in spans
  {
    if spans == [] {
    } else {
      SortSpansFacts(spans[1..]);
      InsertSpanFacts(SortSpans(spans[1..]), spans[0]);
      assert forall t :: t in spans <==> t == spans[0] || t in spans[1..];
    }
  }

  /** Some span covers the instant. */
  predicate Covered(spans: seq<Span>, x: Timestamp) {
    exists s :: s in spans && s.start <= x < s.end
  }

  /** In order and with a gap between neighbours. */
  predicate Apart(spans: seq<Span>) {
    && (forall i :: 0 <= i < |spans| ==> spans[i].start <= spans[i].end)
    && (forall i, j :: 0 <= i < j < |spans| ==> spans[i].end < spans[j].start)
  }

  lemma CoveredAppend(spans: seq<Span>, s: Span, x: Timestamp)
    ensures Covered(spans + [s], x) <==> Covered(spans, x) || s.start <= x < s.end
  {
    assert forall t :: t in spans + [s] <==> t in spans || t == s;
  }

  lemma StretchLast(spans: seq<Span>, s: Span)
    requires spans != [] && Apart(spans)
    requires s.start <= s.end && spans[|spans| - 1].start <= s.start <= spans[|spans| - 1].end
    ensures var n := |spans| - 1;
            var merged := spans[n := Span(spans[n].start, Max(spans[n].end, s.end))];
            Apart(merged) && forall x :: Covered(merged, x) <==> Covered(spans, x) || s.start <= x < s.end
  {
    var n := |spans| - 1;
    var last := Span(spans[n].start, Max(spans[n].end, s.end));
    var merged := spans[n := last];
    forall x ensures Covered(merged, x) <==> Covered(spans, x) || s.start <= x < s.end {
      hide Covered, Apart;
      assert merged == spans[..n] + [last] && spans == spans[..n] + [spans[n]];
      CoveredAppend(spans[..n], last, x);
      CoveredAppend(spans[..n], spans[n], x);
    }
  }

  lemma StartAnew(spans: seq<Span>, s: Span)
    requires Apart(spans) && s.start <= s.end && (spans != [] ==> spans[|spans| - 1].end < s.start)
    ensures Apart(spans + [s]) && forall x :: Covered(spans + [s], x) <==> Covered(spans, x) || s.start <= x < s.end
  {
    forall x ensures Covered(spans + [s], x) <==> Covered(spans, x) || s.start <= x < s.end {
      CoveredAppend(spans, s, x);
    }
  }

  /** Merge the sorted spans, so that overlapping sessions are counted once. */
  method MergeSpans(sorted: seq<Span>) returns (merged: seq<Span>)
    requires ByStart(sorted) && forall s :: s in sorted ==> s.start <= s.end
    ensures Apart(merged)
    ensures forall x :: Covered(merged, x) <==> Covered(sorted, x)
  {
    merged := [];
    assert Apart(merged);
    hide Apart, Covered;
    assert sorted[..0] == [];
    for i := 0 to |sorted|
      invariant Apart(merged)
      invariant i < |sorted| && merged != [] ==> merged[|merged| - 1].start <= sorted[i].start
      invariant forall x :: Covered(merged, x) <==> Covered(sorted[..i], x)
    {
      var s := sorted[i];
      assert s in sorted;
      if merged != [] && s.start <= merged[|merged| - 1].end {
        StretchLast(merged, s);
        var n := |merged| - 1;
        merged := merged[n := Span(merged[n].start, Max(merged[n].end, s.end))];
      } else {
        StartAnew(merged, s);
        merged := merged + [s];
      }
      forall x ensures Covered(sorted[..i + 1], x) <==> Covered(sorted[..i], x) || s.start <= x < s.end {
        assert sorted[..i + 1] == sorted[..i] + [s];
        CoveredAppend(sorted[..i], s, x);
      }
      assert i + 1 < |sorted| ==> s.start <= sorted[i + 1].start;
    }
    assert sorted[..|sorted|] == sorted;
  }

  // ----- The measure of a union -----

  /** How many instants of `[from, from + n)` some span covers. */
  function CoveredCount(spans: seq<Span>, from: Timestamp, n: nat): nat {
    if n == 0 then 0 else CoveredCount(spans, from, n - 1) + if Covered(spans, from + n - 1) then 1 else 0
  }

  lemma {:induction false} SameCoverSameCount(a: seq<Span>, b: seq<Span>, from: Timestamp, n: nat)
    requires forall x :: Covered(a, x) <==> Covered(b, x)
    ensures CoveredCount(a, from, n) == CoveredCount(b, from, n)
    ensures CoveredCount(a, from, n) <= n
  {
    if n == 0 {
    } else {
      SameCoverSameCount(a, b, from, n - 1);
    }
  }

  lemma {:induction false} DisjointCountsAdd(spans: seq<Span>, s: Span, from: Timestamp, n: nat)
    requires s.start <= s.end
    requires forall x :: s.start <= x < s.end ==> !Covered(spans, x)
    ensures CoveredCount(spans + [s], from, n) == CoveredCount(spans, from, n) + OverlapOf(s, from, from + n)
  {
    if n == 0 {
    } else {
      DisjointCountsAdd(spans, s, from, n - 1);
      CoveredAppend(spans, s, from + n - 1);
    }
  }

  function OverlapSum(spans: seq<Span>, date: int, offset: int): nat {
    if spans == [] then 0
    else OverlapSum(spans[..|spans| - 1], date, offset) + OverlapOn(spans[|spans| - 1], date, offset)
  }

  /** How many instants of the local day some span covers. */
  function CoveredSeconds(spans: seq<Span>, date: int, offset: int): nat {
    CoveredCount(spans, DayStart(date, offset), DayStart(date + 1, offset) - DayStart(date, offset))
  }

  /** For spans that keep apart, the overlaps with a day add up to the instants of it they cover. */
  lemma {:induction false} OverlapsMeasureTheCover(spans: seq<Span>, date: int, offset: int)
    requires Apart(spans)
    ensures OverlapSum(spans, date, offset) == CoveredSeconds(spans, date, offset)
  {
    hide CoveredCount, Touches;
    var from, n := DayStart(date, offset), DayStart(date + 1, offset) - DayStart(date, offset);
    if spans == [] {
      NothingCovered(from, n);
    } else {
      var k := |spans| - 1;
      OverlapsMeasureTheCover(spans[..k], date, offset);
      assert spans == spans[..k] + [spans[k]];
      ApartFromTheRest(spans, k);
      DisjointCountsAdd(spans[..k], spans[k], from, n);
      assert from + n == DayStart(date + 1, offset);
    }
  }

  lemma ApartFromTheRest(spans: seq<Span>, k: nat)
    requires Apart(spans) && |spans| == k + 1
    ensures spans[k].start <= spans[k].end
    ensures forall x :: spans[k].start <= x < spans[k].end ==> !Covered(spans[..k], x)
  {
  }

  lemma CoverIsSame(a: seq<Span>, b: seq<Span>, date: int, offset: int)
    requires forall x :: Covered(a, x) <==> Covered(b, x)
    ensures CoveredSeconds(a, date, offset) == CoveredSeconds(b, date, offset) <= DAY_SECONDS
  {
    SameCoverSameCount(a, b, DayStart(date, offset), DayStart(date + 1, offset) - DayStart(date, offset));
  }

  lemma {:induction false} NothingCovered(from: Timestamp, n: nat)
    ensures CoveredCount([], from, n) == 0
  {
    if n == 0 {
    } else {
      NothingCovered(from, n - 1);
    }
  }

  /** How many spans touch the day. */
  function TouchCount(spans: seq<Span>, date: int, offset: int): nat {
    if spans == [] then 0
    else TouchCount(spans[..|spans| - 1], date, offset) + if Touches(spans[|spans| - 1], date, offset) then 1 else 0
  }

  predicate InWindow(s: Span, first: int, today: int, offset: int) {
    exists date :: first <= date <= today && Touches(s, date, offset)
  }

  /** How many spans touch any day of the window, each counted once. */
  function WindowCount(spans: seq<Span>, first: int, today: int, offset: int): nat {
    if spans == [] then 0
    else
      WindowCount(spans[..|spans| - 1], first, today, offset)
      + if InWindow(spans[|spans| - 1], first, today, offset) then 1 else 0
  }

  lemma {:induction false} VisitedExactlyWhen(s: Span, first: int, n: nat, offset: int)
    ensures VisitsOf(s, first, n, offset) != [] <==>
                exists date :: first <= date < first + n && Touches(s, date, offset)
  {
    if n == 0 {
    } else {
      VisitedExactlyWhen(s, first, n - 1, offset);
      assert Touches(s, first + n - 1, offset) || !Touches(s, first + n - 1, offset);
    }
  }

  // ----- The two tallies -----

  lemma VisitsFacts(s: Span, first: int, n: nat, offset: int)
    ensures forall v :: v in VisitsOf(s, first, n, offset) ==> v.index < n
    ensures forall v :: v in Once(VisitsOf(s, first, n, offset)) ==> v.index < n
    ensures forall i :: 0 <= i < n ==> AmountAt(VisitsOf(s, first, n, offset), i) == OverlapOn(s, first + i, offset)
    ensures forall i :: 0 <= i < n ==> AmountAt(Once(VisitsOf(s, first, n, offset)), i) ==
                                       if Touches(s, first + i, offset) then 1 else 0
  {
    hide VisitsOf, AmountAt, Touches, OverlapOn, Once;
    var visits := VisitsOf(s, first, n, offset);
    NothingThere(s, first, n, offset, n);
    forall v | v in Once(visits) ensures v.index < n {
      var k :| 0 <= k < |visits| && Once(visits)[k] == v;
      assert visits[k] in visits;
    }
    forall i | 0 <= i < n
      ensures AmountAt(visits, i) == OverlapOn(s, first + i, offset)
      ensures AmountAt(Once(visits), i) == if Touches(s, first + i, offset) then 1 else 0
    {
      VisitAmounts(s, first, n, offset, i);
    }
  }

  lemma NextSpan(spans: seq<Span>, k: nat, first: int, today: int, offset: int)
    requires k < |spans|
    ensures spans[k] in spans
    ensures WindowCount(spans[..k + 1], first, today, offset) ==
              WindowCount(spans[..k], first, today, offset) + if InWindow(spans[k], first, today, offset) then 1 else 0
    ensures forall date :: TouchCount(spans[..k + 1], date, offset) ==
                TouchCount(spans[..k], date, offset) + if Touches(spans[k], date, offset) then 1 else 0
    ensures forall date :: OverlapSum(spans[..k + 1], date, offset) ==
                OverlapSum(spans[..k], date, offset) + OverlapOn(spans[k], date, offset)
  {
    hide InWindow, Touches, OverlapOn;
    assert spans[..k + 1][..k] == spans[..k];
  }

  lemma NoSpans(first: int, today: int, offset: int)
    ensures WindowCount([], first, today, offset) == 0
    ensures forall date :: TouchCount([], date, offset) == 0 && OverlapSum([], date, offset) == 0
  {
  }

  method CountSessions(spans: seq<Span>, first: int, today: int, offset: int) returns (sessions: seq<nat>, total: nat)
    requires first <= today && forall s :: s in spans ==> s.start <= s.end
    ensures |sessions| == today - first + 1
    ensures forall i :: 0 <= i < |sessions| ==> sessions[i] == Min(TouchCount(spans, first + i, offset), MAX_U32)
    ensures total == Min(WindowCount(spans, first, today, offset), MAX_U32)
  {
    hide VisitsOf, AmountAt, Touches, OverlapOn, Once, TouchCount, WindowCount, InWindow;
    var n := today - first + 1;
    sessions, total := seq(n, _ => 0), 0;
    NoSpans(first, today, offset);
    assert spans[..0] == [];
    for k := 0 to |spans|
      invariant |sessions| == n
      invariant forall i :: 0 <= i < n ==> sessions[i] == Min(TouchCount(spans[..k], first + i, offset), MAX_U32)
      invariant total == Min(WindowCount(spans[..k], first, today, offset), MAX_U32)
    {
      NextSpan(spans, k, first, today, offset);
      var visits := ForEachLocalDay(spans[k], first, today, offset);
      VisitsFacts(spans[k], first, n, offset);
      InWindowExactlyWhen(spans[k], first, today, offset);
      sessions := Credit(sessions, Once(visits));
      if visits != [] {
        total := Min(total + 1, MAX_U32);
      }
    }
    assert spans[..|spans|] == spans;
  }

  lemma InWindowExactlyWhen(s: Span, first: int, today: int, offset: int)
    requires first <= today
    ensures VisitsOf(s, first, today - first + 1, offset) != [] <==> InWindow(s, first, today, offset)
  {
    VisitedExactlyWhen(s, first, today - first + 1, offset);
  }

  method CountSeconds(merged: seq<Span>, first: int, today: int, offset: int) returns (seconds: seq<nat>)
    requires first <= today && Apart(merged)
    ensures |seconds| == today - first + 1
    ensures forall i :: 0 <= i < |seconds| ==>
              seconds[i] == CoveredSeconds(merged, first + i, offset)
  {
    hide VisitsOf, AmountAt, Touches, OverlapOn, Once, OverlapSum, CoveredSeconds;
    var n := today - first + 1;
    seconds := seq(n, _ => 0);
    NoSpans(first, today, offset);
    assert merged[..0] == [];
    for k := 0 to |merged|
      invariant |seconds| == n
      invariant forall i :: 0 <= i < n ==> seconds[i] == Min(OverlapSum(merged[..k], first + i, offset), MAX_U32)
    {
      NextSpan(merged, k, first, today, offset);
      var visits := ForEachLocalDay(merged[k], first, today, offset);
      VisitsFacts(merged[k], first, n, offset);
      seconds := Credit(seconds, visits);
    }
    assert merged[..|merged|] == merged;
    forall i | 0 <= i < |seconds| ensures seconds[i] == CoveredSeconds(merged, first + i, offset) {
      OverlapsMeasureTheCover(merged, first + i, offset);
      CoverIsSame(merged, merged, first + i, offset);
    }
  }

  // ----- Streaks -----

  /** Every day of `[i, j)` was hit. */
  predicate Run(hit: seq<bool>, i: nat, j: nat) {
    i <= j <= |hit| && forall k :: i <= k < j ==> hit[k]
  }

  /** Days that can still end a streak: all of them, less today while today is empty. */
  function Settled(hit: seq<bool>): nat {
    if hit != [] && !hit[|hit| - 1] then |hit| - 1 else |hit|
  }

  /** The longest run of hit days, and the run that ends today or, while today is empty, yesterday. */
  ghost predicate StreaksAreRight(hit: seq<bool>, current: nat, longest: nat) {
    && (exists i: nat, j: nat :: Run(hit, i, j) && j - i == longest)
    && (forall i: nat, j: nat :: Run(hit, i, j) ==> j - i <= longest)
    && current <= longest
    && current <= Settled(hit) && Run(hit, Settled(hit) - current, Settled(hit))
    && (current < Settled(hit) ==> !hit[Settled(hit) - current - 1])
  }

  method Streaks(hit: seq<bool>) returns (current: nat, longest: nat)
    ensures StreaksAreRight(hit, current, longest)
  {
    longest := 0;
    var run: nat := 0;
    ghost var at: nat := 0;
    for k := 0 to |hit|
      invariant run <= k && Run(hit, k - run, k)
      invariant run < k ==> !hit[k - run - 1]
      invariant at <= |hit| && Run(hit, at, at + longest)
      invariant forall i: nat, j: nat :: j <= k && Run(hit, i, j) ==> j - i <= longest
    {
      run := if hit[k] then run + 1 else 0;
      if run > longest {
        at := k + 1 - run;
      }
      longest := Max(longest, run);
      assert run < k + 1 ==> !hit[k - run];
      forall i: nat, j: nat | j <= k + 1 && Run(hit, i, j) ensures j - i <= longest {
        assert i < j ==> hit[j - 1];
      }
    }
    current := 0;
    var i: nat := |hit|;
    if i > 0 && !hit[i - 1] {
      i := i - 1;
    }
    while i > 0 && hit[i - 1]
      invariant i + current == Settled(hit)
      invariant Run(hit, i, Settled(hit))
    {
      current := current + 1;
      i := i - 1;
    }
  }

  // ----- The summary -----

  function SumSeconds(days: seq<DayStat>): nat {
    if days == [] then 0 else SumSeconds(days[..|days| - 1]) + days[|days| - 1].blockedSeconds
  }

  /** The day had a session on it. */
  function Hits(days: seq<DayStat>): (hit: seq<bool>)
    ensures |hit| == |days| && forall i :: 0 <= i < |days| ==> hit[i] == (days[i].sessions > 0)
  {
    seq(|days|, i requires 0 <= i < |days| => days[i].sessions > 0)
  }

  /** The days are the window's, each with the seconds and the sessions that fall on it. */
  ghost predicate DaysAreRight(days: seq<DayStat>, spans: seq<Span>, first: int, offset: int) {
    forall i :: 0 <= i < |days| ==>
      && days[i].day == first + i
      && days[i].blockedSeconds == CoveredSeconds(spans, first + i, offset)
      && days[i].sessions == Min(TouchCount(spans, first + i, offset), MAX_U32)
  }

  /**
   * The last `days` local days, today included. Each day's seconds are the instants of it that at
   * least one session covers; each session touching the window is counted once in the total.
   */
  method Summarize(records: seq<SessionRecord>, now: Timestamp, offset: int, days: nat) returns (s: Stats)
    ensures |s.days| == Max(days, 1)
    ensures var today := LocalDate(now, offset); var first := today - (Max(days, 1) - 1);
            && DaysAreRight(s.days, SpansOf(records, now), first, offset)
            && s.totalSessions == Min(WindowCount(SpansOf(records, now), first, today, offset), MAX_U32)
    ensures s.totalBlockedSeconds == SumSeconds(s.days)
    ensures StreaksAreRight(Hits(s.days), s.currentStreak, s.longestStreak)
  {
    hide LocalDate, CoveredSeconds, TouchCount, WindowCount, Settled, Covered;
    var today := LocalDate(now, offset);
    var first := today - (Max(days, 1) - 1);
    var spans := SpansOf(records, now);
    var sessions, total := CountSessions(spans, first, today, offset);
    SortSpansFacts(spans);
    var merged := MergeSpans(SortSpans(spans));
    SameMembersSameCover(SortSpans(spans), spans);
    var seconds := CountSeconds(merged, first, today, offset);
    forall i | 0 <= i < |seconds| ensures seconds[i] == CoveredSeconds(spans, first + i, offset) {
      CoverIsSame(merged, spans, first + i, offset);
    }
    var out := DayStats(first, seconds, sessions);
    var current, longest := Streaks(Hits(out));
    var sum := TotalSeconds(out);
    s := Stats(out, current, longest, sum, total);
  }

  function DayStats(first: int, seconds: seq<nat>, sessions: seq<nat>): (days: seq<DayStat>)
    requires |seconds| == |sessions|
    ensures |days| == |seconds|
    ensures forall i :: 0 <= i < |days| ==> days[i] == DayStat(first + i, seconds[i], sessions[i])
  {
    seq(|seconds|, i requires 0 <= i < |seconds| => DayStat(first + i, seconds[i], sessions[i]))
  }

  method TotalSeconds(days: seq<DayStat>) returns (sum: nat)
    ensures sum == SumSeconds(days)
  {
    sum := 0;
    for i := 0 to |days|
      invariant sum == SumSeconds(days[..i])
    {
      assert days[..i + 1][..i] == days[..i];
      sum := sum + days[i].blockedSeconds;
    }
    assert days[..|days|] == days;
  }

  lemma SameMembersSameCover(a: seq<Span>, b: seq<Span>)
    requires forall s :: s in a <==> s in b
    ensures forall x :: Covered(a, x) <==> Covered(b, x)
  {
  }
}
