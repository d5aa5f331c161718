/** Recurrence rules: reading an RRULE, and expanding it into start instants. */
module Recurrence {
  import opened Basics
  import opened Text
  import opened CivilCalendar

  const MAX_OCCURRENCES: nat := 2_000
  const MAX_ITERATIONS: nat := 20_000

  // ----- Reading the rule -----

  function Upper(c: char): char {
    if 'a' <= c <= 'z' then (c as int - 32) as char else c
  }

  function UpperAll(s: string): (r: string)
    ensures |r| == |s| && forall i :: 0 <= i < |s| ==> r[i] == Upper(s[i])
  {
    seq(|s|, i requires 0 <= i < |s| => Upper(s[i]))
  }

  function IndexOf(s: string, c: char): (i: nat)
    ensures i <= |s| && (i < |s| ==> s[i] == c)
    ensures forall j :: 0 <= j < i ==> s[j] != c
  {
    if s == [] || s[0] == c then 0 else 1 + IndexOf(s[1..], c)
  }

  function Split(s: string, sep: char): (pieces: seq<string>)
    ensures pieces != []
    decreases |s|
  {
    var i := IndexOf(s, sep);
    if i == |s| then [s] else [s[..i]] + Split(s[i + 1..], sep)
  }

  /** `KEY=VALUE` pieces, upper-cased; a later piece replaces an earlier one with its key. */
  function PartsOf(pieces: seq<string>): map<string, string> {
    if pieces == [] then map[]
    else
      var before, piece := PartsOf(pieces[..|pieces| - 1]), pieces[|pieces| - 1];
      var i := IndexOf(piece, '=');
      if i == |piece| then before else before[UpperAll(piece[..i]) := UpperAll(piece[i + 1..])]
  }

  function DigitsValue(s: string): Option<nat> {
    if s == [] || !('0' <= s[|s| - 1] <= '9') then None
    else if |s| == 1 then Some(s[0] as nat - '0' as nat)
    else match DigitsValue(s[..|s| - 1])
         case None => None
         case Some(v) => Some(10 * v + (s[|s| - 1] as nat - '0' as nat))
  }

  /** A signed decimal within `[-limit - 1, limit]`, or nothing. */
  function ParseInt(s: string, limit: nat): Option<int> {
    var negative := s != [] && s[0] == '-';
    var digits := DigitsValue(if s != [] && (s[0] == '-' || s[0] == '+') then s[1..] else s);
    if digits.None? then None
    else if negative then (var d: int := digits.value; if d <= limit + 1 then Some(-d) else None)
    else if digits.value <= limit then Some(digits.value) else None
  }

  function WeekdayCode(code: string): Option<int> {
    var c := Trim(code);
    if c == "MO" then Some(0) else if c == "TU" then Some(1)
    else if c == "WE" then Some(2) else if c == "TH" then Some(3)
    else if c == "FR" then Some(4) else if c == "SA" then Some(5) else if c == "SU" then Some(6) else None
  }

  function IntToken(token: string): Option<int> {
    ParseInt(Trim(token), 0x7FFF_FFFF)
  }

  /** Every token read, or nothing at all when one of them cannot be. */
  function CollectTokens(tokens: seq<string>, parse: string -> Option<int>): Option<seq<int>> {
    if tokens == [] then Some([])
    else
      var before, last := CollectTokens(tokens[..|tokens| - 1], parse), parse(tokens[|tokens| - 1]);
      if before.None? || last.None? then None else Some(before.value + [last.value])
  }

  function CollectPart(parts: map<string, string>, key: string, parse: string -> Option<int>): Option<seq<int>> {
    if key in parts then CollectTokens(Split(parts[key], ','), parse) else Some([])
  }

  const REFUSED: set<string> := {"BYSETPOS", "BYWEEKNO", "BYYEARDAY", "BYHOUR", "BYMINUTE", "BYSECOND"}

  datatype Rule = Rule(
    frequency: string, interval: int, count: Option<int>,
    byDay: seq<int>, byMonthDay: seq<int>, byMonth: seq<int>)

  /** The rule, or nothing when it has a part or a token that cannot be honoured exactly. */
  function ReadRule(text: string): Option<Rule> {
    var parts := PartsOf(Split(text, ';'));
    var interval := if "INTERVAL" in parts then ParseInt(parts["INTERVAL"], 0x7FFF_FFFF_FFFF_FFFF).GetOr(1) else 1;
    var count :=
      if "COUNT" in parts && !StartsWith(parts["COUNT"], "-")
      then ParseInt(parts["COUNT"], 0xFFFF_FFFF_FFFF_FFFF) else None;
    var byDay, byMonthDay, byMonth :=
      CollectPart(parts, "BYDAY", WeekdayCode), CollectPart(parts, "BYMONTHDAY", IntToken),
      CollectPart(parts, "BYMONTH", IntToken);
    if parts.Keys * REFUSED != {} || byDay.None? || byMonthDay.None? || byMonth.None? then None
    else Some(Rule(if "FREQ" in parts then parts["FREQ"] else "", Max(interval, 1), count,
                   byDay.value, byMonthDay.value, byMonth.value))
  }

  lemma {:induction false} CollectedExactlyWhen(tokens: seq<string>, parse: string -> Option<int>)
    ensures CollectTokens(tokens, parse).Some? <==> forall t :: t in tokens ==> parse(t).Some?
    ensures CollectTokens(tokens, parse).Some? ==>
              && |CollectTokens(tokens, parse).value| == |tokens|
              && forall i :: 0 <= i < |tokens| ==> Some(CollectTokens(tokens, parse).value[i]) == parse(tokens[i])
  {
    if tokens == [] {
    } else {
      CollectedExactlyWhen(tokens[..|tokens| - 1], parse);
      assert tokens == tokens[..|tokens| - 1] + [tokens[|tokens| - 1]];
    }
  }

  // ----- Stepping -----

  /** A local wall-clock time, in seconds since local 1970-01-01 midnight. */
  type Local = int

  function DateOf(l: Local): int {
    l / DAY_SECONDS
  }

  /** `months` on: the same day, or the month's last if it has no such day, at the same time. */
  function MonthsLater(l: Local, months: int): Local {
    var target := MonthOf(DateOf(l)) + months;
    (MonthStart(target) + Min(DayOfMonth(DateOf(l)), MonthLength(target)) - 1) * DAY_SECONDS + l % DAY_SECONDS
  }

  lemma DayOfMonthBounds(date: int)
    ensures 1 <= DayOfMonth(date) <= MonthLength(MonthOf(date)) <= 31
  {
    hide MonthStart, MonthLength;
    MonthsAreContiguous(MonthOf(date));
  }

  method AddMonths(l: Local, months: int) returns (r: Local)
    ensures r == MonthsLater(l, months)
  {
    hide MonthStart, MonthLength, DayOfMonth, MonthOf;
    var target := MonthOf(DateOf(l)) + months;
    var day := DayOfMonth(DateOf(l));
    DayOfMonthBounds(DateOf(l));
    while day > MonthLength(target)
      invariant 1 <= day <= DayOfMonth(DateOf(l))
      invariant day < DayOfMonth(DateOf(l)) ==> day >= MonthLength(target)
    {
      day := day - 1;
    }
    r := (MonthStart(target) + day - 1) * DAY_SECONDS + l % DAY_SECONDS;
  }

  /** The length of a fixed step, for the frequencies that have one. */
  function FixedStep(r: Rule): Option<int> {
    if r.frequency == "SECONDLY" then Some(r.interval)
    else if r.frequency == "MINUTELY" then Some(60 * r.interval)
    else if r.frequency == "HOURLY" then Some(3600 * r.interval)
    else if r.frequency == "DAILY" then Some(DAY_SECONDS * r.interval)
    else if r.frequency == "WEEKLY" && r.byDay == [] then Some(7 * DAY_SECONDS * r.interval)
    else if r.frequency == "WEEKLY" && r.interval == 1 then Some(DAY_SECONDS)
    else None
  }

  /** The months in a step, for the frequencies counted in months. */
  function MonthStep(r: Rule): Option<int> {
    if r.frequency == "MONTHLY" then Some(r.interval)
    else if r.frequency == "YEARLY" then Some(r.interval * 12)
    else None
  }

  predicate Recurs(r: Rule) {
    FixedStep(r).Some? || MonthStep(r).Some?
  }

  /** The `k`-th candidate of a series that began at `start`. */
  function Candidate(r: Rule, start: Local, k: nat): Local
    requires k == 0 || Recurs(r)
  {
    if k == 0 then start
    else if FixedStep(r).Some? then start + FixedStep(r).value * k
    else MonthsLater(start, MonthStep(r).value * k)
  }

  /** One step from the cursor: fixed steps count from it, months from the start of the series. */
  method Advance(cursor: Local, start: Local, steps: nat, r: Rule) returns (next: Option<Local>)
    requires steps >= 1 && (steps > 1 ==> Recurs(r)) && cursor == Candidate(r, start, steps - 1)
    ensures next.Some? <==> Recurs(r)
    ensures next.Some? ==> next.value == Candidate(r, start, steps)
  {
    hide MonthsLater;
    var step := FixedStep(r);
    if step.Some? {
      assert step.value * steps == step.value * (steps - 1) + step.value;
      return Some(cursor + step.value);
    }
    if r.frequency == "MONTHLY" {
      var l := AddMonths(start, r.interval * steps);
      return Some(l);
    }
    if r.frequency == "YEARLY" {
      var l := AddMonths(start, r.interval * 12 * steps);
      return Some(l);
    }
    next := None;
  }

  predicate MonthDayMatches(tokens: seq<int>, date: int) {
    tokens == [] || exists t ::
        t in tokens && DayOfMonth(date) == if t > 0 then t else MonthLength(MonthOf(date)) + 1 + t
  }

  /** The cursor satisfies every BY part. */
  predicate Keeps(r: Rule, l: Local) {
    var date := DateOf(l);
    && (r.byMonth == [] || MonthOf(date) % 12 + 1 in r.byMonth)
    && MonthDayMatches(r.byMonthDay, date)
    && (r.byDay == [] || Weekday(date) in r.byDay)
  }

  /** The kept ones among the first `n` candidates, as instants. */
  function KeptAmong(r: Rule, start: Local, offset: int, n: nat): seq<Timestamp>
    requires n <= 1 || Recurs(r)
  {
    if n == 0 then []
    else
      var rest, l := KeptAmong(r, start, offset, n - 1), Candidate(r, start, n - 1);
      if Keeps(r, l) then rest + [l - offset] else rest
  }

  /** Why expansion stopped having looked at `n` candidates. */
  predicate Stops(r: Rule, start: Local, offset: int, n: nat, horizon: Timestamp, produced: nat)
    requires n <= 1 || Recurs(r)
  {
    || n == MAX_ITERATIONS || produced >= MAX_OCCURRENCES
    || (n >= 1 && !Recurs(r))
    || Candidate(r, start, n) - offset > horizon
    || (r.count.Some? && produced >= r.count.value)
  }

  /** The later end of a series: the caller's, or the rule's own when that is earlier. */
  function Horizon(until: Timestamp, endBy: Option<Timestamp>): Timestamp {
    if endBy.Some? then Min(endBy.value, until) else until
  }

  /**
   * `out` are the kept ones among the first `n` candidates, none of them past the horizon, and expansion had to
   * stop there.
   */
  predicate Expanded(r: Rule, start: Local, offset: int, horizon: Timestamp, out: seq<Timestamp>, n: nat) {
    && n <= MAX_ITERATIONS && (n <= 1 || Recurs(r))
    && out == KeptAmong(r, start, offset, n)
    && (forall k: nat :: k < n ==> Candidate(r, start, k) - offset <= horizon)
    && Stops(r, start, offset, n, horizon, |out|)
    && |out| <= MAX_OCCURRENCES && (r.count.Some? ==> |out| <= Max(r.count.value, 0))
  }

  /**
   * The occurrences of the rule `text` reads as. `endBy` is what its UNTIL part reads as, and `n` counts
   * the candidates looked at.
   */
  method Expand(text: string, first: Timestamp, until: Timestamp, endBy: Option<Timestamp>, offset: int)
    returns (out: seq<Timestamp>, ghost n: nat)
    ensures ReadRule(text).None? ==> out == []
    ensures ReadRule(text).Some? ==>
              Expanded(ReadRule(text).value, first + offset, offset, Horizon(until, endBy), out, n)
  {
    hide ReadRule, Keeps, Recurs, KeptAmong, Candidate;
    n := 0;
    out := [];
    var read := ReadRule(text);
    if read.None? {
      return;
    }
    var r := read.value;
    var start := first + offset;
    var horizon := Horizon(until, endBy);
    var cursor := start;
    var steps: nat := 0;
    Begins(r, start, offset);
    for i := 0 to MAX_ITERATIONS
      invariant n == steps == i && (n <= 1 || Recurs(r)) && (n == 1 ==> Recurs(r))
      invariant cursor == Candidate(r, start, n)
      invariant out == KeptAmong(r, start, offset, n)
      invariant forall k: nat :: k < n ==> Candidate(r, start, k) - offset <= horizon
      invariant |out| <= MAX_OCCURRENCES && (r.count.Some? ==> |out| <= Max(r.count.value, 0))
    {
      if cursor - offset > horizon || |out| >= MAX_OCCURRENCES {
        return;
      }
      if r.count.Some? && |out| >= r.count.value {
        return;
      }
      KeptNext(r, start, offset, n);
      if Keeps(r, cursor) {
        out := out + [cursor - offset];
      }
      steps := steps + 1;
      n := steps;
      var next := Advance(cursor, start, steps, r);
      if next.None? {
        return;
      }
      cursor := next.value;
    }
  }

  lemma Begins(r: Rule, start: Local, offset: int)
    ensures Candidate(r, start, 0) == start && KeptAmong(r, start, offset, 0) == []
  {
  }

  lemma KeptNext(r: Rule, start: Local, offset: int, n: nat)
    requires n == 0 || Recurs(r)
    ensures KeptAmong(r, start, offset, n + 1) ==
              if Keeps(r, Candidate(r, start, n))
              then KeptAmong(r, start, offset, n) + [Candidate(r, start, n) - offset]
              else KeptAmong(r, start, offset, n)
  {
    hide Keeps, Candidate, Recurs;
  }

  // ----- The grid -----

  /** The time of day is kept, and the date is the same day of the month `months` on, or its last. */
  lemma MonthsLaterNeverDrifts(l: Local, months: int)
    ensures var date := DateOf(MonthsLater(l, months)); var target := MonthOf(DateOf(l)) + months;
            && MonthsLater(l, months) % DAY_SECONDS == l % DAY_SECONDS
            && MonthOf(date) == target
            && DayOfMonth(date) == Min(DayOfMonth(DateOf(l)), MonthLength(target))
  {
    hide MonthStart, MonthLength;
    var target := MonthOf(DateOf(l)) + months;
    DayOfMonthBounds(DateOf(l));
    MonthsAreContiguous(target);
    var date := MonthStart(target) + Min(DayOfMonth(DateOf(l)), MonthLength(target)) - 1;
    assert DateOf(MonthsLater(l, months)) == date;
    MonthIsUnique(date, target);
  }

  lemma LaterMonthsAreLater(l: Local, a: int, b: int)
    requires a < b
    ensures MonthsLater(l, a) < MonthsLater(l, b)
  {
    hide MonthStart, MonthLength, MonthsLater;
    MonthsLaterNeverDrifts(l, a);
    MonthsLaterNeverDrifts(l, b);
    var m := MonthOf(DateOf(l));
    MonthsAscend(m + a + 1, m + b);
    assert DateOf(MonthsLater(l, a)) < DateOf(MonthsLater(l, b));
  }

  lemma NoMonthsLater(l: Local)
    ensures MonthsLater(l, 0) == l
  {
    hide MonthStart, MonthLength;
    DayOfMonthBounds(DateOf(l));
  }

  lemma CandidatesAscend(r: Rule, start: Local, j: nat, k: nat)
    requires Recurs(r) && r.interval >= 1 && j < k
    ensures Candidate(r, start, j) < Candidate(r, start, k)
  {
    hide MonthsLater;
    if FixedStep(r).Some? {
      var step := FixedStep(r).value;
      assert step >= 1;
      ProductAscends(step, j, k);
    } else {
      var step := MonthStep(r).value;
      ProductAscends(step, j, k);
      LaterMonthsAreLater(start, step * j, step * k);
      NoMonthsLater(start);
    }
  }

  lemma ProductAscends(step: int, j: nat, k: nat)
    requires step >= 1 && j < k
    ensures step * j < step * k
  {
    assert step * k == step * j + step * (k - j);
    assert step * (k - j) >= k - j;
  }

  /** Every rule that is read has a step of at least one. */
  lemma ReadRuleSteps(text: string)
    ensures ReadRule(text).Some? ==> ReadRule(text).value.interval >= 1
  {
  }

  /** How many of the first `k` candidates were kept: the rank COUNT is compared with. */
  function Rank(r: Rule, start: Local, offset: int, k: nat): nat
    requires k <= 1 || Recurs(r)
  {
    |KeptAmong(r, start, offset, k)|
  }

  lemma {:induction false} KeptAmongMembers(r: Rule, start: Local, offset: int, n: nat)
    requires n <= 1 || Recurs(r)
    requires r.interval >= 1
    ensures forall t :: t in KeptAmong(r, start, offset, n) <==>
              exists k: nat :: k < n && Keeps(r, Candidate(r, start, k)) && t == Candidate(r, start, k) - offset
    ensures forall i, j :: 0 <= i < j < |KeptAmong(r, start, offset, n)| ==>
              KeptAmong(r, start, offset, n)[i] < KeptAmong(r, start, offset, n)[j]
  {
    hide Keeps, Candidate, Recurs;
    if n == 0 {
    } else {
      var before, l := KeptAmong(r, start, offset, n - 1), Candidate(r, start, n - 1);
      KeptAmongMembers(r, start, offset, n - 1);
      forall k: nat | k < n - 1 ensures Candidate(r, start, k) < l {
        CandidatesAscend(r, start, k, n - 1);
      }
      forall i | 0 <= i < |before| ensures before[i] < l - offset {
        assert before[i] in before;
      }
    }
  }

  lemma {:induction false} RankGrows(r: Rule, start: Local, offset: int, j: nat, k: nat)
    requires j <= k && (k <= 1 || Recurs(r))
    ensures Rank(r, start, offset, j) <= Rank(r, start, offset, k)
    ensures j < k && Keeps(r, Candidate(r, start, j)) ==> Rank(r, start, offset, j) < Rank(r, start, offset, k)
    decreases k
  {
    hide Keeps, Candidate, Recurs, KeptAmong;
    if j < k {
      RankGrows(r, start, offset, j, k - 1);
      KeptNext(r, start, offset, k - 1);
    }
  }

  /**
   * With neither cap reached, the expansion is strictly increasing and is exactly the grid stepped
   * from the start, filtered by the BY parts and cut by COUNT and by the horizon.
   */
  lemma ExpansionIsTheGrid(r: Rule, start: Local, offset: int, n: nat, horizon: Timestamp, t: Timestamp)
    requires r.interval >= 1 && Recurs(r)
    requires forall k: nat :: k < n ==> Candidate(r, start, k) - offset <= horizon
    requires Stops(r, start, offset, n, horizon, Rank(r, start, offset, n))
    requires n < MAX_ITERATIONS && Rank(r, start, offset, n) < MAX_OCCURRENCES
    requires r.count.Some? ==> Rank(r, start, offset, n) <= Max(r.count.value, 0)
    ensures var out := KeptAmong(r, start, offset, n);
            && (forall i, j :: 0 <= i < j < |out| ==> out[i] < out[j])
            && (t in out <==>
                  exists k: nat ::
                    && t == Candidate(r, start, k) - offset && Keeps(r, Candidate(r, start, k)) && t <= horizon
                    && (r.count.Some? ==> Rank(r, start, offset, k) < r.count.value))
  {
    hide Keeps, Candidate, Recurs, KeptAmong;
    KeptAmongMembers(r, start, offset, n);
    var out := KeptAmong(r, start, offset, n);
    forall k: nat | t == Candidate(r, start, k) - offset && Keeps(r, Candidate(r, start, k)) && t <= horizon
      ensures k < n <==> (r.count.Some? ==> Rank(r, start, offset, k) < r.count.value)
    {
      if k < n {
        RankGrows(r, start, offset, k, n);
      } else {
        RankGrows(r, start, offset, n, k);
        if n < k {
          CandidatesAscend(r, start, n, k);
        }
      }
    }
  }

  /** An occurrence `COUNT` and the horizon allow: a kept candidate, by its rank among the kept ones. */
  ghost predicate Occurs(r: Rule, start: Local, offset: int, horizon: Timestamp, t: Timestamp) {
    exists k: nat :: IsOccurrence(r, start, offset, horizon, t, k)
  }

  predicate IsOccurrence(r: Rule, start: Local, offset: int, horizon: Timestamp, t: Timestamp, k: nat) {
    && (k == 0 || Recurs(r))
    && t == Candidate(r, start, k) - offset && Keeps(r, Candidate(r, start, k)) && t <= horizon
    && (r.count.Some? ==> Rank(r, start, offset, k) < r.count.value)
  }

  /**
   * What expansion returns for any text, unless one of its two caps stopped it: the occurrences of the
   * rule the text reads as, strictly increasing, and none when it does not read as one.
   */
  lemma ExpandReturnsTheGrid(text: string, first: Timestamp, until: Timestamp, endBy: Option<Timestamp>, offset: int,
                             out: seq<Timestamp>, n: nat, t: Timestamp)
    requires ReadRule(text).None? ==> out == []
    requires ReadRule(text).Some? ==>
                 Expanded(ReadRule(text).value, first + offset, offset, Horizon(until, endBy), out, n)
    requires n < MAX_ITERATIONS && |out| < MAX_OCCURRENCES
    ensures forall i, j :: 0 <= i < j < |out| ==> out[i] < out[j]
    ensures t in out <==>
              ReadRule(text).Some? && Occurs(ReadRule(text).value, first + offset, offset, Horizon(until, endBy), t)
  {
    ReadRuleSteps(text);
    hide ReadRule, Expanded, Occurs, Recurs, Horizon;
    if ReadRule(text).Some? {
      var r, start, horizon := ReadRule(text).value, first + offset, Horizon(until, endBy);
      if Recurs(r) {
        RecurringReturnsTheGrid(r, start, offset, horizon, out, n, t);
      } else {
        StartIsTheGrid(r, start, offset, horizon, out, n, t);
      }
    }
  }

  lemma RecurringReturnsTheGrid(r: Rule, start: Local, offset: int, horizon: Timestamp, out: seq<Timestamp>, n: nat,
                                t: Timestamp)
    requires r.interval >= 1 && Recurs(r) && Expanded(r, start, offset, horizon, out, n)
    requires n < MAX_ITERATIONS && |out| < MAX_OCCURRENCES
    ensures forall i, j :: 0 <= i < j < |out| ==> out[i] < out[j]
    ensures t in out <==> Occurs(r, start, offset, horizon, t)
  {
    hide Keeps, Candidate, Recurs, KeptAmong;
    ExpansionIsTheGrid(r, start, offset, n, horizon, t);
    if t in out {
      var k: nat :|
        && t == Candidate(r, start, k) - offset && Keeps(r, Candidate(r, start, k)) && t <= horizon
        && (r.count.Some? ==> Rank(r, start, offset, k) < r.count.value);
      assert IsOccurrence(r, start, offset, horizon, t, k);
    }
  }

  /** With no frequency to step by, the start is the only candidate. */
  lemma StartIsTheGrid(r: Rule, start: Local, offset: int, horizon: Timestamp, out: seq<Timestamp>, n: nat,
                       t: Timestamp)
    requires !Recurs(r) && Expanded(r, start, offset, horizon, out, n)
    requires n < MAX_ITERATIONS && |out| < MAX_OCCURRENCES
    ensures |out| <= 1
    ensures t in out <==> Occurs(r, start, offset, horizon, t)
  {
    hide Keeps, Recurs;
    assert KeptAmong(r, start, offset, 0) == [] && Candidate(r, start, 0) == start;
    assert Occurs(r, start, offset, horizon, t) <==> IsOccurrence(r, start, offset, horizon, t, 0);
  }

  /** A token that cannot be read refuses the whole rule, so nothing is expanded. */
  lemma UnreadableTokenRefuses(text: string, key: string, token: string)
    requires key == "BYDAY" || key == "BYMONTHDAY" || key == "BYMONTH"
    requires key in PartsOf(Split(text, ';')) && token in Split(PartsOf(Split(text, ';'))[key], ',')
    requires if key == "BYDAY" then WeekdayCode(token).None? else IntToken(token).None?
    ensures ReadRule(text).None?
  {
    var tokens := Split(PartsOf(Split(text, ';'))[key], ',');
    CollectedExactlyWhen(tokens, WeekdayCode);
    CollectedExactlyWhen(tokens, IntToken);
  }
}
