/** Sound configs, and the checks that find what is wrong with the others. */
module Validation {
  import opened Basics
  import opened Text
  import opened Refills
  import opened Schedules
  import opened PassRation
  import opened ConfigModel

  datatype Kind = WeeklyKind | CalendarKind

  datatype Problem =
    | EmptyProfileId | Nameless(id: string) | DuplicateProfile(id: string)
    | ZeroLimit(profile: string) | ZeroRolling(profile: string)
    | Undefined(kind: Kind, id: string, profile: string)
    | EmptyScheduleId(kind: Kind) | DuplicateSchedule(kind: Kind, id: string)
    | UnlimitedQuota | NoGap | BadWindow(id: string)

  predicate Blank(s: string) {
    Trim(s) == ""
  }

  /** Every budget and launch limit leaves something to use. */
  predicate NotZero(a: Action) {
    (a.Budget? ==> a.seconds > 0) && (a.LaunchLimit? ==> a.count > 0)
  }

  /** A rolling window of zero seconds could never be spent. */
  predicate CanBeSpent(a: Action) {
    a.Budget? ==> a.refill != Rolling(0)
  }

  predicate SoundAction(a: Action) {
    NotZero(a) && CanBeSpent(a)
  }

  predicate SoundProfile(p: Profile) {
    !Blank(p.id) && !Blank(p.name) && forall r :: r in p.rules ==> SoundAction(r.action)
  }

  predicate SoundPolicy(e: Policy) {
    e.windowSeconds > 0 && (e.passes > 0 ==> e.cooldownSeconds > 0)
  }

  predicate DistinctProfiles(profiles: seq<Profile>) {
    forall i: nat, j: nat :: i < j < |profiles| ==> profiles[i].id != profiles[j].id
  }

  predicate DistinctWeekly(weekly: seq<WeeklySchedule>) {
    forall i: nat, j: nat :: i < j < |weekly| ==> weekly[i].id != weekly[j].id
  }

  predicate DistinctCalendars(calendars: seq<CalendarSchedule>) {
    forall i: nat, j: nat :: i < j < |calendars| ==> calendars[i].id != calendars[j].id
  }

  predicate Defines(profiles: seq<Profile>, id: string) {
    exists p :: p in profiles && p.id == id
  }

  predicate SoundWeekly(profiles: seq<Profile>, w: WeeklySchedule) {
    !Blank(w.id) && Defines(profiles, w.profile) && ValidWindow(w)
  }

  predicate SoundCalendar(profiles: seq<Profile>, c: CalendarSchedule) {
    !Blank(c.id) && Defines(profiles, c.profile)
  }

  predicate Valid(c: Config) {
    && (forall p :: p in c.profiles ==> SoundProfile(p)) && DistinctProfiles(c.profiles)
    && (forall w :: w in c.weekly ==> SoundWeekly(c.profiles, w)) && DistinctWeekly(c.weekly)
    && (forall s :: s in c.calendars ==> SoundCalendar(c.profiles, s)) && DistinctCalendars(c.calendars)
    && SoundPolicy(c.emergency)
  }

  lemma DefinesIsFinding(c: Config, id: string)
    ensures Defines(c.profiles, id) <==> FindProfile(c, id).Some?
  {
  }

  /** What a problem says of the config it was found in. */
  predicate Shows(c: Config, problem: Problem) {
    match problem
    case EmptyProfileId => exists p :: p in c.profiles && Blank(p.id)
    case Nameless(id) => exists p :: p in c.profiles && p.id == id && Blank(p.name)
    case DuplicateProfile(_) => !DistinctProfiles(c.profiles)
    case ZeroLimit(id) => exists p :: p in c.profiles && p.id == id && exists r :: r in p.rules && !NotZero(r.action)
    case ZeroRolling(id) =>
      exists p :: p in c.profiles && p.id == id && exists r :: r in p.rules && !CanBeSpent(r.action)
    case Undefined(_, _, profile) => FindProfile(c, profile).None?
    case EmptyScheduleId(WeeklyKind) => exists w :: w in c.weekly && Blank(w.id)
    case EmptyScheduleId(CalendarKind) => exists s :: s in c.calendars && Blank(s.id)
    case DuplicateSchedule(WeeklyKind, _) => !DistinctWeekly(c.weekly)
    case DuplicateSchedule(CalendarKind, _) => !DistinctCalendars(c.calendars)
    case UnlimitedQuota => c.emergency.windowSeconds == 0
    case NoGap => c.emergency.passes > 0 && c.emergency.cooldownSeconds == 0
    case BadWindow(id) => exists w :: w in c.weekly && w.id == id && !ValidWindow(w)
  }

  // ----- The checks, in the order they are made -----

  method CheckProfiles(c: Config) returns (problem: Option<Problem>)
    ensures problem.None? <==>
              && DistinctProfiles(c.profiles)
              && forall p :: p in c.profiles ==>
                   !Blank(p.id) && !Blank(p.name) && forall r :: r in p.rules ==> NotZero(r.action)
    ensures problem.Some? ==> Shows(c, problem.value)
  {
    var seen: set<string> := {};
    for i := 0 to |c.profiles|
      invariant forall id :: id in seen <==> exists j :: 0 <= j < i && c.profiles[j].id == id
      invariant forall j: nat, k: nat :: j < k < i ==> c.profiles[j].id != c.profiles[k].id
      invariant forall j :: 0 <= j < i ==>
                  && !Blank(c.profiles[j].id) && !Blank(c.profiles[j].name)
                  && forall r :: r in c.profiles[j].rules ==> NotZero(r.action)
    {
      hide Blank, NotZero;
      var p := c.profiles[i];
      assert p in c.profiles;
      if Blank(p.id) {
        return Some(EmptyProfileId);
      }
      if Blank(p.name) {
        return Some(Nameless(p.id));
      }
      if p.id in seen {
        return Some(DuplicateProfile(p.id));
      }
      seen := seen + {p.id};
      for k := 0 to |p.rules|
        invariant forall l :: 0 <= l < k ==> NotZero(p.rules[l].action)
      {
        assert p.rules[k] in p.rules;
        if !NotZero(p.rules[k].action) {
          return Some(ZeroLimit(p.id));
        }
      }
    }
    problem := None;
  }

  datatype Entry = Entry(kind: Kind, id: string, profile: string)

  /** Every schedule by kind, id and profile: the weekly windows, then the calendar rules. */
  function Entries(c: Config): (es: seq<Entry>)
    ensures |es| == |c.weekly| + |c.calendars|
    ensures forall i :: 0 <= i < |c.weekly| ==> es[i] == Entry(WeeklyKind, c.weekly[i].id, c.weekly[i].profile)
    ensures forall i :: 0 <= i < |c.calendars| ==>
              es[|c.weekly| + i] == Entry(CalendarKind, c.calendars[i].id, c.calendars[i].profile)
  {
    seq(|c.weekly|, i requires 0 <= i < |c.weekly| => Entry(WeeklyKind, c.weekly[i].id, c.weekly[i].profile))
    + seq(|c.calendars|, i requires 0 <= i < |c.calendars| =>
            Entry(CalendarKind, c.calendars[i].id, c.calendars[i].profile))
  }

  predicate SoundEntries(c: Config, es: seq<Entry>) {
    && (forall e :: e in es ==> FindProfile(c, e.profile).Some? && !Blank(e.id))
    && forall i: nat, j: nat :: i < j < |es| ==> es[i].kind != es[j].kind || es[i].id != es[j].id
  }

  lemma EntryIs(c: Config, i: nat)
    requires i < |Entries(c)|
    ensures i < |c.weekly| ==>
                Entries(c)[i] == Entry(WeeklyKind, c.weekly[i].id, c.weekly[i].profile) && c.weekly[i] in c.weekly
    ensures i >= |c.weekly| ==>
              var s := c.calendars[i - |c.weekly|];
              Entries(c)[i] == Entry(CalendarKind, s.id, s.profile) && s in c.calendars
  {
  }

  lemma UndefinedEntry(c: Config, e: Entry)
    requires FindProfile(c, e.profile).None?
    ensures Shows(c, Undefined(e.kind, e.id, e.profile))
  {
  }

  lemma BlankEntry(c: Config, i: nat)
    requires i < |Entries(c)| && Blank(Entries(c)[i].id)
    ensures Shows(c, EmptyScheduleId(Entries(c)[i].kind))
  {
    hide Blank, Entries;
    EntryIs(c, i);
  }

  lemma TwinEntries(c: Config, i: nat, j: nat)
    requires i < j < |Entries(c)| && Entries(c)[i].kind == Entries(c)[j].kind && Entries(c)[i].id == Entries(c)[j].id
    ensures Shows(c, DuplicateSchedule(Entries(c)[i].kind, Entries(c)[i].id))
  {
    hide Entries;
    EntryIs(c, i);
    EntryIs(c, j);
  }

  method CheckSchedules(c: Config) returns (problem: Option<Problem>)
    ensures problem.None? <==> SoundEntries(c, Entries(c))
    ensures problem.Some? ==> Shows(c, problem.value)
  {
    hide Blank, FindProfile, Shows, Entries;
    var es := Entries(c);
    var seen: set<(Kind, string)> := {};
    for i := 0 to |es|
      invariant forall kind, id :: (kind, id) in seen <==>
                    exists j :: 0 <= j < i && es[j].kind == kind && es[j].id == id
      invariant forall j: nat, k: nat :: j < k < i ==> es[j].kind != es[k].kind || es[j].id != es[k].id
      invariant forall j :: 0 <= j < i ==> FindProfile(c, es[j].profile).Some? && !Blank(es[j].id)
    {
      var e := es[i];
      assert e in es;
      if FindProfile(c, e.profile).None? {
        UndefinedEntry(c, e);
        return Some(Undefined(e.kind, e.id, e.profile));
      }
      if Blank(e.id) {
        BlankEntry(c, i);
        return Some(EmptyScheduleId(e.kind));
      }
      if (e.kind, e.id) in seen {
        var j :| 0 <= j < i && es[j].kind == e.kind && es[j].id == e.id;
        TwinEntries(c, j, i);
        return Some(DuplicateSchedule(e.kind, e.id));
      }
      seen := seen + {(e.kind, e.id)};
    }
    problem := None;
  }

  method CheckRolling(c: Config) returns (problem: Option<Problem>)
    ensures problem.None? <==> forall p :: p in c.profiles ==> forall r :: r in p.rules ==> CanBeSpent(r.action)
    ensures problem.Some? ==> Shows(c, problem.value)
  {
    for i := 0 to |c.profiles|
      invariant forall j :: 0 <= j < i ==> forall r :: r in c.profiles[j].rules ==> CanBeSpent(r.action)
    {
      var p := c.profiles[i];
      assert p in c.profiles;
      for k := 0 to |p.rules|
        invariant forall l :: 0 <= l < k ==> CanBeSpent(p.rules[l].action)
      {
        assert p.rules[k] in p.rules;
        if !CanBeSpent(p.rules[k].action) {
          return Some(ZeroRolling(p.id));
        }
      }
    }
    problem := None;
  }

  method CheckWindows(c: Config) returns (problem: Option<Problem>)
    ensures problem.None? <==> forall w :: w in c.weekly ==> ValidWindow(w)
    ensures problem.Some? ==> Shows(c, problem.value)
  {
    for i := 0 to |c.weekly|
      invariant forall j :: 0 <= j < i ==> ValidWindow(c.weekly[j])
    {
      var w := c.weekly[i];
      assert w in c.weekly;
      if w.startMinute >= 1_440 || w.endMinute >= 1_440 || w.startMinute == w.endMinute
         || exists d :: d in w.days && d > 6 {
        return Some(BadWindow(w.id));
      }
    }
    problem := None;
  }

  /** What the two lists of schedules have to be. */
  predicate SoundSchedules(c: Config) {
    && (forall w :: w in c.weekly ==> !Blank(w.id) && Defines(c.profiles, w.profile)) && DistinctWeekly(c.weekly)
    && (forall s :: s in c.calendars ==> SoundCalendar(c.profiles, s)) && DistinctCalendars(c.calendars)
  }

  lemma SoundEntriesSuffice(c: Config)
    requires SoundEntries(c, Entries(c))
    ensures SoundSchedules(c)
  {
    hide Blank, FindProfile, Defines, Entries;
    var es, n := Entries(c), |c.weekly|;
    forall w | w in c.weekly ensures !Blank(w.id) && Defines(c.profiles, w.profile) {
      var i :| 0 <= i < n && c.weekly[i] == w;
      assert es[i] in es;
      DefinesIsFinding(c, w.profile);
    }
    forall s | s in c.calendars ensures SoundCalendar(c.profiles, s) {
      var i :| 0 <= i < |c.calendars| && c.calendars[i] == s;
      assert es[n + i] in es;
      DefinesIsFinding(c, s.profile);
    }
    forall i: nat, j: nat | i < j < |c.calendars| ensures c.calendars[i].id != c.calendars[j].id {
      EntryIs(c, n + i);
      EntryIs(c, n + j);
    }
  }

  lemma SoundEntriesAreNeeded(c: Config)
    requires SoundSchedules(c)
    ensures SoundEntries(c, Entries(c))
  {
    hide Blank, FindProfile, Defines, Entries;
    var es := Entries(c);
    forall e | e in es ensures FindProfile(c, e.profile).Some? && !Blank(e.id) {
      var i :| 0 <= i < |es| && es[i] == e;
      EntryIs(c, i);
      DefinesIsFinding(c, e.profile);
    }
    forall i: nat, j: nat | i < j < |es| ensures es[i].kind != es[j].kind || es[i].id != es[j].id {
      EntryIs(c, i);
      EntryIs(c, j);
    }
  }

  /** Silent exactly on the configs that are sound, and truthful about the others. */
  method Validate(c: Config) returns (problem: Option<Problem>)
    ensures problem.None? <==> Valid(c)
    ensures problem.Some? ==> Shows(c, problem.value)
  {
    hide Blank, ValidWindow, NotZero, CanBeSpent, SoundEntries;
    if SoundEntries(c, Entries(c)) {
      SoundEntriesSuffice(c);
    }
    if SoundSchedules(c) {
      SoundEntriesAreNeeded(c);
    }
    problem := CheckProfiles(c);
    if problem.Some? {
      return;
    }
    problem := CheckSchedules(c);
    if problem.Some? {
      return;
    }
    if c.emergency.windowSeconds == 0 {
      return Some(UnlimitedQuota);
    }
    if c.emergency.passes > 0 && c.emergency.cooldownSeconds == 0 {
      return Some(NoGap);
    }
    problem := CheckRolling(c);
    if problem.Some? {
      return;
    }
    problem := CheckWindows(c);
  }
}
