/** The edits a settings screen makes to a config: each leaves it sound or as it was. */
module ConfigEdits {
  import opened Basics
  import opened TargetMatch
  import opened SessionStore
  import opened Schedules
  import opened ConfigModel
  import opened Validation

  // ----- Keeping and placing -----

  /** The elements a test keeps, in order. */
  function Where<T>(xs: seq<T>, keep: T -> bool): (r: seq<T>)
    ensures |r| <= |xs|
  {
    if xs == [] then []
    else
      var rest, last := Where(xs[..|xs| - 1], keep), xs[|xs| - 1];
      if keep(last) then rest + [last] else rest
  }

  lemma {:induction false} WhereMembers<T>(xs: seq<T>, keep: T -> bool)
    ensures forall x :: x in Where(xs, keep) <==> x in xs && keep(x)
    ensures (forall x :: x in xs ==> keep(x)) ==> Where(xs, keep) == xs
  {
    if xs == [] {
    } else {
      var n := |xs| - 1;
      WhereMembers(xs[..n], keep);
      assert xs == xs[..n] + [xs[n]];
    }
  }

  lemma {:induction false} WhereOfSum<T>(xs: seq<T>, ys: seq<T>, keep: T -> bool)
    ensures Where(xs + ys, keep) == Where(xs, keep) + Where(ys, keep)
  {
    if ys == [] {
      assert xs + ys == xs;
    } else {
      var n := |ys| - 1;
      WhereOfSum(xs, ys[..n], keep);
      assert (xs + ys)[..|xs| + n] == xs + ys[..n];
    }
  }

  /** Whatever holds between every two elements still does between the ones kept. */
  lemma {:induction false} WhereKeepsPairs<T(!new)>(xs: seq<T>, keep: T -> bool, apart: (T, T) -> bool)
    requires forall i: nat, j: nat :: i < j < |xs| ==> apart(xs[i], xs[j])
    ensures forall i: nat, j: nat :: i < j < |Where(xs, keep)| ==> apart(Where(xs, keep)[i], Where(xs, keep)[j])
  {
    if xs == [] {
    } else {
      var n := |xs| - 1;
      var rest := Where(xs[..n], keep);
      WhereKeepsPairs(xs[..n], keep, apart);
      WhereMembers(xs[..n], keep);
      forall i: nat | i < |rest| ensures apart(rest[i], xs[n]) {
        assert rest[i] in xs[..n];
      }
    }
  }

  function WeeklyAt(weekly: seq<WeeklySchedule>, id: string): (i: nat)
    ensures i <= |weekly|
    ensures i < |weekly| ==> weekly[i].id == id
    ensures forall j :: 0 <= j < i ==> weekly[j].id != id
  {
    FirstWhere(weekly, (w: WeeklySchedule) => w.id == id)
  }

  function CalendarAt(calendars: seq<CalendarSchedule>, id: string): (i: nat)
    ensures i <= |calendars|
    ensures i < |calendars| ==> calendars[i].id == id
    ensures forall j :: 0 <= j < i ==> calendars[j].id != id
  {
    FirstWhere(calendars, (s: CalendarSchedule) => s.id == id)
  }

  /** The element put at `i`, or appended when that is past the end. */
  function Put<T>(xs: seq<T>, i: nat, x: T): seq<T>
    requires i <= |xs|
  {
    if i < |xs| then xs[i := x] else xs + [x]
  }

  // ----- What each edit makes of a config -----

  function WithRules(c: Config, i: nat, rules: seq<Rule>): Config
    requires i < |c.profiles|
  {
    c.(profiles := c.profiles[i := c.profiles[i].(rules := rules)])
  }

  function Placed(rules: seq<Rule>, rule: Rule): seq<Rule> {
    Put(rules, RuleAt(rules, Key(rule.target), rule.platforms), rule)
  }

  /** The config with `rule` in the place of the one with its identity, or after the others. */
  function WithRule(c: Config, profile: string, rule: Rule): Config
    requires FindProfile(c, profile).Some?
  {
    var i := ProfileAt(c.profiles, profile);
    WithRules(c, i, Placed(c.profiles[i].rules, rule))
  }

  function Unkeyed(rules: seq<Rule>, key: string): seq<Rule> {
    Where(rules, (r: Rule) => Key(r.target) != key)
  }

  function WithoutRule(c: Config, profile: string, key: string): Config {
    var i := ProfileAt(c.profiles, profile);
    if i == |c.profiles| then c else WithRules(c, i, Unkeyed(c.profiles[i].rules, key))
  }

  function WithProfile(c: Config, id: string, name: string, description: string): Config {
    var i := ProfileAt(c.profiles, id);
    var rules := if i < |c.profiles| then c.profiles[i].rules else [];
    c.(profiles := Put(c.profiles, i, Profile(id, name, description, rules)))
  }

  function WithoutProfile(c: Config, id: string): Config {
    c.(profiles := Where(c.profiles, (p: Profile) => p.id != id))
  }

  function WithWeekly(c: Config, w: WeeklySchedule): Config {
    c.(weekly := Put(c.weekly, WeeklyAt(c.weekly, w.id), w))
  }

  function WithCalendar(c: Config, s: CalendarSchedule): Config {
    c.(calendars := Put(c.calendars, CalendarAt(c.calendars, s.id), s))
  }

  /** A schedule still names the profile. */
  predicate Used(c: Config, id: string) {
    (exists w :: w in c.weekly && w.profile == id) || (exists s :: s in c.calendars && s.profile == id)
  }

  /** Same profile, same days, same two minutes: what the editor takes for the same window. */
  predicate Twins(w: WeeklySchedule, v: WeeklySchedule) {
    w.profile == v.profile && w.days == v.days && w.startMinute == v.startMinute && w.endMinute == v.endMinute
  }

  datatype Upserted = Added | Replaced | AlreadyPresent

  function OutcomeOf(weekly: seq<WeeklySchedule>, w: WeeklySchedule): Upserted {
    if WeeklyAt(weekly, w.id) < |weekly| then Replaced
    else if exists v :: v in weekly && Twins(v, w) then AlreadyPresent
    else Added
  }

  // ----- The app picker -----

  /** The rules the picker owns: plain blocks and budgets on an app, everywhere. */
  predicate PickerOwns(r: Rule) {
    r.target.AppPackage? && (r.action.Block? || r.action.Budget?) && r.platforms == []
  }

  function Unpicked(rules: seq<Rule>): seq<Rule> {
    Where(rules, r => !PickerOwns(r))
  }

  function PackagesOf(rules: seq<Rule>): (r: seq<string>)
    requires forall i :: 0 <= i < |rules| ==> PickerOwns(rules[i])
    ensures |r| == |rules| && forall i :: 0 <= i < |rules| ==> PickerOwns(rules[i]) && r[i] == rules[i].target.package
  {
    seq(|rules|, i requires 0 <= i < |rules| => assert PickerOwns(rules[i]); rules[i].target.package)
  }

  /** The packages a picker shows as ticked. */
  function BlockedApps(c: Config, profile: string): seq<string> {
    match FindProfile(c, profile)
    case None => []
    case Some(p) =>
      WhereMembers(p.rules, PickerOwns);
      PackagesOf(Where(p.rules, PickerOwns))
  }

  /** The first budget the picker owns on a package, and otherwise a plain block. */
  function ActionFor(rules: seq<Rule>, package: string): Action {
    if rules == [] then Block
    else if PickerOwns(rules[0]) && rules[0].action.Budget? && rules[0].target.package == package then rules[0].action
    else ActionFor(rules[1..], package)
  }

  function Picks(before: seq<Rule>, wanted: seq<string>): (r: seq<Rule>)
    ensures |r| == |wanted|
    ensures forall i :: 0 <= i < |wanted| ==> r[i] == Rule(AppPackage(wanted[i]), ActionFor(before, wanted[i]), [])
  {
    seq(|wanted|, i requires 0 <= i < |wanted| => Rule(AppPackage(wanted[i]), ActionFor(before, wanted[i]), []))
  }

  /** Insert in byte order, unless it is already there. */
  function InsertOnce(xs: seq<string>, s: string): seq<string> {
    if xs == [] then [s]
    else
      var last := xs[|xs| - 1];
      if last == s then xs
      else if StringLe(last, s) then xs + [s]
      else InsertOnce(xs[..|xs| - 1], s) + [last]
  }

  /** Sorted, and each once. */
  function Tidied(packages: seq<string>): seq<string> {
    if packages == [] then [] else InsertOnce(Tidied(packages[..|packages| - 1]), packages[|packages| - 1])
  }

  /** How many of the wanted packages come before the first blank one. */
  function BlankAt(wanted: seq<string>): (k: nat)
    ensures k <= |wanted|
    ensures k < |wanted| ==> Blank(wanted[k])
    ensures forall i :: 0 <= i < k ==> !Blank(wanted[i])
  {
    if wanted == [] || Blank(wanted[0]) then 0 else 1 + BlankAt(wanted[1..])
  }

  function WithPicks(c: Config, profile: string, wanted: seq<string>): Config
    requires FindProfile(c, profile).Some?
  {
    var i := ProfileAt(c.profiles, profile);
    WithRules(c, i, Unpicked(c.profiles[i].rules) + Picks(c.profiles[i].rules, wanted))
  }

  // ----- The document being edited -----

  datatype EditError = NoSuchProfile | Unsound(problem: Problem) | StillUsed | BlankPackage

  class Document {
    var config: Config

    constructor (config: Config)
      ensures this.config == config
    {
      this.config := config;
    }

    method UpsertRule(profile: string, rule: Rule) returns (error: Option<EditError>)
      modifies this
      ensures error.None? <==> FindProfile(old(config), profile).Some? && Valid(WithRule(old(config), profile, rule))
      ensures config == if error.None? then WithRule(old(config), profile, rule) else old(config)
    {
      hide Valid, Shows, RuleAt;
      var i := ProfileAt(config.profiles, profile);
      if i == |config.profiles| {
        return Some(NoSuchProfile);
      }
      var before := config.profiles[i].rules;
      var at := RuleAt(before, Key(rule.target), rule.platforms);
      config := WithRules(config, i, if at < |before| then before[at := rule] else before + [rule]);
      var problem := Validate(config);
      if problem.Some? {
        config := WithRules(config, i, before);
        return Some(Unsound(problem.value));
      }
      error := None;
    }

    method RemoveRule(profile: string, target: Target) returns (removed: nat)
      modifies this
      ensures config == WithoutRule(old(config), profile, Key(target))
      ensures removed == match FindProfile(old(config), profile)
                         case None => 0
                         case Some(p) => |p.rules| - |Unkeyed(p.rules, Key(target))|
    {
      var i := ProfileAt(config.profiles, profile);
      if i == |config.profiles| {
        return 0;
      }
      var before := config.profiles[i].rules;
      config := WithRules(config, i, Unkeyed(before, Key(target)));
      removed := |before| - |config.profiles[i].rules|;
    }

    /** Replace what the picker owns by exactly `packages`. A blank package stops it where it is. */
    method SetBlockedApps(profile: string, packages: seq<string>) returns (error: Option<EditError>)
      modifies this
      ensures FindProfile(old(config), profile).None? ==> error == Some(NoSuchProfile) && config == old(config)
      ensures FindProfile(old(config), profile).Some? ==>
                var wanted := Tidied(packages);
                && config == WithPicks(old(config), profile, wanted[..BlankAt(wanted)])
                && (error.None? <==> BlankAt(wanted) == |wanted| && Valid(config))
    {
      hide Valid, Shows, Blank, Tidied, ActionFor, PickerOwns, Unpicked;
      var i := ProfileAt(config.profiles, profile);
      if i == |config.profiles| {
        return Some(NoSuchProfile);
      }
      var before, wanted := config.profiles[i].rules, Tidied(packages);
      ghost var stop := BlankAt(wanted);
      config := WithRules(config, i, Unpicked(before));
      assert Unpicked(before) + Picks(before, wanted[..0]) == Unpicked(before);
      for k := 0 to |wanted|
        invariant k <= stop
        invariant config == WithRules(old(config), i, Unpicked(before) + Picks(before, wanted[..k]))
      {
        if Blank(wanted[k]) {
          return Some(BlankPackage);
        }
        var rule := Rule(AppPackage(wanted[k]), ActionFor(before, wanted[k]), []);
        assert Picks(before, wanted[..k + 1]) == Picks(before, wanted[..k]) + [rule];
        var added := config.profiles[i].rules + [rule];
        assert added == Unpicked(before) + Picks(before, wanted[..k + 1]);
        config := WithRules(config, i, added);
        assert config.profiles == old(config).profiles[i := old(config).profiles[i].(rules := added)];
      }
      assert wanted[..|wanted|] == wanted;
      var problem := Validate(config);
      error := if problem.Some? then Some(Unsound(problem.value)) else None;
    }

    method UpsertProfile(id: string, name: string, description: string) returns (error: Option<EditError>)
      modifies this
      ensures error.None? <==> Valid(WithProfile(old(config), id, name, description))
      ensures config == if error.None? then WithProfile(old(config), id, name, description) else old(config)
    {
      hide Valid, Shows;
      var before, i := config.profiles, ProfileAt(config.profiles, id);
      if i < |before| {
        config := config.(profiles := before[i := before[i].(name := name, description := description)]);
      } else {
        config := config.(profiles := before + [Profile(id, name, description, [])]);
      }
      var problem := Validate(config);
      if problem.Some? {
        config := config.(profiles := before);
        return Some(Unsound(problem.value));
      }
      error := None;
    }

    method RemoveProfile(id: string) returns (error: Option<EditError>)
      modifies this
      ensures error == if Used(old(config), id) then Some(StillUsed) else None
      ensures config == if Used(old(config), id) then old(config) else WithoutProfile(old(config), id)
    {
      if Used(config, id) {
        return Some(StillUsed);
      }
      config := config.(profiles := Where(config.profiles, (p: Profile) => p.id != id));
      error := None;
    }

    method UpsertWeekly(w: WeeklySchedule) returns (outcome: Result<Upserted, EditError>)
      modifies this
      ensures OutcomeOf(old(config).weekly, w) == AlreadyPresent ==>
                  outcome == Ok(AlreadyPresent) && config == old(config)
      ensures OutcomeOf(old(config).weekly, w) != AlreadyPresent ==>
                && (outcome.Ok? <==> Valid(WithWeekly(old(config), w)))
                && (outcome.Ok? ==> outcome.value == OutcomeOf(old(config).weekly, w))
                && config == if outcome.Ok? then WithWeekly(old(config), w) else old(config)
    {
      hide Valid, Shows, Twins;
      var before, i := config.weekly, WeeklyAt(config.weekly, w.id);
      if i < |before| {
        config := config.(weekly := before[i := w]);
        outcome := Ok(Replaced);
      } else if exists v :: v in before && Twins(v, w) {
        return Ok(AlreadyPresent);
      } else {
        config := config.(weekly := before + [w]);
        outcome := Ok(Added);
      }
      var problem := Validate(config);
      if problem.Some? {
        config := config.(weekly := before);
        return Err(Unsound(problem.value));
      }
    }

    method RemoveWeekly(id: string)
      modifies this
      ensures config == old(config).(weekly := Where(old(config).weekly, (w: WeeklySchedule) => w.id != id))
    {
      config := config.(weekly := Where(config.weekly, (w: WeeklySchedule) => w.id != id));
    }

    method UpsertCalendar(s: CalendarSchedule) returns (error: Option<EditError>)
      modifies this
      ensures error.None? <==> Valid(WithCalendar(old(config), s))
      ensures config == if error.None? then WithCalendar(old(config), s) else old(config)
    {
      hide Valid, Shows;
      var before, i := config.calendars, CalendarAt(config.calendars, s.id);
      config := config.(calendars := if i < |before| then before[i := s] else before + [s]);
      var problem := Validate(config);
      if problem.Some? {
        config := config.(calendars := before);
        return Some(Unsound(problem.value));
      }
      error := None;
    }

    method RemoveCalendar(id: string)
      modifies this
      ensures config == old(config).(calendars := Where(old(config).calendars, (s: CalendarSchedule) => s.id != id))
    {
      config := config.(calendars := Where(config.calendars, (s: CalendarSchedule) => s.id != id));
    }
  }
}
