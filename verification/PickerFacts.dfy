/** What the app picker's saves mean, and when a declined window would have mattered. */
module PickerFacts {
  import opened Basics
  import opened TargetMatch
  import opened CivilCalendar
  import opened SessionStore
  import opened SessionFacts
  import opened Schedules
  import opened ConfigModel
  import opened Engine
  import opened Validation
  import opened ConfigEdits
  import opened EditFacts

  // ----- Sorted once -----

  predicate Ascending(xs: seq<string>) {
    forall i: nat, j: nat :: i < j < |xs| ==> StringLe(xs[i], xs[j]) && xs[i] != xs[j]
  }

  lemma {:induction false} InsertOnceFacts(xs: seq<string>, s: string)
    requires Ascending(xs)
    ensures Ascending(InsertOnce(xs, s))
    ensures forall x :: x in InsertOnce(xs, s) <==> x in xs || x == s
  {
    hide StringLe;
    if xs == [] {
    } else {
      var n := |xs| - 1;
      var last := xs[n];
      assert xs == xs[..n] + [last];
      StringLeTotal(last, s);
      if last != s && StringLe(last, s) {
        forall i: nat | i < n ensures StringLe(xs[i], s) && xs[i] != s {
          StringLeTrans(xs[i], last, s);
          if xs[i] == s {
            StringLeAntisym(last, s);
          }
        }
      } else if last != s {
        InsertOnceFacts(xs[..n], s);
        var rest := InsertOnce(xs[..n], s);
        forall i: nat | i < |rest| ensures StringLe(rest[i], last) && rest[i] != last {
          assert rest[i] in rest;
        }
      }
    }
  }

  /** Tidying loses and invents nothing, and is the same for every order and repetition. */
  lemma {:induction false} TidiedFacts(packages: seq<string>)
    ensures Ascending(Tidied(packages))
    ensures forall x :: x in Tidied(packages) <==> x in packages
  {
    if packages == [] {
    } else {
      var n := |packages| - 1;
      TidiedFacts(packages[..n]);
      InsertOnceFacts(Tidied(packages[..n]), packages[n]);
      assert packages == packages[..n] + [packages[n]];
    }
  }

  // ----- What a save means -----

  lemma {:induction false} ActionForFacts(rules: seq<Rule>, package: string)
    ensures ActionFor(rules, package) == Block || ActionFor(rules, package).Budget?
    ensures ActionFor(rules, package).Budget? ==> Rule(AppPackage(package), ActionFor(rules, package), []) in rules
    ensures ActionFor(rules, package) == Block ==>
              forall r :: r in rules && PickerOwns(r) && r.target.package == package ==> r.action == Block
  {
    if rules == [] {
    } else {
      ActionForFacts(rules[1..], package);
      assert rules == [rules[0]] + rules[1..];
    }
  }

  /** A plain budget on the package: one the picker shows and keeps. */
  predicate IsBudgetOn(r: Rule, package: string) {
    r.target == AppPackage(package) && |r.platforms| == 0 && r.action.Budget?
  }

  /** What a ticked package is given: the first plain budget it had, and without one a block. */
  ghost predicate IsGiven(before: seq<Rule>, package: string, a: Action) {
    || (exists i :: 0 <= i < |before| && IsBudgetOn(before[i], package) && a == before[i].action
                    && forall j :: 0 <= j < i ==> !IsBudgetOn(before[j], package))
    || (a == Block && forall i :: 0 <= i < |before| ==> !IsBudgetOn(before[i], package))
  }

  lemma {:induction false} ActionForIsGiven(before: seq<Rule>, package: string)
    ensures IsGiven(before, package, ActionFor(before, package))
  {
    if before == [] {
    } else if IsBudgetOn(before[0], package) {
      assert ActionFor(before, package) == before[0].action;
    } else {
      var rest, a := before[1..], ActionFor(before[1..], package);
      ActionForIsGiven(rest, package);
      assert ActionFor(before, package) == a;
      if i :| 0 <= i < |rest| && IsBudgetOn(rest[i], package) && a == rest[i].action
              && forall j :: 0 <= j < i ==> !IsBudgetOn(rest[j], package) {
        forall j | 0 <= j < i + 1 ensures !IsBudgetOn(before[j], package) {
          assert j > 0 ==> before[j] == rest[j - 1];
        }
        assert IsBudgetOn(before[i + 1], package);
      } else {
        forall j | 0 <= j < |before| ensures !IsBudgetOn(before[j], package) {
          assert j > 0 ==> before[j] == rest[j - 1];
        }
      }
    }
  }

  lemma OneIsGiven(before: seq<Rule>, package: string, a: Action, b: Action)
    requires IsGiven(before, package, a) && IsGiven(before, package, b)
    ensures a == b
  {
  }

  /** A rule the picker shows as a tick: a plain block or budget on an app, on every platform. */
  ghost predicate IsTick(r: Rule) {
    |r.platforms| == 0 && (exists x :: r.target == AppPackage(x)) && (r.action == Block || r.action.Budget?)
  }

  /**
   * The rules after a save: the ones that were no tick, as they were, and for each package one for every
   * platform, with what it is given.
   */
  lemma SavedRulesAre(c: Config, profile: string, wanted: seq<string>, r: Rule)
    requires FindProfile(c, profile).Some?
    ensures FindProfile(WithPicks(c, profile, wanted), profile).Some?
    ensures var before := FindProfile(c, profile).value.rules;
            r in FindProfile(WithPicks(c, profile, wanted), profile).value.rules <==>
              || (r in before && !IsTick(r))
              || exists k :: 0 <= k < |wanted| && r.target == AppPackage(wanted[k]) && r.platforms == []
                             && IsGiven(before, wanted[k], r.action)
  {
    hide WithPicks, ActionFor, IsGiven;
    OwnedAfterPicks(c, profile, wanted);
    var before := FindProfile(c, profile).value.rules;
    WhereMembers(before, x => !PickerOwns(x));
    assert PickerOwns(r) <==> IsTick(r) by {
      assert r.target.AppPackage? ==> r.target == AppPackage(r.target.package);
    }
    forall x, a ensures IsGiven(before, x, a) <==> a == ActionFor(before, x) {
      ActionForIsGiven(before, x);
      if IsGiven(before, x, a) {
        OneIsGiven(before, x, a, ActionFor(before, x));
      }
    }
    var picks := Picks(before, wanted);
    if r in picks {
      var k :| 0 <= k < |picks| && picks[k] == r;
    }
    if k :| 0 <= k < |wanted| && r.target == AppPackage(wanted[k]) && r.platforms == []
            && IsGiven(before, wanted[k], r.action) {
      assert picks[k] == r;
    }
  }

  lemma OwnedAfterPicks(c: Config, profile: string, wanted: seq<string>)
    requires FindProfile(c, profile).Some?
    ensures var i := ProfileAt(c.profiles, profile);
            var before := c.profiles[i].rules;
            var next := WithPicks(c, profile, wanted);
            && FindProfile(next, profile) == Some(c.profiles[i].(rules := Unpicked(before) + Picks(before, wanted)))
            && Where(FindProfile(next, profile).value.rules, PickerOwns) == Picks(before, wanted)
            && Unpicked(FindProfile(next, profile).value.rules) == Unpicked(before)
  {
    hide ActionFor, ProfileAt, PickerOwns, Where, Picks;
    var i := ProfileAt(c.profiles, profile);
    var before := c.profiles[i].rules;
    OtherProfilesStay(c, i, Unpicked(before) + Picks(before, wanted), profile);
    WhereOfSum(Unpicked(before), Picks(before, wanted), PickerOwns);
    WhereOfSum(Unpicked(before), Picks(before, wanted), r => !PickerOwns(r));
    PicksAreOwned(before, wanted);
    RestIsNotOwned(before);
  }

  lemma PicksAreOwned(before: seq<Rule>, wanted: seq<string>)
    ensures Where(Picks(before, wanted), PickerOwns) == Picks(before, wanted)
    ensures Unpicked(Picks(before, wanted)) == []
  {
    hide ActionFor;
    var picks := Picks(before, wanted);
    forall r | r in picks ensures PickerOwns(r) {
      var k :| 0 <= k < |wanted| && r == Rule(AppPackage(wanted[k]), ActionFor(before, wanted[k]), []);
      ActionForFacts(before, wanted[k]);
    }
    WhereMembers(picks, PickerOwns);
    NoneKept(picks, r => !PickerOwns(r));
  }

  lemma RestIsNotOwned(before: seq<Rule>)
    ensures Where(Unpicked(before), PickerOwns) == [] && Unpicked(Unpicked(before)) == Unpicked(before)
  {
    hide PickerOwns;
    WhereMembers(before, r => !PickerOwns(r));
    WhereMembers(Unpicked(before), r => !PickerOwns(r));
    NoneKept(Unpicked(before), PickerOwns);
  }

  lemma {:induction false} NoneKept<T>(xs: seq<T>, keep: T -> bool)
    requires forall x :: x in xs ==> !keep(x)
    ensures Where(xs, keep) == []
  {
    if xs == [] {
    } else {
      var n := |xs| - 1;
      assert xs[n] in xs && forall x :: x in xs[..n] ==> x in xs;
      NoneKept(xs[..n], keep);
    }
  }

  /** The picker shows what was saved, and nothing it does not own has changed. */
  lemma PickerShowsWhatWasSaved(c: Config, profile: string, wanted: seq<string>)
    requires FindProfile(c, profile).Some?
    ensures BlockedApps(WithPicks(c, profile, wanted), profile) == wanted
    ensures Unpicked(RulesOf(WithPicks(c, profile, wanted), profile)) == Unpicked(RulesOf(c, profile))
  {
    hide ActionFor, ProfileAt, WithPicks;
    OwnedAfterPicks(c, profile, wanted);
  }

  /** No package has two different picker-owned rules. */
  predicate OneRuleEach(rules: seq<Rule>) {
    forall r, s :: r in rules && s in rules && PickerOwns(r) && PickerOwns(s) && r.target.package == s.target.package
      ==> r.action == s.action
  }

  lemma OwnedByPackage(rules: seq<Rule>, package: string)
    ensures package in PackagesOf(OwnedIn(rules)) <==>
                exists r :: r in rules && PickerOwns(r) && r.target.package == package
  {
    hide OwnedIn, PackagesOf;
    OwnedInMembers(rules);
    var owned := OwnedIn(rules);
    var packages := PackagesOf(owned);
    if package in packages {
      var i :| 0 <= i < |owned| && packages[i] == package;
      assert owned[i] in rules;
    }
    forall r | r in rules && PickerOwns(r) && r.target.package == package ensures package in packages {
      var i :| 0 <= i < |owned| && owned[i] == r;
      assert packages[i] == package;
    }
  }

  lemma OwnedInMembers(rules: seq<Rule>)
    ensures forall r :: r in OwnedIn(rules) <==> r in rules && PickerOwns(r)
  {
    WhereMembers(rules, PickerOwns);
  }

  function OwnedIn(rules: seq<Rule>): (r: seq<Rule>)
    ensures forall i :: 0 <= i < |r| ==> PickerOwns(r[i])
  {
    WhereMembers(rules, PickerOwns);
    Where(rules, PickerOwns)
  }

  lemma PickedRules(before: seq<Rule>, wanted: seq<string>, r: Rule)
    ensures r in Unpicked(before) + Picks(before, wanted) <==>
              if PickerOwns(r) then r.action == ActionFor(before, r.target.package) && r.target.package in wanted
              else r in before
  {
    hide ActionFor;
    WhereMembers(before, r => !PickerOwns(r));
    var picks := Picks(before, wanted);
    if r in picks {
      var k :| 0 <= k < |wanted| && picks[k] == r;
      ActionForFacts(before, wanted[k]);
    }
    if PickerOwns(r) && r.target.package in wanted {
      var k :| 0 <= k < |wanted| && wanted[k] == r.target.package;
      assert picks[k] in picks;
    }
  }

  /** The rules are those there were. */
  ghost predicate Undone(before: seq<Rule>, after: seq<Rule>) {
    forall r :: r in before <==> r in after
  }

  lemma OneRuleEachIsKept(before: seq<Rule>, wanted: seq<string>, r: Rule)
    requires OneRuleEach(before) && forall x :: x in wanted <==> x in PackagesOf(OwnedIn(before))
    ensures r in before <==> r in Unpicked(before) + Picks(before, wanted)
  {
    hide ActionFor, Unpicked, Picks, OwnedIn;
    PickedRules(before, wanted, r);
    if PickerOwns(r) {
      OwnedByPackage(before, r.target.package);
      ActionForFacts(before, r.target.package);
      if r in Unpicked(before) + Picks(before, wanted) && r.action == Block {
        var s :| s in before && PickerOwns(s) && s.target.package == r.target.package;
        assert s == r;
      }
    }
  }

  lemma KeptTicksAreWanted(before: seq<Rule>, wanted: seq<string>, x: string)
    requires Undone(before, Unpicked(before) + Picks(before, wanted))
    ensures x in wanted <==> x in PackagesOf(OwnedIn(before))
  {
    hide ActionFor, Unpicked, Picks, OwnedIn;
    OwnedByPackage(before, x);
    if x in wanted {
      var r := Rule(AppPackage(x), ActionFor(before, x), []);
      ActionForFacts(before, x);
      PickedRules(before, wanted, r);
      assert r in before;
    }
    if r :| r in before && PickerOwns(r) && r.target.package == x {
      PickedRules(before, wanted, r);
    }
  }

  /** A picked list leaves the rules as they were exactly when it is the list of ticks and no app had two rules. */
  lemma UndoneExactlyWhen(before: seq<Rule>, wanted: seq<string>)
    ensures Undone(before, Unpicked(before) + Picks(before, wanted)) <==>
              OneRuleEach(before) && forall x :: x in wanted <==> x in PackagesOf(OwnedIn(before))
  {
    hide ActionFor, Unpicked, Picks, OwnedIn, PickerOwns;
    var after := Unpicked(before) + Picks(before, wanted);
    if Undone(before, after) {
      forall x ensures x in wanted <==> x in PackagesOf(OwnedIn(before)) {
        KeptTicksAreWanted(before, wanted, x);
      }
      KeptAppsHaveOneRule(before, wanted);
    }
    if OneRuleEach(before) && forall x :: x in wanted <==> x in PackagesOf(OwnedIn(before)) {
      forall r ensures r in before <==> r in after {
        OneRuleEachIsKept(before, wanted, r);
      }
    }
  }

  lemma KeptAppsHaveOneRule(before: seq<Rule>, wanted: seq<string>)
    requires Undone(before, Unpicked(before) + Picks(before, wanted))
    ensures OneRuleEach(before)
  {
    hide ActionFor, Unpicked, Picks;
    forall r | r in before && PickerOwns(r) ensures r.action == ActionFor(before, r.target.package) {
      PickedRules(before, wanted, r);
    }
  }

  lemma SameRulesExactlyWhen(c: Config, profile: string, wanted: seq<string>)
    requires FindProfile(c, profile).Some?
    ensures SameRules(c, WithPicks(c, profile, wanted)) <==>
              OneRuleEach(RulesOf(c, profile)) && forall x :: x in wanted <==> x in BlockedApps(c, profile)
  {
    var i := ProfileAt(c.profiles, profile);
    assert FindProfile(c, profile) == Some(c.profiles[i]);
    assert BlockedApps(c, profile) == PackagesOf(OwnedIn(c.profiles[i].rules));
    hide ActionFor, ProfileAt, PickerOwns, OneRuleEach, FindProfile, OwnedIn, BlockedApps;
    var before := c.profiles[i].rules;
    var next := WithPicks(c, profile, wanted);
    var after := Unpicked(before) + Picks(before, wanted);
    OwnedAfterPicks(c, profile, wanted);
    UndoneExactlyWhen(before, wanted);
    forall p ensures p == profile || FindProfile(next, p) == FindProfile(c, p) {
      OtherProfilesStay(c, i, after, p);
      PlaceOfOther(c.profiles, profile, p);
    }
    assert FindProfile(c, profile).value.rules == before && FindProfile(next, profile).value.rules == after;
  }

  lemma PlaceOfOther(profiles: seq<Profile>, id: string, other: string)
    requires ProfileAt(profiles, id) < |profiles|
    ensures ProfileAt(profiles, id) == ProfileAt(profiles, other) ==> id == other
  {
  }

  /** Opening the picker and saving it unchanged keeps every rule exactly when no app had two. */
  lemma ResavingIsFaithfulExactlyWhen(c: Config, profile: string)
    requires FindProfile(c, profile).Some?
    ensures SameRules(c, WithPicks(c, profile, Tidied(BlockedApps(c, profile)))) <==> OneRuleEach(RulesOf(c, profile))
  {
    hide SameRules, WithPicks, OneRuleEach, BlockedApps;
    TidiedFacts(BlockedApps(c, profile));
    SameRulesExactlyWhen(c, profile, Tidied(BlockedApps(c, profile)));
  }

  /** The packages a save gets to before it stops: all of them, or those sorted before the first blank one. */
  function Reached(packages: seq<string>): seq<string> {
    Tidied(packages)[..BlankAt(Tidied(packages))]
  }

  /**
   * There is no rollback: a save, failed or not, leaves every rule as it was exactly when what it got to
   * is what was ticked and no app had two different rules.
   */
  lemma SaveKeepsRulesExactlyWhen(c: Config, profile: string, packages: seq<string>)
    requires FindProfile(c, profile).Some?
    ensures SameRules(c, WithPicks(c, profile, Reached(packages))) <==>
              OneRuleEach(RulesOf(c, profile)) && forall x :: x in Reached(packages) <==> x in BlockedApps(c, profile)
  {
    hide SameRules, WithPicks, OneRuleEach, BlockedApps, Reached;
    SameRulesExactlyWhen(c, profile, Reached(packages));
  }

  /** So a save that changes no tick changes no decision. */
  lemma ResavingChangesNoDecision(c: Config, profile: string, now: Timestamp, state: State, obs: Observation)
    requires FindProfile(c, profile).Some? && OneRuleEach(RulesOf(c, profile))
    ensures ClassOf(Decide(now, state, obs, WithPicks(c, profile, Tidied(BlockedApps(c, profile))))) ==
                ClassOf(Decide(now, state, obs, c))
  {
    hide Decide, WithPicks, BlockedApps, SameRules, FindProfile;
    ResavingIsFaithfulExactlyWhen(c, profile);
    OrderNeverDecides(now, state, state, obs, c, WithPicks(c, profile, Tidied(BlockedApps(c, profile))));
  }

  const CHAT: Rule := Rule(AppPackage("chat"), Block, [])
  const PICKED: Config := DEFAULT.(profiles := [Profile("p", "P", "", [CHAT])])

  lemma NothingIsReached()
    ensures Tidied(["", "chat"]) == ["", "chat"] && BlankAt(["", "chat"]) == 0 && Reached(["", "chat"]) == []
  {
    assert ["", "chat"][..1] == [""] && [""][..0] == [];
    assert Tidied([""]) == [""];
    assert StringLe("", "chat");
    assert Blank("");
    assert ["", "chat"][..0] == [];
  }

  lemma ChatIsTicked()
    ensures FindProfile(PICKED, "p").Some? && BlockedApps(PICKED, "p") == ["chat"]
  {
    assert FindProfile(PICKED, "p") == Some(PICKED.profiles[0]);
    assert [CHAT][..0] == [];
    assert Where([CHAT], PickerOwns) == [CHAT];
  }

  /** A save with a blank package in it fails, and has already let go of the apps it was told to block. */
  lemma FailedSaveLetsGo()
    ensures BlankAt(Tidied(["", "chat"])) < |Tidied(["", "chat"])|
    ensures BlockedApps(PICKED, "p") == ["chat"]
    ensures BlockedApps(WithPicks(PICKED, "p", Reached(["", "chat"])), "p") == []
  {
    ChatIsTicked();
    NothingIsReached();
    hide Reached, Tidied, BlankAt, BlockedApps, WithPicks, FindProfile;
    PickerShowsWhatWasSaved(PICKED, "p", []);
  }

  // ----- Windows taken for the same -----

  /** The same run of the same profile under the same conditions, whichever schedule asked for it. */
  predicate SameRun(a: Option<Activation>, b: Option<Activation>) {
    && a.Some? == b.Some?
    && (a.Some? ==>
          && a.value.(source := b.value.source) == b.value.(locks := a.value.locks)
          && a.value.LockOf() == b.value.LockOf())
  }

  lemma RunsSomeday(w: WeeklySchedule, offset: int) returns (now: Timestamp)
    requires ValidWindow(w) && w.enabled
    ensures WeeklyActiveAt(w, now, offset).Some?
  {
    var date: int := if w.days == [] then 0 else w.days[0] + 4;
    assert w.days != [] ==> w.days[0] in w.days && Weekday(date) == w.days[0];
    now := SpanOn(w, date, offset).0;
    LocalInstantBounds(date, w.startMinute, offset);
    LocalDateIs(now, offset, date);
    assert OpenOn(w, date, now, offset);
  }

  /**
   * Two windows the editor takes for the same run alike exactly when both are off, or both are on
   * under the same conditions.
   */
  lemma TwinsRunAlikeExactlyWhen(w: WeeklySchedule, v: WeeklySchedule, offset: int)
    requires Twins(w, v) && ValidWindow(w)
    ensures (forall now :: SameRun(WeeklyActiveAt(w, now, offset), WeeklyActiveAt(v, now, offset))) <==>
              w.enabled == v.enabled && (w.enabled ==> (set l | l in w.locks) == (set l | l in v.locks))
  {
    if w.enabled {
      var now := RunsSomeday(w, offset);
      assert SameRun(WeeklyActiveAt(w, now, offset), WeeklyActiveAt(v, now, offset)) ==>
          v.enabled && (set l | l in w.locks) == (set l | l in v.locks);
    } else if v.enabled {
      var now := RunsSomeday(v, offset);
      assert !SameRun(WeeklyActiveAt(w, now, offset), WeeklyActiveAt(v, now, offset));
    }
  }

  /** A window can be declined as already present while the one already present never runs. */
  lemma DeclinedWindowCanMatter(w: WeeklySchedule, id: string, now: Timestamp, offset: int)
    requires ValidWindow(w) && w.enabled && id != w.id && WeeklyActiveAt(w, now, offset).Some?
    ensures var off := w.(id := id, enabled := false);
            && OutcomeOf([off], w) == AlreadyPresent
            && WeeklyActiveAt(off, now, offset).None?
  {
    var off := w.(id := id, enabled := false);
    assert off in [off] && Twins(off, w);
  }
}
