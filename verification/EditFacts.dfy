/** What the edits promise: soundness kept, one answer per question, and what the guard makes of each. */
module EditFacts {
  import opened Basics
  import opened TargetMatch
  import opened Schedules
  import opened ConfigModel
  import opened Engine
  import opened ConfigGuard
  import opened Validation
  import opened ConfigEdits

  // ----- Soundness -----

  lemma RulesDecideSoundness(c: Config, i: nat, rules: seq<Rule>)
    requires Valid(c) && i < |c.profiles|
    ensures Valid(WithRules(c, i, rules)) <==> forall r :: r in rules ==> SoundAction(r.action)
  {
    hide Blank, SoundAction, ValidWindow;
    var next := WithRules(c, i, rules);
    assert c.profiles[i] in c.profiles && next.profiles[i] in next.profiles;
    forall id | Defines(c.profiles, id) ensures Defines(next.profiles, id) {
      var j :| 0 <= j < |c.profiles| && c.profiles[j].id == id;
      assert next.profiles[j] in next.profiles;
    }
    assert DistinctProfiles(next.profiles);
    if forall r :: r in rules ==> SoundAction(r.action) {
      forall p | p in next.profiles ensures SoundProfile(p) {
        var j :| 0 <= j < |next.profiles| && next.profiles[j] == p;
        assert c.profiles[j] in c.profiles;
      }
    }
  }

  /** A rule is taken exactly when it is sound by itself. */
  lemma RuleIsTakenExactlyWhen(c: Config, profile: string, rule: Rule)
    requires Valid(c) && FindProfile(c, profile).Some?
    ensures Valid(WithRule(c, profile, rule)) <==> SoundAction(rule.action)
  {
    hide Valid, SoundAction, RuleAt;
    var i := ProfileAt(c.profiles, profile);
    var before := c.profiles[i].rules;
    var after := Placed(before, rule);
    RulesDecideSoundness(c, i, after);
    RulesDecideSoundness(c, i, before);
    assert WithRules(c, i, before) == c;
    var at := RuleAt(before, Key(rule.target), rule.platforms);
    assert after[at] in after;
  }

  lemma RuleRemovalKeepsValid(c: Config, profile: string, key: string)
    requires Valid(c)
    ensures Valid(WithoutRule(c, profile, key))
  {
    hide Valid, SoundAction;
    var i := ProfileAt(c.profiles, profile);
    if i < |c.profiles| {
      var before := c.profiles[i].rules;
      RulesDecideSoundness(c, i, before);
      assert WithRules(c, i, before) == c;
      WhereMembers(before, (r: Rule) => Key(r.target) != key);
      RulesDecideSoundness(c, i, Unkeyed(before, key));
    }
  }

  lemma {:induction false} ActionForIsSound(rules: seq<Rule>, package: string)
    requires forall r :: r in rules ==> SoundAction(r.action)
    ensures SoundAction(ActionFor(rules, package))
  {
    if rules == [] {
    } else {
      ActionForIsSound(rules[1..], package);
    }
  }

  /** The picker can only fail on a blank package: whatever it writes is sound. */
  lemma PicksAreSound(c: Config, profile: string, wanted: seq<string>)
    requires Valid(c) && FindProfile(c, profile).Some?
    ensures Valid(WithPicks(c, profile, wanted))
  {
    hide Valid, SoundAction, ActionFor, PickerOwns;
    var i := ProfileAt(c.profiles, profile);
    var before := c.profiles[i].rules;
    RulesDecideSoundness(c, i, before);
    assert WithRules(c, i, before) == c;
    WhereMembers(before, r => !PickerOwns(r));
    forall package ensures SoundAction(ActionFor(before, package)) {
      ActionForIsSound(before, package);
    }
    RulesDecideSoundness(c, i, Unpicked(before) + Picks(before, wanted));
  }

  lemma ProfileIsTakenExactlyWhen(c: Config, id: string, name: string, description: string)
    requires Valid(c)
    ensures Valid(WithProfile(c, id, name, description)) <==> !Blank(id) && !Blank(name)
  {
    hide Blank, SoundAction, ValidWindow;
    var next, i := WithProfile(c, id, name, description), ProfileAt(c.profiles, id);
    assert next.profiles[i] in next.profiles && next.profiles[i].id == id;
    assert i < |c.profiles| ==> c.profiles[i] in c.profiles;
    forall x | Defines(c.profiles, x) ensures Defines(next.profiles, x) {
      var j :| 0 <= j < |c.profiles| && c.profiles[j].id == x;
      assert next.profiles[j] in next.profiles;
    }
    assert DistinctProfiles(next.profiles);
    if !Blank(id) && !Blank(name) {
      forall p | p in next.profiles ensures SoundProfile(p) {
        var j :| 0 <= j < |next.profiles| && next.profiles[j] == p;
        if j != i {
          assert c.profiles[j] in c.profiles;
        }
      }
    }
  }

  /** Refusing while a schedule names the profile is exactly what keeps the config sound. */
  lemma ProfileCanGoExactlyWhen(c: Config, id: string)
    requires Valid(c)
    ensures Valid(WithoutProfile(c, id)) <==> !Used(c, id)
  {
    hide Blank, SoundProfile, ValidWindow;
    var next, keep := WithoutProfile(c, id), (p: Profile) => p.id != id;
    WhereMembers(c.profiles, keep);
    assert DistinctProfiles(next.profiles) by {
      WhereKeepsPairs(c.profiles, keep, (p: Profile, q: Profile) => p.id != q.id);
    }
    forall x ensures Defines(next.profiles, x) <==> Defines(c.profiles, x) && x != id {
      if Defines(c.profiles, x) && x != id {
        var p :| p in c.profiles && p.id == x;
        assert p in next.profiles;
      }
    }
  }

  lemma WindowIsTakenExactlyWhen(c: Config, w: WeeklySchedule)
    requires Valid(c)
    ensures Valid(WithWeekly(c, w)) <==> SoundWeekly(c.profiles, w)
  {
    hide Blank, SoundWeekly, SoundProfile, SoundCalendar;
    var next, i := WithWeekly(c, w), WeeklyAt(c.weekly, w.id);
    assert next.weekly[i] in next.weekly;
    assert DistinctWeekly(next.weekly);
    forall v | v in next.weekly && v != w ensures v in c.weekly {
      var j :| 0 <= j < |next.weekly| && next.weekly[j] == v;
    }
  }

  lemma CalendarIsTakenExactlyWhen(c: Config, s: CalendarSchedule)
    requires Valid(c)
    ensures Valid(WithCalendar(c, s)) <==> SoundCalendar(c.profiles, s)
  {
    hide Blank, SoundWeekly, SoundProfile, SoundCalendar;
    var next, i := WithCalendar(c, s), CalendarAt(c.calendars, s.id);
    assert next.calendars[i] in next.calendars;
    assert DistinctCalendars(next.calendars);
    forall v | v in next.calendars && v != s ensures v in c.calendars {
      var j :| 0 <= j < |next.calendars| && next.calendars[j] == v;
    }
  }

  /** Removing a schedule leaves nothing by that id, every other one, and a sound config. */
  lemma WeeklyRemovalKeepsValid(c: Config, id: string)
    requires Valid(c)
    ensures var weekly := Where(c.weekly, (w: WeeklySchedule) => w.id != id);
            Valid(c.(weekly := weekly)) && forall w :: w in weekly <==> w in c.weekly && w.id != id
  {
    hide SoundWeekly, SoundProfile, SoundCalendar, DistinctProfiles, DistinctCalendars, SoundPolicy, Where;
    WhereMembers(c.weekly, (w: WeeklySchedule) => w.id != id);
    WhereKeepsPairs(c.weekly, (w: WeeklySchedule) => w.id != id,
        (w: WeeklySchedule, v: WeeklySchedule) => w.id != v.id);
  }

  lemma CalendarRemovalKeepsValid(c: Config, id: string)
    requires Valid(c)
    ensures var calendars := Where(c.calendars, (s: CalendarSchedule) => s.id != id);
            Valid(c.(calendars := calendars)) && forall s :: s in calendars <==> s in c.calendars && s.id != id
  {
    hide SoundWeekly, SoundProfile, SoundCalendar, DistinctProfiles, DistinctWeekly, SoundPolicy, Where;
    WhereMembers(c.calendars, (s: CalendarSchedule) => s.id != id);
    WhereKeepsPairs(c.calendars, (s: CalendarSchedule) => s.id != id,
        (s: CalendarSchedule, t: CalendarSchedule) => s.id != t.id);
  }

  // ----- One answer per question -----

  predicate SameIdentity(r: Rule, s: Rule) {
    Key(r.target) == Key(s.target) && r.platforms == s.platforms
  }

  /** What a profile's rules answer under an identity: the first rule that has it. */
  function AnswerFor(rules: seq<Rule>, key: string, platforms: seq<Platform>): Option<Rule> {
    var i := RuleAt(rules, key, platforms);
    if i < |rules| then Some(rules[i]) else None
  }

  lemma RuleAtIs(rules: seq<Rule>, key: string, platforms: seq<Platform>, i: nat)
    requires i <= |rules|
    requires i < |rules| ==> Key(rules[i].target) == key && rules[i].platforms == platforms
    requires forall j :: 0 <= j < i ==> !(Key(rules[j].target) == key && rules[j].platforms == platforms)
    ensures RuleAt(rules, key, platforms) == i
  {
  }

  /** The rule written is the answer under its identity; every other answer, and every other profile, is as it was. */
  lemma UpsertedRuleIsTheAnswer(rules: seq<Rule>, rule: Rule, key: string, platforms: seq<Platform>)
    ensures AnswerFor(Placed(rules, rule), key, platforms) ==
              if Key(rule.target) == key && rule.platforms == platforms then Some(rule)
              else AnswerFor(rules, key, platforms)
  {
    hide RuleAt, Key;
    var at, i := RuleAt(rules, Key(rule.target), rule.platforms), RuleAt(rules, key, platforms);
    var after := Placed(rules, rule);
    if Key(rule.target) == key && rule.platforms == platforms {
      RuleAtIs(after, key, platforms, at);
    } else if i < |rules| {
      RuleAtIs(after, key, platforms, i);
    } else {
      RuleAtIs(after, key, platforms, |after|);
    }
  }

  lemma OtherProfilesStay(c: Config, i: nat, rules: seq<Rule>, profile: string)
    requires i < |c.profiles|
    ensures ProfileAt(WithRules(c, i, rules).profiles, profile) == ProfileAt(c.profiles, profile)
    ensures FindProfile(WithRules(c, i, rules), profile) ==
              if ProfileAt(c.profiles, profile) == i then Some(c.profiles[i].(rules := rules))
              else FindProfile(c, profile)
  {
    SameIdsSamePlace(c.profiles, WithRules(c, i, rules).profiles, profile);
  }

  lemma SameIdsSamePlace(ps: seq<Profile>, qs: seq<Profile>, id: string)
    requires |ps| == |qs| && forall i :: 0 <= i < |ps| ==> ps[i].id == qs[i].id
    ensures ProfileAt(ps, id) == ProfileAt(qs, id)
  {
  }

  lemma AbsentIsLast(rules: seq<Rule>, key: string, platforms: seq<Platform>)
    requires forall r :: r in rules ==> Key(r.target) != key
    ensures RuleAt(rules, key, platforms) == |rules|
  {
    assert forall i :: 0 <= i < |rules| ==> rules[i] in rules;
  }

  /** Removing a target takes back exactly what writing a first rule about it did. */
  lemma RemovalUndoesUpsert(c: Config, profile: string, rule: Rule)
    requires FindProfile(c, profile).Some?
    requires forall r :: r in FindProfile(c, profile).value.rules ==> Key(r.target) != Key(rule.target)
    ensures WithoutRule(WithRule(c, profile, rule), profile, Key(rule.target)) == c
  {
    hide RuleAt, Key;
    var i := ProfileAt(c.profiles, profile);
    var before, keep := c.profiles[i].rules, (r: Rule) => Key(r.target) != Key(rule.target);
    AbsentIsLast(before, Key(rule.target), rule.platforms);
    OtherProfilesStay(c, i, Placed(before, rule), profile);
    assert Placed(before, rule) == before + [rule];
    WhereOfSum(before, [rule], keep);
    WhereMembers(before, keep);
    assert Where([rule], keep) == [];
    assert Unkeyed(before + [rule], Key(rule.target)) == before;
    assert c.profiles[i := c.profiles[i].(rules := before)] == c.profiles;
  }

  /** An edit replaces what has its id and nothing else. */
  lemma UpsertReplacesById(c: Config, w: WeeklySchedule, s: CalendarSchedule)
    requires DistinctWeekly(c.weekly) && DistinctCalendars(c.calendars)
    ensures forall v :: v in WithWeekly(c, w).weekly <==> v == w || (v in c.weekly && v.id != w.id)
    ensures forall v :: v in WithCalendar(c, s).calendars <==> v == s || (v in c.calendars && v.id != s.id)
  {
    var i, weekly := WeeklyAt(c.weekly, w.id), WithWeekly(c, w).weekly;
    forall v ensures v in weekly <==> v == w || (v in c.weekly && v.id != w.id) {
      assert weekly[i] == w;
      if v in c.weekly && v.id != w.id {
        var j :| 0 <= j < |c.weekly| && c.weekly[j] == v;
        assert weekly[j] == v;
      }
    }
    var k, calendars := CalendarAt(c.calendars, s.id), WithCalendar(c, s).calendars;
    forall v ensures v in calendars <==> v == s || (v in c.calendars && v.id != s.id) {
      assert calendars[k] == s;
      if v in c.calendars && v.id != s.id {
        var j :| 0 <= j < |c.calendars| && c.calendars[j] == v;
        assert calendars[j] == v;
      }
    }
  }

  /** Under an edited id the profile has the new name and its old rules; every other is as it was. */
  lemma ProfileEditFacts(c: Config, id: string, name: string, description: string, x: string)
    ensures FindProfile(WithProfile(c, id, name, description), x) ==
              if x == id then Some(Profile(id, name, description, RulesOf(c, id))) else FindProfile(c, x)
  {
    hide ProfileAt;
    var next, i := WithProfile(c, id, name, description), ProfileAt(c.profiles, id);
    if i < |c.profiles| {
      SameIdsSamePlace(c.profiles, next.profiles, x);
    } else {
      PlaceInSum(c.profiles, next.profiles[i], x);
    }
  }

  /** A removed profile is gone; every other is as it was. */
  lemma ProfileRemovalFacts(c: Config, id: string, x: string)
    requires DistinctProfiles(c.profiles)
    ensures FindProfile(WithoutProfile(c, id), x) == if x == id then None else FindProfile(c, x)
  {
    hide FindProfile, ProfileAt, DistinctProfiles;
    WhereMembers(c.profiles, (p: Profile) => p.id != id);
    var before, after := FindProfile(c, x), FindProfile(WithoutProfile(c, id), x);
    if before.Some? && after.Some? {
      OnlyOneById(c.profiles, before.value, after.value);
    }
  }

  lemma OnlyOneById(profiles: seq<Profile>, p: Profile, q: Profile)
    requires DistinctProfiles(profiles) && p in profiles && q in profiles && p.id == q.id
    ensures p == q
  {
    var i :| 0 <= i < |profiles| && profiles[i] == p;
    var j :| 0 <= j < |profiles| && profiles[j] == q;
  }

  // ----- What the guard makes of an edit -----

  lemma StillHasAnswer(p: Profile, r: Rule)
    ensures StillHas(Some(p), r) <==>
              AnswerFor(p.rules, Key(r.target), r.platforms).Some?
              && AnswerFor(p.rules, Key(r.target), r.platforms).value.action == r.action
  {
  }

  /**
   * The guard lets a rule be written exactly when that changes no action already there: a new
   * identity, or the same action again. (A profile with two answers under one identity passes nothing.)
   */
  lemma UpsertPassesExactlyWhen(c: Config, profile: string, rule: Rule)
    requires FindProfile(c, profile).Some?
    ensures Kept(c, WithRule(c, profile, rule), profile) <==>
              forall r :: r in FindProfile(c, profile).value.rules ==>
                if SameIdentity(r, rule) then r.action == rule.action else StillHas(FindProfile(c, profile), r)
  {
    hide RuleAt, Key, StillHas, AnswerFor;
    var i := ProfileAt(c.profiles, profile);
    var p := c.profiles[i];
    var q := p.(rules := Placed(p.rules, rule));
    OtherProfilesStay(c, i, q.rules, profile);
    forall r | r in p.rules
      ensures StillHas(Some(q), r) <==> if SameIdentity(r, rule) then r.action == rule.action else StillHas(Some(p), r)
    {
      UpsertedRuleIsTheAnswer(p.rules, rule, Key(r.target), r.platforms);
      StillHasAnswer(q, r);
      StillHasAnswer(p, r);
    }
  }

  lemma {:induction false} UnkeyedAnswers(rules: seq<Rule>, key: string, other: string, platforms: seq<Platform>)
    ensures AnswerFor(Unkeyed(rules, key), other, platforms) ==
              if other == key then None else AnswerFor(rules, other, platforms)
  {
    hide Key, RuleAt;
    if rules == [] {
      AbsentIsLast([], other, platforms);
    } else {
      var n := |rules| - 1;
      UnkeyedAnswers(rules[..n], key, other, platforms);
      LastAnswer(rules, other, platforms);
      if Key(rules[n].target) != key {
        var kept := Unkeyed(rules[..n], key);
        LastAnswer(kept + [rules[n]], other, platforms);
        assert (kept + [rules[n]])[..|kept|] == kept;
      }
    }
  }

  lemma LastAnswer(rules: seq<Rule>, key: string, platforms: seq<Platform>)
    requires rules != []
    ensures var n := |rules| - 1;
            AnswerFor(rules, key, platforms) ==
              if AnswerFor(rules[..n], key, platforms).Some? then AnswerFor(rules[..n], key, platforms)
              else if Key(rules[n].target) == key && rules[n].platforms == platforms then Some(rules[n])
              else None
  {
    hide RuleAt, Key;
    var n := |rules| - 1;
    var i := RuleAt(rules[..n], key, platforms);
    if i < n {
      RuleAtIs(rules, key, platforms, i);
    } else if Key(rules[n].target) == key && rules[n].platforms == platforms {
      RuleAtIs(rules, key, platforms, n);
    } else {
      RuleAtIs(rules, key, platforms, n + 1);
    }
  }

  /** Removing anything the profile has is a loss: the guard passes only the removal of nothing. */
  lemma RemovalPassesExactlyWhen(c: Config, profile: string, key: string)
    requires FindProfile(c, profile).Some?
    ensures Kept(c, WithoutRule(c, profile, key), profile) <==>
              forall r :: r in FindProfile(c, profile).value.rules ==>
                  Key(r.target) != key && StillHas(FindProfile(c, profile), r)
  {
    hide RuleAt, Key, StillHas, AnswerFor;
    var i := ProfileAt(c.profiles, profile);
    var p := c.profiles[i];
    var q := p.(rules := Unkeyed(p.rules, key));
    OtherProfilesStay(c, i, q.rules, profile);
    forall r | r in p.rules ensures StillHas(Some(q), r) <==> Key(r.target) != key && StillHas(Some(p), r) {
      UnkeyedAnswers(p.rules, key, Key(r.target), r.platforms);
      StillHasAnswer(q, r);
      StillHasAnswer(p, r);
    }
  }

  // ----- Renaming -----

  lemma {:induction false} SameRulesInForce(active: seq<string>, c: Config, next: Config, platform: Platform)
    requires forall id :: RulesOf(next, id) == RulesOf(c, id)
    ensures InForce(active, next, platform) == InForce(active, c, platform)
  {
    hide Applicable, FindProfile, ProfileAt;
    if active == [] {
    } else {
      var n := |active| - 1;
      SameRulesInForce(active[..n], c, next, platform);
      assert RulesOf(next, active[n]) == RulesOf(c, active[n]);
      NoRulesApply(active[n], platform);
    }
  }

  lemma NoRulesApply(profile: string, platform: Platform)
    ensures Applicable(profile, [], platform) == []
  {
  }

  /** The rules behind an id; an unknown profile has none. */
  function RulesOf(c: Config, id: string): seq<Rule> {
    match FindProfile(c, id)
    case None => []
    case Some(p) => p.rules
  }

  lemma SameRulesSameDecision(c: Config, next: Config, now: Timestamp, state: State, obs: Observation)
    requires next.offset == c.offset && forall id :: RulesOf(next, id) == RulesOf(c, id)
    ensures Decide(now, state, obs, next) == Decide(now, state, obs, c)
  {
    hide InForce, Resolve;
    SameRulesInForce(state.activeProfiles, c, next, state.platform);
  }

  lemma NamingKeepsRules(c: Config, id: string, name: string, description: string)
    ensures forall x :: RulesOf(WithProfile(c, id, name, description), x) == RulesOf(c, x)
  {
    hide FindProfile, WithProfile;
    forall x ensures RulesOf(WithProfile(c, id, name, description), x) == RulesOf(c, x) {
      ProfileEditFacts(c, id, name, description, x);
    }
  }

  /** Renaming a profile, or making an empty one, changes no decision at all. */
  lemma ProfileEditChangesNoDecision(c: Config, id: string, name: string, description: string,
                                     now: Timestamp, state: State, obs: Observation)
    ensures Decide(now, state, obs, WithProfile(c, id, name, description)) == Decide(now, state, obs, c)
  {
    NamingKeepsRules(c, id, name, description);
    SameRulesSameDecision(c, WithProfile(c, id, name, description), now, state, obs);
  }

  lemma PlaceInSum(ps: seq<Profile>, p: Profile, id: string)
    ensures ProfileAt(ps + [p], id) ==
              if ProfileAt(ps, id) < |ps| then ProfileAt(ps, id) else if p.id == id then |ps| else |ps| + 1
  {
    hide ProfileAt;
    var i, k := ProfileAt(ps, id), ProfileAt(ps + [p], id);
    assert i < |ps| ==> (ps + [p])[i] == ps[i];
    assert k < |ps| ==> (ps + [p])[k] == ps[k];
    assert (ps + [p])[|ps|] == p;
  }
}
