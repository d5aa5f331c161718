/** The guard on config edits: the rules of running profiles that a new config drops or changes. */
module ConfigGuard {
  import opened Basics
  import opened TargetMatch
  import opened SessionStore
  import opened ConfigModel

  datatype Loss = NoLongerBlocked(key: string) | EnforcedDifferently(key: string)

  /** One rule's fate in the profile that replaces its own. */
  function FateOf(r: Rule, after: Option<Profile>): seq<Loss> {
    var key := Key(r.target);
    if after.None? then [NoLongerBlocked(key)]
    else
      var i := RuleAt(after.value.rules, key, r.platforms);
      if i == |after.value.rules| then [NoLongerBlocked(key)]
      else if after.value.rules[i].action != r.action then [EnforcedDifferently(key)]
      else []
  }

  function LossesOf(rules: seq<Rule>, after: Option<Profile>): seq<Loss> {
    if rules == [] then []
    else LossesOf(rules[..|rules| - 1], after) + FateOf(rules[|rules| - 1], after)
  }

  lemma NoRulesNoLoss(rules: seq<Rule>, after: Option<Profile>)
    ensures LossesOf(rules[..0], after) == []
  {
  }

  lemma NextFate(rules: seq<Rule>, i: nat, after: Option<Profile>)
    requires i < |rules|
    ensures LossesOf(rules[..i + 1], after) == LossesOf(rules[..i], after) + FateOf(rules[i], after)
  {
    assert rules[..i + 1][..i] == rules[..i];
  }

  /** The losses of one profile, in the order of its rules. */
  function RulesWeakened(c: Config, next: Config, profile: string): seq<Loss> {
    match FindProfile(c, profile)
    case None => []
    case Some(p) => LossesOf(p.rules, FindProfile(next, profile))
  }

  method RulesWeakenedBy(c: Config, next: Config, profile: string) returns (lost: seq<Loss>)
    ensures lost == RulesWeakened(c, next, profile)
  {
    hide FindProfile, RuleAt, Key, LossesOf;
    var before := FindProfile(c, profile);
    if before.None? {
      return [];
    }
    var rules, after := before.value.rules, FindProfile(next, profile);
    lost := [];
    NoRulesNoLoss(rules, after);
    for i := 0 to |rules|
      invariant lost == LossesOf(rules[..i], after)
    {
      NextFate(rules, i, after);
      var key := Key(rules[i].target);
      var at := if after.Some? then RuleAt(after.value.rules, key, rules[i].platforms) else 0;
      if after.None? || at == |after.value.rules| {
        lost := lost + [NoLongerBlocked(key)];
      } else if after.value.rules[at].action != rules[i].action {
        lost := lost + [EnforcedDifferently(key)];
      }
    }
    assert rules[..|rules|] == rules;
  }

  /** The name the user gave each profile. */
  function NamesOf(profiles: seq<Profile>): map<string, string> {
    if profiles == [] then map[]
    else NamesOf(profiles[..|profiles| - 1])[profiles[|profiles| - 1].id := profiles[|profiles| - 1].name]
  }

  /** A loss, with the name its profile is shown by. */
  datatype Lost = Lost(named: string, loss: Loss)

  /** Every loss of every running session, once each. */
  function Weakening(c: Config, next: Config, running: seq<Session>, names: map<string, string>): set<Lost> {
    if running == [] then {}
    else
      var s := running[|running| - 1];
      Weakening(c, next, running[..|running| - 1], names)
      + set l | l in RulesWeakened(c, next, s.profile) ::
          Lost(if s.profile in names then names[s.profile] else s.profile, l)
  }

  method WeakeningARunningSession(c: Config, next: Config, running: seq<Session>, names: map<string, string>)
    returns (lost: set<Lost>)
    ensures lost == Weakening(c, next, running, names)
  {
    hide RulesWeakened;
    lost := {};
    for i := 0 to |running|
      invariant lost == Weakening(c, next, running[..i], names)
    {
      assert running[..i + 1][..i] == running[..i];
      var named := if running[i].profile in names then names[running[i].profile] else running[i].profile;
      var details := RulesWeakenedBy(c, next, running[i].profile);
      var found: set<Lost> := {};
      for j := 0 to |details|
        invariant found == set l | l in details[..j] :: Lost(named, l)
      {
        found := found + {Lost(named, details[j])};
        assert details[..j + 1] == details[..j] + [details[j]];
      }
      assert details[..|details|] == details;
      lost := lost + found;
    }
    assert running[..|running|] == running;
  }

  // ----- What an empty answer means -----

  /** The profile still holds the rule, found under its own identity and unchanged. */
  predicate StillHas(after: Option<Profile>, r: Rule) {
    && after.Some?
    && var i := RuleAt(after.value.rules, Key(r.target), r.platforms);
       i < |after.value.rules| && after.value.rules[i].action == r.action
  }

  lemma FateIsEmptyExactlyWhen(r: Rule, after: Option<Profile>)
    ensures FateOf(r, after) == [] <==> StillHas(after, r)
  {
  }

  lemma {:induction false} NoLossExactlyWhen(rules: seq<Rule>, after: Option<Profile>)
    ensures LossesOf(rules, after) == [] <==> forall r :: r in rules ==> StillHas(after, r)
  {
    hide FateOf, StillHas;
    if rules == [] {
    } else {
      NoLossExactlyWhen(rules[..|rules| - 1], after);
      FateIsEmptyExactlyWhen(rules[|rules| - 1], after);
      assert rules == rules[..|rules| - 1] + [rules[|rules| - 1]];
    }
  }

  /** The guard passes a profile exactly when every rule it had is still found, unchanged. */
  predicate Kept(c: Config, next: Config, profile: string) {
    FindProfile(c, profile).Some? ==>
      forall r :: r in FindProfile(c, profile).value.rules ==> StillHas(FindProfile(next, profile), r)
  }

  lemma {:induction false} GuardPassesExactlyWhen(c: Config, next: Config, running: seq<Session>,
                                                  names: map<string, string>)
    ensures Weakening(c, next, running, names) == {} <==> forall s :: s in running ==> Kept(c, next, s.profile)
  {
    hide StillHas, LossesOf;
    if running == [] {
    } else {
      var n := |running| - 1;
      var s := running[n];
      GuardPassesExactlyWhen(c, next, running[..n], names);
      assert running == running[..n] + [s];
      if FindProfile(c, s.profile).Some? {
        NoLossExactlyWhen(FindProfile(c, s.profile).value.rules, FindProfile(next, s.profile));
      }
      var named := if s.profile in names then names[s.profile] else s.profile;
      if RulesWeakened(c, next, s.profile) != [] {
        var l := RulesWeakened(c, next, s.profile)[0];
        assert l in RulesWeakened(c, next, s.profile);
        assert Lost(named, l) in Weakening(c, next, running, names);
      }
    }
  }

  /** A config passes its own guard exactly when no profile running has two different answers under one identity. */
  lemma ReflexiveExactlyWhen(c: Config, profile: string)
    requires FindProfile(c, profile).Some?
    ensures var rules := FindProfile(c, profile).value.rules;
            RulesWeakened(c, c, profile) == [] <==>
              forall r, r' ::
                r in rules && r' in rules && Key(r.target) == Key(r'.target) && r.platforms == r'.platforms ==>
                  r.action == r'.action
  {
    var p := FindProfile(c, profile).value;
    NoLossExactlyWhen(p.rules, Some(p));
    forall r | r in p.rules ensures RuleAt(p.rules, Key(r.target), r.platforms) < |p.rules| {
      var i :| 0 <= i < |p.rules| && p.rules[i] == r;
    }
    if forall r :: r in p.rules ==> StillHas(Some(p), r) {
      forall r, r' | r in p.rules && r' in p.rules && Key(r.target) == Key(r'.target) && r.platforms == r'.platforms
        ensures r.action == r'.action
      {
        assert StillHas(Some(p), r) && StillHas(Some(p), r');
      }
    } else {
      var r :| r in p.rules && !StillHas(Some(p), r);
      var r' := p.rules[RuleAt(p.rules, Key(r.target), r.platforms)];
      assert r' in p.rules;
    }
  }

  // ----- Holding a rule -----

  predicate Identical(r: Rule, key: string, platforms: seq<Platform>, action: Action) {
    Key(r.target) == key && r.platforms == platforms && r.action == action
  }

  /** `p` holds a rule with this identity and this action. */
  predicate HoldsRule(c: Config, p: string, key: string, platforms: seq<Platform>, action: Action) {
    && FindProfile(c, p).Some?
    && exists r :: r in FindProfile(c, p).value.rules && Identical(r, key, platforms, action)
  }

  /** Every rule `p` has in `c`, it has in `next`. */
  ghost predicate HoldsAll(c: Config, next: Config, p: string) {
    forall key, platforms, action :: HoldsRule(c, p, key, platforms, action) ==>
        HoldsRule(next, p, key, platforms, action)
  }

  lemma KeptHoldsAll(c: Config, next: Config, p: string)
    requires Kept(c, next, p)
    ensures HoldsAll(c, next, p)
  {
    forall key, platforms, action | HoldsRule(c, p, key, platforms, action)
      ensures HoldsRule(next, p, key, platforms, action)
    {
      var r :| r in FindProfile(c, p).value.rules && Identical(r, key, platforms, action);
      assert StillHas(FindProfile(next, p), r);
      var after := FindProfile(next, p).value.rules;
      assert after[RuleAt(after, key, platforms)] in after;
    }
  }
}
