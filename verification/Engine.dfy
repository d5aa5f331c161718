/** The rule engine: one decision about one observation at one instant. */
module Engine {
  import opened Basics
  import opened TargetMatch
  import opened Refills
  import opened ConfigModel

  /** The live state: which profiles run, and what their targets have used. */
  datatype State = State(
    activeProfiles: seq<string>, usage: map<string, seq<Rollup>>, launches: map<string, seq<Timestamp>>,
    platform: Platform)

  datatype BlockReason =
    | Blocked(profile: string)
    | NotAllowlisted(profile: string)
    | BudgetExhausted(profile: string, seconds: nat)
    | LaunchLimitReached(profile: string, count: nat)

  datatype Decision = Allowed | BlockedBy(reason: BlockReason) | DelayedBy(seconds: nat) | Muted

  /** A rule in force, and the profile it comes from. */
  datatype Found = Found(profile: string, rule: Rule)

  /** Everything a rule is judged against. */
  datatype Moment = Moment(now: Timestamp, state: State, obs: Observation, offset: int)

  /** What can be asked of a rule. */
  datatype Question = Blocks | SpendsBudget | SpendsLaunches | Restricts | Lists | Delays | Mutes

  function UsedOf(m: Moment, target: Target, refill: Refill): nat {
    if Key(target) in m.state.usage then UsedSince(m.state.usage[Key(target)], WindowStart(refill, m.now, m.offset))
    else 0
  }

  function OpensOf(m: Moment, target: Target, refill: Refill): nat {
    if Key(target) in m.state.launches
    then OpensSince(m.state.launches[Key(target)], WindowStart(refill, m.now, m.offset))
    else 0
  }

  predicate Answers(q: Question, r: Rule, m: Moment) {
    var hit := TargetMatches(r.target, m.obs);
    match q
    case Blocks => r.action.Block? && hit
    case SpendsBudget => r.action.Budget? && hit && UsedOf(m, r.target, r.action.refill) >= r.action.seconds
    case SpendsLaunches => r.action.LaunchLimit? && hit && OpensOf(m, r.target, r.action.refill) >= r.action.count
    case Restricts => r.action.AllowOnly?
    case Lists => r.action.AllowOnly? && hit
    case Delays => r.action.Delay? && hit
    case Mutes => r.action.MuteNotifications? && hit
  }

  // ----- The rules in force -----

  function Applicable(profile: string, rules: seq<Rule>, platform: Platform): seq<Found> {
    if rules == [] then []
    else
      var rest, last := Applicable(profile, rules[..|rules| - 1], platform), rules[|rules| - 1];
      if AppliesTo(last, platform) then rest + [Found(profile, last)] else rest
  }

  /** The rules of the active profiles that apply on this platform, in the order they are walked. */
  function InForce(active: seq<string>, c: Config, platform: Platform): seq<Found> {
    if active == [] then []
    else
      var rest := InForce(active[..|active| - 1], c, platform);
      match FindProfile(c, active[|active| - 1])
      case None => rest
      case Some(p) => rest + Applicable(p.id, p.rules, platform)
  }

  predicate AnyRule(q: Question, fs: seq<Found>, m: Moment) {
    exists f :: f in fs && Answers(q, f.rule, m)
  }

  /** The first rule in force that answers yes. */
  function FirstRule(q: Question, fs: seq<Found>, m: Moment): Option<Found> {
    if fs == [] then None
    else
      var before, last := FirstRule(q, fs[..|fs| - 1], m), fs[|fs| - 1];
      if before.Some? then before else if Answers(q, last.rule, m) then Some(last) else None
  }

  /** The longest delay any matching rule asks for. */
  function LongestDelay(fs: seq<Found>, m: Moment): Option<nat> {
    if fs == [] then None
    else
      var before, last := LongestDelay(fs[..|fs| - 1], m), fs[|fs| - 1];
      if !Answers(Delays, last.rule, m) then before
      else if before.Some? then Some(Max(before.value, last.rule.action.seconds))
      else Some(last.rule.action.seconds)
  }

  /** The first reason a target is blocked outright, by kind of rule first and order second. */
  function HardReason(fs: seq<Found>, m: Moment): Option<BlockReason> {
    var blocked, budget, launches :=
      FirstRule(Blocks, fs, m), FirstRule(SpendsBudget, fs, m), FirstRule(SpendsLaunches, fs, m);
    if blocked.Some? then Some(Blocked(blocked.value.profile))
    else if BudgetReason(budget).Some? then BudgetReason(budget)
    else LaunchReason(launches)
  }

  function Resolve(fs: seq<Found>, m: Moment): Decision {
    if m.obs.Idle? then Allowed
    else if m.obs.Notification? then
      if FirstRule(Mutes, fs, m).Some? || FirstRule(Blocks, fs, m).Some? then Muted else Allowed
    else if HardReason(fs, m).Some? then BlockedBy(HardReason(fs, m).value)
    else if FirstRule(Restricts, fs, m).Some? && FirstRule(Lists, fs, m).None? then
      BlockedBy(NotAllowlisted(FirstRule(Restricts, fs, m).value.profile))
    else match LongestDelay(fs, m)
         case Some(seconds) => DelayedBy(seconds)
         case None => Allowed
  }

  function Decide(now: Timestamp, state: State, obs: Observation, c: Config): Decision {
    Resolve(InForce(state.activeProfiles, c, state.platform), Moment(now, state, obs, c.offset))
  }

  /** What the engine carries while it walks the rules. */
  datatype Tally = Tally(
    blocked: Option<BlockReason>, budgetSpent: Option<BlockReason>, launchesSpent: Option<BlockReason>,
    allowOnly: Option<string>, allowlisted: bool, delay: Option<nat>, mute: bool)

  const NOTHING: Tally := Tally(None, None, None, None, false, None, false)

  /** What it holds after walking the rules `fs`. */
  function TallyOf(fs: seq<Found>, m: Moment): Tally {
    Tally(
      match FirstRule(Blocks, fs, m) case None => None case Some(f) => Some(Blocked(f.profile)),
      BudgetReason(FirstRule(SpendsBudget, fs, m)),
      LaunchReason(FirstRule(SpendsLaunches, fs, m)),
      match FirstRule(Restricts, fs, m) case None => None case Some(f) => Some(f.profile),
      FirstRule(Lists, fs, m).Some?,
      LongestDelay(fs, m),
      FirstRule(Mutes, fs, m).Some?)
  }

  function BudgetReason(f: Option<Found>): Option<BlockReason> {
    if f.Some? && f.value.rule.action.Budget?
    then Some(BudgetExhausted(f.value.profile, f.value.rule.action.seconds))
    else None
  }

  function LaunchReason(f: Option<Found>): Option<BlockReason> {
    if f.Some? && f.value.rule.action.LaunchLimit?
    then Some(LaunchLimitReached(f.value.profile, f.value.rule.action.count))
    else None
  }

  lemma WalkOne(fs: seq<Found>, f: Found, m: Moment)
    ensures (fs + [f])[..|fs + [f]| - 1] == fs
    ensures forall q :: FirstRule(q, fs + [f], m) ==
              if FirstRule(q, fs, m).Some? then FirstRule(q, fs, m) else if Answers(q, f.rule, m) then Some(f) else None
    ensures LongestDelay(fs + [f], m) ==
              if !Answers(Delays, f.rule, m) then LongestDelay(fs, m)
              else if LongestDelay(fs, m).Some? then Some(Max(LongestDelay(fs, m).value, f.rule.action.seconds))
              else Some(f.rule.action.seconds)
  {
    assert (fs + [f])[..|fs + [f]| - 1] == fs;
  }

  lemma {:induction false} FirstAnswers(q: Question, fs: seq<Found>, m: Moment)
    ensures FirstRule(q, fs, m).Some? ==>
                FirstRule(q, fs, m).value in fs && Answers(q, FirstRule(q, fs, m).value.rule, m)
    ensures FirstRule(q, fs, m).Some? <==> AnyRule(q, fs, m)
  {
    if fs == [] {
    } else {
      FirstAnswers(q, fs[..|fs| - 1], m);
      assert fs == fs[..|fs| - 1] + [fs[|fs| - 1]];
    }
  }

  lemma NextProfile(active: seq<string>, i: nat, c: Config, platform: Platform)
    requires i < |active|
    ensures InForce(active[..0], c, platform) == []
    ensures InForce(active[..i + 1], c, platform) ==
              match FindProfile(c, active[i])
              case None => InForce(active[..i], c, platform)
              case Some(p) => InForce(active[..i], c, platform) + Applicable(p.id, p.rules, platform)
  {
    assert active[..i + 1][..i] == active[..i];
  }

  lemma NextRule(profile: string, rules: seq<Rule>, j: nat, platform: Platform)
    requires j < |rules|
    ensures Applicable(profile, rules[..j + 1], platform) ==
              if AppliesTo(rules[j], platform)
              then Applicable(profile, rules[..j], platform) + [Found(profile, rules[j])]
              else Applicable(profile, rules[..j], platform)
  {
    assert rules[..j + 1][..j] == rules[..j];
  }

  /** Weigh one applicable rule against the observation. */
  method WeighRule(profile: string, rule: Rule, m: Moment, tally: Tally, ghost fs: seq<Found>) returns (t: Tally)
    requires tally == TallyOf(fs, m)
    ensures t == TallyOf(fs + [Found(profile, rule)], m)
  {
    hide TargetMatches, Key, UsedSince, OpensSince, WindowStart, FirstRule, LongestDelay;
    WalkOne(fs, Found(profile, rule), m);
    FirstAnswers(SpendsBudget, fs, m);
    FirstAnswers(SpendsLaunches, fs, m);
    t := tally;
    var hit := TargetMatches(rule.target, m.obs);
    match rule.action {
      case Block =>
        if hit && t.blocked.None? {
          t := t.(blocked := Some(Blocked(profile)));
        }
      case AllowOnly =>
        if t.allowOnly.None? {
          t := t.(allowOnly := Some(profile));
        }
        t := t.(allowlisted := t.allowlisted || hit);
      case Budget(seconds, refill) =>
        if hit {
          var key := Key(rule.target);
          var used :=
            if key in m.state.usage then UsedSince(m.state.usage[key], WindowStart(refill, m.now, m.offset)) else 0;
          if used >= seconds && t.budgetSpent.None? {
            t := t.(budgetSpent := Some(BudgetExhausted(profile, seconds)));
          }
        }
      case LaunchLimit(count, refill) =>
        if hit {
          var key := Key(rule.target);
          var opens :=
            if key in m.state.launches then OpensSince(m.state.launches[key], WindowStart(refill, m.now, m.offset))
            else 0;
          if opens >= count && t.launchesSpent.None? {
            t := t.(launchesSpent := Some(LaunchLimitReached(profile, count)));
          }
        }
      case Delay(seconds) =>
        if hit {
          t := t.(delay := Some(if t.delay.Some? then Max(t.delay.value, seconds) else seconds));
        }
      case MuteNotifications =>
        t := t.(mute := t.mute || hit);
    }
  }

  /** The engine's walk over every rule of every active profile, and its resolution, strictest first. */
  method DecideObservation(now: Timestamp, state: State, obs: Observation, c: Config) returns (d: Decision)
    ensures d == Decide(now, state, obs, c)
  {
    hide FirstRule, LongestDelay, InForce, Applicable, AppliesTo, FindProfile, TallyOf;
    if obs.Idle? {
      return Allowed;
    }
    var m := Moment(now, state, obs, c.offset);
    var t := NOTHING;
    ghost var fs: seq<Found> := [];
    NothingWalked(state.activeProfiles, c, state.platform, m);
    for i := 0 to |state.activeProfiles|
      invariant fs == InForce(state.activeProfiles[..i], c, state.platform)
      invariant t == TallyOf(fs, m)
    {
      NextProfile(state.activeProfiles, i, c, state.platform);
      var found := FindProfile(c, state.activeProfiles[i]);
      if found.None? {
        continue;
      }
      var profile := found.value;
      ghost var before := fs;
      NoRulesYet(profile.id, profile.rules, state.platform);
      for j := 0 to |profile.rules|
        invariant fs == before + Applicable(profile.id, profile.rules[..j], state.platform)
        invariant t == TallyOf(fs, m)
      {
        NextRule(profile.id, profile.rules, j, state.platform);
        if !AppliesTo(profile.rules[j], state.platform) {
          continue;
        }
        t := WeighRule(profile.id, profile.rules[j], m, t, fs);
        fs := fs + [Found(profile.id, profile.rules[j])];
      }
      assert profile.rules[..|profile.rules|] == profile.rules;
    }
    assert state.activeProfiles[..|state.activeProfiles|] == state.activeProfiles;
    TallyResolves(fs, m);
    if obs.Notification? {
      return if t.mute || t.blocked.Some? then Muted else Allowed;
    }
    var reason := if t.blocked.Some? then t.blocked else if t.budgetSpent.Some? then t.budgetSpent else t.launchesSpent;
    if reason.Some? {
      return BlockedBy(reason.value);
    }
    if t.allowOnly.Some? && !t.allowlisted {
      return BlockedBy(NotAllowlisted(t.allowOnly.value));
    }
    d := if t.delay.Some? then DelayedBy(t.delay.value) else Allowed;
  }

  lemma TallyResolves(fs: seq<Found>, m: Moment)
    ensures var t := TallyOf(fs, m);
            var reason :=
              if t.blocked.Some? then t.blocked else if t.budgetSpent.Some? then t.budgetSpent else t.launchesSpent;
            Resolve(fs, m) ==
              if m.obs.Idle? then Allowed
              else if m.obs.Notification? then (if t.mute || t.blocked.Some? then Muted else Allowed)
              else if reason.Some? then BlockedBy(reason.value)
              else if t.allowOnly.Some? && !t.allowlisted then BlockedBy(NotAllowlisted(t.allowOnly.value))
              else if t.delay.Some? then DelayedBy(t.delay.value) else Allowed
  {
  }

  lemma NothingWalked(active: seq<string>, c: Config, platform: Platform, m: Moment)
    ensures InForce(active[..0], c, platform) == []
    ensures TallyOf([], m) == NOTHING
  {
  }

  lemma NoRulesYet(profile: string, rules: seq<Rule>, platform: Platform)
    ensures Applicable(profile, rules[..0], platform) == []
  {
  }

  // ----- What the decision depends on -----

  lemma {:induction false} ApplicableMembers(profile: string, rules: seq<Rule>, platform: Platform, f: Found)
    ensures f in Applicable(profile, rules, platform) <==>
              f.profile == profile && f.rule in rules && AppliesTo(f.rule, platform)
  {
    if rules == [] {
    } else {
      ApplicableMembers(profile, rules[..|rules| - 1], platform, f);
      assert rules == rules[..|rules| - 1] + [rules[|rules| - 1]];
    }
  }

  /** A rule is in force exactly when an active, defined profile holds it and it applies here. */
  lemma {:induction false} InForceMembers(active: seq<string>, c: Config, platform: Platform, f: Found)
    ensures f in InForce(active, c, platform) <==>
              && f.profile in active && FindProfile(c, f.profile).Some?
              && f.rule in FindProfile(c, f.profile).value.rules && AppliesTo(f.rule, platform)
  {
    if active == [] {
    } else {
      var n := |active| - 1;
      InForceMembers(active[..n], c, platform, f);
      assert active == active[..n] + [active[n]];
      if FindProfile(c, active[n]).Some? {
        var p := FindProfile(c, active[n]).value;
        ApplicableMembers(p.id, p.rules, platform, f);
      }
    }
  }

  lemma {:induction false} LongestDelayFacts(fs: seq<Found>, m: Moment)
    ensures LongestDelay(fs, m).Some? <==> AnyRule(Delays, fs, m)
    ensures LongestDelay(fs, m).Some? ==>
              var longest := LongestDelay(fs, m).value;
              && (exists f :: f in fs && Answers(Delays, f.rule, m) && f.rule.action.seconds == longest)
              && (forall f :: f in fs && Answers(Delays, f.rule, m) ==> f.rule.action.seconds <= longest)
  {
    if fs == [] {
    } else {
      LongestDelayFacts(fs[..|fs| - 1], m);
      assert fs == fs[..|fs| - 1] + [fs[|fs| - 1]];
    }
  }

  /** The kind of a decision, with the friction but without which profile or limit is named. */
  datatype Class = AllowC | BlockC | BudgetC | LaunchC | AllowlistC | DelayC(seconds: nat) | MuteC

  function ClassOf(d: Decision): Class {
    match d
    case Allowed => AllowC
    case Muted => MuteC
    case DelayedBy(seconds) => DelayC(seconds)
    case BlockedBy(Blocked(_)) => BlockC
    case BlockedBy(BudgetExhausted(_, _)) => BudgetC
    case BlockedBy(LaunchLimitReached(_, _)) => LaunchC
    case BlockedBy(NotAllowlisted(_)) => AllowlistC
  }

  /** Some rule blocks outright, by name or by a spent ration. */
  predicate AnyHard(fs: seq<Found>, m: Moment) {
    AnyRule(Blocks, fs, m) || AnyRule(SpendsBudget, fs, m) || AnyRule(SpendsLaunches, fs, m)
  }

  /** The decision, read off the rules in force as a set: the strictest answer any of them gives. */
  lemma StrictestWins(fs: seq<Found>, m: Moment)
    ensures m.obs.Idle? ==> ClassOf(Resolve(fs, m)) == AllowC
    ensures m.obs.Notification? ==>
              ClassOf(Resolve(fs, m)) == if AnyRule(Mutes, fs, m) || AnyRule(Blocks, fs, m) then MuteC else AllowC
    ensures !m.obs.Idle? && !m.obs.Notification? ==>
              ClassOf(Resolve(fs, m)) ==
                if AnyRule(Blocks, fs, m) then BlockC
                else if AnyRule(SpendsBudget, fs, m) then BudgetC
                else if AnyRule(SpendsLaunches, fs, m) then LaunchC
                else if AnyRule(Restricts, fs, m) && !AnyRule(Lists, fs, m) then AllowlistC
                else if AnyRule(Delays, fs, m) then DelayC(LongestDelay(fs, m).GetOr(0))
                else AllowC
  {
    hide FirstRule, LongestDelay, AnyRule, Answers, BudgetReason, LaunchReason;
    FirstAnswers(Blocks, fs, m);
    SpentReasons(fs, m);
    FirstAnswers(Restricts, fs, m);
    FirstAnswers(Lists, fs, m);
    FirstAnswers(Mutes, fs, m);
    LongestDelayFacts(fs, m);
  }

  /** A spent ration gives a reason of its own kind. */
  lemma SpentReasons(fs: seq<Found>, m: Moment)
    ensures var budget := BudgetReason(FirstRule(SpendsBudget, fs, m));
            && (budget.Some? <==> AnyRule(SpendsBudget, fs, m))
            && (budget.Some? ==> budget.value.BudgetExhausted?)
    ensures var launches := LaunchReason(FirstRule(SpendsLaunches, fs, m));
            && (launches.Some? <==> AnyRule(SpendsLaunches, fs, m))
            && (launches.Some? ==> launches.value.LaunchLimitReached?)
  {
    hide FirstRule, AnyRule;
    FirstAnswers(SpendsBudget, fs, m);
    FirstAnswers(SpendsLaunches, fs, m);
  }

  lemma SameRulesSameClass(fs: seq<Found>, gs: seq<Found>, m: Moment)
    requires forall f :: f in fs <==> f in gs
    ensures ClassOf(Resolve(fs, m)) == ClassOf(Resolve(gs, m))
  {
    StrictestWins(fs, m);
    StrictestWins(gs, m);
    LongestDelayFacts(fs, m);
    LongestDelayFacts(gs, m);
    assert forall q :: AnyRule(q, fs, m) == AnyRule(q, gs, m);
  }

  /** Two configs that hold the same rules in the same profiles, in any order. */
  ghost predicate SameRules(c: Config, c': Config) {
    && c.offset == c'.offset
    && forall p ::
         && FindProfile(c, p).Some? == FindProfile(c', p).Some?
         && (FindProfile(c, p).Some? ==>
               forall r :: r in FindProfile(c, p).value.rules <==> r in FindProfile(c', p).value.rules)
  }

  /**
   * Neither the order of active profiles nor the order of profiles or rules in the config changes
   * what is decided, which kind of reason is given, or how long the delay is.
   */
  lemma OrderNeverDecides(now: Timestamp, s: State, s': State, obs: Observation, c: Config, c': Config)
    requires s' == s.(activeProfiles := s'.activeProfiles)
    requires forall p :: p in s.activeProfiles <==> p in s'.activeProfiles
    requires SameRules(c, c')
    ensures ClassOf(Decide(now, s, obs, c)) == ClassOf(Decide(now, s', obs, c'))
  {
    hide Answers, Resolve, ClassOf;
    var fs, gs := InForce(s.activeProfiles, c, s.platform), InForce(s'.activeProfiles, c', s.platform);
    var m, m' := Moment(now, s, obs, c.offset), Moment(now, s', obs, c.offset);
    forall f ensures f in fs <==> f in gs {
      InForceMembers(s.activeProfiles, c, s.platform, f);
      InForceMembers(s'.activeProfiles, c', s.platform, f);
    }
    SameRulesSameClass(fs, gs, m);
    forall f: Found, q ensures Answers(q, f.rule, m) == Answers(q, f.rule, m') {
      RosterIsNotRead(q, f.rule, m, m');
    }
    SameAnswersSameDecision(gs, m, m');
  }

  /** No rule reads which profiles are active. */
  lemma RosterIsNotRead(q: Question, r: Rule, m: Moment, m': Moment)
    requires m' == m.(state := m.state.(activeProfiles := m'.state.activeProfiles))
    ensures Answers(q, r, m) == Answers(q, r, m')
  {
    hide TargetMatches, Key;
  }

  lemma {:induction false} SameAnswersSameFirsts(fs: seq<Found>, m: Moment, m': Moment)
    requires forall f, q :: f in fs ==> Answers(q, f.rule, m) == Answers(q, f.rule, m')
    ensures forall q :: FirstRule(q, fs, m) == FirstRule(q, fs, m')
    ensures LongestDelay(fs, m) == LongestDelay(fs, m')
  {
    if fs == [] {
    } else {
      SameAnswersSameFirsts(fs[..|fs| - 1], m, m');
      assert fs[|fs| - 1] in fs;
    }
  }

  lemma SameAnswersSameDecision(fs: seq<Found>, m: Moment, m': Moment)
    requires m.obs == m'.obs
    requires forall f, q :: f in fs ==> Answers(q, f.rule, m) == Answers(q, f.rule, m')
    ensures Resolve(fs, m) == Resolve(fs, m')
  {
    SameAnswersSameFirsts(fs, m, m');
  }

  // ----- The keys usage is charged to -----

  predicate Metered(r: Rule) {
    r.action.Budget? || r.action.LaunchLimit?
  }

  function ChargedTo(fs: seq<Found>, obs: Observation): seq<string> {
    if fs == [] then []
    else
      var before, r := ChargedTo(fs[..|fs| - 1], obs), fs[|fs| - 1].rule;
      if Metered(r) && TargetMatches(r.target, obs) && Key(r.target) !in before then before + [Key(r.target)]
      else before
  }

  /** The usage keys an observation is charged against: each once, in the order first met. */
  method ChargedKeys(state: State, obs: Observation, c: Config) returns (keys: seq<string>)
    ensures keys == ChargedTo(InForce(state.activeProfiles, c, state.platform), obs)
  {
    hide TargetMatches, Key, InForce, Applicable, AppliesTo, ChargedTo, FindProfile;
    keys := [];
    ghost var fs: seq<Found> := [];
    NothingCharged(state.activeProfiles, c, state.platform, obs);
    for i := 0 to |state.activeProfiles|
      invariant fs == InForce(state.activeProfiles[..i], c, state.platform) && keys == ChargedTo(fs, obs)
    {
      NextProfile(state.activeProfiles, i, c, state.platform);
      var found := FindProfile(c, state.activeProfiles[i]);
      if found.None? {
        continue;
      }
      var profile := found.value;
      ghost var before := fs;
      NoRulesYet(profile.id, profile.rules, state.platform);
      for j := 0 to |profile.rules|
        invariant fs == before + Applicable(profile.id, profile.rules[..j], state.platform)
                  && keys == ChargedTo(fs, obs)
      {
        NextRule(profile.id, profile.rules, j, state.platform);
        var rule := profile.rules[j];
        ChargeOne(fs, Found(profile.id, rule), obs);
        if AppliesTo(rule, state.platform) {
          fs := fs + [Found(profile.id, rule)];
        }
        if !(rule.action.Budget? || rule.action.LaunchLimit?) {
          continue;
        }
        if !AppliesTo(rule, state.platform) || !TargetMatches(rule.target, obs) {
          continue;
        }
        var key := Key(rule.target);
        if key !in keys {
          keys := keys + [key];
        }
      }
      assert profile.rules[..|profile.rules|] == profile.rules;
    }
    assert state.activeProfiles[..|state.activeProfiles|] == state.activeProfiles;
  }

  lemma NothingCharged(active: seq<string>, c: Config, platform: Platform, obs: Observation)
    ensures InForce(active[..0], c, platform) == [] && ChargedTo([], obs) == []
  {
  }

  lemma ChargeOne(fs: seq<Found>, f: Found, obs: Observation)
    ensures ChargedTo(fs + [f], obs) ==
              if Metered(f.rule) && TargetMatches(f.rule.target, obs) && Key(f.rule.target) !in ChargedTo(fs, obs)
              then ChargedTo(fs, obs) + [Key(f.rule.target)] else ChargedTo(fs, obs)
  {
    assert (fs + [f])[..|fs + [f]| - 1] == fs;
  }

  /** The rule meters the observation under this key. */
  predicate Charges(r: Rule, obs: Observation, key: string) {
    Metered(r) && TargetMatches(r.target, obs) && Key(r.target) == key
  }

  lemma {:induction false} ChargedExactlyWhen(fs: seq<Found>, obs: Observation, key: string)
    ensures key in ChargedTo(fs, obs) <==>
              exists f :: f in fs && Metered(f.rule) && TargetMatches(f.rule.target, obs) && Key(f.rule.target) == key
    ensures forall i, j :: 0 <= i < j < |ChargedTo(fs, obs)| ==> ChargedTo(fs, obs)[i] != ChargedTo(fs, obs)[j]
  {
    ChargedByRules(fs, obs, key);
    ChargedOnce(fs, obs);
    hide ChargedTo;
  }

  lemma {:induction false} ChargedByRules(fs: seq<Found>, obs: Observation, key: string)
    ensures key in ChargedTo(fs, obs) <==> exists f :: f in fs && Charges(f.rule, obs, key)
  {
    hide TargetMatches, Key, Metered;
    if fs == [] {
    } else {
      var n := |fs| - 1;
      ChargedByRules(fs[..n], obs, key);
      assert forall f :: f in fs <==> f in fs[..n] || f == fs[n];
    }
  }

  lemma {:induction false} ChargedOnce(fs: seq<Found>, obs: Observation)
    ensures forall i, j :: 0 <= i < j < |ChargedTo(fs, obs)| ==> ChargedTo(fs, obs)[i] != ChargedTo(fs, obs)[j]
  {
    hide TargetMatches, Key, Metered;
    if fs == [] {
    } else {
      ChargedOnce(fs[..|fs| - 1], obs);
    }
  }

  /** Two ledgers agree on a key. */
  predicate AgreeOn(s: State, s': State, key: string) {
    && (key in s.usage <==> key in s'.usage) && (key in s.usage ==> s.usage[key] == s'.usage[key])
    && (key in s.launches <==> key in s'.launches) && (key in s.launches ==> s.launches[key] == s'.launches[key])
  }

  lemma RuleReadsOnlyItsKey(q: Question, r: Rule, now: Timestamp, s: State, s': State, obs: Observation, offset: int)
    requires s.activeProfiles == s'.activeProfiles && s.platform == s'.platform
    requires Metered(r) && TargetMatches(r.target, obs) ==> AgreeOn(s, s', Key(r.target))
    ensures Answers(q, r, Moment(now, s, obs, offset)) == Answers(q, r, Moment(now, s', obs, offset))
  {
    hide TargetMatches, Key;
  }

  /** The charged keys are all a decision reads of the ledger: states agreeing there decide alike. */
  lemma DecisionReadsOnlyChargedKeys(now: Timestamp, s: State, s': State, obs: Observation, c: Config)
    requires s.activeProfiles == s'.activeProfiles && s.platform == s'.platform
    requires forall key :: key in ChargedTo(InForce(s.activeProfiles, c, s.platform), obs) ==> AgreeOn(s, s', key)
    ensures Decide(now, s, obs, c) == Decide(now, s', obs, c)
  {
    hide InForce, ChargedTo, Answers, AgreeOn, TargetMatches, Key, Resolve;
    var fs := InForce(s.activeProfiles, c, s.platform);
    var m, m' := Moment(now, s, obs, c.offset), Moment(now, s', obs, c.offset);
    forall f, q | f in fs ensures Answers(q, f.rule, m) == Answers(q, f.rule, m') {
      ChargedExactlyWhen(fs, obs, Key(f.rule.target));
      RuleReadsOnlyItsKey(q, f.rule, now, s, s', obs, c.offset);
    }
    SameAnswersSameDecision(fs, m, m');
  }
}
