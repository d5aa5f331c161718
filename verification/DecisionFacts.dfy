/**
 * Decisions from the config as it is written: which rules speak on a platform at all, and what the ones
 * that do bring about.
 */
module DecisionFacts {
  import opened Basics
  import opened TargetMatch
  import opened Refills
  import opened ConfigModel
  import opened Engine

  // ----- Platforms -----

  /** The rule lists no platform, or this one somewhere. */
  predicate MeantFor(r: Rule, platform: Platform) {
    |r.platforms| == 0 || exists i :: 0 <= i < |r.platforms| && r.platforms[i] == platform
  }

  /** `p` is active, is defined, and holds the rule, and the rule is meant for this platform. */
  predicate Speaks(p: string, r: Rule, s: State, c: Config) {
    && p in s.activeProfiles && FindProfile(c, p).Some? && r in FindProfile(c, p).value.rules
    && MeantFor(r, s.platform)
  }

  /** The rules in force are exactly the ones of active profiles that are meant for the platform. */
  lemma InForceExactlyWhen(s: State, c: Config, f: Found)
    ensures f in InForce(s.activeProfiles, c, s.platform) <==> Speaks(f.profile, f.rule, s, c)
  {
    InForceMembers(s.activeProfiles, c, s.platform, f);
  }

  /** Some active rule meant for the platform answers yes. */
  ghost predicate Anyone(q: Question, now: Timestamp, s: State, obs: Observation, c: Config) {
    exists p, r :: Speaks(p, r, s, c) && Answers(q, r, Moment(now, s, obs, c.offset))
  }

  lemma AnyoneIsAnyRule(q: Question, now: Timestamp, s: State, obs: Observation, c: Config)
    ensures Anyone(q, now, s, obs, c) <==>
              AnyRule(q, InForce(s.activeProfiles, c, s.platform), Moment(now, s, obs, c.offset))
  {
    hide InForce, Answers, Speaks;
    var fs, m := InForce(s.activeProfiles, c, s.platform), Moment(now, s, obs, c.offset);
    if AnyRule(q, fs, m) {
      var f :| f in fs && Answers(q, f.rule, m);
      InForceExactlyWhen(s, c, f);
    }
    if p, r :| Speaks(p, r, s, c) && Answers(q, r, m) {
      InForceExactlyWhen(s, c, Found(p, r));
      assert Found(p, r) in fs && Answers(q, Found(p, r).rule, m);
    }
  }

  /** The longest delay that any rule asks for is `n`. */
  ghost predicate LongestAsked(n: nat, now: Timestamp, s: State, obs: Observation, c: Config) {
    var m := Moment(now, s, obs, c.offset);
    && (exists p, r :: Speaks(p, r, s, c) && Answers(Delays, r, m) && r.action.seconds == n)
    && (forall p, r :: Speaks(p, r, s, c) && Answers(Delays, r, m) ==> r.action.seconds <= n)
  }

  lemma LongestIsAsked(now: Timestamp, s: State, obs: Observation, c: Config, n: nat)
    ensures LongestDelay(InForce(s.activeProfiles, c, s.platform), Moment(now, s, obs, c.offset)) == Some(n) <==>
              LongestAsked(n, now, s, obs, c)
  {
    hide InForce, Speaks, LongestDelay, TargetMatches;
    var fs, m := InForce(s.activeProfiles, c, s.platform), Moment(now, s, obs, c.offset);
    LongestDelayFacts(fs, m);
    forall p, r ensures Speaks(p, r, s, c) <==> Found(p, r) in fs {
      InForceExactlyWhen(s, c, Found(p, r));
    }
    if LongestDelay(fs, m).Some? {
      var f :| f in fs && Answers(Delays, f.rule, m) && f.rule.action.seconds == LongestDelay(fs, m).value;
      assert Found(f.profile, f.rule) == f;
      assert Speaks(f.profile, f.rule, s, c);
    }
    if LongestAsked(n, now, s, obs, c) {
      var p, r :| Speaks(p, r, s, c) && Answers(Delays, r, m) && r.action.seconds == n;
      assert Found(p, r) in fs;
    }
  }

  /** The class of a decision, from the rules written for this platform in the active profiles. */
  lemma DecidedByWhatIsWritten(now: Timestamp, s: State, obs: Observation, c: Config)
    ensures var any := (q: Question) => Anyone(q, now, s, obs, c);
            var got := ClassOf(Decide(now, s, obs, c));
            var hard := any(Blocks) || any(SpendsBudget) || any(SpendsLaunches);
            var listed := any(Restricts) ==> any(Lists);
            && (obs.Idle? ==> got == AllowC)
            && (obs.Notification? ==> got == if any(Mutes) || any(Blocks) then MuteC else AllowC)
            && (!obs.Idle? && !obs.Notification? ==>
                  && (got == BlockC <==> any(Blocks))
                  && (got == BudgetC <==> !any(Blocks) && any(SpendsBudget))
                  && (got == LaunchC <==> !any(Blocks) && !any(SpendsBudget) && any(SpendsLaunches))
                  && (got == AllowlistC <==> !hard && !listed)
                  && (forall n :: got == DelayC(n) <==> !hard && listed && LongestAsked(n, now, s, obs, c))
                  && (got == AllowC <==> !hard && listed && !any(Delays)))
  {
    hide InForce, Resolve, AnyRule, Anyone, LongestDelay, LongestAsked;
    var fs, m := InForce(s.activeProfiles, c, s.platform), Moment(now, s, obs, c.offset);
    forall q ensures Anyone(q, now, s, obs, c) == AnyRule(q, fs, m) {
      AnyoneIsAnyRule(q, now, s, obs, c);
    }
    forall n: nat ensures LongestDelay(fs, m) == Some(n) <==> LongestAsked(n, now, s, obs, c) {
      LongestIsAsked(now, s, obs, c, n);
    }
    StrictestWins(fs, m);
    LongestDelayFacts(fs, m);
  }

  /** Two configs with the same rules for this platform, and whatever rules for others. */
  ghost predicate SameHere(c: Config, c': Config, platform: Platform) {
    && c.offset == c'.offset
    && forall p ::
         && FindProfile(c, p).Some? == FindProfile(c', p).Some?
         && (FindProfile(c, p).Some? ==> forall r :: MeantFor(r, platform) ==>
               (r in FindProfile(c, p).value.rules <==> r in FindProfile(c', p).value.rules))
  }

  /** Rules for other platforms decide nothing, and nothing is charged to them. */
  lemma OtherPlatformsDecideNothing(now: Timestamp, s: State, obs: Observation, c: Config, c': Config)
    requires SameHere(c, c', s.platform)
    ensures ClassOf(Decide(now, s, obs, c)) == ClassOf(Decide(now, s, obs, c'))
    ensures forall key :: key in ChargedTo(InForce(s.activeProfiles, c, s.platform), obs) <==>
                          key in ChargedTo(InForce(s.activeProfiles, c', s.platform), obs)
  {
    hide InForce, Resolve, ClassOf, ChargedTo;
    var fs, gs := InForce(s.activeProfiles, c, s.platform), InForce(s.activeProfiles, c', s.platform);
    forall f ensures f in fs <==> f in gs {
      InForceExactlyWhen(s, c, f);
      InForceExactlyWhen(s, c', f);
    }
    SameRulesSameClass(fs, gs, Moment(now, s, obs, c.offset));
    forall key ensures key in ChargedTo(fs, obs) <==> key in ChargedTo(gs, obs) {
      ChargedExactlyWhen(fs, obs, key);
      ChargedExactlyWhen(gs, obs, key);
    }
  }

  /** A key is charged exactly for a matching metered rule of an active profile meant for the platform. */
  lemma ChargedForWhatIsWritten(s: State, obs: Observation, c: Config, key: string)
    ensures key in ChargedTo(InForce(s.activeProfiles, c, s.platform), obs) <==>
              exists p, r :: Speaks(p, r, s, c) && (r.action.Budget? || r.action.LaunchLimit?)
                             && TargetMatches(r.target, obs) && Key(r.target) == key
  {
    hide InForce, ChargedTo, Speaks, TargetMatches, Key;
    var fs := InForce(s.activeProfiles, c, s.platform);
    ChargedExactlyWhen(fs, obs, key);
    forall p, r ensures Speaks(p, r, s, c) <==> Found(p, r) in fs {
      InForceExactlyWhen(s, c, Found(p, r));
    }
    if key in ChargedTo(fs, obs) {
      var f :| f in fs && Metered(f.rule) && TargetMatches(f.rule.target, obs) && Key(f.rule.target) == key;
      assert Found(f.profile, f.rule) == f && Speaks(f.profile, f.rule, s, c);
    }
  }

  // ----- What one rule brings about -----

  /** A matching block of an active profile blocks, and mutes notifications, wherever it is meant for. */
  lemma BlockBlocks(now: Timestamp, s: State, obs: Observation, c: Config, p: string, r: Rule)
    requires Speaks(p, r, s, c) && r.action == Block && TargetMatches(r.target, obs) && !obs.Idle?
    ensures if obs.Notification? then Decide(now, s, obs, c) == Muted
            else Decide(now, s, obs, c).BlockedBy? && Decide(now, s, obs, c).reason.Blocked?
  {
    hide TargetMatches;
    assert Answers(Blocks, r, Moment(now, s, obs, c.offset));
    assert Anyone(Blocks, now, s, obs, c);
    hide Decide, Anyone, LongestAsked, Speaks, Answers;
    DecidedByWhatIsWritten(now, s, obs, c);
  }

  /** The seconds used of a target since an instant, as the ledger has them. */
  function SecondsOf(s: State, key: string, from: Timestamp): nat {
    if key in s.usage then TotalSince(s.usage[key], Some(from)) else 0
  }

  /** A budget over a rolling stretch blocks exactly while the last so many seconds hold that much use. */
  lemma RollingBudgetBlocksExactlyWhen(now: Timestamp, s: State, obs: Observation, offset: int, r: Rule)
    requires r.action.Budget? && r.action.refill.Rolling? && r.action.seconds <= MAX_U32
    requires TargetMatches(r.target, obs) && r.action.seconds > 0
    ensures Answers(SpendsBudget, r, Moment(now, s, obs, offset)) <==>
              SecondsOf(s, Key(r.target), now - r.action.refill.seconds) >= r.action.seconds
  {
    hide TargetMatches, Key;
    var key := Key(r.target);
    if key in s.usage {
      SpentExactlyWhen(s.usage[key], Some(now - r.action.refill.seconds), r.action.seconds);
    }
  }

  /** A launch limit over a rolling stretch blocks exactly while the last so many seconds hold that many opens. */
  lemma RollingLimitBlocksExactlyWhen(now: Timestamp, s: State, obs: Observation, offset: int, r: Rule)
    requires r.action.LaunchLimit? && r.action.refill.Rolling? && TargetMatches(r.target, obs)
    requires Key(r.target) in s.launches && |s.launches[Key(r.target)]| < 0x1_0000_0000
    ensures Answers(SpendsLaunches, r, Moment(now, s, obs, offset)) <==>
              |Since(s.launches[Key(r.target)], Some(now - r.action.refill.seconds))| >= r.action.count
  {
    hide TargetMatches, Key;
    var opens, from := s.launches[Key(r.target)], Some(now - r.action.refill.seconds);
    OpensAreCounted(opens, from);
    CountIsShort(opens, from);
  }

  lemma {:induction false} CountIsShort(opens: seq<Timestamp>, from: Option<Timestamp>)
    ensures CountOpens(opens, from) <= |opens|
  {
    if opens == [] {
    } else {
      CountIsShort(opens[..|opens| - 1], from);
    }
  }
}
