/** What a config that passes the guard means for every decision, and exactly when it loosens one. */
module Adoption {
  import opened Basics
  import opened Text
  import opened TargetMatch
  import opened Refills
  import opened SessionStore
  import opened ConfigModel
  import opened Engine
  import opened ConfigGuard

  // ----- Stricter or not -----

  /** Allow, then delays by length, then block; for notifications, deliver and then mute. */
  predicate AtLeastAsStrict(d: Decision, than: Decision) {
    match than
    case Allowed => true
    case DelayedBy(s) => d.BlockedBy? || (d.DelayedBy? && d.seconds >= s)
    case BlockedBy(_) => d.BlockedBy?
    case Muted => d.Muted?
  }

  /** Every rule of `p` found again is found under a target of the same screen, if it is one. */
  predicate KeepsScreens(c: Config, next: Config, p: string) {
    FindProfile(c, p).Some? && FindProfile(next, p).Some? ==>
      forall r :: r in FindProfile(c, p).value.rules ==>
        var after := FindProfile(next, p).value.rules;
        var i := RuleAt(after, Key(r.target), r.platforms);
        i < |after| ==> SameScreen(r.target, after[i].target)
  }

  /** The target the rule is found under again matches what its own did. */
  predicate MatchesAsBefore(after: seq<Rule>, r: Rule, obs: Observation) {
    var i := RuleAt(after, Key(r.target), r.platforms);
    i < |after| ==> TargetMatches(r.target, obs) == TargetMatches(after[i].target, obs)
  }

  /**
   * The guard compares keys, and a key is not all of a target: what it finds again still matches
   * what it did exactly when no screen was exchanged for one of another package.
   */
  lemma KeptMatchesExactlyWhen(c: Config, next: Config, p: string)
    requires FindProfile(c, p).Some? && FindProfile(next, p).Some?
    ensures (forall r, obs :: r in FindProfile(c, p).value.rules ==>
                MatchesAsBefore(FindProfile(next, p).value.rules, r, obs))
            <==> KeepsScreens(c, next, p)
  {
    hide RuleAt, Key, TargetMatches, SameScreen;
    var rules, after := FindProfile(c, p).value.rules, FindProfile(next, p).value.rules;
    forall r | r in rules
      ensures (forall obs :: MatchesAsBefore(after, r, obs)) <==>
                var i := RuleAt(after, Key(r.target), r.platforms);
                i < |after| ==> SameScreen(r.target, after[i].target)
    {
      var i := RuleAt(after, Key(r.target), r.platforms);
      if i < |after| {
        KeyFixesMatchingExactlyWhen(r.target, after[i].target);
        assert (forall obs :: MatchesAsBefore(after, r, obs)) ==>
            forall obs :: TargetMatches(r.target, obs) == TargetMatches(after[i].target, obs) by {
          forall obs | MatchesAsBefore(after, r, obs)
            ensures TargetMatches(r.target, obs) == TargetMatches(after[i].target, obs)
          {
          }
        }
      }
    }
  }

  /** No target of the config could share a key with a differently matching one. */
  predicate PlainKeys(c: Config) {
    forall p, r :: p in c.profiles && r in p.rules ==> PlainKey(r.target)
  }

  lemma PlainKeysKeepScreens(c: Config, next: Config, p: string)
    requires PlainKeys(c) && PlainKeys(next)
    ensures KeepsScreens(c, next, p)
  {
    if FindProfile(c, p).Some? && FindProfile(next, p).Some? {
      var after := FindProfile(next, p).value.rules;
      forall r | r in FindProfile(c, p).value.rules && RuleAt(after, Key(r.target), r.platforms) < |after|
        ensures SameScreen(r.target, after[RuleAt(after, Key(r.target), r.platforms)].target)
      {
        var r' := after[RuleAt(after, Key(r.target), r.platforms)];
        assert r' in after;
        PlainKeysSameScreen(r.target, r'.target);
      }
    }
  }

  lemma PlainKeysSameScreen(a: Target, b: Target)
    requires Key(a) == Key(b) && PlainKey(a) && PlainKey(b)
    ensures SameScreen(a, b)
  {
    forall obs ensures TargetMatches(a, obs) == TargetMatches(b, obs) {
      KeyFixesMatching(a, b, obs);
    }
    KeyFixesMatchingExactlyWhen(a, b);
  }

  lemma SameIdentitySameAnswer(r: Rule, r': Rule, m: Moment, q: Question)
    requires Key(r.target) == Key(r'.target) && r.action == r'.action && SameScreen(r.target, r'.target)
    ensures Answers(q, r, m) == Answers(q, r', m)
  {
    OneKeySamePackage(r.target, r'.target, m.obs);
  }

  /** Every answer the old rules gave, some new rule gives. */
  lemma AnswersSurvive(c: Config, next: Config, active: seq<string>, m: Moment, q: Question, f: Found)
    returns (g: Found)
    requires forall p :: p in active ==> Kept(c, next, p) && KeepsScreens(c, next, p)
    requires f in InForce(active, c, m.state.platform) && Answers(q, f.rule, m)
    ensures g in InForce(active, next, m.state.platform) && Answers(q, g.rule, m) && g.rule.action == f.rule.action
  {
    hide Answers, TargetMatches, Key, SameScreen, RuleAt;
    InForceMembers(active, c, m.state.platform, f);
    assert Kept(c, next, f.profile) && KeepsScreens(c, next, f.profile);
    assert StillHas(FindProfile(next, f.profile), f.rule);
    var after := FindProfile(next, f.profile).value.rules;
    var r := after[RuleAt(after, Key(f.rule.target), f.rule.platforms)];
    assert r in after;
    g := Found(f.profile, r);
    InForceMembers(active, next, m.state.platform, g);
    SameIdentitySameAnswer(f.rule, r, m, q);
  }

  lemma LongestIsAsked(fs: seq<Found>, m: Moment) returns (f: Found)
    requires LongestDelay(fs, m).Some?
    ensures f in fs && Answers(Delays, f.rule, m) && f.rule.action == Delay(LongestDelay(fs, m).value)
  {
    LongestDelayFacts(fs, m);
    f :| f in fs && Answers(Delays, f.rule, m) && f.rule.action.seconds == LongestDelay(fs, m).value;
  }

  lemma AllAnswersSurvive(c: Config, next: Config, active: seq<string>, m: Moment)
    requires forall p :: p in active ==> Kept(c, next, p) && KeepsScreens(c, next, p)
    ensures forall q :: AnyRule(q, InForce(active, c, m.state.platform), m) ==>
                AnyRule(q, InForce(active, next, m.state.platform), m)
    ensures LongestDelay(InForce(active, c, m.state.platform), m).Some? ==>
              && LongestDelay(InForce(active, next, m.state.platform), m).Some?
              && LongestDelay(InForce(active, next, m.state.platform), m).value
                   >= LongestDelay(InForce(active, c, m.state.platform), m).value
  {
    hide Answers, InForce, Kept, KeepsScreens, LongestDelay;
    var fs, gs := InForce(active, c, m.state.platform), InForce(active, next, m.state.platform);
    forall q | AnyRule(q, fs, m) ensures AnyRule(q, gs, m) {
      var f :| f in fs && Answers(q, f.rule, m);
      var g := AnswersSurvive(c, next, active, m, q, f);
    }
    if LongestDelay(fs, m).Some? {
      var f := LongestIsAsked(fs, m);
      var g := AnswersSurvive(c, next, active, m, Delays, f);
      LongestDelayFacts(gs, m);
    }
  }

  // ----- What a change of zone can move -----

  /** A ration that starts over at a local time. */
  predicate ResetsByZone(a: Action) {
    (a.Budget? || a.LaunchLimit?) && a.refill.Resets()
  }

  predicate AsksARation(q: Question) {
    q == SpendsBudget || q == SpendsLaunches
  }

  lemma ZoneMovesOnlyRations(q: Question, r: Rule, m: Moment, offset: int)
    requires AsksARation(q) ==> !ResetsByZone(r.action)
    ensures Answers(q, r, m) == Answers(q, r, m.(offset := offset))
  {
    hide TargetMatches, UsedSince, OpensSince, Key;
  }

  lemma ZoneMovesNoOtherRule(q: Question, fs: seq<Found>, m: Moment, offset: int)
    requires !AsksARation(q)
    ensures AnyRule(q, fs, m) == AnyRule(q, fs, m.(offset := offset))
  {
    hide Answers;
    forall f | f in fs ensures Answers(q, f.rule, m) == Answers(q, f.rule, m.(offset := offset)) {
      ZoneMovesOnlyRations(q, f.rule, m, offset);
    }
  }

  lemma {:induction false} ZoneMovesNoDelay(fs: seq<Found>, m: Moment, offset: int)
    ensures LongestDelay(fs, m) == LongestDelay(fs, m.(offset := offset))
  {
    hide Answers;
    if fs == [] {
    } else {
      ZoneMovesNoDelay(fs[..|fs| - 1], m, offset);
      ZoneMovesOnlyRations(Delays, fs[|fs| - 1].rule, m, offset);
    }
  }

  // ----- When an accepted config decides less strictly -----

  /**
   * What only a spent ration or the allow-list was blocking at `m`, no rule blocks at `m'` any more:
   * no hard rule does, and an allow-list names it or there is none.
   */
  predicate Loosened(fs: seq<Found>, gs: seq<Found>, m: Moment, m': Moment) {
    && !m.obs.Idle? && !m.obs.Notification?
    && (AnyRule(SpendsBudget, fs, m) || AnyRule(SpendsLaunches, fs, m)
        || (AnyRule(Restricts, fs, m) && !AnyRule(Lists, fs, m)))
    && !AnyHard(gs, m') && (AnyRule(Lists, gs, m') || !AnyRule(Restricts, gs, m'))
  }

  /**
   * For a config the guard passes, in whatever zone: the new decision is at least as strict as the old
   * one, except exactly where what blocked was a ration the new zone hands back, or an allow-list that
   * now names it, and nothing else blocks.
   */
  lemma AdoptionIsStrictExactlyWhen(c: Config, next: Config, now: Timestamp, state: State, obs: Observation)
    requires forall p :: p in state.activeProfiles ==> Kept(c, next, p) && KeepsScreens(c, next, p)
    ensures AtLeastAsStrict(Decide(now, state, obs, next), Decide(now, state, obs, c)) <==>
            !Loosened(InForce(state.activeProfiles, c, state.platform),
                      InForce(state.activeProfiles, next, state.platform),
                      Moment(now, state, obs, c.offset), Moment(now, state, obs, next.offset))
  {
    hide InForce, Resolve, Answers, LongestDelay, AnyRule, Kept, KeepsScreens;
    var fs, gs := InForce(state.activeProfiles, c, state.platform), InForce(state.activeProfiles, next, state.platform);
    var m, m' := Moment(now, state, obs, c.offset), Moment(now, state, obs, next.offset);
    AllAnswersSurvive(c, next, state.activeProfiles, m);
    forall q | !AsksARation(q) ensures AnyRule(q, gs, m) == AnyRule(q, gs, m') {
      ZoneMovesNoOtherRule(q, gs, m, next.offset);
    }
    ZoneMovesNoDelay(gs, m, next.offset);
    StrictestWins(fs, m);
    StrictestWins(gs, m');
    DelaysExactlyWhen(fs, m);
    DelaysExactlyWhen(gs, m');
  }

  lemma DelaysExactlyWhen(fs: seq<Found>, m: Moment)
    ensures LongestDelay(fs, m).Some? <==> AnyRule(Delays, fs, m)
  {
    LongestDelayFacts(fs, m);
  }

  /** Every allow-only rule of `p` in `next` was already there, for the same screen if it is one. */
  predicate AddsNoAllowOnly(c: Config, next: Config, p: string) {
    FindProfile(next, p).Some? ==>
      forall g :: g in FindProfile(next, p).value.rules && g.action.AllowOnly? ==>
        FindProfile(c, p).Some? && exists r :: r in FindProfile(c, p).value.rules && Lent(r, g)
  }

  /** The allow-only rule `g` was there as `r`. */
  predicate Lent(r: Rule, g: Rule) {
    && Key(r.target) == Key(g.target) && r.platforms == g.platforms && r.action == AllowOnly
    && SameScreen(r.target, g.target)
  }

  /** No rule of `p` meters by a ration that starts over at a local time. */
  predicate ZoneFree(c: Config, p: string) {
    FindProfile(c, p).Some? ==> forall r :: r in FindProfile(c, p).value.rules ==> !ResetsByZone(r.action)
  }

  /** What a caller can look at before adopting `next` over `c` with `p` running. */
  predicate SafeFor(c: Config, next: Config, p: string) {
    KeepsScreens(c, next, p) && AddsNoAllowOnly(c, next, p) && (next.offset == c.offset || ZoneFree(c, p))
  }

  lemma ListsWereThere(c: Config, next: Config, active: seq<string>, m: Moment)
    requires forall p :: p in active ==> AddsNoAllowOnly(c, next, p)
    requires AnyRule(Lists, InForce(active, next, m.state.platform), m)
    ensures AnyRule(Lists, InForce(active, c, m.state.platform), m)
  {
    hide Answers, Key, SameScreen, TargetMatches;
    var g :| g in InForce(active, next, m.state.platform) && Answers(Lists, g.rule, m);
    InForceMembers(active, next, m.state.platform, g);
    OnlyListsList(g.rule, m);
    var r :| r in FindProfile(c, g.profile).value.rules && Lent(r, g.rule);
    InForceMembers(active, c, m.state.platform, Found(g.profile, r));
    SameIdentitySameAnswer(r, g.rule, m, Lists);
    assert Answers(Lists, Found(g.profile, r).rule, m);
  }

  lemma OnlyListsList(r: Rule, m: Moment)
    ensures Answers(Lists, r, m) ==> r.action == AllowOnly
  {
  }

  /** In another zone a spent ration that does not start over at a local time is still spent. */
  lemma RationsStaySpent(c: Config, next: Config, active: seq<string>, m: Moment, q: Question)
    requires forall p :: p in active ==>
                 Kept(c, next, p) && KeepsScreens(c, next, p) && (next.offset == m.offset || ZoneFree(c, p))
    requires AnyRule(q, InForce(active, c, m.state.platform), m)
    ensures AnyRule(q, InForce(active, next, m.state.platform), m.(offset := next.offset))
  {
    hide Answers, KeepsScreens, Kept;
    var f :| f in InForce(active, c, m.state.platform) && Answers(q, f.rule, m);
    InForceMembers(active, c, m.state.platform, f);
    var g := AnswersSurvive(c, next, active, m, q, f);
    if next.offset == m.offset {
      assert m.(offset := next.offset) == m;
    } else {
      assert ZoneFree(c, f.profile);
      ZoneMovesOnlyRations(q, g.rule, m, next.offset);
    }
  }

  /**
   * A config the guard passes never makes a decision weaker when every running profile keeps its
   * screens and gains no allow-only rule, and the zone stays or nothing running depends on it.
   */
  lemma AdoptionNeverWeakens(c: Config, next: Config, running: seq<Session>, names: map<string, string>,
                             now: Timestamp, state: State, obs: Observation)
    requires Weakening(c, next, running, names) == {}
    requires forall p :: p in state.activeProfiles ==> exists s :: s in running && s.profile == p
    requires forall s :: s in running ==> SafeFor(c, next, s.profile)
    ensures AtLeastAsStrict(Decide(now, state, obs, next), Decide(now, state, obs, c))
  {
    GuardPassesExactlyWhen(c, next, running, names);
    hide InForce, AnyRule, Kept, KeepsScreens, AddsNoAllowOnly, ZoneFree, Decide, Weakening, AtLeastAsStrict;
    var active := state.activeProfiles;
    var fs, gs := InForce(active, c, state.platform), InForce(active, next, state.platform);
    var m, m' := Moment(now, state, obs, c.offset), Moment(now, state, obs, next.offset);
    AdoptionIsStrictExactlyWhen(c, next, now, state, obs);
    forall q | AnyRule(q, fs, m) ensures AnyRule(q, gs, m') {
      RationsStaySpent(c, next, active, m, q);
    }
    if AnyRule(Lists, gs, m') {
      ZoneMovesNoOtherRule(Lists, gs, m, next.offset);
      ListsWereThere(c, next, active, m);
    }
  }

  // ----- What the guard does not see -----

  const MAIL_ONLY: Rule := Rule(AppPackage("mail"), AllowOnly, [])
  const CHAT_TOO: Rule := Rule(AppPackage("chat"), AllowOnly, [])
  const FOCUS: Config := DEFAULT.(profiles := [Profile("p", "P", "", [MAIL_ONLY])])
  const WIDENED: Config := DEFAULT.(profiles := [Profile("p", "P", "", [MAIL_ONLY, CHAT_TOO])])

  lemma WidenedPassesTheGuard(session: Session)
    requires session.profile == "p"
    ensures Weakening(FOCUS, WIDENED, [session], map[]) == {}
  {
    GuardPassesExactlyWhen(FOCUS, WIDENED, [session], map[]);
    assert FindProfile(FOCUS, "p") == Some(FOCUS.profiles[0]) && FindProfile(WIDENED, "p") == Some(WIDENED.profiles[0]);
    assert RuleAt(WIDENED.profiles[0].rules, Key(MAIL_ONLY.target), []) == 0;
  }

  /** With one active profile, and no other defined, its rules are the ones in force. */
  lemma OneProfileInForce(c: Config, rules: seq<Rule>)
    requires c.profiles == [Profile("p", "P", "", rules)]
    ensures InForce(["p"], c, Android) == Applicable("p", rules, Android)
  {
    assert FindProfile(c, "p") == Some(c.profiles[0]);
    hide FindProfile, Applicable;
    NextProfile(["p"], 0, c, Android);
    assert ["p"][..1] == ["p"] && ["p"][..0] == [];
  }

  lemma AppliesEverywhere(rules: seq<Rule>)
    requires |rules| <= 2 && forall r :: r in rules ==> r.platforms == []
    ensures |Applicable("p", rules, Android)| == |rules|
    ensures forall i :: 0 <= i < |rules| ==> Applicable("p", rules, Android)[i] == Found("p", rules[i])
  {
    if rules != [] {
      var n := |rules| - 1;
      assert rules[n] in rules;
      AppliesEverywhere(rules[..n]);
    }
  }

  lemma WidenedRules()
    ensures InForce(["p"], FOCUS, Android) == [Found("p", MAIL_ONLY)]
    ensures InForce(["p"], WIDENED, Android) == [Found("p", MAIL_ONLY), Found("p", CHAT_TOO)]
  {
    hide InForce, Applicable;
    OneProfileInForce(FOCUS, [MAIL_ONLY]);
    OneProfileInForce(WIDENED, [MAIL_ONLY, CHAT_TOO]);
    AppliesEverywhere([MAIL_ONLY]);
    AppliesEverywhere([MAIL_ONLY, CHAT_TOO]);
  }

  lemma OneRule(f: Found, m: Moment)
    ensures forall q :: FirstRule(q, [f], m) == if Answers(q, f.rule, m) then Some(f) else None
    ensures LongestDelay([f], m).Some? <==> Answers(Delays, f.rule, m)
  {
    WalkOne([], f, m);
    assert [] + [f] == [f];
  }

  lemma TwoRules(f: Found, g: Found, m: Moment)
    ensures forall q :: FirstRule(q, [f, g], m) ==
              if Answers(q, f.rule, m) then Some(f) else if Answers(q, g.rule, m) then Some(g) else None
    ensures LongestDelay([f, g], m).Some? <==> Answers(Delays, f.rule, m) || Answers(Delays, g.rule, m)
  {
    OneRule(f, m);
    WalkOne([f], g, m);
    assert [f] + [g] == [f, g];
  }

  lemma ChatAnswers(m: Moment)
    requires m.obs == App("chat", None)
    ensures forall q :: Answers(q, MAIL_ONLY, m) <==> q == Restricts
    ensures forall q :: Answers(q, CHAT_TOO, m) <==> q == Restricts || q == Lists
  {
    assert LowerAll("mail")[0] == 'm' && LowerAll("chat")[0] == 'c';
  }

  /** An added allow-only rule passes the guard and turns a block into an allow. */
  lemma AddedAllowOnlyLoosens(session: Session, now: Timestamp)
    requires session.profile == "p"
    ensures Weakening(FOCUS, WIDENED, [session], map[]) == {} && FOCUS.offset == WIDENED.offset
    ensures Decide(now, State(["p"], map[], map[], Android), App("chat", None), FOCUS) == BlockedBy(NotAllowlisted("p"))
    ensures Decide(now, State(["p"], map[], map[], Android), App("chat", None), WIDENED) == Allowed
  {
    hide Answers, FirstRule, LongestDelay, InForce, Weakening;
    WidenedPassesTheGuard(session);
    WidenedRules();
    var m := Moment(now, State(["p"], map[], map[], Android), App("chat", None), 0);
    ChatAnswers(m);
    OneRule(Found("p", MAIL_ONLY), m);
    TwoRules(Found("p", MAIL_ONLY), Found("p", CHAT_TOO), m);
  }

  // The guard does not look at the zone either: a daily budget spent before local midnight.

  const READING: Rule := Rule(WholeDevice, Budget(60, Daily(0)), [])
  const WEST: Config := DEFAULT.(profiles := [Profile("p", "P", "", [READING])], offset := -3 * 3600)
  const MOVED: Config := WEST.(offset := 0)

  lemma OneRuleInForce(c: Config, r: Rule)
    requires c.profiles == [Profile("p", "P", "", [r])] && r.platforms == []
    ensures InForce(["p"], c, Android) == [Found("p", r)]
  {
    hide InForce, Applicable;
    OneProfileInForce(c, [r]);
    AppliesEverywhere([r]);
  }

  lemma MovedPassesTheGuard(session: Session)
    requires session.profile == "p"
    ensures Weakening(WEST, MOVED, [session], map[]) == {}
  {
    GuardPassesExactlyWhen(WEST, MOVED, [session], map[]);
    assert FindProfile(WEST, "p") == Some(WEST.profiles[0]) && FindProfile(MOVED, "p") == Some(WEST.profiles[0]);
    assert RuleAt([READING], "device", []) == 0;
  }

  const SPENT: State := State(["p"], map["device" := [Rollup(-60, 60)]], map[], Android)

  lemma SpentOnlyInTheWest(q: Question)
    ensures Answers(q, READING, Moment(0, SPENT, App("x", None), -3 * 3600)) <==> q == SpendsBudget
    ensures !Answers(q, READING, Moment(0, SPENT, App("x", None), 0))
  {
    assert WindowStart(Daily(0), 0, -3 * 3600) == Some(-75_600) && WindowStart(Daily(0), 0, 0) == Some(0);
    assert [Rollup(-60, 60)][..0] == [];
    assert UsedSince([Rollup(-60, 60)], Some(-75_600)) == 60 && UsedSince([Rollup(-60, 60)], Some(0)) == 0;
  }

  /** Changing only the zone passes the guard and can hand a spent budget back. */
  lemma ChangedZoneLoosens(session: Session)
    requires session.profile == "p"
    ensures Weakening(WEST, MOVED, [session], map[]) == {}
    ensures Decide(0, SPENT, App("x", None), WEST).BlockedBy?
    ensures Decide(0, SPENT, App("x", None), MOVED) == Allowed
  {
    hide Answers, FirstRule, LongestDelay, InForce, Weakening;
    MovedPassesTheGuard(session);
    OneRuleInForce(WEST, READING);
    OneRuleInForce(MOVED, READING);
    var m, m' := Moment(0, SPENT, App("x", None), -3 * 3600), Moment(0, SPENT, App("x", None), 0);
    forall q ensures (Answers(q, READING, m) <==> q == SpendsBudget) && !Answers(q, READING, m') {
      SpentOnlyInTheWest(q);
    }
    OneRule(Found("p", READING), m);
    OneRule(Found("p", READING), m');
  }

  // Nor at what a key leaves out of a target.

  const SCREEN: Rule := Rule(AppScreen("x:y", "z"), Block, [])
  const OTHER_SCREEN: Rule := Rule(AppScreen("x", "y:z"), Block, [])
  const HELD: Config := DEFAULT.(profiles := [Profile("p", "P", "", [SCREEN])])
  const SWAPPED: Config := DEFAULT.(profiles := [Profile("p", "P", "", [OTHER_SCREEN])])

  lemma SwappedPassesTheGuard(session: Session)
    requires session.profile == "p"
    ensures Weakening(HELD, SWAPPED, [session], map[]) == {}
  {
    ColonInPackageSharesAKey();
    GuardPassesExactlyWhen(HELD, SWAPPED, [session], map[]);
    assert FindProfile(HELD, "p") == Some(HELD.profiles[0]) && FindProfile(SWAPPED, "p") == Some(SWAPPED.profiles[0]);
    assert RuleAt([OTHER_SCREEN], Key(SCREEN.target), []) == 0;
  }

  /** A screen exchanged for one that shares its key passes the guard, and what was blocked is let through. */
  lemma SwappedScreenLoosens(session: Session, now: Timestamp)
    requires session.profile == "p"
    ensures Weakening(HELD, SWAPPED, [session], map[]) == {}
    ensures Decide(now, State(["p"], map[], map[], Android), App("x:y", Some("z")), HELD).BlockedBy?
    ensures Decide(now, State(["p"], map[], map[], Android), App("x:y", Some("z")), SWAPPED) == Allowed
  {
    var m := Moment(now, State(["p"], map[], map[], Android), App("x:y", Some("z")), 0);
    ColonInPackageSharesAKey();
    assert forall q :: Answers(q, SCREEN, m) <==> q == Blocks;
    assert forall q :: !Answers(q, OTHER_SCREEN, m);
    hide Answers, FirstRule, LongestDelay, InForce, Weakening;
    SwappedPassesTheGuard(session);
    OneRuleInForce(HELD, SCREEN);
    OneRuleInForce(SWAPPED, OTHER_SCREEN);
    OneRule(Found("p", SCREEN), m);
    OneRule(Found("p", OTHER_SCREEN), m);
  }
}
