/** Whole runs of the object, continued: its config stays sound, its rules stay, its passes stay rationed. */
module DeviceRules {
  import opened Basics
  import opened SessionStore
  import opened SessionFacts
  import P = PassRation
  import opened TargetMatch
  import opened Schedules
  import opened ConfigModel
  import opened Engine
  import opened ConfigGuard
  import opened Adoption
  import opened Validation
  import opened ConfigEdits
  import opened EditFacts
  import opened Device
  import opened DeviceRuns

  lemma ConfigMovesByEdits(d: DeviceState, call: Call)
    ensures AfterCall(d, call).config == ConfigAfter(d, call)
  {
    hide Start, Reconcile, Reap, Proven, ActiveAt, RequestRelease, Restore, EndWithPass, End, Valid, Weakens;
  }

  // ----- The config stays sound -----

  lemma EditKeepsValid(d: DeviceState, call: Call)
    requires Valid(d.config)
    ensures Valid(ConfigAfter(d, call))
  {
    hide Valid, Weakens, HeldBy, OutcomeOf, Used;
    match call {
      case RemoveRule(profile, target) => RuleRemovalKeepsValid(d.config, profile, Key(target));
      case RemoveProfile(id) => ProfileCanGoExactlyWhen(d.config, id);
      case RemoveWeekly(id) => WeeklyRemovalKeepsValid(d.config, id);
      case RemoveCalendar(id) => CalendarRemovalKeepsValid(d.config, id);
      case _ =>
    }
  }

  /** No sequence of calls leaves a config that would be refused at load. */
  lemma {:induction false} ConfigStaysValid(states: seq<DeviceState>, calls: seq<Call>, k: nat)
    requires IsDeviceRun(states, calls) && k <= |calls|
    ensures Valid(states[k].config)
  {
    hide Valid, AfterCall;
    if k == 0 {
    } else {
      ConfigStaysValid(states, calls, k - 1);
      assert states[k] == AfterCall(states[k - 1], calls[k - 1]);
      ConfigMovesByEdits(states[k - 1], calls[k - 1]);
      EditKeepsValid(states[k - 1], calls[k - 1]);
    }
  }

  // ----- The rules of a running profile stay -----

  /** The edits the guard is asked about; every other one leaves the rules of every profile alone. */
  predicate AsksTheGuard(call: Call) {
    call.SetConfig? || call.UpsertRule? || call.RemoveRule? || call.RemoveProfile?
  }

  lemma GuardedEdit(d: DeviceState, call: Call)
    requires AsksTheGuard(call)
    ensures ConfigAfter(d, call) == d.config || !Weakens(d, ConfigAfter(d, call))
  {
    hide Valid, Weakens, Used;
  }

  lemma SameProfilesSameRules(c: Config, next: Config)
    requires next.profiles == c.profiles
    ensures forall id :: RulesOf(next, id) == RulesOf(c, id)
  {
  }

  lemma UnguardedEditKeepsRules(d: DeviceState, call: Call)
    requires !AsksTheGuard(call)
    ensures ConfigAfter(d, call).offset == d.config.offset
    ensures forall id :: RulesOf(ConfigAfter(d, call), id) == RulesOf(d.config, id)
  {
    hide Valid, HeldBy, OutcomeOf, RulesOf;
    match call {
      case UpsertProfile(id, name, description) => NamingKeepsRules(d.config, id, name, description);
      case _ => SameProfilesSameRules(d.config, ConfigAfter(d, call));
    }
  }

  lemma HoldsByRules(c: Config, p: string, key: string, platforms: seq<Platform>, action: Action)
    ensures HoldsRule(c, p, key, platforms, action) <==>
              exists r :: r in RulesOf(c, p) && Key(r.target) == key && r.platforms == platforms && r.action == action
  {
  }

  lemma SameRulesHold(c: Config, next: Config, p: string)
    requires RulesOf(next, p) == RulesOf(c, p)
    ensures HoldsAll(c, next, p)
  {
    hide HoldsRule, RulesOf;
    forall key, platforms, action | HoldsRule(c, p, key, platforms, action)
      ensures HoldsRule(next, p, key, platforms, action)
    {
      HoldsByRules(c, p, key, platforms, action);
      HoldsByRules(next, p, key, platforms, action);
    }
  }

  lemma RunningIsListed(st: Store, p: string)
    requires Runs(st, p)
    ensures exists s :: s in st.running && s.profile == p
  {
  }

  lemma EditKeepsRules(d: DeviceState, call: Call, p: string)
    requires Runs(d.store, p)
    ensures HoldsAll(d.config, ConfigAfter(d, call), p)
  {
    hide ConfigAfter, Runs, HoldsAll, RulesOf, Weakening;
    var next := ConfigAfter(d, call);
    if AsksTheGuard(call) {
      GuardedEdit(d, call);
      if next == d.config {
        SameRulesHold(d.config, next, p);
      } else {
        GuardPassesExactlyWhen(d.config, next, d.store.running, NamesOf(d.config.profiles));
        RunningIsListed(d.store, p);
        KeptHoldsAll(d.config, next, p);
      }
    } else {
      UnguardedEditKeepsRules(d, call);
      SameRulesHold(d.config, next, p);
    }
  }

  /** While `p` runs, no call takes away a rule it had: same target key, same platforms, same action. */
  lemma {:induction false} RulesStayWhileRunning(states: seq<DeviceState>, calls: seq<Call>, i: nat, k: nat, p: string)
    requires IsDeviceRun(states, calls) && i <= k <= |calls|
    requires forall j :: i <= j < k ==> Runs(states[j].store, p)
    ensures HoldsAll(states[i].config, states[k].config, p)
  {
    hide AfterCall, HoldsRule, Runs;
    if i < k {
      RulesStayWhileRunning(states, calls, i, k - 1, p);
      assert states[k] == AfterCall(states[k - 1], calls[k - 1]);
      ConfigMovesByEdits(states[k - 1], calls[k - 1]);
      EditKeepsRules(states[k - 1], calls[k - 1], p);
    }
  }

  // ----- No decision gets weaker -----

  /** What runs keeps its screens and gains no allow-only rule, and the zone stays or nothing running depends on it. */
  ghost predicate Tame(d: DeviceState, call: Call, next: Config) {
    AsksTheGuard(call) && next != d.config ==> forall s :: s in d.store.running ==> SafeFor(d.config, next, s.profile)
  }

  lemma EditNeverLoosens(d: DeviceState, call: Call, now: Timestamp, state: State, obs: Observation)
    requires Tame(d, call, ConfigAfter(d, call))
    requires forall p :: p in state.activeProfiles ==> Runs(d.store, p)
    ensures AtLeastAsStrict(Decide(now, state, obs, ConfigAfter(d, call)), Decide(now, state, obs, d.config))
  {
    hide ConfigAfter, Runs, RulesOf, Decide, SafeFor, Weakening, AtLeastAsStrict;
    var next := ConfigAfter(d, call);
    if AsksTheGuard(call) {
      GuardedEdit(d, call);
      if next != d.config {
        forall p | p in state.activeProfiles ensures exists s :: s in d.store.running && s.profile == p {
          RunningIsListed(d.store, p);
        }
        AdoptionNeverWeakens(d.config, next, d.store.running, NamesOf(d.config.profiles), now, state, obs);
      }
    } else {
      UnguardedEditKeepsRules(d, call);
      SameRulesSameDecision(d.config, next, now, state, obs);
    }
    AsStrictAsItself(Decide(now, state, obs, d.config));
  }

  lemma AsStrictAsItself(d: Decision)
    ensures AtLeastAsStrict(d, d)
  {
  }

  lemma StrictnessChains(a: Decision, b: Decision, c: Decision)
    requires AtLeastAsStrict(b, a) && AtLeastAsStrict(c, b)
    ensures AtLeastAsStrict(c, a)
  {
  }

  /**
   * Through any run of tame edits, whatever the profiles that keep running decided, they decide at least as
   * strictly.
   */
  lemma {:induction false} DecisionsNeverLoosen(states: seq<DeviceState>, calls: seq<Call>, i: nat, k: nat,
                                                now: Timestamp, state: State, obs: Observation)
    requires IsDeviceRun(states, calls) && i <= k <= |calls|
    requires forall j, p :: i <= j < k && p in state.activeProfiles ==> Runs(states[j].store, p)
    requires forall j {:trigger calls[j]} :: i <= j < k ==> Tame(states[j], calls[j], states[j + 1].config)
    ensures AtLeastAsStrict(Decide(now, state, obs, states[k].config), Decide(now, state, obs, states[i].config))
  {
    hide AfterCall, Runs, Decide, Tame, AtLeastAsStrict;
    if i == k {
      AsStrictAsItself(Decide(now, state, obs, states[i].config));
    } else {
      DecisionsNeverLoosen(states, calls, i, k - 1, now, state, obs);
      assert states[k] == AfterCall(states[k - 1], calls[k - 1]);
      assert Tame(states[k - 1], calls[k - 1], states[k - 1 + 1].config);
      ConfigMovesByEdits(states[k - 1], calls[k - 1]);
      EditNeverLoosens(states[k - 1], calls[k - 1], now, state, obs);
      StrictnessChains(Decide(now, state, obs, states[i].config), Decide(now, state, obs, states[k - 1].config),
                       Decide(now, state, obs, states[k].config));
    }
  }

  // ----- Passes stay rationed -----

  /** The times at which the first `k` calls were granted a pass. */
  ghost function SpentAt(states: seq<DeviceState>, calls: seq<Call>, k: nat): seq<Timestamp>
    requires k <= |calls| && |states| == |calls| + 1
  {
    if k == 0 then []
    else
      var before := SpentAt(states, calls, k - 1);
      if calls[k - 1].SpendPass? && P.Check(states[k - 1].used, calls[k - 1].now, states[k - 1].config.emergency).None?
      then before + [calls[k - 1].now] else before
  }

  ghost function PassEvents(calls: seq<Call>): seq<P.Event> {
    if calls == [] then []
    else
      var before := PassEvents(calls[..|calls| - 1]);
      match calls[|calls| - 1]
      case SpendPass(_, now) => before + [P.SpendE(now)]
      case RestorePasses(used) => before + [P.MergeE(used)]
      case _ => before
  }

  lemma {:induction false} NoCompaction(calls: seq<Call>)
    ensures forall e :: e in PassEvents(calls) ==> !e.CompactE?
  {
    if calls == [] {
    } else {
      NoCompaction(calls[..|calls| - 1]);
    }
  }

  lemma UsedByCall(d: DeviceState, call: Call)
    ensures AfterCall(d, call).used ==
              match call
              case SpendPass(_, now) =>
                if P.Check(d.used, now, d.config.emergency).None? then P.Recorded(d.used, now) else d.used
              case RestorePasses(used) => P.Merged(d.used, used)
              case _ => d.used
  {
    hide Start, Reconcile, Reap, Proven, ActiveAt, RequestRelease, Restore, EndWithPass, End, ConfigAfter, P.Check;
  }

  lemma {:induction false} PassesFollowTheLedger(states: seq<DeviceState>, calls: seq<Call>, k: nat, policy: P.Policy)
    requires IsDeviceRun(states, calls) && k <= |calls|
    requires forall j :: 0 <= j < k ==> states[j].config.emergency == policy
    ensures P.After(PassEvents(calls[..k]), policy).used == states[k].used
    ensures P.After(PassEvents(calls[..k]), policy).granted == SpentAt(states, calls, k)
  {
    hide AfterCall, P.Check, P.Merged, P.Recorded;
    if k == 0 {
    } else {
      PassesFollowTheLedger(states, calls, k - 1, policy);
      assert states[k] == AfterCall(states[k - 1], calls[k - 1]);
      UsedByCall(states[k - 1], calls[k - 1]);
      assert calls[..k][..k - 1] == calls[..k - 1];
      var before, events := PassEvents(calls[..k - 1]), PassEvents(calls[..k]);
      assert events == before || events[..|events| - 1] == before;
    }
  }

  /** While the policy stands, no window holds more granted passes than it allows, whatever was restored between. */
  lemma PassesAreRationed(states: seq<DeviceState>, calls: seq<Call>, k: nat, policy: P.Policy, from: Timestamp)
    requires IsDeviceRun(states, calls) && k <= |calls| && policy.passes <= MAX_U32
    requires forall j :: 0 <= j <= k ==> states[j].config.emergency == policy
    ensures P.WithinQuota(SpentAt(states, calls, k), from, policy)
  {
    var events := PassEvents(calls[..k]);
    PassesFollowTheLedger(states, calls, k, policy);
    ConfigStaysValid(states, calls, 0);
    NoCompaction(calls[..k]);
    assert forall i :: 0 <= i < |events| ==> events[i] in events;
    P.QuotaHoldsOverEveryWindow(events, policy);
  }
}
