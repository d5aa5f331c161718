/**
 * The object behind the app: the config, the sessions, and everything that counts as
 * evidence, with every way in. Each call is a function on device states, and a method of the object
 * proved to be that function.
 */
module Device {
  import opened Basics
  import opened LockLattice
  import opened SessionStore
  import opened BootRecord
  import opened ProofRecord
  import opened PassRation
  import opened TargetMatch
  import opened Schedules
  import opened ConfigModel
  import opened ConfigGuard
  import opened Validation
  import opened ConfigEdits

  datatype DeviceState = DeviceState(
    config: Config, store: Store, used: seq<Timestamp>, seen: map<string, nat>, counter: Counter, held: Held,
    releases: set<string>, released: map<string, set<string>>, deviceId: Option<string>)

  /** The kinds of condition that are taken on the caller's word. */
  predicate Claimable(lock: Lock) {
    lock.Confirm? || lock.Challenge?
  }

  /** The conditions on record for session `id`: restart, checks still fresh, releases given. */
  function Proven(d: DeviceState, id: string, now: Timestamp): set<Lock> {
    Evidence(d.seen, id, d.counter.bootId)
    + Fresh(d.held, id, now)
    + if id in d.released then set device | device in d.released[id] :: PeerRelease(device) else {}
  }

  /** End a session on evidence already gathered; a success uses its proofs up. */
  function Finish(d: DeviceState, id: string, now: Timestamp, satisfied: set<Lock>): (DeviceState, Option<Refusal>) {
    match End(d.store, id, now, satisfied)
    case (st, Ok(_)) => (d.(store := st, held := d.held - {id}), None)
    case (st, Err(refusal)) => (d, Some(refusal))
  }

  function EndOn(d: DeviceState, id: string, now: Timestamp, claimed: set<Lock>): (DeviceState, Option<Refusal>) {
    Finish(d, id, now, (set c | c in claimed && Claimable(c)) + Proven(d, id, now))
  }

  /** `tag` is what the payload was identified as, if it was. */
  function ScanOn(d: DeviceState, id: string, tag: Option<string>, now: Timestamp): (DeviceState, Option<Refusal>) {
    var noted := if tag.Some? then d.(held := RecordProof(d.held, id, Token(tag.value), now)) else d;
    Finish(noted, id, now, Proven(noted, id, now))
  }

  function ReleaseOn(d: DeviceState, id: string, now: Timestamp): DeviceState {
    var given := d.(releases := d.releases + {id});
    match d.deviceId
    case None => given
    case Some(mine) =>
      var noted := given.(released := d.released[id := (if id in d.released then d.released[id] else {}) + {mine}]);
      Finish(noted, id, now, Proven(noted, id, now)).0
  }

  function ObserveOn(d: DeviceState, uptime: int): DeviceState {
    var counter := ObserveUptime(d.counter, uptime);
    d.(counter := counter, seen := ObserveRunning(d.seen, counter.bootId, Ids(d.store.running)))
  }

  /** A granted pass is on the ledger whether or not `id` names a session. */
  function SpendOn(d: DeviceState, id: string, now: Timestamp): DeviceState {
    if Check(d.used, now, d.config.emergency).Some? then d
    else d.(used := Recorded(d.used, now), store := EndWithPass(d.store, id, now).0)
  }

  predicate Weakens(d: DeviceState, next: Config) {
    Weakening(d.config, next, d.store.running, NamesOf(d.config.profiles)) != {}
  }

  function Guarded(d: DeviceState, next: Config): DeviceState {
    if Weakens(d, next) then d else d.(config := next)
  }

  function Sound(c: Config, next: Config): Config {
    if Valid(next) then next else c
  }

  function WeeklyUpserted(c: Config, w: WeeklySchedule): Config {
    if OutcomeOf(c.weekly, w) == AlreadyPresent then c else Sound(c, WithWeekly(c, w))
  }

  /** A running session was started by this schedule. */
  predicate HeldBy(running: seq<Session>, schedule: string) {
    exists s :: s in running && !s.source.Manual? && s.source.schedule == schedule
  }

  function PlanOf(c: Config, events: seq<CalendarEvent>): Plan {
    Plan(c.offset, c.weekly, c.calendars, events)
  }

  /** Every call that changes the object. `SetConfig` is given what its text parses to, if it does. */
  datatype Call =
    | SetConfig(parsed: Option<Config>)
    | UpsertRule(profile: string, rule: Rule)
    | RemoveRule(profile: string, target: Target)
    | UpsertProfile(id: string, name: string, description: string)
    | RemoveProfile(id: string)
    | UpsertWeekly(window: WeeklySchedule)
    | RemoveWeekly(id: string)
    | UpsertCalendar(calendar: CalendarSchedule)
    | RemoveCalendar(id: string)
    | StartSession(session: Session)
    | EndSession(id: string, now: Timestamp, claimed: set<Lock>)
    | RecordCredential(id: string, now: Timestamp)
    | ScanToken(id: string, tag: Option<string>, now: Timestamp)
    | ReleasePeer(id: string, now: Timestamp)
    | ObserveReleases(device: string, given: map<string, set<string>>)
    | RestoreReleases(stored: set<string>)
    | ObserveBoot(uptime: int)
    | RestoreBoots(seen: map<string, nat>, counter: Counter)
    | SpendPass(id: string, now: Timestamp)
    | RestorePasses(used: seq<Timestamp>)
    | AskRelease(id: string, now: Timestamp)
    | ReconcileWith(now: Timestamp, events: seq<CalendarEvent>, mint: nat -> string)
    | ReapAt(now: Timestamp)
    | RestoreSessions(incoming: Store)

  /** What an edit leaves of the config. */
  function ConfigAfter(d: DeviceState, call: Call): Config {
    match call
    case SetConfig(parsed) => if parsed.Some? && Valid(parsed.value) then Guarded(d, parsed.value).config else d.config
    case UpsertRule(profile, rule) =>
      if FindProfile(d.config, profile).Some? && Valid(WithRule(d.config, profile, rule))
      then Guarded(d, WithRule(d.config, profile, rule)).config else d.config
    case RemoveRule(profile, target) => Guarded(d, WithoutRule(d.config, profile, Key(target))).config
    case UpsertProfile(id, name, description) => Sound(d.config, WithProfile(d.config, id, name, description))
    case RemoveProfile(id) => if Used(d.config, id) then d.config else Guarded(d, WithoutProfile(d.config, id)).config
    case UpsertWeekly(w) => WeeklyUpserted(d.config, w)
    case RemoveWeekly(id) =>
      if HeldBy(d.store.running, id) then d.config
      else d.config.(weekly := Where(d.config.weekly, (w: WeeklySchedule) => w.id != id))
    case UpsertCalendar(s) => Sound(d.config, WithCalendar(d.config, s))
    case RemoveCalendar(id) =>
      if HeldBy(d.store.running, id) then d.config
      else d.config.(calendars := Where(d.config.calendars, (s: CalendarSchedule) => s.id != id))
    case _ => d.config
  }

  function AfterCall(d: DeviceState, call: Call): DeviceState {
    match call
    case StartSession(s) => d.(store := Start(d.store, s))
    case EndSession(id, now, claimed) => EndOn(d, id, now, claimed).0
    case RecordCredential(id, now) => d.(held := RecordProof(d.held, id, DeviceCredential, now))
    case ScanToken(id, tag, now) => ScanOn(d, id, tag, now).0
    case ReleasePeer(id, now) => ReleaseOn(d, id, now)
    case ObserveReleases(device, given) => d.(deviceId := Some(device), released := given)
    case RestoreReleases(stored) => d.(releases := d.releases + stored)
    case ObserveBoot(uptime) => ObserveOn(d, uptime)
    case RestoreBoots(seen, counter) => d.(seen := seen, counter := counter)
    case SpendPass(id, now) => SpendOn(d, id, now)
    case RestorePasses(used) => d.(used := Merged(d.used, used))
    case AskRelease(id, now) => d.(store := RequestRelease(d.store, id, now).0)
    case ReconcileWith(now, events, mint) =>
      d.(store := Reconcile(d.store, now, ActiveAt(PlanOf(d.config, events), now), mint).0)
    case ReapAt(now) => d.(store := Reap(d.store, now))
    case RestoreSessions(incoming) => d.(store := Restore(d.store, incoming))
    case _ => d.(config := ConfigAfter(d, call))
  }

  function FreshDevice(config: Config): DeviceState {
    DeviceState(config, EMPTY, [], map[], FRESH_COUNTER, map[], {}, map[], None)
  }

  // ----- The object -----

  class Curfew {
    var config: Config
    const sessions: Sessions
    const passes: Passes
    const boots: Boots
    const bootCounter: BootCounter
    const proofs: Proofs
    var releases: set<string>
    var released: map<string, set<string>>
    var deviceId: Option<string>

    function View(): DeviceState
      reads this, sessions, passes, boots, bootCounter, proofs
    {
      DeviceState(config, sessions.View(), passes.used, boots.seen, bootCounter.View(), proofs.held,
                  releases, released, deviceId)
    }

    constructor (config: Config)
      ensures View() == FreshDevice(config) && passes.Valid()
    {
      this.config := config;
      sessions := new Sessions();
      passes := new Passes();
      boots := new Boots();
      bootCounter := new BootCounter();
      proofs := new Proofs();
      releases, released, deviceId := {}, map[], None;
    }

    // ----- Editing the config -----

    method RefuseWeakening(next: Config) returns (refused: bool)
      ensures refused == Weakens(View(), next)
    {
      var lost := WeakeningARunningSession(config, next, sessions.running, NamesOf(config.profiles));
      refused := lost != {};
    }

    method SetConfig(parsed: Option<Config>) returns (taken: bool)
      modifies this`config
      ensures View() == AfterCall(old(View()), Call.SetConfig(parsed))
      ensures taken <==> parsed.Some? && Valid(parsed.value) && !Weakens(old(View()), parsed.value)
    {
      hide Valid, Shows;
      if parsed.None? {
        return false;
      }
      var problem := Validate(parsed.value);
      if problem.Some? {
        return false;
      }
      var refused := RefuseWeakening(parsed.value);
      if refused {
        return false;
      }
      config := parsed.value;
      taken := true;
    }

    method UpsertRule(profile: string, rule: Rule) returns (taken: bool)
      modifies this`config
      ensures View() == AfterCall(old(View()), Call.UpsertRule(profile, rule))
    {
      hide Valid, Weakening, NamesOf;
      var next := new Document(config);
      var error := next.UpsertRule(profile, rule);
      if error.Some? {
        return false;
      }
      var refused := RefuseWeakening(next.config);
      if refused {
        return false;
      }
      config := next.config;
      taken := true;
    }

    /** Nothing removed is nothing to refuse. */
    method RemoveRule(profile: string, target: Target) returns (removed: Option<nat>)
      modifies this`config
      ensures View() == AfterCall(old(View()), Call.RemoveRule(profile, target))
    {
      hide Weakening, NamesOf, FindProfile, Unkeyed, WithoutRule, Weakens, Valid, WeeklyUpserted, HeldBy,
        EndOn, ScanOn, ReleaseOn, ObserveOn, SpendOn, Start, Reconcile, Reap, Restore, RequestRelease;
      var next := new Document(config);
      var count := next.RemoveRule(profile, target);
      if count > 0 {
        var refused := RefuseWeakening(next.config);
        if refused {
          return None;
        }
      } else {
        NothingRemoved(config, profile, Key(target));
      }
      config := next.config;
      removed := Some(count);
    }

    method UpsertProfile(id: string, name: string, description: string) returns (error: Option<EditError>)
      modifies this`config
      ensures View() == AfterCall(old(View()), Call.UpsertProfile(id, name, description))
    {
      hide Valid;
      var document := new Document(config);
      error := document.UpsertProfile(id, name, description);
      config := document.config;
    }

    method RemoveProfile(id: string) returns (taken: bool)
      modifies this`config
      ensures View() == AfterCall(old(View()), Call.RemoveProfile(id))
    {
      hide Weakening, NamesOf, Used, WithoutProfile, Valid;
      var next := new Document(config);
      var error := next.RemoveProfile(id);
      if error.Some? {
        return false;
      }
      var refused := RefuseWeakening(next.config);
      if refused {
        return false;
      }
      config := next.config;
      taken := true;
    }

    method UpsertWeekly(w: WeeklySchedule) returns (outcome: Result<Upserted, EditError>)
      modifies this`config
      ensures View() == AfterCall(old(View()), Call.UpsertWeekly(w))
    {
      hide Valid;
      var document := new Document(config);
      outcome := document.UpsertWeekly(w);
      config := document.config;
    }

    method RemoveWeekly(id: string) returns (taken: bool)
      modifies this`config
      ensures View() == AfterCall(old(View()), Call.RemoveWeekly(id))
      ensures taken <==> !HeldBy(sessions.running, id)
    {
      if HeldBy(sessions.running, id) {
        return false;
      }
      var document := new Document(config);
      document.RemoveWeekly(id);
      config := document.config;
      taken := true;
    }

    method UpsertCalendar(s: CalendarSchedule) returns (error: Option<EditError>)
      modifies this`config
      ensures View() == AfterCall(old(View()), Call.UpsertCalendar(s))
    {
      hide Valid;
      var document := new Document(config);
      error := document.UpsertCalendar(s);
      config := document.config;
    }

    method RemoveCalendar(id: string) returns (taken: bool)
      modifies this`config
      ensures View() == AfterCall(old(View()), Call.RemoveCalendar(id))
      ensures taken <==> !HeldBy(sessions.running, id)
    {
      if HeldBy(sessions.running, id) {
        return false;
      }
      var document := new Document(config);
      document.RemoveCalendar(id);
      config := document.config;
      taken := true;
    }

    // ----- Sessions and evidence -----

    method StartSession(s: Session)
      modifies sessions
      ensures View() == AfterCall(old(View()), Call.StartSession(s))
    {
      sessions.StartSession(s);
    }

    method FinishSession(id: string, now: Timestamp, satisfied: set<Lock>) returns (refusal: Option<Refusal>)
      modifies sessions, proofs
      ensures (View(), refusal) == Finish(old(View()), id, now, satisfied)
    {
      var r := sessions.EndSession(id, now, satisfied);
      if r.Err? {
        return Some(r.error);
      }
      proofs.Forget(id);
      refusal := None;
    }

    method EndSession(id: string, now: Timestamp, claimed: set<Lock>) returns (refusal: Option<Refusal>)
      modifies sessions, proofs
      ensures View() == AfterCall(old(View()), Call.EndSession(id, now, claimed))
      ensures refusal == EndOn(old(View()), id, now, claimed).1
    {
      var satisfied := (set c | c in claimed && Claimable(c)) + Proven(View(), id, now);
      refusal := FinishSession(id, now, satisfied);
    }

    method RecordCredential(id: string, now: Timestamp)
      modifies proofs
      ensures View() == AfterCall(old(View()), Call.RecordCredential(id, now))
    {
      proofs.Record(id, DeviceCredential, now);
    }

    method ScanToken(id: string, tag: Option<string>, now: Timestamp) returns (refusal: Option<Refusal>)
      modifies sessions, proofs
      ensures View() == AfterCall(old(View()), Call.ScanToken(id, tag, now))
      ensures refusal == ScanOn(old(View()), id, tag, now).1
    {
      hide End, Fresh, Evidence, RecordProof, ConfigAfter;
      if tag.Some? {
        proofs.Record(id, Token(tag.value), now);
      }
      refusal := FinishSession(id, now, Proven(View(), id, now));
    }

    method ReleasePeer(id: string, now: Timestamp)
      modifies this`releases, this`released, sessions, proofs
      ensures View() == AfterCall(old(View()), Call.ReleasePeer(id, now))
    {
      hide End, Fresh, Evidence, ConfigAfter;
      releases := releases + {id};
      if deviceId.None? {
        return;
      }
      released := released[id := (if id in released then released[id] else {}) + {deviceId.value}];
      var refusal := FinishSession(id, now, Proven(View(), id, now));
    }

    method ObserveReleases(device: string, given: map<string, set<string>>)
      modifies this`released, this`deviceId
      ensures View() == AfterCall(old(View()), Call.ObserveReleases(device, given))
    {
      deviceId, released := Some(device), given;
    }

    method RestoreReleases(stored: set<string>)
      modifies this`releases
      ensures View() == AfterCall(old(View()), Call.RestoreReleases(stored))
    {
      releases := releases + stored;
    }

    method ObserveBoot(uptime: int)
      modifies boots, bootCounter
      ensures View() == AfterCall(old(View()), Call.ObserveBoot(uptime))
    {
      hide ConfigAfter, EndOn, ScanOn, ReleaseOn, SpendOn, Reconcile, ObserveUptime, ObserveRunning;
      var boot := bootCounter.Observe(uptime);
      boots.Observe(boot, sessions.running);
    }

    method RestoreBoots(seen: map<string, nat>, counter: Counter)
      modifies boots, bootCounter
      ensures View() == AfterCall(old(View()), Call.RestoreBoots(seen, counter))
    {
      boots.seen := seen;
      bootCounter.lastUptime, bootCounter.bootId := counter.lastUptime, counter.bootId;
    }

    method SpendPass(id: string, now: Timestamp) returns (r: Result<Session, Option<PassRefusal>>)
      requires passes.Valid()
      modifies sessions, passes
      ensures View() == AfterCall(old(View()), Call.SpendPass(id, now)) && passes.Valid()
    {
      hide Check, Recorded, EndWithPass, ConfigAfter;
      var pass := passes.Spend(now, config.emergency);
      if pass.Err? {
        return Err(Some(pass.error));
      }
      var ended := sessions.EndSessionWithPass(id, now);
      r := if ended.Ok? then Ok(ended.value) else Err(None);
    }

    method RestorePasses(used: seq<Timestamp>)
      requires passes.Valid()
      modifies passes
      ensures View() == AfterCall(old(View()), Call.RestorePasses(used)) && passes.Valid()
    {
      passes.Merge(used);
    }

    method AskRelease(id: string, now: Timestamp) returns (r: Result<Timestamp, Refusal>)
      modifies sessions
      ensures View() == AfterCall(old(View()), Call.AskRelease(id, now))
      ensures r == RequestRelease(old(View()).store, id, now).1
    {
      r := sessions.RequestSessionRelease(id, now);
    }

    method ReconcileWith(now: Timestamp, events: seq<CalendarEvent>, mint: nat -> string) returns (started: seq<string>)
      modifies sessions
      ensures View() == AfterCall(old(View()), Call.ReconcileWith(now, events, mint))
    {
      hide ActiveAt, Reconcile, ConfigAfter, EndOn, ScanOn, ReleaseOn, ObserveOn, SpendOn;
      started := sessions.ReconcileSessions(now, ActiveAt(PlanOf(config, events), now), mint);
    }

    method ReapAt(now: Timestamp) returns (over: seq<Session>)
      modifies sessions
      ensures View() == AfterCall(old(View()), Call.ReapAt(now))
      ensures over == Over(old(sessions.running), now)
    {
      over := sessions.ReapSessions(now);
    }

    method RestoreSessions(incoming: Store)
      modifies sessions
      ensures View() == AfterCall(old(View()), Call.RestoreSessions(incoming))
    {
      hide ConfigAfter, EndOn, ScanOn, ReleaseOn, SpendOn, ObserveOn, Restore;
      sessions.RestoreWithoutWeakening(incoming);
    }
  }

  lemma NothingRemoved(c: Config, profile: string, key: string)
    requires FindProfile(c, profile).Some? ==>
                 |Unkeyed(FindProfile(c, profile).value.rules, key)| == |FindProfile(c, profile).value.rules|
    ensures WithoutRule(c, profile, key) == c
  {
    var i := ProfileAt(c.profiles, profile);
    if i < |c.profiles| {
      FullLengthIsWhole(c.profiles[i].rules, (r: Rule) => Key(r.target) != key);
      assert c.profiles[i := c.profiles[i].(rules := c.profiles[i].rules)] == c.profiles;
    }
  }

  lemma {:induction false} FullLengthIsWhole<T>(xs: seq<T>, keep: T -> bool)
    requires |Where(xs, keep)| == |xs|
    ensures Where(xs, keep) == xs
  {
    if xs == [] {
    } else {
      FullLengthIsWhole(xs[..|xs| - 1], keep);
    }
  }
}
