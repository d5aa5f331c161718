/** Whole runs of the object: what takes a session away, on what evidence, and what the rules keep doing. */
module DeviceRuns {
  import opened Basics
  import opened LockLattice
  import opened SessionStore
  import opened SessionFacts
  import S = SessionRuns
  import B = BootRecord
  import opened ProofRecord
  import P = PassRation
  import opened Schedules
  import opened Validation
  import opened Device

  /** A run of a new object, made from a config that was read and found sound. */
  ghost predicate IsDeviceRun(states: seq<DeviceState>, calls: seq<Call>) {
    && |states| == |calls| + 1
    && Valid(states[0].config) && states[0] == FreshDevice(states[0].config)
    && forall k {:trigger calls[k]} :: 0 <= k < |calls| ==> states[k + 1] == AfterCall(states[k], calls[k])
  }

  /** Adopting nothing: what a call that touches no session does to them. */
  const STILL: S.Event := S.RestoreE(EMPTY)

  /** The state a scan or a release gathers its evidence in. */
  function Noted(d: DeviceState, call: Call): DeviceState {
    match call
    case ScanToken(id, Some(tag), now) => d.(held := RecordProof(d.held, id, Token(tag), now))
    case ReleasePeer(id, _) =>
      if d.deviceId.None? then d
      else d.(released := d.released[id := (if id in d.released then d.released[id] else {}) + {d.deviceId.value}])
    case _ => d
  }

  /** The evidence a call ends a session on. */
  function Satisfied(d: DeviceState, call: Call): set<Lock> {
    match call
    case EndSession(id, now, claimed) => (set c | c in claimed && Claimable(c)) + Proven(d, id, now)
    case ScanToken(id, _, now) => Proven(Noted(d, call), id, now)
    case ReleasePeer(id, now) => Proven(Noted(d, call), id, now)
    case _ => {}
  }

  /** The calls that can end a session on evidence. */
  predicate EndsOnEvidence(call: Call) {
    call.EndSession? || call.ScanToken? || call.ReleasePeer?
  }

  function SessionEvent(d: DeviceState, call: Call): S.Event {
    match call
    case StartSession(s) => S.StartE(s)
    case EndSession(id, now, _) => S.EndE(id, now, Satisfied(d, call))
    case ScanToken(id, _, now) => S.EndE(id, now, Satisfied(d, call))
    case ReleasePeer(id, now) => if d.deviceId.None? then STILL else S.EndE(id, now, Satisfied(d, call))
    case SpendPass(id, now) => if P.Check(d.used, now, d.config.emergency).Some? then STILL else S.PassE(id, now)
    case AskRelease(id, now) => S.RequestE(id, now)
    case ReconcileWith(now, events, mint) => S.ReconcileE(now, ActiveAt(PlanOf(d.config, events), now), mint)
    case ReapAt(now) => S.ReapE(now)
    case RestoreSessions(incoming) => S.RestoreE(incoming)
    case _ => STILL
  }

  lemma FinishIsAnEnd(d: DeviceState, id: string, now: Timestamp, satisfied: set<Lock>)
    ensures Finish(d, id, now, satisfied).0.store == End(d.store, id, now, satisfied).0
  {
  }

  lemma StillChangesNothing(st: Store)
    ensures S.Step(st, STILL) == st
  {
    assert map[] + st.dismissed == st.dismissed;
  }

  lemma EndingIsASessionEvent(d: DeviceState, call: Call)
    requires EndsOnEvidence(call)
    ensures AfterCall(d, call).store == S.Step(d.store, SessionEvent(d, call))
  {
    hide Proven, End, Finish, Restore, Start, Reconcile, Reap, RequestRelease, ConfigAfter, ObserveOn, SpendOn,
      ActiveAt;
    StillChangesNothing(d.store);
    match call {
      case EndSession(id, now, _) =>
        FinishIsAnEnd(d, id, now, Satisfied(d, call));
      case ScanToken(id, _, now) =>
        FinishIsAnEnd(Noted(d, call), id, now, Satisfied(d, call));
      case ReleasePeer(id, now) =>
        FinishIsAnEnd(Noted(d, call).(releases := d.releases + {id}), id, now, Satisfied(d, call));
        ReleasesProveNothing(Noted(d, call), d.releases + {id}, id, now);
    }
  }

  /** The object moves its sessions only through the operations of the session store. */
  lemma CallIsASessionEvent(d: DeviceState, call: Call)
    ensures AfterCall(d, call).store == S.Step(d.store, SessionEvent(d, call))
  {
    hide Start, Reconcile, Reap, ActiveAt, RequestRelease, Restore, EndWithPass, End, Satisfied, EndOn, ScanOn,
      ReleaseOn, ObserveOn, ConfigAfter;
    if EndsOnEvidence(call) {
      EndingIsASessionEvent(d, call);
    } else {
      StillChangesNothing(d.store);
      ObservingKeepsSessions(d);
    }
  }

  lemma ObservingKeepsSessions(d: DeviceState)
    ensures forall uptime :: ObserveOn(d, uptime).store == d.store
  {
  }

  lemma ReleasesProveNothing(d: DeviceState, releases: set<string>, id: string, now: Timestamp)
    ensures Proven(d.(releases := releases), id, now) == Proven(d, id, now)
  {
  }

  ghost function Stores(states: seq<DeviceState>): (r: seq<Store>)
    ensures |r| == |states| && forall k :: 0 <= k < |states| ==> r[k] == states[k].store
  {
    seq(|states|, k requires 0 <= k < |states| => states[k].store)
  }

  ghost function Events(states: seq<DeviceState>, calls: seq<Call>): (r: seq<S.Event>)
    requires |states| == |calls| + 1
    ensures |r| == |calls| && forall k :: 0 <= k < |calls| ==> r[k] == SessionEvent(states[k], calls[k])
  {
    seq(|calls|, k requires 0 <= k < |calls| => SessionEvent(states[k], calls[k]))
  }

  lemma DeviceRunIsASessionRun(states: seq<DeviceState>, calls: seq<Call>)
    requires IsDeviceRun(states, calls)
    ensures S.IsRun(Stores(states), Events(states, calls))
  {
    hide AfterCall, SessionEvent, S.Step;
    var events := Events(states, calls);
    forall k {:trigger events[k]} | 0 <= k < |events|
      ensures Stores(states)[k + 1] == S.Step(Stores(states)[k], events[k])
    {
      assert states[k + 1] == AfterCall(states[k], calls[k]);
      CallIsASessionEvent(states[k], calls[k]);
    }
  }

  // ----- Evidence -----

  /** Only checks are held as proofs: a credential prompt that succeeded, a tag that was identified. */
  ghost predicate Sane(d: DeviceState) {
    forall id, l :: id in d.held && l in d.held[id] ==> l.DeviceCredential? || l.Token?
  }

  /** The check is under two minutes old, and not from the future. */
  predicate IsRecent(at: Timestamp, now: Timestamp) {
    0 <= now - at < 120
  }

  /**
   * What this device can prove, kind by kind: a sighting under another boot, a release on record, a
   * recent check. A timer, a confirmation and a challenge are never among it.
   */
  lemma ProvenExactlyWhen(d: DeviceState, id: string, now: Timestamp, l: Lock)
    requires Sane(d)
    ensures l in Proven(d, id, now) <==>
              match l
              case RestartRequired => id in d.seen && d.seen[id] != d.counter.bootId
              case PeerRelease(device) => id in d.released && device in d.released[id]
              case DeviceCredential => id in d.held && l in d.held[id] && IsRecent(d.held[id][l], now)
              case Token(_) => id in d.held && l in d.held[id] && IsRecent(d.held[id][l], now)
              case _ => false
  {
    FreshIsHeld(d.held, id, now, l);
    GivenIsReleased(d, id, l);
    hide Fresh;
    assert l in B.Evidence(d.seen, id, d.counter.bootId) <==>
        l == RestartRequired && id in d.seen && d.seen[id] != d.counter.bootId;
    assert id in d.held && l in d.held[id] ==> l.DeviceCredential? || l.Token?;
  }

  lemma GivenIsReleased(d: DeviceState, id: string, l: Lock)
    ensures l in (if id in d.released then set device | device in d.released[id] :: PeerRelease(device) else {}) <==>
              l.PeerRelease? && id in d.released && l.deviceId in d.released[id]
  {
  }

  lemma FreshIsHeld(held: Held, id: string, now: Timestamp, l: Lock)
    ensures l in Fresh(held, id, now) <==> id in held && l in held[id] && IsRecent(held[id][l], now)
  {
  }

  lemma RestartNeedsTheRecord(d: DeviceState, id: string, now: Timestamp)
    requires Sane(d)
    ensures RestartRequired in Proven(d, id, now) <==> RestartRequired in B.Evidence(d.seen, id, d.counter.bootId)
  {
    ProvenExactlyWhen(d, id, now, RestartRequired);
  }

  /** What the caller says matters only where the caller is the only witness. */
  lemma ClaimsCountOnlyWhenClaimable(d: DeviceState, id: string, now: Timestamp, claimed: set<Lock>,
                                     claimed': set<Lock>)
    requires forall c :: Claimable(c) ==> (c in claimed <==> c in claimed')
    ensures EndOn(d, id, now, claimed) == EndOn(d, id, now, claimed')
    ensures EndOn(d, id, now, {Timer, DeviceCredential, RestartRequired}) == EndOn(d, id, now, {})
  {
    assert (set c | c in claimed && Claimable(c)) == set c | c in claimed' && Claimable(c);
    var machine: set<Lock>, nothing: set<Lock> := {Timer, DeviceCredential, RestartRequired}, {};
    assert (set c | c in machine && Claimable(c)) == set c | c in nothing && Claimable(c);
  }

  // ----- Where evidence came from -----

  /** The call checks `lock` for session `id`, at its own time. */
  predicate Checks(call: Call, id: string, lock: Lock) {
    match call
    case RecordCredential(i, _) => i == id && lock == DeviceCredential
    case ScanToken(i, tag, _) => i == id && tag.Some? && lock == Token(tag.value)
    case _ => false
  }

  function CheckedAt(call: Call): Timestamp {
    match call
    case RecordCredential(_, now) => now
    case ScanToken(_, _, now) => now
    case _ => 0
  }

  /** The call hands over, or gives, the release of `device` for session `id`. */
  predicate Releases(d: DeviceState, call: Call, id: string, device: string) {
    match call
    case ObserveReleases(_, given) => id in given && device in given[id]
    case ReleasePeer(i, _) => i == id && d.deviceId == Some(device)
    case _ => false
  }

  /** A call holds a proof only if it checked it, or it was held before. */
  ghost predicate AddsOnlyChecked(d: DeviceState, call: Call, next: DeviceState) {
    forall id, lock :: id in next.held && lock in next.held[id] ==>
      || (Checks(call, id, lock) && next.held[id][lock] == CheckedAt(call))
      || (id in d.held && lock in d.held[id] && d.held[id][lock] == next.held[id][lock])
  }

  ghost predicate AddsOnlyGiven(d: DeviceState, call: Call, next: DeviceState) {
    forall id, device :: id in next.released && device in next.released[id] ==>
      Releases(d, call, id, device) || (id in d.released && device in d.released[id])
  }

  lemma NotingAddsOnlyChecked(d: DeviceState, call: Call)
    ensures AddsOnlyChecked(d, call, Noted(d, call)) && AddsOnlyGiven(d, call, Noted(d, call))
  {
  }

  lemma FinishAddsNothing(d: DeviceState, call: Call, before: DeviceState, id: string, now: Timestamp,
                          satisfied: set<Lock>)
    requires AddsOnlyChecked(d, call, before) && AddsOnlyGiven(d, call, before)
    ensures AddsOnlyChecked(d, call, Finish(before, id, now, satisfied).0)
    ensures AddsOnlyGiven(d, call, Finish(before, id, now, satisfied).0)
  {
    hide End, Checks, Releases, CheckedAt;
  }

  lemma OtherCallsAddOnlyChecked(d: DeviceState, call: Call)
    requires !EndsOnEvidence(call)
    ensures AddsOnlyChecked(d, call, AfterCall(d, call)) && AddsOnlyGiven(d, call, AfterCall(d, call))
  {
    hide Start, Reconcile, Reap, Proven, ActiveAt, RequestRelease, Restore, EndWithPass, End, Finish, ConfigAfter;
  }

  lemma CallAddsOnlyChecked(d: DeviceState, call: Call)
    ensures AddsOnlyChecked(d, call, AfterCall(d, call)) && AddsOnlyGiven(d, call, AfterCall(d, call))
  {
    hide Proven, Finish, ConfigAfter, AddsOnlyChecked, AddsOnlyGiven, ObserveOn, SpendOn, Restore, Start, Reconcile,
      Reap, RequestRelease, ActiveAt;
    NotingAddsOnlyChecked(d, call);
    var noted := Noted(d, call);
    match call {
      case EndSession(id, now, _) =>
        FinishAddsNothing(d, call, noted, id, now, Satisfied(d, call));
      case ScanToken(id, _, now) =>
        FinishAddsNothing(d, call, noted, id, now, Satisfied(d, call));
      case ReleasePeer(id, now) =>
        var given := noted.(releases := d.releases + {id});
        GivenAddsNothing(d, call, noted, given);
        FinishAddsNothing(d, call, given, id, now, Proven(given, id, now));
      case _ => OtherCallsAddOnlyChecked(d, call);
    }
  }

  lemma GivenAddsNothing(d: DeviceState, call: Call, noted: DeviceState, given: DeviceState)
    requires AddsOnlyChecked(d, call, noted) && AddsOnlyGiven(d, call, noted)
    requires given.held == noted.held && given.released == noted.released
    ensures AddsOnlyChecked(d, call, given) && AddsOnlyGiven(d, call, given)
  {
  }

  lemma CheckingKeepsSane(d: DeviceState, call: Call, next: DeviceState)
    requires Sane(d) && AddsOnlyChecked(d, call, next)
    ensures Sane(next)
  {
  }

  lemma CallKeepsSane(d: DeviceState, call: Call)
    requires Sane(d)
    ensures Sane(AfterCall(d, call)) && Sane(Noted(d, call))
  {
    hide AfterCall, Noted, Sane, AddsOnlyChecked;
    CallAddsOnlyChecked(d, call);
    NotingAddsOnlyChecked(d, call);
    CheckingKeepsSane(d, call, AfterCall(d, call));
    CheckingKeepsSane(d, call, Noted(d, call));
  }

  lemma {:induction false} RunIsSane(states: seq<DeviceState>, calls: seq<Call>, k: nat)
    requires IsDeviceRun(states, calls) && k <= |calls|
    ensures Sane(states[k])
  {
    if k == 0 {
    } else {
      RunIsSane(states, calls, k - 1);
      CallKeepsSane(states[k - 1], calls[k - 1]);
      assert states[k] == AfterCall(states[k - 1], calls[k - 1]);
    }
  }

  /** Every proof held was checked by an earlier call, at the time it is held under. */
  lemma {:induction false} ProofWasChecked(states: seq<DeviceState>, calls: seq<Call>, k: nat, id: string, lock: Lock)
    returns (r: nat)
    requires IsDeviceRun(states, calls) && k <= |calls|
    requires id in states[k].held && lock in states[k].held[id]
    ensures r < k && Checks(calls[r], id, lock) && CheckedAt(calls[r]) == states[k].held[id][lock]
  {
    hide AfterCall, Checks;
    r := k - 1;
    assert states[k] == AfterCall(states[k - 1], calls[k - 1]);
    CallAddsOnlyChecked(states[k - 1], calls[k - 1]);
    if !(Checks(calls[r], id, lock) && CheckedAt(calls[r]) == states[k].held[id][lock]) {
      r := ProofWasChecked(states, calls, k - 1, id, lock);
    }
  }

  lemma {:induction false} ReleaseWasGiven(states: seq<DeviceState>, calls: seq<Call>, k: nat, id: string,
                                           device: string)
    returns (r: nat)
    requires IsDeviceRun(states, calls) && k <= |calls|
    requires id in states[k].released && device in states[k].released[id]
    ensures r < k && Releases(states[r], calls[r], id, device)
  {
    hide AfterCall, Releases;
    r := k - 1;
    assert states[k] == AfterCall(states[k - 1], calls[k - 1]);
    CallAddsOnlyChecked(states[k - 1], calls[k - 1]);
    if !Releases(states[r], calls[r], id, device) {
      r := ReleaseWasGiven(states, calls, k - 1, id, device);
    }
  }

  // ----- Restarts -----

  /** The uptime readings taken by the first `k` calls, and the sessions each one saw. */
  ghost function Readings(states: seq<DeviceState>, calls: seq<Call>, k: nat): seq<B.Reading>
    requires k <= |calls| && |states| == |calls| + 1
  {
    if k == 0 then []
    else
      var before := Readings(states, calls, k - 1);
      if calls[k - 1].ObserveBoot?
      then before + [B.Reading(calls[k - 1].uptime, set s | s in states[k - 1].store.running :: s.id)]
      else before
  }

  lemma OtherCallsKeepBoots(d: DeviceState, call: Call)
    requires !call.ObserveBoot? && !call.RestoreBoots?
    ensures AfterCall(d, call).seen == d.seen && AfterCall(d, call).counter == d.counter
  {
    hide Start, Reconcile, Reap, Proven, ActiveAt, RequestRelease, Restore, EndWithPass, End, RecordProof, P.Check,
      ConfigAfter;
  }

  lemma ObservingCall(d: DeviceState, uptime: int)
    ensures AfterCall(d, ObserveBoot(uptime)) == ObserveOn(d, uptime)
  {
  }

  lemma {:induction false} BootsFollowReadings(states: seq<DeviceState>, calls: seq<Call>, k: nat)
    requires IsDeviceRun(states, calls) && k <= |calls|
    requires forall j :: 0 <= j < k ==> !calls[j].RestoreBoots?
    ensures states[k].counter == B.CounterAfter(Readings(states, calls, k))
    ensures states[k].seen == B.SeenAfter(Readings(states, calls, k))
  {
    hide AfterCall, B.ObserveUptime, B.ObserveRunning;
    if k == 0 {
    } else {
      BootsFollowReadings(states, calls, k - 1);
      assert states[k] == AfterCall(states[k - 1], calls[k - 1]);
      if calls[k - 1].ObserveBoot? {
        ObservingCall(states[k - 1], calls[k - 1].uptime);
        assert (set s | s in states[k - 1].store.running :: s.id) == B.Ids(states[k - 1].store.running);
        var h := Readings(states, calls, k);
        assert h[..|h| - 1] == Readings(states, calls, k - 1);
      } else {
        OtherCallsKeepBoots(states[k - 1], calls[k - 1]);
      }
    }
  }

  /**
   * While nothing is restored over the boot record, this device can prove a restart exactly when an
   * uptime reading fell since it first saw the session, without having missed it since.
   */
  lemma RestartIsProvenExactlyWhen(states: seq<DeviceState>, calls: seq<Call>, k: nat, id: string, now: Timestamp)
    requires IsDeviceRun(states, calls) && k <= |calls|
    requires forall j :: 0 <= j < k ==> !calls[j].RestoreBoots?
    ensures RestartRequired in Proven(states[k], id, now) <==> B.FellSinceSighting(Readings(states, calls, k), id)
  {
    hide AfterCall, Readings, B.FellSinceSighting, B.SeenAfter, B.CounterAfter;
    BootsFollowReadings(states, calls, k);
    B.RestartIsProvedExactlyWhen(Readings(states, calls, k), id);
    RunIsSane(states, calls, k);
    RestartNeedsTheRecord(states[k], id, now);
  }

  // ----- What takes a session away -----

  /** The condition was met for session `id` by the time of call `k`, and this is how. */
  ghost predicate Met(states: seq<DeviceState>, calls: seq<Call>, k: nat, id: string, now: Timestamp, condition: Lock)
    requires |states| == |calls| + 1 && k < |calls|
  {
    match condition
    case Timer => false
    case Confirm => calls[k].EndSession? && condition in calls[k].claimed
    case Challenge(_) => calls[k].EndSession? && condition in calls[k].claimed
    case DeviceCredential =>
      exists r :: 0 <= r < k && Checks(calls[r], id, condition) && IsRecent(CheckedAt(calls[r]), now)
    case Token(_) => exists r :: 0 <= r <= k && Checks(calls[r], id, condition) && IsRecent(CheckedAt(calls[r]), now)
    case PeerRelease(device) => exists r :: 0 <= r <= k && Releases(states[r], calls[r], id, device)
    case RestartRequired =>
      (exists r :: 0 <= r < k && calls[r].RestoreBoots?) || B.FellSinceSighting(Readings(states, calls, k), id)
  }

  lemma OnlyARecordedCredential(call: Call, id: string)
    ensures EndsOnEvidence(call) ==> !Checks(call, id, DeviceCredential)
  {
  }

  lemma ProvenIsMet(states: seq<DeviceState>, calls: seq<Call>, k: nat, condition: Lock)
    requires IsDeviceRun(states, calls) && k < |calls| && EndsOnEvidence(calls[k])
    requires condition in Proven(Noted(states[k], calls[k]), calls[k].id, calls[k].now)
    ensures Met(states, calls, k, calls[k].id, calls[k].now, condition)
  {
    hide AfterCall, Proven, Checks, Releases, IsRecent;
    var d, id, now := Noted(states[k], calls[k]), calls[k].id, calls[k].now;
    RunIsSane(states, calls, k);
    CallKeepsSane(states[k], calls[k]);
    ProvenExactlyWhen(d, id, now, condition);
    NotingAddsOnlyChecked(states[k], calls[k]);
    match condition {
      case DeviceCredential =>
        OnlyARecordedCredential(calls[k], id);
        var r := ProofWasChecked(states, calls, k, id, condition);
      case Token(_) =>
        if !(Checks(calls[k], id, condition) && CheckedAt(calls[k]) == d.held[id][condition]) {
          var r := ProofWasChecked(states, calls, k, id, condition);
        }
      case PeerRelease(device) =>
        if !Releases(states[k], calls[k], id, device) {
          var r := ReleaseWasGiven(states, calls, k, id, device);
        }
      case RestartRequired =>
        if forall j :: 0 <= j < k ==> !calls[j].RestoreBoots? {
          BootsFollowReadings(states, calls, k);
          B.RestartIsProvedExactlyWhen(Readings(states, calls, k), id);
        }
      case _ =>
    }
  }

  lemma SatisfiedIsMet(states: seq<DeviceState>, calls: seq<Call>, k: nat, condition: Lock)
    requires IsDeviceRun(states, calls) && k < |calls| && EndsOnEvidence(calls[k])
    requires condition in Satisfied(states[k], calls[k])
    ensures Met(states, calls, k, calls[k].id, calls[k].now, condition)
  {
    hide AfterCall, Proven;
    if condition in Proven(Noted(states[k], calls[k]), calls[k].id, calls[k].now) {
      ProvenIsMet(states, calls, k, condition);
    }
  }

  /** A delayed release of the session `p` runs was asked for, at least a day before `now`. */
  predicate AskedADayBefore(d: DeviceState, call: Call, p: string, now: Timestamp) {
    && call.AskRelease? && Named(d.store, call.id).Some? && Named(d.store, call.id).value.profile == p
    && now - call.now >= 86_400
  }

  /**
   * Over every run: if `p` ran under lock `l` at step `i` and call `k` took it away, then a pass was
   * spent; or `l` was over; or its release was asked for a day before; or every condition of `l` was
   * met, each in the only way it can be.
   */
  lemma SessionEndsOnlyWhen(states: seq<DeviceState>, calls: seq<Call>, i: nat, k: nat, p: string)
    requires IsDeviceRun(states, calls) && i <= k < |calls|
    requires forall j :: i <= j <= k ==> Runs(states[j].store, p)
    requires !Runs(states[k + 1].store, p)
    requires forall j :: i <= j < k && calls[j].StartSession? ==> calls[j].session.lock.delayedReleaseAt.None?
    ensures calls[k].SpendPass? || calls[k].ReapAt? || EndsOnEvidence(calls[k])
    ensures !calls[k].SpendPass? ==>
              var l := S.LockFor(states[i].store, p);
              || l.IsExpired(calls[k].now)
              || (exists r :: i <= r < k && AskedADayBefore(states[r], calls[r], p, calls[k].now))
              || (calls[k].ReapAt? && l.conditions == {})
              || (EndsOnEvidence(calls[k])
                  && forall c :: c in l.conditions ==> Met(states, calls, k, calls[k].id, calls[k].now, c))
  {
    assert |states| == |calls| + 1;
    hide AfterCall, Satisfied, Met, S.LockFor, AskedADayBefore, IsDeviceRun, Runs;
    RemovalInSessions(states, calls, i, k, p);
    NothingForReaping(states[k], calls[k]);
    if EndsOnEvidence(calls[k]) {
      EvidenceIsMet(states, calls, k);
    }
  }

  lemma EvidenceIsMet(states: seq<DeviceState>, calls: seq<Call>, k: nat)
    requires IsDeviceRun(states, calls) && k < |calls| && EndsOnEvidence(calls[k])
    ensures forall c :: c in Satisfied(states[k], calls[k]) ==> Met(states, calls, k, calls[k].id, calls[k].now, c)
  {
    hide Satisfied, Met, AfterCall;
    forall c | c in Satisfied(states[k], calls[k]) ensures Met(states, calls, k, calls[k].id, calls[k].now, c) {
      SatisfiedIsMet(states, calls, k, c);
    }
  }

  /** What the session store's promise says of the object's calls. */
  lemma RemovalInSessions(states: seq<DeviceState>, calls: seq<Call>, i: nat, k: nat, p: string)
    requires IsDeviceRun(states, calls) && i <= k < |calls|
    requires forall j :: i <= j <= k ==> Runs(states[j].store, p)
    requires !Runs(states[k + 1].store, p)
    requires forall j :: i <= j < k && calls[j].StartSession? ==> calls[j].session.lock.delayedReleaseAt.None?
    ensures calls[k].SpendPass? || calls[k].ReapAt? || EndsOnEvidence(calls[k])
    ensures !calls[k].SpendPass? ==>
              || S.LockFor(states[i].store, p).CanRelease(calls[k].now, Satisfied(states[k], calls[k]))
              || exists r :: i <= r < k && AskedADayBefore(states[r], calls[r], p, calls[k].now)
  {
    hide AfterCall, Satisfied, S.LockFor, S.AskedADayBefore, AskedADayBefore, Runs, S.Step, SessionEvent;
    DeviceRunIsASessionRun(states, calls);
    var stores, events := Stores(states), Events(states, calls);
    EventKinds(states[k], calls[k]);
    forall j | i <= j < k && events[j].StartE? ensures events[j].session.lock.delayedReleaseAt.None? {
      EventKinds(states[j], calls[j]);
    }
    S.NoEarlyRelease(stores, events, i, k, p);
    if !calls[k].SpendPass? {
      NothingForReaping(states[k], calls[k]);
      forall r | i <= r < k && S.AskedADayBefore(stores[r], events[r], p, events[k].at)
        ensures AskedADayBefore(states[r], calls[r], p, calls[k].now)
      {
        AskedIsAsked(states[r], calls[r], p, calls[k].now);
      }
    }
  }

  lemma EventKinds(d: DeviceState, call: Call)
    ensures var e := SessionEvent(d, call);
            && (e.StartE? ==> call == StartSession(e.session))
            && (e.EndE? ==> EndsOnEvidence(call) && e.at == call.now && e.satisfied == Satisfied(d, call))
            && (e.PassE? ==> call.SpendPass?)
            && (e.ReapE? ==> call == ReapAt(e.at))
  {
    hide Satisfied, ActiveAt;
  }

  lemma NothingForReaping(d: DeviceState, call: Call)
    ensures call.ReapAt? ==> Satisfied(d, call) == {}
  {
  }

  lemma AskedIsAsked(d: DeviceState, call: Call, p: string, now: Timestamp)
    requires S.AskedADayBefore(d.store, SessionEvent(d, call), p, now)
    ensures AskedADayBefore(d, call, p, now)
  {
    hide Satisfied, ActiveAt;
  }

  /** No claim, proof or restart opens a session whose conditions hold a timer before its time. */
  lemma TimerHoldsUntilItsTime(states: seq<DeviceState>, calls: seq<Call>, i: nat, k: nat, p: string)
    requires IsDeviceRun(states, calls) && i <= k < |calls|
    requires forall j :: i <= j <= k ==> Runs(states[j].store, p)
    requires !Runs(states[k + 1].store, p)
    requires forall j :: i <= j < k && calls[j].StartSession? ==> calls[j].session.lock.delayedReleaseAt.None?
    requires Timer in S.LockFor(states[i].store, p).conditions
    ensures calls[k].SpendPass? || calls[k].ReapAt? || EndsOnEvidence(calls[k])
    ensures !calls[k].SpendPass? ==>
              || S.LockFor(states[i].store, p).IsExpired(calls[k].now)
              || exists r :: i <= r < k && AskedADayBefore(states[r], calls[r], p, calls[k].now)
  {
    hide AfterCall, AskedADayBefore;
    SessionEndsOnlyWhen(states, calls, i, k, p);
    if EndsOnEvidence(calls[k]) {
      assert !Met(states, calls, k, calls[k].id, calls[k].now, Timer);
    }
  }
}
