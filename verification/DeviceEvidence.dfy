/**
 * When a call does end a session: the exact counterpart of what can take one away. Over every run, what
 * is on record is what was checked, released or observed and not since replaced, used up or withdrawn,
 * and that is enough.
 */
module DeviceEvidence {
  import opened Basics
  import opened LockLattice
  import opened SessionStore
  import opened SessionFacts
  import S = SessionRuns
  import B = BootRecord
  import P = PassRation
  import opened Device
  import opened DeviceRuns

  // ----- What one call does to the record -----

  /** The session `id` names is ended by the call, and its proofs are used up. */
  ghost predicate EndsSession(d: DeviceState, call: Call, id: string) {
    && EndsOnEvidence(call) && call.id == id && Named(d.store, id).Some?
    && !Runs(AfterCall(d, call).store, Named(d.store, id).value.profile)
  }

  /** The check of `lock` for `id` made at `at` is on record. */
  predicate OnRecord(d: DeviceState, id: string, lock: Lock, at: Timestamp) {
    id in d.held && lock in d.held[id] && d.held[id][lock] == at
  }

  predicate Released(d: DeviceState, id: string, device: string) {
    id in d.released && device in d.released[id]
  }

  lemma FinishUsesUp(d: DeviceState, id: string, now: Timestamp, satisfied: set<Lock>)
    requires Unique(d.store.running)
    ensures var next, s := Finish(d, id, now, satisfied).0, Named(d.store, id);
            && (s.Some? && !Runs(next.store, s.value.profile) <==>
                  s.Some? && (s.value.lock.IsExpired(now) || s.value.lock.conditions <= satisfied))
            && next.held == (if s.Some? && !Runs(next.store, s.value.profile) then d.held - {id} else d.held)
            && next.released == d.released
  {
    EndFacts(d.store, id, now, satisfied);
    if Named(d.store, id).Some? {
      NamedIsLooked(d.store, id);
    }
  }

  /** The call as the ending it comes to: on what state, and on what evidence. */
  lemma EndingIsAFinish(d: DeviceState, call: Call)
    requires EndsOnEvidence(call) && (call.ReleasePeer? ==> d.deviceId.Some?)
    ensures exists given :: AfterCall(d, call) ==
              Finish(Noted(d, call).(releases := given), call.id, call.now, Satisfied(d, call)).0
  {
    hide Proven, Finish, Start, Reconcile, Reap, RequestRelease, Restore, ObserveOn, SpendOn, ConfigAfter;
    match call
    case EndSession(id, now, _) =>
      assert Noted(d, call).(releases := d.releases) == d;
      assert AfterCall(d, call) == Finish(Noted(d, call).(releases := d.releases), id, now, Satisfied(d, call)).0;
    case ScanToken(id, _, now) =>
      assert Noted(d, call).(releases := d.releases) == Noted(d, call);
      assert AfterCall(d, call) == Finish(Noted(d, call).(releases := d.releases), id, now, Satisfied(d, call)).0;
    case ReleasePeer(id, now) =>
      var given := d.releases + {id};
      ReleasesProveNothing(Noted(d, call), given, id, now);
      assert AfterCall(d, call) == Finish(Noted(d, call).(releases := given), id, now, Satisfied(d, call)).0;
  }

  lemma NotedFacts(d: DeviceState, call: Call)
    ensures Noted(d, call).store == d.store
    ensures forall id, lock, at :: OnRecord(Noted(d, call), id, lock, at) <==>
              if Checks(call, id, lock) && call.ScanToken? then CheckedAt(call) == at else OnRecord(d, id, lock, at)
    ensures forall id, device :: Released(Noted(d, call), id, device) <==>
              Released(d, id, device) || (call.ReleasePeer? && Releases(d, call, id, device))
  {
  }

  lemma EndingMovesTheRecord(d: DeviceState, call: Call, id: string, lock: Lock, at: Timestamp)
    requires Unique(d.store.running) && EndsOnEvidence(call) && (call.ReleasePeer? ==> d.deviceId.Some?)
    ensures OnRecord(AfterCall(d, call), id, lock, at) <==>
              !EndsSession(d, call, id) && if Checks(call, id, lock) then CheckedAt(call) == at
                                           else OnRecord(d, id, lock, at)
    ensures forall device :: Released(AfterCall(d, call), id, device) <==>
              Released(d, id, device) || Releases(d, call, id, device)
  {
    hide AfterCall, Noted, Satisfied, Finish, Runs, Named;
    EndingIsAFinish(d, call);
    var given :|
      AfterCall(d, call) == Finish(Noted(d, call).(releases := given), call.id, call.now, Satisfied(d, call)).0;
    NotedFacts(d, call);
    var noted := Noted(d, call);
    FinishUsesUp(noted.(releases := given), call.id, call.now, Satisfied(d, call));
    assert OnRecord(AfterCall(d, call), id, lock, at) <==> !EndsSession(d, call, id) && OnRecord(noted, id, lock, at);
    forall device ensures Released(AfterCall(d, call), id, device) <==> Released(noted, id, device) {
    }
  }

  lemma OtherCallsMoveTheRecord(d: DeviceState, call: Call, id: string, lock: Lock, at: Timestamp)
    requires !EndsOnEvidence(call) || (call.ReleasePeer? && d.deviceId.None?)
    ensures OnRecord(AfterCall(d, call), id, lock, at) <==>
              if Checks(call, id, lock) then CheckedAt(call) == at else OnRecord(d, id, lock, at)
    ensures forall device :: Released(AfterCall(d, call), id, device) <==>
              if call.ObserveReleases? then id in call.given && device in call.given[id]
              else Released(d, id, device) || Releases(d, call, id, device)
    ensures EndsOnEvidence(call) ==> AfterCall(d, call).store == d.store
  {
    hide Start, Reconcile, Reap, Proven, RequestRelease, Restore, EndWithPass, End, Finish, ConfigAfter;
  }

  /** A check replaces the one before it; an ending uses the checks of its session up; the rest stays. */
  lemma CallMovesTheRecord(d: DeviceState, call: Call, id: string, lock: Lock, at: Timestamp)
    requires Unique(d.store.running)
    ensures OnRecord(AfterCall(d, call), id, lock, at) <==>
              !EndsSession(d, call, id) && if Checks(call, id, lock) then CheckedAt(call) == at
                                           else OnRecord(d, id, lock, at)
    ensures forall device :: Released(AfterCall(d, call), id, device) <==>
              if call.ObserveReleases? then id in call.given && device in call.given[id]
              else Released(d, id, device) || Releases(d, call, id, device)
  {
    hide AfterCall, Named, OnRecord, Released, Checks;
    if EndsOnEvidence(call) && (call.ReleasePeer? ==> d.deviceId.Some?) {
      EndingMovesTheRecord(d, call, id, lock, at);
    } else {
      OtherCallsMoveTheRecord(d, call, id, lock, at);
      if Named(d.store, id).Some? {
        NamedIsLooked(d.store, id);
      }
    }
  }

  // ----- What a run leaves on record -----

  /** Call `r` checked `lock` for `id`; since then, up to call `k`, it was neither checked again nor used up. */
  ghost predicate LastChecked(states: seq<DeviceState>, calls: seq<Call>, r: int, k: nat, id: string, lock: Lock)
    requires |states| == |calls| + 1 && k <= |calls|
  {
    && 0 <= r < k && Checks(calls[r], id, lock) && !EndsSession(states[r], calls[r], id)
    && forall j :: r < j < k ==> !Checks(calls[j], id, lock) && !EndsSession(states[j], calls[j], id)
  }

  /** Call `r` gave the release of `device` for `id`, and no list observed since, up to call `k`, leaves it out. */
  ghost predicate LastGiven(states: seq<DeviceState>, calls: seq<Call>, r: int, k: nat, id: string, device: string)
    requires |states| == |calls| + 1 && k <= |calls|
  {
    && 0 <= r < k && Releases(states[r], calls[r], id, device)
    && forall j :: r < j < k && calls[j].ObserveReleases? ==> Releases(states[j], calls[j], id, device)
  }

  ghost predicate WasChecked(states: seq<DeviceState>, calls: seq<Call>, k: nat, id: string, lock: Lock, at: Timestamp)
    requires |states| == |calls| + 1 && k <= |calls|
  {
    exists r :: LastChecked(states, calls, r, k, id, lock) && CheckedAt(calls[r]) == at
  }

  ghost predicate WasGiven(states: seq<DeviceState>, calls: seq<Call>, k: nat, id: string, device: string)
    requires |states| == |calls| + 1 && k <= |calls|
  {
    exists r :: LastGiven(states, calls, r, k, id, device)
  }

  lemma CheckedSplits(states: seq<DeviceState>, calls: seq<Call>, k: nat, id: string, lock: Lock, at: Timestamp)
    requires |states| == |calls| + 1 && 0 < k <= |calls|
    ensures WasChecked(states, calls, k, id, lock, at) <==>
              && !EndsSession(states[k - 1], calls[k - 1], id)
              && if Checks(calls[k - 1], id, lock) then CheckedAt(calls[k - 1]) == at
                 else WasChecked(states, calls, k - 1, id, lock, at)
  {
    hide EndsSession, Checks, CheckedAt;
    var n := k - 1;
    if r :| LastChecked(states, calls, r, k, id, lock) && CheckedAt(calls[r]) == at {
      assert r < n ==> LastChecked(states, calls, r, n, id, lock);
    }
    if !EndsSession(states[n], calls[n], id) {
      if Checks(calls[n], id, lock) {
        assert LastChecked(states, calls, n, k, id, lock);
      } else if r :| LastChecked(states, calls, r, n, id, lock) && CheckedAt(calls[r]) == at {
        assert LastChecked(states, calls, r, k, id, lock);
      }
    }
  }

  lemma GivenSplits(states: seq<DeviceState>, calls: seq<Call>, k: nat, id: string, device: string)
    requires |states| == |calls| + 1 && 0 < k <= |calls|
    ensures WasGiven(states, calls, k, id, device) <==>
              var given := Releases(states[k - 1], calls[k - 1], id, device);
              given || (!calls[k - 1].ObserveReleases? && WasGiven(states, calls, k - 1, id, device))
  {
    hide Releases;
    var n := k - 1;
    if r :| LastGiven(states, calls, r, k, id, device) {
      assert r < n ==> LastGiven(states, calls, r, n, id, device);
    }
    if Releases(states[n], calls[n], id, device) {
      assert LastGiven(states, calls, n, k, id, device);
    } else if !calls[n].ObserveReleases? {
      if r :| LastGiven(states, calls, r, n, id, device) {
        assert LastGiven(states, calls, r, k, id, device);
      }
    }
  }

  lemma RunIsUnique(states: seq<DeviceState>, calls: seq<Call>, k: nat)
    requires IsDeviceRun(states, calls) && k <= |calls|
    ensures Unique(states[k].store.running)
  {
    hide AfterCall, S.Step, SessionEvent;
    DeviceRunIsASessionRun(states, calls);
    S.RunIsUnique(Stores(states), Events(states, calls), k);
  }

  lemma NothingRecordedAtFirst(states: seq<DeviceState>, calls: seq<Call>, id: string, lock: Lock, at: Timestamp,
                               device: string)
    requires IsDeviceRun(states, calls)
    ensures !OnRecord(states[0], id, lock, at) && !WasChecked(states, calls, 0, id, lock, at)
    ensures !Released(states[0], id, device) && !WasGiven(states, calls, 0, id, device)
  {
  }

  /** The record holds exactly the last checks that nothing has used up. */
  lemma {:induction false} RecordedExactlyWhen(states: seq<DeviceState>, calls: seq<Call>, k: nat, id: string,
                                               lock: Lock, at: Timestamp)
    requires IsDeviceRun(states, calls) && k <= |calls|
    ensures OnRecord(states[k], id, lock, at) <==> WasChecked(states, calls, k, id, lock, at)
  {
    if k == 0 {
      NothingRecordedAtFirst(states, calls, id, lock, at, "");
    } else {
      RunIsUnique(states, calls, k - 1);
      RecordedExactlyWhen(states, calls, k - 1, id, lock, at);
      assert states[k] == AfterCall(states[k - 1], calls[k - 1]);
      hide AfterCall, EndsSession, Checks, CheckedAt, OnRecord, WasChecked;
      CallMovesTheRecord(states[k - 1], calls[k - 1], id, lock, at);
      CheckedSplits(states, calls, k, id, lock, at);
    }
  }

  lemma {:induction false} ReleasedExactlyWhen(states: seq<DeviceState>, calls: seq<Call>, k: nat, id: string,
                                               device: string)
    requires IsDeviceRun(states, calls) && k <= |calls|
    ensures Released(states[k], id, device) <==> WasGiven(states, calls, k, id, device)
  {
    if k == 0 {
      NothingRecordedAtFirst(states, calls, id, Timer, 0, device);
    } else {
      RunIsUnique(states, calls, k - 1);
      ReleasedExactlyWhen(states, calls, k - 1, id, device);
      assert states[k] == AfterCall(states[k - 1], calls[k - 1]);
      hide AfterCall, EndsSession, OnRecord, Released, WasGiven, Checks;
      CallMovesTheRecord(states[k - 1], calls[k - 1], id, Timer, 0);
      GivenSplits(states, calls, k, id, device);
    }
  }

  // ----- When a call ends a session -----

  /** The condition of session `id` is met when call `k` asks to end it, and this is how. */
  ghost predicate Counts(states: seq<DeviceState>, calls: seq<Call>, k: nat, c: Lock)
    requires |states| == |calls| + 1 && k < |calls| && EndsOnEvidence(calls[k])
  {
    var id, now := calls[k].id, calls[k].now;
    match c
    case Timer => false
    case Confirm => calls[k].EndSession? && c in calls[k].claimed
    case Challenge(_) => calls[k].EndSession? && c in calls[k].claimed
    case DeviceCredential => exists at :: WasChecked(states, calls, k, id, c, at) && 0 <= now - at < 120
    case Token(tag) =>
      if calls[k].ScanToken? && calls[k].tag == Some(tag) then true
      else exists at :: WasChecked(states, calls, k, id, c, at) && 0 <= now - at < 120
    case PeerRelease(device) =>
      (calls[k].ReleasePeer? && states[k].deviceId == Some(device)) || WasGiven(states, calls, k, id, device)
    case RestartRequired => B.FellSinceSighting(Readings(states, calls, k), id)
  }

  /** The check of `c` counts: it was made in time, or it is this very call that makes it. */
  ghost predicate IsChecked(states: seq<DeviceState>, calls: seq<Call>, k: nat, c: Lock, at: Timestamp)
    requires |states| == |calls| + 1 && k < |calls| && EndsOnEvidence(calls[k])
  {
    if Checks(calls[k], calls[k].id, c) then at == calls[k].now else WasChecked(states, calls, k, calls[k].id, c, at)
  }

  lemma CountsIfChecked(states: seq<DeviceState>, calls: seq<Call>, k: nat, c: Lock)
    requires |states| == |calls| + 1 && k < |calls| && EndsOnEvidence(calls[k])
    requires c.DeviceCredential? || c.Token?
    ensures Counts(states, calls, k, c) <==>
              exists at :: IsChecked(states, calls, k, c, at) && 0 <= calls[k].now - at < 120
  {
    hide WasChecked;
    if Checks(calls[k], calls[k].id, c) {
      assert IsChecked(states, calls, k, c, calls[k].now);
    } else {
      forall at ensures IsChecked(states, calls, k, c, at) <==> WasChecked(states, calls, k, calls[k].id, c, at) {
      }
    }
  }

  lemma NotedIfChecked(states: seq<DeviceState>, calls: seq<Call>, k: nat, c: Lock, at: Timestamp)
    requires IsDeviceRun(states, calls) && k < |calls| && EndsOnEvidence(calls[k])
    ensures OnRecord(Noted(states[k], calls[k]), calls[k].id, c, at) <==> IsChecked(states, calls, k, c, at)
  {
    assert |states| == |calls| + 1;
    hide AfterCall, Noted, WasChecked, IsDeviceRun, OnRecord;
    NotedFacts(states[k], calls[k]);
    RecordedExactlyWhen(states, calls, k, calls[k].id, c, at);
  }

  lemma ChecksCount(states: seq<DeviceState>, calls: seq<Call>, k: nat, c: Lock)
    requires IsDeviceRun(states, calls) && k < |calls| && EndsOnEvidence(calls[k])
    requires c.DeviceCredential? || c.Token?
    ensures var id, now := calls[k].id, calls[k].now;
            Counts(states, calls, k, c) <==>
              exists at :: OnRecord(Noted(states[k], calls[k]), id, c, at) && 0 <= now - at < 120
  {
    assert |states| == |calls| + 1;
    hide AfterCall, Noted, IsDeviceRun, OnRecord, Counts, IsChecked, Checks;
    CountsIfChecked(states, calls, k, c);
    forall at ensures OnRecord(Noted(states[k], calls[k]), calls[k].id, c, at) <==> IsChecked(states, calls, k, c, at) {
      NotedIfChecked(states, calls, k, c, at);
    }
  }

  lemma ReleasesCount(states: seq<DeviceState>, calls: seq<Call>, k: nat, c: Lock)
    requires IsDeviceRun(states, calls) && k < |calls| && EndsOnEvidence(calls[k]) && c.PeerRelease?
    ensures Counts(states, calls, k, c) <==> Released(Noted(states[k], calls[k]), calls[k].id, c.deviceId)
  {
    hide AfterCall, Noted, WasGiven, Released;
    NotedFacts(states[k], calls[k]);
    ReleasedExactlyWhen(states, calls, k, calls[k].id, c.deviceId);
  }

  lemma RestartsCount(states: seq<DeviceState>, calls: seq<Call>, k: nat)
    requires IsDeviceRun(states, calls) && k < |calls| && EndsOnEvidence(calls[k])
    requires forall j :: 0 <= j < k ==> !calls[j].RestoreBoots?
    ensures Counts(states, calls, k, RestartRequired) <==>
              calls[k].id in states[k].seen && states[k].seen[calls[k].id] != states[k].counter.bootId
  {
    hide AfterCall, Readings, B.FellSinceSighting, B.SeenAfter, B.CounterAfter;
    BootsFollowReadings(states, calls, k);
    B.SeenTracksReadings(Readings(states, calls, k), calls[k].id);
  }

  lemma CountsExactlyWhen(states: seq<DeviceState>, calls: seq<Call>, k: nat, c: Lock)
    requires IsDeviceRun(states, calls) && k < |calls| && EndsOnEvidence(calls[k])
    requires forall j :: 0 <= j < k ==> !calls[j].RestoreBoots?
    ensures c in Satisfied(states[k], calls[k]) <==> Counts(states, calls, k, c)
  {
    var d, call := states[k], calls[k];
    var noted := Noted(d, call);
    RunIsSane(states, calls, k);
    CallKeepsSane(d, call);
    SatisfiedIsProven(d, call, c);
    ProvenExactlyWhen(noted, call.id, call.now, c);
    hide AfterCall, Satisfied, Noted, Proven, IsDeviceRun;
    match c {
      case RestartRequired => RestartsCount(states, calls, k);
      case PeerRelease(_) => ReleasesCount(states, calls, k, c);
      case DeviceCredential => CountsIfRecent(states, calls, k, c);
      case Token(_) => CountsIfRecent(states, calls, k, c);
      case _ =>
    }
  }

  lemma CountsIfRecent(states: seq<DeviceState>, calls: seq<Call>, k: nat, c: Lock)
    requires IsDeviceRun(states, calls) && k < |calls| && EndsOnEvidence(calls[k])
    requires c.DeviceCredential? || c.Token?
    ensures var noted, id, now := Noted(states[k], calls[k]), calls[k].id, calls[k].now;
            Counts(states, calls, k, c) <==>
              id in noted.held && c in noted.held[id] && IsRecent(noted.held[id][c], now)
  {
    assert |states| == |calls| + 1;
    hide AfterCall, Noted, IsDeviceRun, Counts;
    var noted, id, now := Noted(states[k], calls[k]), calls[k].id, calls[k].now;
    ChecksCount(states, calls, k, c);
    if id in noted.held && c in noted.held[id] {
      assert OnRecord(noted, id, c, noted.held[id][c]);
    }
  }

  lemma SatisfiedIsProven(d: DeviceState, call: Call, c: Lock)
    requires EndsOnEvidence(call)
    ensures c in Satisfied(d, call) <==>
              || (call.EndSession? && c in call.claimed && (c.Confirm? || c.Challenge?))
              || c in Proven(Noted(d, call), call.id, call.now)
    ensures Noted(d, call).seen == d.seen && Noted(d, call).counter == d.counter
  {
    hide Proven;
  }

  /**
   * Over every run with no boot record restored, a call that asks to end the session `s` ends it exactly
   * when `s` is over, its release has landed, or every condition of its lock counts.
   */
  lemma EndsExactlyWhen(states: seq<DeviceState>, calls: seq<Call>, k: nat, s: Session)
    requires IsDeviceRun(states, calls) && k < |calls| && EndsOnEvidence(calls[k])
    requires forall j :: 0 <= j < k ==> !calls[j].RestoreBoots?
    requires Named(states[k].store, calls[k].id) == Some(s) && (calls[k].ReleasePeer? ==> states[k].deviceId.Some?)
    ensures !Runs(states[k + 1].store, s.profile) <==>
              || (s.lock.endsAt.Some? && s.lock.endsAt.value <= calls[k].now)
              || (s.lock.delayedReleaseAt.Some? && s.lock.delayedReleaseAt.value <= calls[k].now)
              || forall c :: c in s.lock.conditions ==> Counts(states, calls, k, c)
  {
    assert states[k + 1] == AfterCall(states[k], calls[k]);
    RunIsUnique(states, calls, k);
    NotedFacts(states[k], calls[k]);
    hide AfterCall, Satisfied, Noted, Finish, Named, Runs, Counts, IsDeviceRun;
    EndingIsAFinish(states[k], calls[k]);
    var given :|
      AfterCall(states[k], calls[k]) ==
        Finish(Noted(states[k], calls[k]).(releases := given), calls[k].id, calls[k].now,
               Satisfied(states[k], calls[k])).0;
    FinishUsesUp(Noted(states[k], calls[k]).(releases := given), calls[k].id, calls[k].now,
                 Satisfied(states[k], calls[k]));
    forall c ensures c in Satisfied(states[k], calls[k]) <==> Counts(states, calls, k, c) {
      CountsExactlyWhen(states, calls, k, c);
    }
  }

  /** A pass that is granted ends the session it names, whatever its lock. */
  lemma PassEndsTheSession(d: DeviceState, id: string, now: Timestamp)
    requires Unique(d.store.running) && Named(d.store, id).Some?
    requires P.Check(d.used, now, d.config.emergency).None?
    ensures !Runs(AfterCall(d, SpendPass(id, now)).store, Named(d.store, id).value.profile)
  {
    hide P.Check, P.Recorded, End, EndWithPass;
    S.PassIsEnd(d.store, id, now);
    EndFacts(d.store, id, now, Named(d.store, id).value.lock.conditions);
  }

  /** A reap takes exactly the sessions whose end or whose release has come. */
  lemma ReapTakesExactlyTheOver(d: DeviceState, now: Timestamp, p: string)
    requires Unique(d.store.running)
    ensures Runs(AfterCall(d, ReapAt(now)).store, p) <==>
              && Runs(d.store, p)
              && var l := ForProfile(d.store, p).value.lock;
                 && (l.endsAt.Some? ==> now < l.endsAt.value)
                 && (l.delayedReleaseAt.Some? ==> now < l.delayedReleaseAt.value)
  {
    hide Reap;
    ReapFacts(d.store, now);
  }
}
