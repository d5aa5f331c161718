/**
 * Whole runs of the session store: any interleaving of starts, schedules, restores, release requests,
 * endings, passes and reaps, under any clock.
 */
module SessionRuns {
  import opened Basics
  import opened LockLattice
  import opened SessionStore
  import opened SessionFacts

  datatype Event =
    | StartE(session: Session)
    | ReconcileE(at: Timestamp, acts: seq<Activation>, mint: nat -> string)
    | RestoreE(incoming: Store)
    | RequestE(id: string, at: Timestamp)
    | EndE(id: string, at: Timestamp, satisfied: set<Lock>)
    | PassE(id: string, at: Timestamp)
    | ReapE(at: Timestamp)

  function Step(st: Store, e: Event): Store {
    match e
    case StartE(s) => Start(st, s)
    case ReconcileE(at, acts, mint) => Reconcile(st, at, acts, mint).0
    case RestoreE(incoming) => Restore(st, incoming)
    case RequestE(id, at) => RequestRelease(st, id, at).0
    case EndE(id, at, satisfied) => End(st, id, at, satisfied).0
    case PassE(id, at) => EndWithPass(st, id, at).0
    case ReapE(at) => Reap(st, at)
  }

  ghost predicate IsRun(states: seq<Store>, events: seq<Event>) {
    && |states| == |events| + 1
    && Unique(states[0].running)
    && forall k {:trigger events[k]} :: 0 <= k < |events| ==> states[k + 1] == Step(states[k], events[k])
  }

  lemma ThreeSteps(states: seq<Store>, events: seq<Event>)
    requires |states| == 4 && |events| == 3 && Unique(states[0].running)
    requires states[1] == Step(states[0], events[0]) && states[2] == Step(states[1], events[1])
             && states[3] == Step(states[2], events[2])
    ensures IsRun(states, events)
  {
    hide Step, Unique;
  }

  function LockFor(st: Store, p: string): LockSet
    requires Runs(st, p)
  {
    ForProfile(st, p).value.lock
  }

  /**
   * The releases a step grants the session of `p`: a day after a request that names it, and the
   * delayed release a start payload carries.
   */
  function GrantsAt(st: Store, e: Event, p: string): set<Timestamp> {
    match e
    case RequestE(id, at) =>
      if Named(st, id).Some? && Named(st, id).value.profile == p then {at + DELAYED_RELEASE_SECONDS} else {}
    case StartE(s) =>
      if s.profile == p && s.lock.delayedReleaseAt.Some? then {s.lock.delayedReleaseAt.value} else {}
    case _ => {}
  }

  ghost function Grants(states: seq<Store>, events: seq<Event>, i: nat, k: nat, p: string): set<Timestamp>
    requires i <= k <= |events| && |states| == |events| + 1
    decreases k
  {
    if k == i then {} else Grants(states, events, i, k - 1, p) + GrantsAt(states[k - 1], events[k - 1], p)
  }

  // ----- One step -----

  lemma StepKeepsUnique(st: Store, e: Event)
    requires Unique(st.running)
    ensures Unique(Step(st, e).running)
  {
    match e
    case StartE(s) => StartFacts(st, s);
    case ReconcileE(at, acts, mint) => ReconcileKeeps(st, at, acts, mint, "");
    case RestoreE(incoming) => RestoreNeverWeakens(st, incoming, "");
    case RequestE(id, at) => RequestFacts(st, id, at);
    case EndE(id, at, satisfied) => EndFacts(st, id, at, satisfied);
    case PassE(id, at) => PassIsEnd(st, id, at);
    case ReapE(at) => ReapFacts(st, at);
  }

  lemma PassIsEnd(st: Store, id: string, at: Timestamp)
    requires Unique(st.running)
    ensures Unique(EndWithPass(st, id, at).0.running)
    ensures Named(st, id).Some? ==> EndWithPass(st, id, at) == End(st, id, at, Named(st, id).value.lock.conditions)
    ensures Named(st, id).None? ==> EndWithPass(st, id, at).0 == st
  {
    if Named(st, id).Some? {
      EndFacts(st, id, at, Named(st, id).value.lock.conditions);
    }
  }

  /** A session that survives a step still holds everything it held, up to what the step granted. */
  lemma StepKeepsTheLock(st: Store, e: Event, p: string)
    requires Unique(st.running) && Runs(st, p) && Runs(Step(st, e), p)
    ensures StillHolds(LockFor(st, p), LockFor(Step(st, e), p), GrantsAt(st, e, p))
  {
    match e
    case StartE(s) => StartFacts(st, s);
    case ReconcileE(at, acts, mint) => ReconcileKeeps(st, at, acts, mint, p);
    case RestoreE(incoming) => RestoreNeverWeakens(st, incoming, p);
    case RequestE(id, at) =>
      RequestFacts(st, id, at);
      if Named(st, id).Some? {
        NamedIsLooked(st, id);
      }
    case EndE(id, at, satisfied) => EndFacts(st, id, at, satisfied);
    case PassE(id, at) =>
      if Named(st, id).Some? {
        PassIsEnd(st, id, at);
        EndFacts(st, id, at, Named(st, id).value.lock.conditions);
      }
    case ReapE(at) => ReapFacts(st, at);
  }

  /** Only an ending the lock allows, a spent pass, or the lock's own expiry takes a session away. */
  predicate Allowed(l: LockSet, e: Event, grants: set<Timestamp>) {
    match e
    case EndE(_, at, satisfied) => l.CanRelease(at, satisfied) || Landed(grants, at)
    case ReapE(at) => l.CanRelease(at, {}) || Landed(grants, at)
    case PassE(_, _) => true
    case _ => false
  }

  lemma RemovalIsAllowed(st: Store, e: Event, p: string)
    requires Unique(st.running) && Runs(st, p) && !Runs(Step(st, e), p)
    ensures Allowed(LockFor(st, p), e, {})
  {
    match e
    case StartE(s) => StartFacts(st, s);
    case ReconcileE(at, acts, mint) => ReconcileKeeps(st, at, acts, mint, p);
    case RestoreE(incoming) => RestoreNeverWeakens(st, incoming, p);
    case RequestE(id, at) => RequestFacts(st, id, at);
    case EndE(id, at, satisfied) =>
      EndFacts(st, id, at, satisfied);
      NamedIsLooked(st, id);
    case PassE(id, at) =>
    case ReapE(at) => ReapFacts(st, at);
  }

  // ----- A lock is a promise -----

  lemma {:induction false} RunIsUnique(states: seq<Store>, events: seq<Event>, k: nat)
    requires IsRun(states, events) && k <= |events|
    ensures Unique(states[k].running)
  {
    if k == 0 {
    } else {
      RunIsUnique(states, events, k - 1);
      StepKeepsUnique(states[k - 1], events[k - 1]);
    }
  }

  lemma HoldsItself(l: LockSet)
    ensures StillHolds(l, l, {})
  {
  }

  lemma {:induction false} RunKeepsTheLock(states: seq<Store>, events: seq<Event>, i: nat, k: nat, p: string)
    requires IsRun(states, events) && i <= k <= |events|
    requires forall j :: i <= j <= k ==> Runs(states[j], p)
    ensures StillHolds(LockFor(states[i], p), LockFor(states[k], p), Grants(states, events, i, k, p))
  {
    hide Step, StillHolds, LockFor, GrantsAt;
    if i < k {
      RunKeepsTheLock(states, events, i, k - 1, p);
      RunIsUnique(states, events, k - 1);
      assert states[k - 1 + 1] == Step(states[k - 1], events[k - 1]);
      StepKeepsTheLock(states[k - 1], events[k - 1], p);
      StillHoldsChains(LockFor(states[i], p), LockFor(states[k - 1], p), LockFor(states[k], p),
                       Grants(states, events, i, k - 1, p), GrantsAt(states[k - 1], events[k - 1], p));
    } else {
      HoldsItself(LockFor(states[i], p));
    }
  }

  /**
   * If `p` ran under `l` at step `i` and step `k` took it away, then `l` itself allowed that at that
   * instant and on that evidence, or a release granted in between had landed, or a pass was spent.
   */
  lemma LockIsAPromise(states: seq<Store>, events: seq<Event>, i: nat, k: nat, p: string)
    requires IsRun(states, events) && i <= k < |events|
    requires forall j :: i <= j <= k ==> Runs(states[j], p)
    requires !Runs(states[k + 1], p)
    ensures Allowed(LockFor(states[i], p), events[k], Grants(states, events, i, k, p))
  {
    RunKeepsTheLock(states, events, i, k, p);
    RunIsUnique(states, events, k);
    RemovalIsAllowed(states[k], events[k], p);
    var l, now, grants := LockFor(states[i], p), LockFor(states[k], p), Grants(states, events, i, k, p);
    match events[k]
    case EndE(_, at, satisfied) => StillHoldsMeans(l, now, grants, at, satisfied);
    case ReapE(at) =>
      assert now.CanRelease(at, {}) by {
        assert !Landed({}, at);
      }
      StillHoldsMeans(l, now, grants, at, {});
    case _ =>
  }

  /** Where every grant in a stretch of a run came from. */
  lemma {:induction false} GrantHasASource(states: seq<Store>, events: seq<Event>, i: nat, k: nat, p: string,
                                           g: Timestamp)
    returns (r: nat)
    requires i <= k <= |events| && |states| == |events| + 1
    requires g in Grants(states, events, i, k, p)
    ensures i <= r < k && g in GrantsAt(states[r], events[r], p)
  {
    r := k - 1;
    if g !in GrantsAt(states[r], events[r], p) {
      r := GrantHasASource(states, events, i, k - 1, p, g);
    }
  }

  /** Step `e` asks for the delayed release of the session `p` runs. */
  predicate Requests(st: Store, e: Event, p: string) {
    e.RequestE? && Named(st, e.id).Some? && Named(st, e.id).value.profile == p
  }

  /** The delayed release of `p` was asked for at step `r`, at least a day before `at`. */
  predicate AskedADayBefore(st: Store, e: Event, p: string, at: Timestamp) {
    Requests(st, e, p) && at - e.at >= 86_400
  }

  /** With start payloads that carry no delayed release, nothing but the three legitimate exits is left. */
  lemma NoEarlyRelease(states: seq<Store>, events: seq<Event>, i: nat, k: nat, p: string)
    requires IsRun(states, events) && i <= k < |events|
    requires forall j :: i <= j <= k ==> Runs(states[j], p)
    requires !Runs(states[k + 1], p)
    requires forall j :: i <= j < k && events[j].StartE? ==> events[j].session.lock.delayedReleaseAt.None?
    ensures events[k].EndE? || events[k].PassE? || events[k].ReapE?
    ensures !events[k].PassE? ==>
              || LockFor(states[i], p).CanRelease(events[k].at, if events[k].EndE? then events[k].satisfied else {})
              || exists r :: i <= r < k && AskedADayBefore(states[r], events[r], p, events[k].at)
  {
    LockIsAPromise(states, events, i, k, p);
    var grants := Grants(states, events, i, k, p);
    if !events[k].PassE? && Landed(grants, events[k].at) {
      var g :| g in grants && g <= events[k].at;
      var r := GrantHasASource(states, events, i, k, p, g);
      assert AskedADayBefore(states[r], events[r], p, events[k].at);
    }
  }

  /**
   * The condition on start payloads is needed: a payload carrying a release already past takes an
   * unexpired, unconditional lock away at once.
   */
  lemma StartPayloadCanRelease() returns (states: seq<Store>, events: seq<Event>)
    ensures IsRun(states, events) && |events| == 3
    ensures Runs(states[1], "p") && Runs(states[2], "p") && !Runs(states[3], "p")
    ensures LockFor(states[1], "p") == LockSet({Timer}, None, None) && !LockFor(states[1], "p").CanRelease(10, {})
    ensures events[1].StartE? && events[2] == ReapE(10)
  {
    hide Step, Start, Reap, Runs, LockFor, IsRun, Unique, LockSet.CanRelease;
    var s1 := Start(EMPTY, MINE);
    var s2 := Start(s1, FORGED);
    var s3 := Reap(s2, 10);
    ForgedRelease(s1, s2);
    StartAndReapAreSteps(EMPTY, MINE);
    StartAndReapAreSteps(s1, FORGED);
    states := [EMPTY, s1, s2, s3];
    events := [StartE(MINE), StartE(FORGED), ReapE(10)];
    ThreeSteps(states, events);
  }

  const MINE: Session := Session("a", "p", Manual, 0, LockSet({Timer}, None, None))
  const FORGED: Session := Session("b", "p", Manual, 0, LockSet({}, None, Some(5)))

  lemma ForgedRelease(s1: Store, s2: Store)
    requires s1 == Start(EMPTY, MINE) && s2 == Start(s1, FORGED)
    ensures Unique(EMPTY.running)
    ensures Runs(s1, "p") && LockFor(s1, "p") == LockSet({Timer}, None, None) && !LockFor(s1, "p").CanRelease(10, {})
    ensures Runs(s2, "p") && !Runs(Reap(s2, 10), "p")
  {
    StartFacts(EMPTY, MINE);
    hide Start, Reap;
    StartFacts(s1, FORGED);
    ReapFacts(s2, 10);
    assert Timer in MINE.lock.conditions;
  }

  lemma StartAndReapAreSteps(st: Store, s: Session)
    ensures Step(st, StartE(s)) == Start(st, s)
    ensures Step(Start(st, s), ReapE(10)) == Reap(Start(st, s), 10)
  {
  }

  // ----- The last-resort exit always lands -----

  /** No stored copy adopted in this step carries a release for `p` later than `at`. */
  predicate DoesNotPostpone(e: Event, p: string, at: Timestamp) {
    e.RestoreE? ==>
      forall s :: s in e.incoming.running && s.profile == p && s.lock.delayedReleaseAt.Some? ==>
        s.lock.delayedReleaseAt.value <= at
  }

  predicate LandsBy(l: LockSet, at: Timestamp) {
    l.delayedReleaseAt.Some? && l.delayedReleaseAt.value <= at
  }

  lemma {:induction false} RestoreAllLands(st: Store, incoming: seq<Session>, p: string, at: Timestamp)
    requires Unique(st.running) && Runs(st, p) && LandsBy(LockFor(st, p), at)
    requires forall s :: s in incoming && s.profile == p && s.lock.delayedReleaseAt.Some? ==>
               s.lock.delayedReleaseAt.value <= at
    ensures Runs(RestoreAll(st, incoming), p) && LandsBy(LockFor(RestoreAll(st, incoming), p), at)
  {
    if incoming == [] {
    } else {
      var n := |incoming| - 1;
      RestoreAllLands(st, incoming[..n], p, at);
      RestoreAllFacts(st, incoming[..n], p);
      RestoreOneFacts(RestoreAll(st, incoming[..n]), incoming[n]);
    }
  }

  lemma {:induction false} ReconcileLands(st: Store, now: Timestamp, acts: seq<Activation>, mint: nat -> string,
                                          p: string, at: Timestamp)
    requires Unique(st.running) && Runs(st, p) && LandsBy(LockFor(st, p), at)
    ensures Runs(Reconcile(st, now, acts, mint).0, p) && LandsBy(LockFor(Reconcile(st, now, acts, mint).0, p), at)
  {
    if acts == [] {
    } else {
      ReconcileLands(st, now, acts[..|acts| - 1], mint, p, at);
      ReconcileKeeps(st, now, acts[..|acts| - 1], mint, p);
      var (before, started) := Reconcile(st, now, acts[..|acts| - 1], mint);
      ReconcileOneFacts(before, now, acts[|acts| - 1], "");
      ReconcileOneFacts(before, now, acts[|acts| - 1], mint(|started|));
    }
  }

  lemma StepLands(st: Store, e: Event, p: string, at: Timestamp)
    requires Unique(st.running) && Runs(st, p) && Runs(Step(st, e), p)
    requires LandsBy(LockFor(st, p), at) && DoesNotPostpone(e, p, at)
    ensures LandsBy(LockFor(Step(st, e), p), at)
  {
    match e
    case StartE(s) => StartFacts(st, s);
    case ReconcileE(now, acts, mint) => ReconcileLands(st, now, acts, mint, p, at);
    case RestoreE(incoming) =>
      RestoreAllLands(st, incoming.running, p, at);
      RestoreAllFacts(st, incoming.running, p);
      RestoreNeverWeakens(st, incoming, p);
      SameMembersSameLookup(RestoreAll(st, incoming.running), Restore(st, incoming), p);
    case RequestE(id, now) =>
      RequestFacts(st, id, now);
      if Named(st, id).Some? {
        NamedIsLooked(st, id);
      }
    case EndE(id, now, satisfied) => EndFacts(st, id, now, satisfied);
    case PassE(id, now) =>
      if Named(st, id).Some? {
        PassIsEnd(st, id, now);
        EndFacts(st, id, now, Named(st, id).value.lock.conditions);
      }
    case ReapE(now) => ReapFacts(st, now);
  }

  lemma RequestLands(st: Store, e: Event, p: string)
    requires Unique(st.running) && Requests(st, e, p)
    ensures Runs(Step(st, e), p) && LandsBy(LockFor(Step(st, e), p), e.at + DELAYED_RELEASE_SECONDS)
  {
    RequestFacts(st, e.id, e.at);
    NamedIsLooked(st, e.id);
  }

  lemma {:induction false} RequestedReleaseLands(states: seq<Store>, events: seq<Event>, r: nat, k: nat, p: string,
                                                 at: Timestamp)
    requires IsRun(states, events) && r < k <= |events|
    requires Requests(states[r], events[r], p) && at == events[r].at + DELAYED_RELEASE_SECONDS
    requires forall j :: r <= j <= k ==> Runs(states[j], p)
    requires forall j :: r < j < k ==> DoesNotPostpone(events[j], p, at)
    ensures LandsBy(LockFor(states[k], p), at)
  {
    hide Step, Requests, LandsBy, DoesNotPostpone;
    RunIsUnique(states, events, k - 1);
    assert states[k - 1 + 1] == Step(states[k - 1], events[k - 1]);
    if k == r + 1 {
      RequestLands(states[r], events[r], p);
    } else {
      RequestedReleaseLands(states, events, r, k - 1, p, at);
      StepLands(states[k - 1], events[k - 1], p, at);
    }
  }

  /**
   * A day after a request that named it, the session of `p` can be ended with no evidence and is
   * reaped, whatever happened in between, unless storage handed over a later release.
   */
  lemma RequestedReleaseIsKept(states: seq<Store>, events: seq<Event>, r: nat, k: nat, p: string, now: Timestamp)
    requires IsRun(states, events) && r < k <= |events|
    requires Requests(states[r], events[r], p)
    requires forall j :: r <= j <= k ==> Runs(states[j], p)
    requires forall j :: r < j < k ==> DoesNotPostpone(events[j], p, events[r].at + DELAYED_RELEASE_SECONDS)
    requires now - events[r].at >= 86_400
    ensures LockFor(states[k], p).CanRelease(now, {})
    ensures !Runs(Reap(states[k], now), p)
  {
    RequestedReleaseLands(states, events, r, k, p, events[r].at + DELAYED_RELEASE_SECONDS);
    RunIsUnique(states, events, k);
    ReapFacts(states[k], now);
  }

  /** The exception is real: a stored copy with a later release postpones one already promised. */
  lemma RestoreCanPostpone(later: Timestamp)
    requires later > DELAYED_RELEASE_SECONDS
    ensures var held := LockSet({Timer}, None, None).RequestRelease(0);
            var st := Store([Session("a", "p", Manual, 0, held)], map[]);
            var stored := Store([Session("a", "p", Manual, 0, held.(delayedReleaseAt := Some(later)))], map[]);
            && held.IsExpired(DELAYED_RELEASE_SECONDS)
            && Runs(Restore(st, stored), "p")
            && !LockFor(Restore(st, stored), "p").IsExpired(later - 1)
  {
    var held := LockSet({Timer}, None, None).RequestRelease(0);
    var st := Store([Session("a", "p", Manual, 0, held)], map[]);
    var stored := Store([Session("a", "p", Manual, 0, held.(delayedReleaseAt := Some(later)))], map[]);
    RestoreOneFacts(st, stored.running[0]);
    assert stored.running[..0] == [];
    assert RestoreAll(st, stored.running) == RestoreOne(st, stored.running[0]);
    SameMembersSameLookup(RestoreAll(st, stored.running), Restore(st, stored), "p");
  }
}
