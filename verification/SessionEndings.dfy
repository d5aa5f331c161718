/**
 * What an ending is remembered by: a stored copy of the session written before it is not brought back,
 * a session that began after it is, and no later step runs the profile again on the same account.
 */
module SessionEndings {
  import opened Basics
  import opened LockLattice
  import opened SessionStore
  import opened SessionFacts
  import opened SessionRuns
  import opened Reconciliation

  // ----- What a restore brings back -----

  /** The ending remembered at `d` is not inside the session, so it was of another one. */
  predicate Outside(d: Timestamp, s: Session) {
    d < s.startedAt || (s.lock.endsAt.Some? && s.lock.endsAt.value <= d)
  }

  /** A stored session of `p` that no remembered ending falls inside. */
  predicate Revives(st: Store, s: Session, p: string) {
    s.profile == p && (p in st.dismissed ==> Outside(st.dismissed[p], s))
  }

  /** A restored profile runs exactly when it ran, or a stored session of it was not ended here. */
  lemma RestoreRunsExactlyWhen(st: Store, incoming: Store, p: string)
    requires Unique(st.running)
    ensures Runs(Restore(st, incoming), p) <==>
              Runs(st, p) || exists s :: s in incoming.running && Revives(st, s, p)
  {
    RestoreAllRunsExactlyWhen(st, incoming.running, p);
    RestoreAllFacts(st, incoming.running, p);
    SameMembersSameLookup(RestoreAll(st, incoming.running), Restore(st, incoming), p);
  }

  lemma {:induction false} RestoreAllRunsExactlyWhen(st: Store, incoming: seq<Session>, p: string)
    requires Unique(st.running)
    ensures Runs(RestoreAll(st, incoming), p) <==> Runs(st, p) || exists s :: s in incoming && Revives(st, s, p)
  {
    if incoming == [] {
    } else {
      var n := |incoming| - 1;
      var before := RestoreAll(st, incoming[..n]);
      RestoreAllRunsExactlyWhen(st, incoming[..n], p);
      RestoreAllFacts(st, incoming[..n], p);
      OneRunsExactlyWhen(before, incoming[n], p);
      assert forall s :: s in incoming <==> s in incoming[..n] || s == incoming[n];
      assert Revives(before, incoming[n], p) == Revives(st, incoming[n], p);
    }
  }

  lemma OneRunsExactlyWhen(st: Store, s: Session, p: string)
    requires Unique(st.running)
    ensures Runs(RestoreOne(st, s), p) <==> Runs(st, p) || Revives(st, s, p)
  {
    RestoreOneFacts(st, s);
    if ProfileIndex(st.running, s.profile) == |st.running| {
      StartFacts(st, s);
    }
  }

  // ----- The session the user ended -----

  /** Not over before it began. */
  predicate Lasts(s: Session) {
    s.lock.endsAt.Some? ==> s.startedAt < s.lock.endsAt.value
  }

  /** The same run of the same profile, whatever else is written about it. */
  predicate SameRunAs(t: Session, s: Session) {
    t.profile == s.profile && t.startedAt == s.startedAt && t.lock.endsAt == s.lock.endsAt
  }

  /** The ending remembered of the profile of `s` is at an instant of `s`. */
  predicate Remembers(st: Store, s: Session) {
    && s.profile in st.dismissed
    && s.startedAt <= st.dismissed[s.profile]
    && (s.lock.endsAt.Some? ==> st.dismissed[s.profile] < s.lock.endsAt.value)
  }

  lemma EndingIsRemembered(st: Store, id: string, now: Timestamp, ev: set<Lock>)
    requires Unique(st.running) && End(st, id, now, ev).1.Ok?
    ensures var (st', r) := End(st, id, now, ev);
            Unique(st'.running) && !Runs(st', r.value.profile) && (Lasts(r.value) ==> Remembers(st', r.value))
  {
    EndFacts(st, id, now, ev);
  }

  /** Ended at an instant of it, the session is remembered by that instant. */
  lemma EndingIsRememberedWhen(st: Store, id: string, now: Timestamp, ev: set<Lock>)
    requires Unique(st.running) && End(st, id, now, ev).1.Ok?
    requires var s := End(st, id, now, ev).1.value;
             s.startedAt <= now && (s.lock.endsAt.Some? ==> now < s.lock.endsAt.value)
    ensures var (st', r) := End(st, id, now, ev); st'.dismissed == st.dismissed[r.value.profile := now]
  {
    EndFacts(st, id, now, ev);
  }

  /**
   * Copies of an ended session, stored before it was ended, are brought back exactly when it was one
   * that could not last: it ended no later than it began.
   */
  lemma EndedIsRestoredExactlyWhen(st: Store, id: string, now: Timestamp, ev: set<Lock>, stored: Store)
    requires Unique(st.running) && End(st, id, now, ev).1.Ok?
    requires var s := End(st, id, now, ev).1.value;
             && (exists t :: t in stored.running && t.profile == s.profile)
             && forall t :: t in stored.running && t.profile == s.profile ==> SameRunAs(t, s)
    ensures var (st', r) := End(st, id, now, ev);
            Runs(Restore(st', stored), r.value.profile) <==>
              r.value.lock.endsAt.Some? && r.value.lock.endsAt.value <= r.value.startedAt
  {
    EndFacts(st, id, now, ev);
    var (st', r) := End(st, id, now, ev);
    RestoreRunsExactlyWhen(st', stored, r.value.profile);
    if !Lasts(r.value) {
      var t :| t in stored.running && t.profile == r.value.profile;
      assert Revives(st', t, r.value.profile);
    }
  }

  /** A pass ends the session it names, and that ending is remembered like any other. */
  lemma PassEndsForGood(st: Store, id: string, now: Timestamp, stored: Store)
    requires Unique(st.running) && Named(st, id).Some? && Lasts(Named(st, id).value)
    requires forall t :: t in stored.running && t.profile == Named(st, id).value.profile ==>
               SameRunAs(t, Named(st, id).value)
    ensures EndWithPass(st, id, now).1 == Ok(Named(st, id).value)
    ensures !Runs(EndWithPass(st, id, now).0, Named(st, id).value.profile)
    ensures !Runs(Restore(EndWithPass(st, id, now).0, stored), Named(st, id).value.profile)
  {
    var s := Named(st, id).value;
    EndFacts(st, id, now, s.lock.conditions);
    PassIsEnd(st, id, now);
    RestoreRunsExactlyWhen(EndWithPass(st, id, now).0, stored, s.profile);
  }

  // ----- Every later step -----

  /** The step asks for nothing of the profile of `s` beyond the run that `s` was of. */
  predicate BringsNothingNew(e: Event, s: Session) {
    match e
    case StartE(t) => t.profile != s.profile
    case ReconcileE(at, acts, _) =>
      forall a :: a in acts && a.profile == s.profile ==>
        a.end <= at || (a.start <= s.startedAt && s.lock.endsAt.Some? && s.lock.endsAt.value <= a.end)
    case RestoreE(stored) => forall t :: t in stored.running && t.profile == s.profile ==> SameRunAs(t, s)
    case _ => true
  }

  lemma StaysEndedOnce(st: Store, e: Event, s: Session)
    requires Unique(st.running) && !Runs(st, s.profile) && Remembers(st, s) && BringsNothingNew(e, s)
    ensures !Runs(Step(st, e), s.profile) && Remembers(Step(st, e), s)
  {
    match e
    case StartE(t) => StartFacts(st, t);
    case ReconcileE(at, acts, mint) =>
      ReconcileRunsExactlyWhen(st, at, acts, mint, s.profile);
      ReconcileKeeps(st, at, acts, mint, s.profile);
    case RestoreE(stored) =>
      RestoreRunsExactlyWhen(st, stored, s.profile);
      RestoreNeverWeakens(st, stored, s.profile);
    case RequestE(id, at) => RequestFacts(st, id, at);
    case EndE(id, at, satisfied) => OtherEndingsKeepIt(st, id, at, satisfied, s);
    case PassE(id, at) =>
      if Named(st, id).Some? {
        PassIsEnd(st, id, at);
        OtherEndingsKeepIt(st, id, at, Named(st, id).value.lock.conditions, s);
      }
    case ReapE(at) => ReapFacts(st, at);
  }

  lemma OtherEndingsKeepIt(st: Store, id: string, at: Timestamp, ev: set<Lock>, s: Session)
    requires Unique(st.running) && !Runs(st, s.profile) && Remembers(st, s)
    ensures !Runs(End(st, id, at, ev).0, s.profile) && Remembers(End(st, id, at, ev).0, s)
  {
    EndFacts(st, id, at, ev);
    if Named(st, id).Some? {
      NamedIsLooked(st, id);
    }
  }

  /** The ending at step `k`, on evidence or by a pass, took the session `s` away. */
  ghost predicate EndsAt(states: seq<Store>, events: seq<Event>, k: nat, s: Session)
    requires IsRun(states, events) && k < |events|
  {
    && (match events[k]
        case EndE(id, _, _) => Named(states[k], id) == Some(s)
        case PassE(id, _) => Named(states[k], id) == Some(s)
        case _ => false)
    && !Runs(states[k + 1], s.profile)
  }

  /**
   * Over every run, under any clock: once a session has been ended, its profile stays down through
   * whatever is restored, reconciled, requested, ended and reaped, until something new asks for it.
   */
  lemma {:induction false} EndedSessionStaysEnded(states: seq<Store>, events: seq<Event>, k: nat, n: nat, s: Session)
    requires IsRun(states, events) && k < n <= |events|
    requires EndsAt(states, events, k, s) && Lasts(s)
    requires forall j {:trigger events[j]} :: k < j < n ==> BringsNothingNew(events[j], s)
    ensures !Runs(states[n], s.profile) && Remembers(states[n], s)
  {
    hide Step, Runs, BringsNothingNew, Remembers, Lasts;
    RunIsUnique(states, events, n - 1);
    if n == k + 1 {
      assert states[k + 1] == Step(states[k], events[k]);
      EndsAtRemembers(states[k], events[k], s);
    } else {
      EndedSessionStaysEnded(states, events, k, n - 1, s);
      assert states[n - 1 + 1] == Step(states[n - 1], events[n - 1]);
      StaysEndedOnce(states[n - 1], events[n - 1], s);
    }
  }

  lemma EndsAtRemembers(st: Store, e: Event, s: Session)
    requires Unique(st.running) && Lasts(s) && !Runs(Step(st, e), s.profile)
    requires match e
             case EndE(id, _, _) => Named(st, id) == Some(s)
             case PassE(id, _) => Named(st, id) == Some(s)
             case _ => false
    ensures Remembers(Step(st, e), s)
  {
    match e
    case EndE(id, at, satisfied) =>
      NamedIsLooked(st, id);
      EndFacts(st, id, at, satisfied);
      EndingIsRemembered(st, id, at, satisfied);
    case PassE(id, at) =>
      NamedIsLooked(st, id);
      PassIsEnd(st, id, at);
      EndFacts(st, id, at, s.lock.conditions);
      EndingIsRemembered(st, id, at, s.lock.conditions);
  }
}
