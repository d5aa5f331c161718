/**
 * Reconcile as a join: what it leaves of a profile depends only on which occurrences are live and not
 * dismissed, and an occurrence the user ended stays ended.
 */
module Reconciliation {
  import opened Basics
  import opened LockLattice
  import opened SessionStore
  import opened SessionFacts
  import opened SessionRuns

  // ----- When reconcile starts something -----

  /** Not over, and the ending remembered of its profile, if there is one, was before it or after it. */
  predicate IsDue(st: Store, now: Timestamp, a: Activation) {
    && now < a.end
    && (a.profile in st.dismissed ==> st.dismissed[a.profile] < a.start || a.end <= st.dismissed[a.profile])
  }

  lemma SkippedExactlyWhen(st: Store, now: Timestamp, a: Activation)
    ensures Skips(st, now, a) <==> !IsDue(st, now, a)
  {
  }

  /** Some listed activation of `p` is due. */
  predicate Wanted(st: Store, now: Timestamp, acts: seq<Activation>, p: string) {
    exists a :: a in acts && a.profile == p && IsDue(st, now, a)
  }

  lemma NothingReconciled(st: Store, now: Timestamp, mint: nat -> string, p: string)
    ensures Reconcile(st, now, [], mint).0 == st && !Wanted(st, now, [], p)
  {
  }

  lemma StartTimeOfOne(st: Store, now: Timestamp, a: Activation, minted: string, p: string)
    requires Unique(st.running)
    ensures var st', fed := ReconcileOne(st, now, a, minted), a.profile == p && !Skips(st, now, a);
            && (Runs(st', p) <==> Runs(st, p) || fed)
            && (Runs(st', p) ==>
                  ForProfile(st', p).value.startedAt ==
                  if !Runs(st, p) then now
                  else if fed then Min(ForProfile(st, p).value.startedAt, now)
                  else ForProfile(st, p).value.startedAt)
  {
    hide ReconcileOne, Skips;
    ReconcileOneFacts(st, now, a, minted);
  }

  lemma WantedSplits(st: Store, before: Store, now: Timestamp, acts: seq<Activation>, p: string)
    requires acts != [] && before.dismissed == st.dismissed
    ensures var n := |acts| - 1;
            Wanted(st, now, acts, p) <==>
                Wanted(st, now, acts[..n], p) || (acts[n].profile == p && !Skips(before, now, acts[n]))
  {
    SkippedExactlyWhen(before, now, acts[|acts| - 1]);
    assert acts == acts[..|acts| - 1] + [acts[|acts| - 1]];
  }

  /** After reconcile `p` runs exactly when it ran before or a due occurrence of it is listed. */
  lemma {:induction false} ReconcileRunsExactlyWhen(st: Store, now: Timestamp, acts: seq<Activation>,
                                                    mint: nat -> string, p: string)
    requires Unique(st.running)
    ensures Runs(Reconcile(st, now, acts, mint).0, p) <==> Runs(st, p) || Wanted(st, now, acts, p)
  {
    hide Reconcile, ReconcileOne, Wanted, Runs;
    if acts == [] {
      NothingReconciled(st, now, mint, p);
    } else {
      var n := |acts| - 1;
      ReconcileRunsExactlyWhen(st, now, acts[..n], mint, p);
      ReconcileKeeps(st, now, acts[..n], mint, p);
      var minted := ReconcileLast(st, now, acts, mint);
      StartTimeOfOne(Reconcile(st, now, acts[..n], mint).0, now, acts[n], minted, p);
      WantedSplits(st, Reconcile(st, now, acts[..n], mint).0, now, acts, p);
    }
  }

  /** What a session is known by: its id, and the schedule that first asked for it. */
  function KnownBy(st: Store, p: string): (string, SessionSource)
    requires Runs(st, p)
  {
    (ForProfile(st, p).value.id, ForProfile(st, p).value.source)
  }

  lemma ReconcileSteps(st: Store, now: Timestamp, acts: seq<Activation>, mint: nat -> string)
    requires acts != [] && Unique(st.running)
    ensures var n := |acts| - 1;
            var (before, started) := Reconcile(st, now, acts[..n], mint);
            var a, begins := acts[n], !Skips(before, now, acts[n]) && !Runs(before, acts[n].profile);
            var (after, ids) := Reconcile(st, now, acts, mint);
            && ids == (if begins then started + [mint(|started|)] else started)
            && (forall q :: Runs(after, q) <==> Runs(before, q) || (begins && q == a.profile))
            && (forall q :: Runs(before, q) ==> KnownBy(after, q) == KnownBy(before, q))
            && (begins ==> KnownBy(after, a.profile) == (mint(|started|), SourceOf(a.source)))
  {
    var n := |acts| - 1;
    ReconcileKeeps(st, now, acts[..n], mint, "");
    var (before, started) := Reconcile(st, now, acts[..n], mint);
    ReconcileOneFacts(before, now, acts[n], "");
    ReconcileOneFacts(before, now, acts[n], mint(|started|));
  }

  /**
   * The ids reported are exactly those of the profiles that now run and did not before; the others keep id and
   * source.
   */
  lemma {:induction false} ReconcileReportsStarts(st: Store, now: Timestamp, acts: seq<Activation>,
                                                  mint: nat -> string, id: string)
    requires Unique(st.running)
    ensures var (after, started) := Reconcile(st, now, acts, mint);
            id in started <==> exists p :: Runs(after, p) && !Runs(st, p) && KnownBy(after, p).0 == id
    ensures var (after, started) := Reconcile(st, now, acts, mint);
            forall p :: Runs(st, p) ==> Runs(after, p) && KnownBy(after, p) == KnownBy(st, p)
  {
    if acts == [] {
    } else {
      hide Reconcile, Runs, KnownBy, Skips;
      ReconcileReportsStarts(st, now, acts[..|acts| - 1], mint, id);
      ReconcileSteps(st, now, acts, mint);
    }
  }

  // ----- The lock reconcile leaves -----

  /** What one activation adds to the lock of `p`; the empty lock when it adds nothing. */
  function Contribution(st: Store, now: Timestamp, a: Activation, p: string): LockSet {
    if a.profile == p && !Skips(st, now, a) then a.LockOf() else UNLOCKED
  }

  /** The lock of `p`, the empty one while it is not running. */
  function Held(st: Store, p: string): LockSet {
    if Runs(st, p) then LockFor(st, p) else UNLOCKED
  }

  function Joined(st: Store, now: Timestamp, acts: seq<Activation>, p: string): LockSet {
    if acts == [] then Held(st, p)
    else Joined(st, now, acts[..|acts| - 1], p).Merge(Contribution(st, now, acts[|acts| - 1], p))
  }

  lemma ReconcileOneJoins(st: Store, now: Timestamp, a: Activation, minted: string, p: string)
    requires Unique(st.running)
    ensures Held(ReconcileOne(st, now, a, minted), p) == Held(st, p).Merge(Contribution(st, now, a, p))
  {
    ReconcileOneFacts(st, now, a, minted);
    MergeUnit(UNLOCKED);
  }

  /** The lock of `p` after reconcile is the join of its own and every live occurrence's. */
  lemma {:induction false} ReconcileJoins(st: Store, now: Timestamp, acts: seq<Activation>, mint: nat -> string,
                                          p: string)
    requires Unique(st.running)
    ensures Held(Reconcile(st, now, acts, mint).0, p) == Joined(st, now, acts, p)
  {
    if acts == [] {
    } else {
      var n := |acts| - 1;
      ReconcileJoins(st, now, acts[..n], mint, p);
      ReconcileKeeps(st, now, acts[..n], mint, p);
      var before := Reconcile(st, now, acts[..n], mint).0;
      var minted := ReconcileLast(st, now, acts, mint);
      ReconcileOneJoins(before, now, acts[n], minted, p);
      assert Contribution(before, now, acts[n], p) == Contribution(st, now, acts[n], p);
    }
  }

  /** `Joined` is the least lock above the running one and every contribution. */
  lemma {:induction false} JoinedIsLeast(st: Store, now: Timestamp, acts: seq<Activation>, p: string, bound: LockSet)
    ensures Below(Joined(st, now, [], p), Joined(st, now, acts, p))
    ensures forall a :: a in acts ==> Below(Contribution(st, now, a, p), Joined(st, now, acts, p))
    ensures Below(Joined(st, now, [], p), bound)
            && (forall a :: a in acts ==> Below(Contribution(st, now, a, p), bound))
            ==> Below(Joined(st, now, acts, p), bound)
  {
    var own := Joined(st, now, [], p);
    if acts == [] {
      MergeIsAJoin(own, own, own);
    } else {
      var n := |acts| - 1;
      var before, last := Joined(st, now, acts[..n], p), Contribution(st, now, acts[n], p);
      JoinedIsLeast(st, now, acts[..n], p, bound);
      BelowIsAnOrder(before, last, bound);
      BelowIsAnOrder(own, before, before.Merge(last));
      forall a | a in acts ensures Below(Contribution(st, now, a, p), before.Merge(last)) {
        if a in acts[..n] {
          BelowIsAnOrder(Contribution(st, now, a, p), before, before.Merge(last));
        } else {
          assert a == acts[n];
        }
      }
    }
  }

  lemma SameOccurrencesSameJoin(st: Store, now: Timestamp, xs: seq<Activation>, ys: seq<Activation>, p: string)
    requires forall a :: a in xs <==> a in ys
    ensures Joined(st, now, xs, p) == Joined(st, now, ys, p)
  {
    var jx, jy := Joined(st, now, xs, p), Joined(st, now, ys, p);
    JoinedIsLeast(st, now, xs, p, jy);
    JoinedIsLeast(st, now, ys, p, jx);
    BelowIsAnOrder(jx, jy, jx);
  }

  /** What a run can tell of a session, leaving out the minted id and the source of the first activation. */
  function Standing(st: Store, p: string): Option<(LockSet, Timestamp)> {
    if Runs(st, p) then Some((LockFor(st, p), ForProfile(st, p).value.startedAt)) else None
  }

  lemma {:induction false} ReconcileStartTime(st: Store, now: Timestamp, acts: seq<Activation>, mint: nat -> string,
                                              p: string)
    requires Unique(st.running)
    ensures var st' := Reconcile(st, now, acts, mint).0;
            Runs(st', p) ==>
              ForProfile(st', p).value.startedAt ==
              if !Runs(st, p) then now
              else if Wanted(st, now, acts, p) then Min(ForProfile(st, p).value.startedAt, now)
              else ForProfile(st, p).value.startedAt
  {
    hide Reconcile, ReconcileOne, Wanted, Runs;
    if acts == [] {
      NothingReconciled(st, now, mint, p);
    } else {
      var n := |acts| - 1;
      ReconcileStartTime(st, now, acts[..n], mint, p);
      ReconcileKeeps(st, now, acts[..n], mint, p);
      ReconcileRunsExactlyWhen(st, now, acts[..n], mint, p);
      var minted := ReconcileLast(st, now, acts, mint);
      StartTimeOfOne(Reconcile(st, now, acts[..n], mint).0, now, acts[n], minted, p);
      WantedSplits(st, Reconcile(st, now, acts[..n], mint).0, now, acts, p);
    }
  }

  /**
   * Reconcile does not care in which order, or how often, activations are listed: every profile ends
   * with the same lock and start. (`ReconcileReportsStarts`: a session that was running keeps its id and source.)
   */
  lemma ReconcileIgnoresOrder(st: Store, now: Timestamp, xs: seq<Activation>, ys: seq<Activation>,
                              m1: nat -> string, m2: nat -> string, p: string)
    requires Unique(st.running)
    requires forall a :: a in xs <==> a in ys
    ensures Standing(Reconcile(st, now, xs, m1).0, p) == Standing(Reconcile(st, now, ys, m2).0, p)
    ensures Reconcile(st, now, xs, m1).0.dismissed == Reconcile(st, now, ys, m2).0.dismissed
  {
    ReconcileRunsExactlyWhen(st, now, xs, m1, p);
    ReconcileRunsExactlyWhen(st, now, ys, m2, p);
    ReconcileJoins(st, now, xs, m1, p);
    ReconcileJoins(st, now, ys, m2, p);
    SameOccurrencesSameJoin(st, now, xs, ys, p);
    ReconcileStartTime(st, now, xs, m1, p);
    ReconcileStartTime(st, now, ys, m2, p);
    ReconcileKeeps(st, now, xs, m1, p);
    ReconcileKeeps(st, now, ys, m2, p);
  }

  /** A reconcile that finds everything already in place changes nothing and mints nothing. */
  predicate InPlace(st: Store, now: Timestamp, a: Activation) {
    Skips(st, now, a) ||
    (Runs(st, a.profile) && Below(a.LockOf(), LockFor(st, a.profile))
     && ForProfile(st, a.profile).value.startedAt <= now)
  }

  lemma {:induction false} InPlaceIsANoOp(st: Store, now: Timestamp, acts: seq<Activation>, mint: nat -> string)
    requires Unique(st.running)
    requires forall a :: a in acts ==> InPlace(st, now, a)
    ensures Reconcile(st, now, acts, mint) == (st, [])
  {
    if acts == [] {
    } else {
      var n := |acts| - 1;
      var a := acts[n];
      InPlaceIsANoOp(st, now, acts[..n], mint);
      assert InPlace(st, now, a);
      if !Skips(st, now, a) {
        MergeIsAJoin(LockFor(st, a.profile), a.LockOf(), UNLOCKED);
        var i := ProfileIndex(st.running, a.profile);
        assert st.running[i := st.running[i]] == st.running;
      }
    }
  }

  /** Reconcile is idempotent: doing it again at the same instant changes nothing at all. */
  lemma ReconcileIsIdempotent(st: Store, now: Timestamp, acts: seq<Activation>, m1: nat -> string, m2: nat -> string)
    requires Unique(st.running)
    ensures var st' := Reconcile(st, now, acts, m1).0; Reconcile(st', now, acts, m2) == (st', [])
  {
    var st' := Reconcile(st, now, acts, m1).0;
    ReconcileKeeps(st, now, acts, m1, "");
    forall a | a in acts ensures InPlace(st', now, a) {
      var p := a.profile;
      if !Skips(st', now, a) {
        assert Wanted(st, now, acts, p);
        ReconcileRunsExactlyWhen(st, now, acts, m1, p);
        ReconcileJoins(st, now, acts, m1, p);
        JoinedIsLeast(st, now, acts, p, UNLOCKED);
        ReconcileStartTime(st, now, acts, m1, p);
        assert Contribution(st, now, a, p) == a.LockOf();
      }
    }
    InPlaceIsANoOp(st', now, acts, m2);
  }

  // ----- The lock the user is held by -----

  /** The joined lock opens at `now` exactly when every session still running would. */
  lemma {:induction false} MergedLockOpensExactlyWhen(xs: seq<Session>, now: Timestamp, ev: set<Lock>)
    ensures !MergedLock(xs, now).IsExpired(now)
    ensures MergedLock(xs, now).CanRelease(now, ev)
       <==> forall s :: s in xs && !s.IsOver(now) ==> s.lock.CanRelease(now, ev)
  {
    if xs == [] {
    } else {
      var n := |xs| - 1;
      MergedLockOpensExactlyWhen(xs[..n], now, ev);
      assert xs == xs[..n] + [xs[n]];
      if !xs[n].IsOver(now) {
        MergeOfRunning(MergedLock(xs[..n], now), xs[n].lock, now, ev);
      }
    }
  }

  // ----- An occurrence the user ended stays ended -----

  function TimeOf(e: Event): Timestamp {
    match e
    case StartE(s) => s.startedAt
    case RestoreE(_) => 0
    case ReconcileE(at, _, _) => at
    case RequestE(_, at) => at
    case EndE(_, at, _) => at
    case PassE(_, at) => at
    case ReapE(at) => at
  }

  /** The clock never runs backwards, starts are stamped with it, schedules list what is live, no restore. */
  ghost predicate Steady(events: seq<Event>) {
    && (forall j :: 0 <= j < |events| ==> !events[j].RestoreE?)
    && (forall j, k :: 0 <= j < k < |events| ==> TimeOf(events[j]) <= TimeOf(events[k]))
    && (forall j :: 0 <= j < |events| && events[j].ReconcileE? ==>
          forall a :: a in events[j].acts ==> a.start <= events[j].at)
  }

  /** The lock cannot run out before `end`. */
  predicate Outlasts(l: LockSet, end: Timestamp) {
    if l.endsAt.Some? then l.endsAt.value >= end else !l.IsEmpty()
  }

  lemma StepOutlasts(st: Store, e: Event, p: string, end: Timestamp)
    requires Unique(st.running) && !e.RestoreE?
    requires Runs(st, p) && Runs(Step(st, e), p) && Outlasts(LockFor(st, p), end)
    ensures Outlasts(LockFor(Step(st, e), p), end)
  {
    match e
    case StartE(s) => StartFacts(st, s);
    case ReconcileE(at, acts, mint) =>
      ReconcileJoins(st, at, acts, mint, p);
      JoinedIsLeast(st, at, acts, p, UNLOCKED);
    case RequestE(id, at) =>
      RequestFacts(st, id, at);
      if Named(st, id).Some? {
        NamedIsLooked(st, id);
      }
    case EndE(id, at, satisfied) => EndFacts(st, id, at, satisfied);
    case PassE(id, at) =>
      PassIsEnd(st, id, at);
      if Named(st, id).Some? {
        EndFacts(st, id, at, Named(st, id).value.lock.conditions);
      }
    case ReapE(at) => ReapFacts(st, at);
  }

  /** Sessions never claim to have started after the last event. */
  lemma {:induction false} StartsAreStamped(states: seq<Store>, events: seq<Event>, k: nat, p: string)
    requires IsRun(states, events) && Steady(events) && 0 < k <= |events|
    requires states[0] == EMPTY
    ensures Runs(states[k], p) ==> ForProfile(states[k], p).value.startedAt <= TimeOf(events[k - 1])
    decreases k
  {
    var st, e := states[k - 1], events[k - 1];
    assert states[k - 1 + 1] == Step(st, e);
    RunIsUnique(states, events, k - 1);
    if k > 1 {
      StartsAreStamped(states, events, k - 1, p);
      assert TimeOf(events[k - 2]) <= TimeOf(e);
    }
    StartTimes(st, e, p, if k > 1 then TimeOf(events[k - 2]) else TimeOf(e));
  }

  /** A step keeps the start of a running session unless it merges an earlier one; a new one is stamped. */
  lemma StartTimes(st: Store, e: Event, p: string, last: Timestamp)
    requires Unique(st.running) && !e.RestoreE? && last <= TimeOf(e)
    requires Runs(st, p) ==> ForProfile(st, p).value.startedAt <= last
    ensures Runs(Step(st, e), p) ==>
              ForProfile(Step(st, e), p).value.startedAt
                == if Runs(st, p) then ForProfile(st, p).value.startedAt else TimeOf(e)
  {
    hide StillHolds, Reconcile, Start, End, EndWithPass, Reap;
    match e
    case StartE(s) => StartFacts(st, s);
    case ReconcileE(at, acts, mint) => ReconcileKeeps(st, at, acts, mint, p);
    case RequestE(id, at) =>
      RequestFacts(st, id, at);
      if Named(st, id).Some? {
        NamedIsLooked(st, id);
      }
    case EndE(id, at, satisfied) => EndFacts(st, id, at, satisfied);
    case PassE(id, at) =>
      PassIsEnd(st, id, at);
      if Named(st, id).Some? {
        EndFacts(st, id, at, Named(st, id).value.lock.conditions);
      }
    case ReapE(at) => ReapFacts(st, at);
  }

  /** What a step does to the remembered ending of `p`. */
  lemma DismissalSteps(st: Store, e: Event, p: string)
    requires Unique(st.running) && !e.RestoreE?
    ensures p in st.dismissed ==> p in Step(st, e).dismissed
    ensures p in Step(st, e).dismissed && (p !in st.dismissed || Step(st, e).dismissed[p] != st.dismissed[p]) ==>
              && (e.EndE? || e.PassE?) && Runs(st, p) && !Runs(Step(st, e), p)
              && Step(st, e).dismissed[p] == ClampedInto(ForProfile(st, p).value, TimeOf(e))
    ensures Runs(st, p) && !Runs(Step(st, e), p) && (e.EndE? || e.PassE?) ==>
              && p in Step(st, e).dismissed
              && Step(st, e).dismissed[p] == ClampedInto(ForProfile(st, p).value, TimeOf(e))
  {
    match e
    case StartE(s) => StartFacts(st, s);
    case ReconcileE(at, acts, mint) => ReconcileKeeps(st, at, acts, mint, p);
    case RequestE(id, at) => RequestFacts(st, id, at);
    case EndE(id, at, satisfied) =>
      EndFacts(st, id, at, satisfied);
      if Named(st, id).Some? {
        NamedIsLooked(st, id);
      }
    case PassE(id, at) =>
      PassIsEnd(st, id, at);
      if Named(st, id).Some? {
        NamedIsLooked(st, id);
        EndFacts(st, id, at, Named(st, id).value.lock.conditions);
      }
    case ReapE(at) =>
  }

  /** While the session `a` fed is running, it cannot run out before `a` does. */
  lemma {:induction false} FedSessionOutlasts(states: seq<Store>, events: seq<Event>, i: nat, k: nat, a: Activation)
    requires IsRun(states, events) && Steady(events) && i < k <= |events|
    requires events[i].ReconcileE? && a in events[i].acts && !Skips(states[i], events[i].at, a)
    requires forall j :: i < j <= k ==> Runs(states[j], a.profile)
    ensures Outlasts(LockFor(states[k], a.profile), a.end)
    decreases k
  {
    hide Step, Skips, Outlasts;
    var st, e := states[k - 1], events[k - 1];
    assert states[k - 1 + 1] == Step(st, e);
    RunIsUnique(states, events, k - 1);
    if k == i + 1 {
      FeedingOutlasts(st, e, a);
    } else {
      FedSessionOutlasts(states, events, i, k - 1, a);
      StepOutlasts(st, e, a.profile, a.end);
    }
  }

  lemma FeedingOutlasts(st: Store, e: Event, a: Activation)
    requires Unique(st.running) && e.ReconcileE? && a in e.acts && !Skips(st, e.at, a)
    requires Runs(Step(st, e), a.profile)
    ensures Outlasts(LockFor(Step(st, e), a.profile), a.end)
  {
    hide Reconcile, Skips, Joined;
    ReconcileJoins(st, e.at, e.acts, e.mint, a.profile);
    JoinedIsLeast(st, e.at, e.acts, a.profile, UNLOCKED);
    assert Contribution(st, e.at, a, a.profile) == a.LockOf();
  }

  /** The remembered ending falls at or after `a` began and not after the last event. */
  predicate EndRemembered(st: Store, a: Activation, last: Timestamp) {
    && a.profile in st.dismissed
    && a.start <= st.dismissed[a.profile] <= last
    && (Runs(st, a.profile) ==> a.start <= ForProfile(st, a.profile).value.startedAt <= last)
  }

  lemma StepRemembers(st: Store, e: Event, a: Activation, last: Timestamp)
    requires Unique(st.running) && !e.RestoreE? && last <= TimeOf(e)
    requires EndRemembered(st, a, last)
    ensures EndRemembered(Step(st, e), a, TimeOf(e))
  {
    DismissalSteps(st, e, a.profile);
    StartTimes(st, e, a.profile, last);
  }

  /** `a` fed the session of its profile at step `i`, and the user ended that session at step `k`, in time. */
  ghost predicate EndedByHand(states: seq<Store>, events: seq<Event>, i: nat, k: nat, a: Activation)
    requires IsRun(states, events)
  {
    && i < k < |events|
    && events[i].ReconcileE? && a in events[i].acts && !Skips(states[i], events[i].at, a)
    && (forall j :: i < j <= k ==> Runs(states[j], a.profile))
    && (events[k].EndE? || events[k].PassE?) && !Runs(states[k + 1], a.profile)
    && TimeOf(events[k]) < a.end
  }

  const SHIFT: Activation := Activation("p", WeeklySource("w"), 0, 100, [])
  const AT_WORK: Session := Session("x", "p", FromWeekly("w"), 10, LockSet({}, Some(100), None))

  lemma ShiftStarts(mint: nat -> string)
    requires mint(0) == "x"
    ensures Reconcile(EMPTY, 10, [SHIFT], mint).0 == Store([AT_WORK], map[])
  {
    assert [SHIFT][..0] == [];
    assert Reconcile(EMPTY, 10, [], mint) == (EMPTY, []);
    assert SHIFT.LockOf() == AT_WORK.lock;
    assert [] + [AT_WORK] == [AT_WORK] && [AT_WORK][..0] == [];
    assert SortById([AT_WORK]) == [AT_WORK];
  }

  lemma ShiftEnds()
    ensures End(Store([AT_WORK], map[]), "x", 20, {}).0 == Store([], map["p" := 20])
  {
    assert IdIndex([AT_WORK], "x") == 0;
    assert AT_WORK.lock.CanRelease(20, {});
    assert ClampedInto(AT_WORK, 20) == 20;
    assert Without([AT_WORK], 0) == [];
  }

  lemma SteadyShift(events: seq<Event>, mint: nat -> string)
    requires events == [ReconcileE(10, [SHIFT], mint), EndE("x", 20, {}), ReconcileE(30, [SHIFT], mint)]
    ensures Steady(events)
  {
  }

  lemma StepIs(st: Store, mint: nat -> string)
    ensures Step(st, ReconcileE(10, [SHIFT], mint)) == Reconcile(st, 10, [SHIFT], mint).0
    ensures Step(st, EndE("x", 20, {})) == End(st, "x", 20, {}).0
  {
  }

  /** Such endings happen: a window starts its session, the user ends it, and the schedules are read again. */
  lemma EndingsByHandHappen() returns (states: seq<Store>, events: seq<Event>)
    ensures IsRun(states, events) && Steady(events) && states[0] == EMPTY && |events| == 3
    ensures EndedByHand(states, events, 0, 1, SHIFT) && events[2].ReconcileE? && SHIFT in events[2].acts
  {
    var mint: nat -> string := n => "x";
    ShiftStarts(mint);
    ShiftEnds();
    assert !Skips(EMPTY, 10, SHIFT) && SHIFT in [SHIFT] && SHIFT.end == 100 && SHIFT.profile == "p";
    var busy, free := Store([AT_WORK], map[]), Store([], map["p" := 20]);
    assert Runs(busy, "p") && !Runs(free, "p") && Unique(EMPTY.running);
    StepIs(EMPTY, mint);
    StepIs(busy, mint);
    hide Step, Reconcile, End, Skips, Runs, Unique, IsRun, Steady;
    events := [ReconcileE(10, [SHIFT], mint), EndE("x", 20, {}), ReconcileE(30, [SHIFT], mint)];
    states := [EMPTY, busy, free, Step(free, events[2])];
    ThreeSteps(states, events);
    SteadyShift(events, mint);
  }

  lemma EndingIsRecorded(states: seq<Store>, events: seq<Event>, i: nat, k: nat, a: Activation)
    requires IsRun(states, events) && Steady(events) && states[0] == EMPTY
    requires EndedByHand(states, events, i, k, a)
    ensures EndRemembered(states[k + 1], a, TimeOf(events[k]))
  {
    var p, s, at := a.profile, ForProfile(states[k], a.profile).value, TimeOf(events[k]);
    FedSessionOutlasts(states, events, i, k, a);
    StartsAreStamped(states, events, k, p);
    RunIsUnique(states, events, k);
    assert states[k + 1] == Step(states[k], events[k]);
    DismissalSteps(states[k], events[k], p);
    assert TimeOf(events[i]) <= at && TimeOf(events[k - 1]) <= at;
    assert ClampedInto(s, at) == at;
  }

  lemma {:induction false} EndingIsRemembered(states: seq<Store>, events: seq<Event>, i: nat, k: nat, n: nat,
                                              a: Activation)
    requires IsRun(states, events) && Steady(events) && states[0] == EMPTY
    requires EndedByHand(states, events, i, k, a) && k < n <= |events|
    ensures EndRemembered(states[n], a, TimeOf(events[n - 1]))
    decreases n
  {
    hide Step, EndRemembered;
    if n == k + 1 {
      EndingIsRecorded(states, events, i, k, a);
    } else {
      EndingIsRemembered(states, events, i, k, n - 1, a);
      RunIsUnique(states, events, n - 1);
      assert states[n - 1 + 1] == Step(states[n - 1], events[n - 1]);
      var last, e := TimeOf(events[n - 2]), events[n - 1];
      assert last <= TimeOf(e);
      StepRemembers(states[n - 1], e, a, last);
    }
  }

  /**
   * Once the user has ended the session `a` fed, every later reconcile skips `a`: it is over or
   * dismissed, so the profile runs afterwards only if it ran before or another occurrence is live.
   */
  lemma EndedOccurrenceStaysEnded(states: seq<Store>, events: seq<Event>, i: nat, k: nat, n: nat, a: Activation)
    requires IsRun(states, events) && Steady(events) && states[0] == EMPTY
    requires EndedByHand(states, events, i, k, a) && k < n < |events|
    ensures TimeOf(events[n]) >= a.end || IsDismissed(states[n], a)
    ensures events[n].ReconcileE? ==>
              (Runs(states[n + 1], a.profile) <==>
                 || Runs(states[n], a.profile)
                 || exists b :: b in events[n].acts && b != a && b.profile == a.profile
                                && !Skips(states[n], events[n].at, b))
  {
    EndingIsRemembered(states, events, i, k, n, a);
    assert TimeOf(events[n - 1]) <= TimeOf(events[n]);
    if events[n].ReconcileE? {
      RunIsUnique(states, events, n);
      ReconcileRunsExactlyWhen(states[n], events[n].at, events[n].acts, events[n].mint, a.profile);
    }
  }

  /** An occurrence that begins after the remembered ending is a new one, and starts. */
  lemma LaterOccurrenceStarts(st: Store, now: Timestamp, acts: seq<Activation>, mint: nat -> string, b: Activation)
    requires Unique(st.running) && b in acts && b.end > now
    requires b.profile in st.dismissed ==> st.dismissed[b.profile] < b.start
    ensures Runs(Reconcile(st, now, acts, mint).0, b.profile)
    ensures Below(b.LockOf(), LockFor(Reconcile(st, now, acts, mint).0, b.profile))
  {
    assert Wanted(st, now, acts, b.profile);
    ReconcileRunsExactlyWhen(st, now, acts, mint, b.profile);
    ReconcileJoins(st, now, acts, mint, b.profile);
    JoinedIsLeast(st, now, acts, b.profile, UNLOCKED);
    assert Contribution(st, now, b, b.profile) == b.LockOf();
  }

  /** The lock a due occurrence runs under asks for everything the occurrence does, and not for less long. */
  lemma DueLocksHold(st: Store, now: Timestamp, acts: seq<Activation>, mint: nat -> string, a: Activation)
    requires Unique(st.running) && a in acts && IsDue(st, now, a)
    ensures Runs(Reconcile(st, now, acts, mint).0, a.profile)
    ensures var l := LockFor(Reconcile(st, now, acts, mint).0, a.profile);
            && (forall i :: 0 <= i < |a.locks| ==> a.locks[i] in l.conditions)
            && (l.endsAt.Some? ==> a.end <= l.endsAt.value)
  {
    hide Reconcile, Joined;
    ReconcileRunsExactlyWhen(st, now, acts, mint, a.profile);
    ReconcileJoins(st, now, acts, mint, a.profile);
    JoinedIsLeast(st, now, acts, a.profile, UNLOCKED);
    assert Contribution(st, now, a, a.profile) == a.LockOf();
    var l := LockFor(Reconcile(st, now, acts, mint).0, a.profile);
    assert Below(a.LockOf(), l);
  }
}
