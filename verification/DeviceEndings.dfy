/** Whole runs of the object, continued: an occurrence the user ended stays ended through every later call. */
module DeviceEndings {
  import opened Basics
  import opened SessionStore
  import opened SessionFacts
  import S = SessionRuns
  import R = Reconciliation
  import E = SessionEndings
  import opened Schedules
  import opened Device
  import opened DeviceRuns

  /** The time a call brings with it, if what it does to sessions depends on one. */
  function Stamp(call: Call): Option<Timestamp> {
    match call
    case StartSession(s) => Some(s.startedAt)
    case EndSession(_, now, _) => Some(now)
    case ScanToken(_, _, now) => Some(now)
    case ReleasePeer(_, now) => Some(now)
    case SpendPass(_, now) => Some(now)
    case AskRelease(_, now) => Some(now)
    case ReconcileWith(now, _, _) => Some(now)
    case ReapAt(now) => Some(now)
    case _ => None
  }

  /** One clock stamps every call and never goes back, and no sessions are restored. */
  ghost predicate OnTheClock(calls: seq<Call>, clock: seq<Timestamp>) {
    && |clock| == |calls|
    && (forall j: nat, k: nat :: j < k < |clock| ==> clock[j] <= clock[k])
    && (forall k :: 0 <= k < |calls| ==> Stamp(calls[k]) in {None, Some(clock[k])} && !calls[k].RestoreSessions?)
  }

  /** The call as a step of the session store at `at`; one that touches no session reconciles with nothing. */
  ghost function EventAt(d: DeviceState, call: Call, at: Timestamp): S.Event {
    if SessionEvent(d, call).RestoreE? then S.ReconcileE(at, [], _ => "") else SessionEvent(d, call)
  }

  lemma OnlyRestoresRestore(d: DeviceState, call: Call)
    ensures SessionEvent(d, call).RestoreE? && !call.RestoreSessions? ==> SessionEvent(d, call) == STILL
  {
    hide Satisfied, ActiveAt;
  }

  lemma CallIsAnEvent(d: DeviceState, call: Call, at: Timestamp)
    requires !call.RestoreSessions?
    ensures AfterCall(d, call).store == S.Step(d.store, EventAt(d, call, at))
  {
    hide AfterCall, SessionEvent;
    OnlyRestoresRestore(d, call);
    CallIsASessionEvent(d, call);
    StillChangesNothing(d.store);
  }

  lemma EventIsStamped(d: DeviceState, call: Call, at: Timestamp)
    requires Stamp(call) in {None, Some(at)} && !call.RestoreSessions?
    ensures !EventAt(d, call, at).RestoreE? && R.TimeOf(EventAt(d, call, at)) == at
  {
    hide Satisfied, ActiveAt;
  }

  lemma EventListsWhatHasBegun(d: DeviceState, call: Call, at: Timestamp)
    ensures var e := EventAt(d, call, at);
            e.ReconcileE? ==> forall a :: a in e.acts ==> a.start <= e.at
  {
    hide Satisfied, ActiveAt;
    if call.ReconcileWith? {
      ActiveHaveBegun(PlanOf(d.config, call.events), call.now);
    }
  }

  ghost function EventsOn(states: seq<DeviceState>, calls: seq<Call>, clock: seq<Timestamp>): (r: seq<S.Event>)
    requires |states| == |calls| + 1 && |clock| == |calls|
    ensures |r| == |calls| && forall k :: 0 <= k < |calls| ==> r[k] == EventAt(states[k], calls[k], clock[k])
  {
    seq(|calls|, k requires 0 <= k < |calls| => EventAt(states[k], calls[k], clock[k]))
  }

  lemma ClockedRunIsSteady(states: seq<DeviceState>, calls: seq<Call>, clock: seq<Timestamp>)
    requires IsDeviceRun(states, calls) && OnTheClock(calls, clock)
    ensures S.IsRun(Stores(states), EventsOn(states, calls, clock)) && R.Steady(EventsOn(states, calls, clock))
    ensures forall k :: 0 <= k < |calls| ==> R.TimeOf(EventsOn(states, calls, clock)[k]) == clock[k]
  {
    hide AfterCall, EventAt, S.Step, R.TimeOf, Stamp;
    var events := EventsOn(states, calls, clock);
    forall k {:trigger events[k]} | 0 <= k < |events|
      ensures Stores(states)[k + 1] == S.Step(Stores(states)[k], events[k])
      ensures !events[k].RestoreE? && R.TimeOf(events[k]) == clock[k]
      ensures events[k].ReconcileE? ==> forall a :: a in events[k].acts ==> a.start <= events[k].at
    {
      assert states[k + 1] == AfterCall(states[k], calls[k]);
      CallIsAnEvent(states[k], calls[k], clock[k]);
      EventIsStamped(states[k], calls[k], clock[k]);
      EventListsWhatHasBegun(states[k], calls[k], clock[k]);
    }
  }

  /** What the schedules list to a call that reconciles. */
  function ListedTo(d: DeviceState, call: Call): seq<Activation>
    requires call.ReconcileWith?
  {
    ActiveAt(PlanOf(d.config, call.events), call.now)
  }

  /** `a` fed the session of its profile in call `i`, and call `k` ended that session by hand, in time. */
  ghost predicate EndedByCall(states: seq<DeviceState>, calls: seq<Call>, i: nat, k: nat, at: Timestamp, a: Activation)
    requires |states| == |calls| + 1
  {
    && i < k < |calls| && calls[i].ReconcileWith?
    && a in ListedTo(states[i], calls[i]) && !Skips(states[i].store, calls[i].now, a)
    && (forall j :: i < j <= k ==> Runs(states[j].store, a.profile))
    && (EndsOnEvidence(calls[k]) || calls[k].SpendPass?) && !Runs(states[k + 1].store, a.profile)
    && at < a.end
  }

  lemma EndingEvents(d: DeviceState, call: Call, at: Timestamp)
    ensures var e := EventAt(d, call, at);
            EndsOnEvidence(call) || call.SpendPass? ==> e.EndE? || e.PassE? || S.Step(d.store, e) == d.store
    ensures call.ReconcileWith? ==>
              var e := EventAt(d, call, at);
              e.ReconcileE? && e.at == call.now && e.acts == ListedTo(d, call)
  {
    hide Satisfied, ActiveAt;
  }

  lemma EndedIsByHand(states: seq<DeviceState>, calls: seq<Call>, clock: seq<Timestamp>, i: nat, k: nat, a: Activation)
    requires |states| == |calls| + 1 && |clock| == |calls| && IsDeviceRun(states, calls) && OnTheClock(calls, clock)
    requires k < |calls| && EndedByCall(states, calls, i, k, clock[k], a)
    requires S.IsRun(Stores(states), EventsOn(states, calls, clock))
    ensures R.EndedByHand(Stores(states), EventsOn(states, calls, clock), i, k, a)
  {
    hide AfterCall, S.Step, R.TimeOf, Stamp, Runs, Skips, ListedTo, R.Steady, S.IsRun, OnTheClock, EventAt;
    assert states[k + 1] == AfterCall(states[k], calls[k]);
    ClockedRunIsSteady(states, calls, clock);
    EndingEvents(states[i], calls[i], clock[i]);
    EndingEvents(states[k], calls[k], clock[k]);
    CallIsAnEvent(states[k], calls[k], clock[k]);
  }

  /**
   * Over every run of the object on a clock that never goes back, with no sessions restored: once a call
   * has ended the session that `a` fed, `a` is over or dismissed at every later call, and no later
   * reconcile runs its profile on its account.
   */
  lemma EndedOccurrenceStaysEnded(states: seq<DeviceState>, calls: seq<Call>, clock: seq<Timestamp>,
                                  i: nat, k: nat, n: nat, a: Activation)
    requires IsDeviceRun(states, calls) && OnTheClock(calls, clock)
    requires k < n < |calls| && EndedByCall(states, calls, i, k, clock[k], a)
    ensures clock[n] >= a.end || IsDismissed(states[n].store, a)
    ensures calls[n].ReconcileWith? ==>
              (Runs(states[n + 1].store, a.profile) <==>
                 || Runs(states[n].store, a.profile)
                 || exists b :: b in ListedTo(states[n], calls[n]) && b != a && b.profile == a.profile
                                && !Skips(states[n].store, calls[n].now, b))
  {
    assert |states| == |calls| + 1 && |clock| == |calls|;
    hide IsDeviceRun, OnTheClock, S.IsRun, Skips, ListedTo, IsDismissed, R.Steady, EventAt, R.EndedByHand, EndedByCall;
    ClockedRunIsSteady(states, calls, clock);
    EndedIsByHand(states, calls, clock, i, k, a);
    EndingEvents(states[n], calls[n], clock[n]);
    R.EndedOccurrenceStaysEnded(Stores(states), EventsOn(states, calls, clock), i, k, n, a);
  }

  // ----- Endings and restores -----

  /** The session a call asks to end. */
  function Ends(call: Call): Option<string> {
    match call
    case EndSession(id, _, _) => Some(id)
    case ScanToken(id, _, _) => Some(id)
    case ReleasePeer(id, _) => Some(id)
    case SpendPass(id, _) => Some(id)
    case _ => None
  }

  /** The call asks for nothing of the profile of `s` beyond the run that `s` was of. */
  ghost predicate AsksNothingNew(d: DeviceState, call: Call, s: Session) {
    match call
    case StartSession(t) => t.profile != s.profile
    case ReconcileWith(now, events, _) =>
      forall a :: a in ActiveAt(PlanOf(d.config, events), now) && a.profile == s.profile ==>
        a.start <= s.startedAt && s.lock.endsAt.Some? && s.lock.endsAt.value <= a.end
    case RestoreSessions(stored) => forall t :: t in stored.running && t.profile == s.profile ==> E.SameRunAs(t, s)
    case _ => true
  }

  lemma AskingIsAnEvent(d: DeviceState, call: Call, s: Session)
    requires AsksNothingNew(d, call, s)
    ensures E.BringsNothingNew(SessionEvent(d, call), s)
  {
    hide Satisfied, ActiveAt;
  }

  lemma EndingIsAnEvent(d: DeviceState, call: Call, s: Session)
    requires Unique(d.store.running) && Ends(call).Some? && Named(d.store, Ends(call).value) == Some(s)
    requires !Runs(AfterCall(d, call).store, s.profile)
    ensures match SessionEvent(d, call)
            case EndE(id, _, _) => Named(d.store, id) == Some(s)
            case PassE(id, _) => Named(d.store, id) == Some(s)
            case _ => false
  {
    hide AfterCall, Satisfied, S.Step;
    NamedIsLooked(d.store, Ends(call).value);
    CallIsASessionEvent(d, call);
    StillChangesNothing(d.store);
  }

  /**
   * Over every run of the object: once a call has ended a session, its profile stays down, whatever is
   * called in between and whatever copies of that session are restored, until something new asks for it.
   */
  lemma EndedSessionIsNotRestored(states: seq<DeviceState>, calls: seq<Call>, k: nat, n: nat, s: Session)
    requires IsDeviceRun(states, calls) && k < n <= |calls|
    requires Ends(calls[k]).Some? && Named(states[k].store, Ends(calls[k]).value) == Some(s)
    requires !Runs(states[k + 1].store, s.profile) && E.Lasts(s)
    requires forall j {:trigger calls[j]} :: k < j < n ==> AsksNothingNew(states[j], calls[j], s)
    ensures !Runs(states[n].store, s.profile)
  {
    DeviceRunIsASessionRun(states, calls);
    var stores, events := Stores(states), Events(states, calls);
    S.RunIsUnique(stores, events, k);
    assert states[k + 1] == AfterCall(states[k], calls[k]);
    hide AfterCall, SessionEvent, S.Step, Runs, Named, E.BringsNothingNew, AsksNothingNew, IsDeviceRun;
    EndingIsAnEvent(states[k], calls[k], s);
    forall j {:trigger events[j]} | k < j < n ensures E.BringsNothingNew(events[j], s) {
      var call := calls[j];
      AskingIsAnEvent(states[j], call, s);
    }
    E.EndedSessionStaysEnded(stores, events, k, n, s);
  }
}
