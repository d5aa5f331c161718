/**
 * The lock lattice: the conditions that guard a session, and the two joins over them.
 *
 * `Merge` combines two promises that are both trusted; `Harden` adopts untrusted stored state.
 * How strong a lock is, is always stated through `CanRelease`, never by comparing fields.
 */
module LockLattice {
  import opened Basics

  /** How long after a request the delayed release lands. */
  const DELAYED_RELEASE_SECONDS: int := 24 * 60 * 60

  datatype ChallengeKind = Typing | Math

  datatype Lock =
    | Timer
    | Confirm
    | DeviceCredential
    | Challenge(challenge: ChallengeKind)
    | PeerRelease(deviceId: string)
    | Token(id: string)
    | RestartRequired

  datatype LockSet = LockSet(
    conditions: set<Lock>,
    endsAt: Option<Timestamp>,
    delayedReleaseAt: Option<Timestamp>)
  {
    /** The unit of merging. */
    predicate IsEmpty() {
      conditions == {} && endsAt.None? && delayedReleaseAt.None?
    }

    /** Over on its own terms: the end time or a delayed release has been reached. */
    predicate IsExpired(now: Timestamp) {
      || (endsAt.Some? && now >= endsAt.value)
      || (delayedReleaseAt.Some? && now >= delayedReleaseAt.value)
    }

    /** Whether the evidence opens the lock at `now`. */
    predicate CanRelease(now: Timestamp, satisfied: set<Lock>) {
      IsExpired(now) || conditions <= satisfied
    }

    /** The join of two promises: every condition of both, the later end, the earlier release. */
    function Merge(other: LockSet): LockSet {
      if IsEmpty() then other
      else if other.IsEmpty() then this
      else LockSet(
             conditions + other.conditions,
             if endsAt.Some? && other.endsAt.Some? then Some(Max(endsAt.value, other.endsAt.value)) else None,
             MinOpt(delayedReleaseAt, other.delayedReleaseAt))
    }

    /** What adopting an untrusted copy of a running lock leaves: never weaker than `this`. */
    function Harden(other: LockSet): LockSet {
      LockSet(conditions + other.conditions,
              LaterKeepingBound(endsAt, other.endsAt),
              LaterKeepingBound(delayedReleaseAt, other.delayedReleaseAt))
    }

    /** Ask for the delayed release; an earlier one asked for stands. */
    function RequestRelease(now: Timestamp): LockSet {
      this.(delayedReleaseAt := MinOpt(delayedReleaseAt, Some(now + DELAYED_RELEASE_SECONDS)))
    }
  }

  const UNLOCKED: LockSet := LockSet({}, None, None)

  /** The later of two bounds, except that a bound already there is never dropped and none is added. */
  function LaterKeepingBound(running: Option<Timestamp>, incoming: Option<Timestamp>): Option<Timestamp> {
    if running.Some? && incoming.Some? then Some(Max(running.value, incoming.value)) else running
  }

  // ----- Merge is a join -----

  lemma MergeIsAJoin(a: LockSet, b: LockSet, c: LockSet)
    ensures a.Merge(b) == b.Merge(a)
    ensures a.Merge(b).Merge(c) == a.Merge(b.Merge(c))
    ensures a.Merge(a) == a
    ensures a.Merge(b).IsEmpty() <==> a.IsEmpty() && b.IsEmpty()
  {
    assert a.conditions + b.conditions == b.conditions + a.conditions;
    assert a.conditions + b.conditions + c.conditions == a.conditions + (b.conditions + c.conditions);
    assert a.conditions + a.conditions == a.conditions;
  }

  /** The empty lock is the unit, and the only one. */
  lemma MergeUnit(u: LockSet)
    ensures (forall a: LockSet :: a.Merge(u) == a) <==> u == UNLOCKED
  {
    if u != UNLOCKED {
      assert UNLOCKED.Merge(u) != UNLOCKED;
    }
  }

  /**
   * Exactly when merging keeps the promise of a lock that asks for something: the incoming lock
   * brings no delayed release, or one no earlier than a bound the running lock already had.
   */
  predicate KeepsPromise(running: LockSet, incoming: LockSet) {
    || running.conditions == {}
    || incoming.delayedReleaseAt.None?
    || (running.delayedReleaseAt.Some? && running.delayedReleaseAt.value <= incoming.delayedReleaseAt.value)
    || (running.endsAt.Some? && running.endsAt.value <= incoming.delayedReleaseAt.value)
  }

  lemma MergeNeverWeakensExactlyWhen(a: LockSet, b: LockSet)
    ensures (forall now, ev :: a.Merge(b).CanRelease(now, ev) ==> a.CanRelease(now, ev)) <==> KeepsPromise(a, b)
  {
    if !KeepsPromise(a, b) {
      var t := b.delayedReleaseAt.value;
      var at := if a.delayedReleaseAt.Some? then Min(t, a.delayedReleaseAt.value) else t;
      assert a.Merge(b).delayedReleaseAt == Some(at);
      assert a.Merge(b).CanRelease(t, {});
      assert !a.CanRelease(t, {});
    }
  }

  /** Between two locks with no delayed release, the merge opens only when both would. */
  lemma MergeHoldsBoth(a: LockSet, b: LockSet, now: Timestamp, ev: set<Lock>)
    requires a.delayedReleaseAt.None? && b.delayedReleaseAt.None?
    requires a.Merge(b).CanRelease(now, ev)
    ensures a.CanRelease(now, ev) && b.CanRelease(now, ev)
  {
    MergeNeverWeakensExactlyWhen(a, b);
    MergeNeverWeakensExactlyWhen(b, a);
    MergeIsAJoin(a, b, b);
  }

  /** While neither is over, the merge opens exactly when both would. */
  lemma MergeOfRunning(a: LockSet, b: LockSet, now: Timestamp, ev: set<Lock>)
    requires !a.IsExpired(now) && !b.IsExpired(now)
    ensures !a.Merge(b).IsExpired(now)
    ensures a.Merge(b).CanRelease(now, ev) <==> a.CanRelease(now, ev) && b.CanRelease(now, ev)
  {
  }

  // ----- Harden -----

  /**
   * Adopting stored state never opens a lock earlier, and never takes an exit away: a bound that
   * was there is still there, at the later of the two, and evidence for both locks opens it. What the
   * stored lock asks for is asked for.
   */
  lemma HardenNeverWeakensNorTraps(a: LockSet, b: LockSet)
    ensures forall now, ev :: a.Harden(b).CanRelease(now, ev) ==> a.CanRelease(now, ev)
    ensures forall now, ev :: a.conditions <= ev && b.conditions <= ev ==> a.Harden(b).CanRelease(now, ev)
    ensures forall now, ev :: a.Harden(b).CanRelease(now, ev) ==>
              a.Harden(b).IsExpired(now) || forall c :: c in b.conditions ==> c in ev
    ensures a.endsAt.Some? ==>
              a.Harden(b).endsAt ==
                if b.endsAt.Some? && a.endsAt.value < b.endsAt.value then b.endsAt else a.endsAt
    ensures a.Harden(b).endsAt.Some? <==> a.endsAt.Some?
    ensures a.Harden(b).delayedReleaseAt.Some? <==> a.delayedReleaseAt.Some?
  {
  }

  /**
   * `Harden` may push a promised release later, although the field's own description says it can
   * never be moved later. It does so exactly when the stored copy carries a later one.
   */
  lemma HardenPostponesExactlyWhen(a: LockSet, b: LockSet)
    requires a.delayedReleaseAt.Some?
    ensures a.Harden(b).delayedReleaseAt.value >= a.delayedReleaseAt.value
    ensures a.Harden(b).delayedReleaseAt != a.delayedReleaseAt
       <==> b.delayedReleaseAt.Some? && b.delayedReleaseAt.value > a.delayedReleaseAt.value
  {
  }

  // ----- The delayed release -----

  /** A requested release lands within a day, whatever was asked before or is asked again. */
  lemma RequestedReleaseLands(l: LockSet, first: Timestamp, again: Timestamp)
    ensures l.RequestRelease(first).IsExpired(first + DELAYED_RELEASE_SECONDS)
    ensures l.RequestRelease(first).RequestRelease(again).delayedReleaseAt.value
         <= l.RequestRelease(first).delayedReleaseAt.value
    ensures first <= again ==> l.RequestRelease(first).RequestRelease(again) == l.RequestRelease(first)
  {
  }

  // ----- How one lock comes to stand for another over a run -----

  /** Some release granted meanwhile has landed by `now`. */
  predicate Landed(grants: set<Timestamp>, now: Timestamp) {
    exists g :: g in grants && g <= now
  }

  /** `later` still holds everything `l` holds, up to a delayed release not before one granted. */
  predicate StillHolds(l: LockSet, later: LockSet, grants: set<Timestamp>) {
    l.conditions != {} ==>
      && l.conditions <= later.conditions
      && (later.endsAt.Some? ==> l.endsAt.Some? && l.endsAt.value <= later.endsAt.value)
      && (later.delayedReleaseAt.Some? ==>
            || (l.delayedReleaseAt.Some? && l.delayedReleaseAt.value <= later.delayedReleaseAt.value)
            || Landed(grants, later.delayedReleaseAt.value))
  }

  lemma StillHoldsChains(a: LockSet, b: LockSet, c: LockSet, g1: set<Timestamp>, g2: set<Timestamp>)
    requires StillHolds(a, b, g1) && StillHolds(b, c, g2)
    ensures StillHolds(a, c, g1 + g2)
  {
    if a.conditions != {} && c.delayedReleaseAt.Some? {
      var at := c.delayedReleaseAt.value;
      if Landed(g2, at) {
        var g :| g in g2 && g <= at;
        assert g in g1 + g2;
      } else if Landed(g1, b.delayedReleaseAt.value) {
        var g :| g in g1 && g <= b.delayedReleaseAt.value;
        assert g in g1 + g2 && g <= at;
      }
    }
  }

  /** If the later lock opens, the earlier one would have too, or a granted release had landed. */
  lemma StillHoldsMeans(l: LockSet, later: LockSet, grants: set<Timestamp>, now: Timestamp, ev: set<Lock>)
    requires StillHolds(l, later, grants)
    requires later.CanRelease(now, ev)
    ensures l.CanRelease(now, ev) || Landed(grants, now)
  {
  }

  // ----- The order behind Merge -----

  /** `a` asks for nothing that `b` does not. */
  predicate Below(a: LockSet, b: LockSet) {
    a.Merge(b) == b
  }

  lemma BelowIsAnOrder(a: LockSet, b: LockSet, c: LockSet)
    ensures Below(a, b) && Below(b, a) ==> a == b
    ensures Below(a, b) && Below(b, c) ==> Below(a, c)
    ensures Below(a, a.Merge(b)) && Below(b, a.Merge(b))
    ensures Below(a, c) && Below(b, c) ==> Below(a.Merge(b), c)
  {
    MergeIsAJoin(a, b, c);
    MergeIsAJoin(a, a, b);
    MergeIsAJoin(b, b, a);
    MergeIsAJoin(b, a, b);
  }
}
