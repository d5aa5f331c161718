/** Evidence that was checked, and how long it stands. */
module ProofRecord {
  import opened Basics
  import opened LockLattice

  /** Proofs older than this many seconds are stale. */
  const PROOF_SECONDS: int := 120

  type Held = map<string, map<Lock, Timestamp>>

  predicate StandsAt(at: Timestamp, now: Timestamp) {
    now >= at && now - at < PROOF_SECONDS
  }

  function RecordProof(held: Held, session: string, lock: Lock, now: Timestamp): Held {
    held[session := (if session in held then held[session] else map[])[lock := now]]
  }

  function Fresh(held: Held, session: string, now: Timestamp): set<Lock> {
    if session in held then set l | l in held[session] && StandsAt(held[session][l], now) else {}
  }

  function StandingProofs(proofs: map<Lock, Timestamp>, now: Timestamp): map<Lock, Timestamp> {
    map l | l in proofs && StandsAt(proofs[l], now) :: proofs[l]
  }

  function PruneProofs(held: Held, now: Timestamp, live: set<string>): Held {
    map s | s in held && s in live && StandingProofs(held[s], now) != map[] :: StandingProofs(held[s], now)
  }

  class Proofs {
    var held: Held

    constructor ()
      ensures held == map[]
    {
      held := map[];
    }

    method Record(session: string, lock: Lock, now: Timestamp)
      modifies this
      ensures held == RecordProof(old(held), session, lock, now)
    {
      if session !in held {
        held := held[session := map[]];
      }
      held := held[session := held[session][lock := now]];
    }

    /** Visit every session held: drop its stale proofs, and the session with them when none is left or it has ended. */
    method Prune(now: Timestamp, running: seq<string>)
      modifies this
      ensures held == PruneProofs(old(held), now, set s | s in running)
    {
      var live := set s | s in running;
      var visit, kept := held.Keys, map[];
      while visit != {}
        invariant held == old(held) && visit <= held.Keys
        invariant kept.Keys <= held.Keys - visit
        invariant forall s :: s in held.Keys - visit ==>
                    (s in kept <==> s in live && StandingProofs(held[s], now) != map[])
        invariant forall s :: s in kept ==> kept[s] == StandingProofs(held[s], now)
        decreases |visit|
      {
        var s :| s in visit;
        var proofs := StandingProofs(held[s], now);
        if s in live && proofs != map[] {
          kept := kept[s := proofs];
        }
        visit := visit - {s};
      }
      held := kept;
      assert held == PruneProofs(old(held), now, live);
    }

    method Forget(session: string)
      modifies this
      ensures held == old(held) - {session}
    {
      held := held - {session};
    }
  }

  // ----- What a history of checks proves -----

  datatype Event =
    | Checked(session: string, lock: Lock, at: Timestamp)
    | Pruned(at: Timestamp, live: set<string>)
    | Forgotten(session: string)

  function Step(held: Held, e: Event): Held {
    match e
    case Checked(s, l, at) => RecordProof(held, s, l, at)
    case Pruned(at, live) => PruneProofs(held, at, live)
    case Forgotten(s) => held - {s}
  }

  function After(h: seq<Event>): Held {
    if h == [] then map[] else Step(After(h[..|h| - 1]), h[|h| - 1])
  }

  /** The event neither replaces, forgets nor outlives a check of `lock` made at `at`. */
  predicate Spares(e: Event, session: string, lock: Lock, at: Timestamp) {
    match e
    case Checked(s, l, _) => s != session || l != lock
    case Pruned(n, live) => session in live && 0 <= n - at < 120
    case Forgotten(s) => s != session
  }

  /** The check at `r` has been spared by everything after it. */
  predicate StandsFrom(h: seq<Event>, r: int, session: string, lock: Lock, at: Timestamp) {
    && 0 <= r < |h| && h[r] == Checked(session, lock, at)
    && forall j :: r < j < |h| ==> Spares(h[j], session, lock, at)
  }

  ghost predicate Stands(h: seq<Event>, session: string, lock: Lock, at: Timestamp) {
    exists r :: StandsFrom(h, r, session, lock, at)
  }

  lemma StandsFromSplits(h: seq<Event>, session: string, lock: Lock, at: Timestamp)
    requires h != []
    ensures Stands(h, session, lock, at)
       <==> || h[|h| - 1] == Checked(session, lock, at)
            || (Spares(h[|h| - 1], session, lock, at) && Stands(h[..|h| - 1], session, lock, at))
  {
    var n := |h| - 1;
    forall r | StandsFrom(h, r, session, lock, at) && r < n
      ensures StandsFrom(h[..n], r, session, lock, at) && Spares(h[n], session, lock, at)
    {
    }
    forall r | StandsFrom(h[..n], r, session, lock, at) && Spares(h[n], session, lock, at)
      ensures StandsFrom(h, r, session, lock, at)
    {
    }
    if h[n] == Checked(session, lock, at) {
      assert StandsFrom(h, n, session, lock, at);
    }
  }

  predicate IsHeld(held: Held, session: string, lock: Lock, at: Timestamp) {
    session in held && lock in held[session] && held[session][lock] == at
  }

  lemma StepHolds(held: Held, e: Event, session: string, lock: Lock, at: Timestamp)
    ensures IsHeld(Step(held, e), session, lock, at)
       <==> e == Checked(session, lock, at) || (Spares(e, session, lock, at) && IsHeld(held, session, lock, at))
  {
    if e.Pruned? && session in held && lock in held[session] && StandsAt(held[session][lock], e.at) {
      assert lock in StandingProofs(held[session], e.at);
    }
  }

  lemma {:induction false} HeldExactlyWhen(h: seq<Event>, session: string, lock: Lock, at: Timestamp)
    ensures IsHeld(After(h), session, lock, at) <==> Stands(h, session, lock, at)
  {
    if h == [] {
    } else {
      hide Stands, Spares, Step, IsHeld;
      var n := |h| - 1;
      HeldExactlyWhen(h[..n], session, lock, at);
      StepHolds(After(h[..n]), h[n], session, lock, at);
      StandsFromSplits(h, session, lock, at);
    }
  }

  /** A condition counts as proved now exactly when its last check is under two minutes old and still stands. */
  lemma FreshExactlyWhen(h: seq<Event>, session: string, lock: Lock, now: Timestamp)
    ensures lock in Fresh(After(h), session, now)
       <==> exists at :: Stands(h, session, lock, at) && 0 <= now - at < 120
  {
    if session in After(h) && lock in After(h)[session] {
      HeldExactlyWhen(h, session, lock, After(h)[session][lock]);
    }
    forall at | Stands(h, session, lock, at) ensures IsHeld(After(h), session, lock, at)
    {
      HeldExactlyWhen(h, session, lock, at);
    }
  }
}
