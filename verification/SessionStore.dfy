/**
 * Running sessions and the hand-endings remembered against them.
 *
 * `Store` is the value a `Sessions` object holds. Every operation is written twice: as a function on
 * stores, about which the run theorems speak, and as a method of the class that updates its fields
 * and is proved to land in exactly the store the function names.
 */
module SessionStore {
  import opened Basics
  import opened LockLattice

  datatype ActivationSource = WeeklySource(schedule: string) | CalendarSource(schedule: string, event: string)

  datatype SessionSource = Manual | FromWeekly(schedule: string) | FromCalendar(schedule: string, event: string)

  /** A schedule's claim on `profile` over `[start, end)`, and the conditions of the lock it starts. */
  datatype Activation = Activation(
    profile: string, source: ActivationSource, start: Timestamp, end: Timestamp, locks: seq<Lock>)
  {
    function LockOf(): LockSet {
      LockSet((set l | l in locks), Some(end), None)
    }
  }

  datatype Session = Session(
    id: string, profile: string, source: SessionSource, startedAt: Timestamp, lock: LockSet)
  {
    predicate IsOver(now: Timestamp) {
      lock.IsExpired(now)
    }
  }

  datatype Refusal =
    | NotRunning
    | Locked(missing: set<Lock>, endsAt: Option<Timestamp>, delayedReleaseAt: Option<Timestamp>)

  datatype Store = Store(running: seq<Session>, dismissed: map<string, Timestamp>)

  const EMPTY: Store := Store([], map[])

  function SourceOf(source: ActivationSource): SessionSource {
    match source
    case WeeklySource(schedule) => FromWeekly(schedule)
    case CalendarSource(schedule, event) => FromCalendar(schedule, event)
  }

  // ----- Order by id -----

  /** Byte order on ids. */
  predicate StringLe(a: string, b: string) {
    a == [] || (b != [] && (a[0] < b[0] || (a[0] == b[0] && StringLe(a[1..], b[1..]))))
  }

  /** Insert after every session whose id is not larger, which is what keeps the sort stable. */
  function InsertById(sorted: seq<Session>, s: Session): seq<Session> {
    if sorted == [] then [s]
    else
      var last := sorted[|sorted| - 1];
      if StringLe(last.id, s.id) then sorted + [s]
      else InsertById(sorted[..|sorted| - 1], s) + [last]
  }

  /** The stable sort by id that the list is put through after every push. */
  function SortById(xs: seq<Session>): seq<Session> {
    if xs == [] then []
    else InsertById(SortById(xs[..|xs| - 1]), xs[|xs| - 1])
  }

  predicate SortedById(xs: seq<Session>) {
    forall i :: 0 < i < |xs| ==> StringLe(xs[i - 1].id, xs[i].id)
  }

  // ----- Lookups -----

  /** The position of the first session for `profile`, or the length when there is none. */
  function ProfileIndex(xs: seq<Session>, profile: string): (i: nat)
    ensures i <= |xs|
    ensures i < |xs| ==> xs[i].profile == profile
    ensures forall j :: 0 <= j < i ==> xs[j].profile != profile
  {
    if xs == [] then 0
    else if xs[0].profile == profile then 0
    else 1 + ProfileIndex(xs[1..], profile)
  }

  /** The position of the first session called `id`, or the length when there is none. */
  function IdIndex(xs: seq<Session>, id: string): (i: nat)
    ensures i <= |xs|
    ensures i < |xs| ==> xs[i].id == id
    ensures forall j :: 0 <= j < i ==> xs[j].id != id
  {
    if xs == [] then 0
    else if xs[0].id == id then 0
    else 1 + IdIndex(xs[1..], id)
  }

  function ForProfile(st: Store, profile: string): (s: Option<Session>)
    ensures s.Some? ==> s.value in st.running && s.value.profile == profile
    ensures s.None? ==> forall t :: t in st.running ==> t.profile != profile
  {
    var i := ProfileIndex(st.running, profile);
    if i < |st.running| then Some(st.running[i]) else None
  }

  /** The remembered ending of the profile falls inside the activation. */
  predicate IsDismissed(st: Store, a: Activation) {
    a.profile in st.dismissed && a.start <= st.dismissed[a.profile] < a.end
  }

  /** The same question, asked about a stored session instead of an activation. */
  predicate DismissalCovers(st: Store, s: Session) {
    && s.profile in st.dismissed
    && st.dismissed[s.profile] >= s.startedAt
    && (s.lock.endsAt.Some? ==> st.dismissed[s.profile] < s.lock.endsAt.value)
  }

  /** The instant in `[startedAt, endsAt)` nearest to `now`. */
  function ClampedInto(s: Session, now: Timestamp): Timestamp {
    match s.lock.endsAt
    case Some(end) => Min(Max(now, s.startedAt), Max(end - 1, s.startedAt))
    case None => Max(now, s.startedAt)
  }

  // ----- The operations, on stores -----

  function Start(st: Store, s: Session): Store {
    var i := ProfileIndex(st.running, s.profile);
    if i < |st.running| then
      var held := st.running[i];
      st.(running := st.running[i := held.(lock := held.lock.Merge(s.lock),
                                           startedAt := Min(held.startedAt, s.startedAt))])
    else
      st.(running := SortById(st.running + [s]))
  }

  function RestoreOne(st: Store, s: Session): Store {
    var i := ProfileIndex(st.running, s.profile);
    if i < |st.running| then
      var held := st.running[i];
      st.(running := st.running[i := held.(lock := held.lock.Harden(s.lock))])
    else if DismissalCovers(st, s) then st
    else Start(st, s)
  }

  function RestoreAll(st: Store, incoming: seq<Session>): Store {
    if incoming == [] then st
    else RestoreOne(RestoreAll(st, incoming[..|incoming| - 1]), incoming[|incoming| - 1])
  }

  /** Adopt stored sessions; a dismissal recorded here is never moved by one that is stored. */
  function Restore(st: Store, incoming: Store): Store {
    var adopted := RestoreAll(st, incoming.running);
    adopted.(dismissed := incoming.dismissed + adopted.dismissed)
  }

  function Without(xs: seq<Session>, i: nat): seq<Session>
    requires i < |xs|
  {
    xs[..i] + xs[i + 1..]
  }

  function End(st: Store, id: string, now: Timestamp, satisfied: set<Lock>): (Store, Result<Session, Refusal>) {
    var i := IdIndex(st.running, id);
    if i == |st.running| then (st, Err(NotRunning))
    else
      var s := st.running[i];
      if !s.lock.CanRelease(now, satisfied) then
        (st, Err(Locked(s.lock.conditions - satisfied, s.lock.endsAt, s.lock.delayedReleaseAt)))
      else
        (Store(Without(st.running, i), st.dismissed[s.profile := ClampedInto(s, now)]), Ok(s))
  }

  /** A spent pass presents the session's own conditions as the evidence, and nothing else. */
  function EndWithPass(st: Store, id: string, now: Timestamp): (Store, Result<Session, Refusal>) {
    var i := IdIndex(st.running, id);
    if i == |st.running| then (st, Err(NotRunning)) else End(st, id, now, st.running[i].lock.conditions)
  }

  function RequestRelease(st: Store, id: string, now: Timestamp): (Store, Result<Timestamp, Refusal>) {
    var i := IdIndex(st.running, id);
    if i == |st.running| then (st, Err(NotRunning))
    else
      var s := st.running[i];
      var lock := s.lock.RequestRelease(now);
      (st.(running := st.running[i := s.(lock := lock)]), Ok(lock.delayedReleaseAt.value))
  }

  function StillRunning(xs: seq<Session>, now: Timestamp): seq<Session> {
    if xs == [] then []
    else
      var rest := StillRunning(xs[..|xs| - 1], now);
      if xs[|xs| - 1].IsOver(now) then rest else rest + [xs[|xs| - 1]]
  }

  function Over(xs: seq<Session>, now: Timestamp): seq<Session> {
    if xs == [] then []
    else
      var rest := Over(xs[..|xs| - 1], now);
      if xs[|xs| - 1].IsOver(now) then rest + [xs[|xs| - 1]] else rest
  }

  function Reap(st: Store, now: Timestamp): Store {
    st.(running := StillRunning(st.running, now))
  }

  /** The session an activation starts, under the id the running one already has or a minted one. */
  function SessionFor(st: Store, now: Timestamp, a: Activation, minted: string): Session {
    var existing := ForProfile(st, a.profile);
    Session(if existing.Some? then existing.value.id else minted, a.profile, SourceOf(a.source), now, a.LockOf())
  }

  predicate Skips(st: Store, now: Timestamp, a: Activation) {
    a.end <= now || IsDismissed(st, a)
  }

  function ReconcileOne(st: Store, now: Timestamp, a: Activation, minted: string): Store {
    if Skips(st, now, a) then st else Start(st, SessionFor(st, now, a, minted))
  }

  /** Reconcile and the ids it started; `mint(n)` is what the n-th call of the id minter returns. */
  function Reconcile(st: Store, now: Timestamp, acts: seq<Activation>, mint: nat -> string): (Store, seq<string>) {
    if acts == [] then (st, [])
    else
      var (before, started) := Reconcile(st, now, acts[..|acts| - 1], mint);
      var a := acts[|acts| - 1];
      if Skips(before, now, a) then (before, started)
      else if ForProfile(before, a.profile).Some? then (ReconcileOne(before, now, a, ""), started)
      else (ReconcileOne(before, now, a, mint(|started|)), started + [mint(|started|)])
  }

  /** Joins the locks of every session not over, in order. */
  function MergedLock(xs: seq<Session>, now: Timestamp): LockSet {
    if xs == [] then UNLOCKED
    else
      var acc := MergedLock(xs[..|xs| - 1], now);
      if xs[|xs| - 1].IsOver(now) then acc else acc.Merge(xs[|xs| - 1].lock)
  }

  // ----- The object -----

  class Sessions {
    var running: seq<Session>
    var dismissed: map<string, Timestamp>

    function View(): Store
      reads this
    {
      Store(running, dismissed)
    }

    constructor ()
      ensures View() == EMPTY
    {
      running, dismissed := [], map[];
    }

    method FindProfile(profile: string) returns (i: nat)
      ensures i == ProfileIndex(running, profile)
    {
      i := 0;
      while i < |running| && running[i].profile != profile
        invariant i <= |running|
        invariant ProfileIndex(running, profile) == i + ProfileIndex(running[i..], profile)
      {
        i := i + 1;
      }
    }

    method FindId(id: string) returns (i: nat)
      ensures i == IdIndex(running, id)
    {
      i := 0;
      while i < |running| && running[i].id != id
        invariant i <= |running|
        invariant IdIndex(running, id) == i + IdIndex(running[i..], id)
      {
        i := i + 1;
      }
    }

    /** Merge into the session its profile has, or push and sort. */
    method StartSession(s: Session)
      modifies this
      ensures View() == Start(old(View()), s)
    {
      var i := FindProfile(s.profile);
      if i < |running| {
        var existing := running[i];
        running := running[i := existing.(lock := existing.lock.Merge(s.lock),
                                          startedAt := Min(existing.startedAt, s.startedAt))];
        return;
      }
      running := running + [s];
      running := SortById(running);
    }

    /** Harden, skip or start, one incoming session after the other. */
    method RestoreWithoutWeakening(incoming: Store)
      modifies this
      ensures View() == Restore(old(View()), incoming)
    {
      for n := 0 to |incoming.running|
        invariant View() == RestoreAll(old(View()), incoming.running[..n])
      {
        var s := incoming.running[n];
        assert incoming.running[..n + 1][..n] == incoming.running[..n];
        var i := FindProfile(s.profile);
        if i < |running| {
          running := running[i := running[i].(lock := running[i].lock.Harden(s.lock))];
          continue;
        }
        if DismissalCovers(View(), s) {
          continue;
        }
        StartSession(s);
      }
      assert incoming.running[..|incoming.running|] == incoming.running;
      dismissed := incoming.dismissed + dismissed;
    }

    /** Remove the session if its lock opens on `satisfied`, and remember the ending. */
    method EndSession(id: string, now: Timestamp, satisfied: set<Lock>) returns (r: Result<Session, Refusal>)
      modifies this
      ensures (View(), r) == End(old(View()), id, now, satisfied)
    {
      var i := FindId(id);
      if i == |running| {
        return Err(NotRunning);
      }
      var s := running[i];
      if !s.lock.CanRelease(now, satisfied) {
        return Err(Locked(s.lock.conditions - satisfied, s.lock.endsAt, s.lock.delayedReleaseAt));
      }
      running := Without(running, i);
      dismissed := dismissed[s.profile := ClampedInto(s, now)];
      r := Ok(s);
    }

    method EndSessionWithPass(id: string, now: Timestamp) returns (r: Result<Session, Refusal>)
      modifies this
      ensures (View(), r) == EndWithPass(old(View()), id, now)
    {
      var i := FindId(id);
      if i == |running| {
        return Err(NotRunning);
      }
      r := EndSession(id, now, running[i].lock.conditions);
    }

    method RequestSessionRelease(id: string, now: Timestamp) returns (r: Result<Timestamp, Refusal>)
      modifies this
      ensures (View(), r) == RequestRelease(old(View()), id, now)
    {
      var i := FindId(id);
      if i == |running| {
        return Err(NotRunning);
      }
      var lock := running[i].lock.RequestRelease(now);
      running := running[i := running[i].(lock := lock)];
      r := Ok(lock.delayedReleaseAt.value);
    }

    /** Split off the sessions that are over. Dismissals stay as they are. */
    method ReapSessions(now: Timestamp) returns (over: seq<Session>)
      modifies this
      ensures View() == Reap(old(View()), now)
      ensures over == Over(old(running), now)
    {
      var still;
      over, still := [], [];
      for i := 0 to |running|
        invariant over == Over(running[..i], now)
        invariant still == StillRunning(running[..i], now)
        invariant View() == old(View())
      {
        assert running[..i + 1][..i] == running[..i];
        if running[i].IsOver(now) {
          over := over + [running[i]];
        } else {
          still := still + [running[i]];
        }
      }
      assert running[..|running|] == running;
      running := still;
    }

    /** Start or strengthen a session for each activation that is neither over nor dismissed. */
    method ReconcileSessions(now: Timestamp, acts: seq<Activation>, mint: nat -> string) returns (started: seq<string>)
      modifies this
      ensures (View(), started) == Reconcile(old(View()), now, acts, mint)
    {
      started := [];
      for n := 0 to |acts|
        invariant (View(), started) == Reconcile(old(View()), now, acts[..n], mint)
      {
        var a := acts[n];
        assert acts[..n + 1][..n] == acts[..n];
        if a.end <= now {
          continue;
        }
        if IsDismissed(View(), a) {
          continue;
        }
        var isNew := ForProfile(View(), a.profile).None?;
        var s := SessionFor(View(), now, a, if isNew then mint(|started|) else "");
        StartSession(s);
        if isNew {
          started := started + [s.id];
        }
      }
      assert acts[..|acts|] == acts;
    }

    /** The join of the locks of all sessions that are not over. */
    method CurrentLock(now: Timestamp) returns (lock: LockSet)
      ensures lock == MergedLock(running, now)
    {
      lock := UNLOCKED;
      for i := 0 to |running|
        invariant lock == MergedLock(running[..i], now)
      {
        assert running[..i + 1][..i] == running[..i];
        if !running[i].IsOver(now) {
          lock := lock.Merge(running[i].lock);
        }
      }
      assert running[..|running|] == running;
    }
  }
}
