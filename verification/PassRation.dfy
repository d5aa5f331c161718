/** The escape hatch: emergency passes rationed over a rolling window. */
module PassRation {
  import opened Basics

  datatype Policy = Policy(passes: nat, windowSeconds: nat, cooldownSeconds: nat)

  datatype PassRefusal = Disabled | QuotaSpent(nextAt: Timestamp) | CoolingDown(until: Timestamp)

  /** A receipt: made only by a successful spend. */
  datatype Pass = Pass(at: Timestamp)

  /** Ascending and without duplicates. */
  predicate Ascending(xs: seq<Timestamp>) {
    forall i, j :: 0 <= i < j < |xs| ==> xs[i] < xs[j]
  }

  /** Where `at` is, or where it has to go. */
  function Rank(xs: seq<Timestamp>, at: Timestamp): (i: nat)
    ensures i <= |xs|
  {
    if xs == [] || xs[0] >= at then 0 else 1 + Rank(xs[1..], at)
  }

  function Recorded(xs: seq<Timestamp>, at: Timestamp): seq<Timestamp> {
    var i := Rank(xs, at);
    if i < |xs| && xs[i] == at then xs else xs[..i] + [at] + xs[i..]
  }

  /** The uses after `since`, in order. */
  function Later(xs: seq<Timestamp>, since: Timestamp): seq<Timestamp> {
    if xs == [] then []
    else if xs[0] > since then [xs[0]] + Later(xs[1..], since)
    else Later(xs[1..], since)
  }

  function Recent(xs: seq<Timestamp>, now: Timestamp, policy: Policy): seq<Timestamp> {
    Later(xs, now - policy.windowSeconds)
  }

  function Remaining(xs: seq<Timestamp>, now: Timestamp, policy: Policy): nat {
    var spent := Min(|Recent(xs, now, policy)|, MAX_U32);
    if policy.passes <= spent then 0 else policy.passes - spent
  }

  function Largest(xs: seq<Timestamp>): Timestamp
    requires xs != []
  {
    if |xs| == 1 then xs[0] else Max(xs[0], Largest(xs[1..]))
  }

  function Smallest(xs: seq<Timestamp>): Timestamp
    requires xs != []
  {
    if |xs| == 1 then xs[0] else Min(xs[0], Smallest(xs[1..]))
  }

  /** The refusal a spend meets at `now`, if any: the cooldown is asked before the quota. */
  function Check(xs: seq<Timestamp>, now: Timestamp, policy: Policy): Option<PassRefusal> {
    if policy.passes == 0 then Some(Disabled)
    else
      var recent := Recent(xs, now, policy);
      if recent != [] && now < Largest(recent) + policy.cooldownSeconds then
        Some(CoolingDown(Largest(recent) + policy.cooldownSeconds))
      else if Min(|recent|, MAX_U32) >= policy.passes then
        Some(QuotaSpent((if recent == [] then now else Smallest(recent)) + policy.windowSeconds))
      else None
  }

  function Merged(xs: seq<Timestamp>, other: seq<Timestamp>): seq<Timestamp> {
    if other == [] then xs else Recorded(Merged(xs, other[..|other| - 1]), other[|other| - 1])
  }

  class Passes {
    var used: seq<Timestamp>

    ghost predicate Valid()
      reads this
    {
      Ascending(used)
    }

    constructor ()
      ensures Valid() && used == []
    {
      used := [];
    }

    /** Insert a use in order, unless it is there. */
    method Record(at: Timestamp)
      requires Valid()
      modifies this
      ensures Valid() && used == Recorded(old(used), at)
    {
      var lo, hi := 0, |used|;
      while lo < hi
        invariant lo <= hi <= |used|
        invariant forall i :: 0 <= i < lo ==> used[i] < at
        invariant forall i :: hi <= i < |used| ==> used[i] >= at
      {
        var mid := (lo + hi) / 2;
        if used[mid] < at {
          lo := mid + 1;
        } else {
          hi := mid;
        }
      }
      RankIsBoundary(used, at, lo);
      RecordedFacts(used, at);
      if lo == |used| || used[lo] != at {
        used := used[..lo] + [at] + used[lo..];
      }
    }

    method Spend(now: Timestamp, policy: Policy) returns (r: Result<Pass, PassRefusal>)
      requires Valid()
      modifies this
      ensures Valid()
      ensures match Check(old(used), now, policy)
              case Some(refusal) => r == Err(refusal) && used == old(used)
              case None => r == Ok(Pass(now)) && used == Recorded(old(used), now)
    {
      var refusal := Check(used, now, policy);
      if refusal.Some? {
        return Err(refusal.value);
      }
      Record(now);
      r := Ok(Pass(now));
    }

    method Merge(other: seq<Timestamp>)
      requires Valid()
      modifies this
      ensures Valid() && used == Merged(old(used), other)
    {
      for i := 0 to |other|
        invariant Valid() && used == Merged(old(used), other[..i])
      {
        assert other[..i + 1][..i] == other[..i];
        Record(other[i]);
      }
      assert other[..|other|] == other;
    }

    /** Drop the uses that have left the window open at `now`. */
    method Compact(now: Timestamp, policy: Policy)
      requires Valid()
      modifies this
      ensures Valid() && used == Later(old(used), now - policy.windowSeconds)
    {
      var horizon := now - policy.windowSeconds;
      var kept: seq<Timestamp> := [];
      assert used[0..] == used;
      for i := 0 to |used|
        invariant used == old(used) && Later(used, horizon) == kept + Later(used[i..], horizon)
      {
        assert used[i..][0] == used[i] && used[i..][1..] == used[i + 1..];
        if used[i] > horizon {
          kept := kept + [used[i]];
        }
      }
      assert kept == kept + Later(used[|used|..], horizon);
      LaterFacts(used, horizon);
      used := kept;
    }
  }

  // ----- The record as a set -----

  lemma {:induction false} RankIsBoundary(xs: seq<Timestamp>, at: Timestamp, k: nat)
    requires Ascending(xs) && k <= |xs|
    requires forall i :: 0 <= i < k ==> xs[i] < at
    requires forall i :: k <= i < |xs| ==> xs[i] >= at
    ensures Rank(xs, at) == k
  {
    if k == 0 {
    } else {
      RankIsBoundary(xs[1..], at, k - 1);
    }
  }

  lemma {:induction false} RankFacts(xs: seq<Timestamp>, at: Timestamp)
    requires Ascending(xs)
    ensures forall i :: 0 <= i < Rank(xs, at) ==> xs[i] < at
    ensures forall i :: Rank(xs, at) <= i < |xs| ==> xs[i] >= at
  {
    if xs != [] && xs[0] < at {
      RankFacts(xs[1..], at);
      assert forall i :: 0 < i < |xs| ==> xs[i] == xs[1..][i - 1];
    }
  }

  /** Recording adds the use and nothing else, and keeps the record sorted and duplicate-free. */
  lemma RecordedFacts(xs: seq<Timestamp>, at: Timestamp)
    requires Ascending(xs)
    ensures Ascending(Recorded(xs, at))
    ensures forall t :: t in Recorded(xs, at) <==> t == at || t in xs
  {
    hide Rank;
    RankFacts(xs, at);
    var i := Rank(xs, at);
    var before, after := xs[..i], xs[i..];
    assert xs == before + after;
    assert forall t :: t in xs <==> t in before || t in after;
    if i == |xs| || xs[i] != at {
      assert Recorded(xs, at) == before + [at] + after;
    }
  }

  lemma {:induction false} MergedFacts(xs: seq<Timestamp>, other: seq<Timestamp>)
    requires Ascending(xs)
    ensures Ascending(Merged(xs, other))
    ensures forall t :: t in Merged(xs, other) <==> t in xs || t in other
  {
    if other == [] {
    } else {
      var n := |other| - 1;
      MergedFacts(xs, other[..n]);
      RecordedFacts(Merged(xs, other[..n]), other[n]);
      assert other == other[..n] + [other[n]];
    }
  }

  lemma {:induction false} SameMembersSameRecord(xs: seq<Timestamp>, ys: seq<Timestamp>)
    requires Ascending(xs) && Ascending(ys)
    requires forall t :: t in xs <==> t in ys
    ensures xs == ys
  {
    assert xs != [] ==> xs[0] in xs;
    assert ys != [] ==> ys[0] in ys;
    if xs != [] && ys != [] {
      assert xs[0] in ys && ys[0] in xs;
      assert xs[0] == ys[0];
      forall t ensures t in xs[1..] <==> t in ys[1..] {
        assert t in xs[1..] <==> t in xs && t != xs[0];
        assert t in ys[1..] <==> t in ys && t != ys[0];
      }
      SameMembersSameRecord(xs[1..], ys[1..]);
    }
  }

  /** Merging is a union: commutative, idempotent, and it never gives a pass back. */
  lemma MergeIsAUnion(xs: seq<Timestamp>, ys: seq<Timestamp>, now: Timestamp, policy: Policy)
    requires Ascending(xs) && Ascending(ys)
    ensures Merged(xs, ys) == Merged(ys, xs)
    ensures Merged(Merged(xs, ys), ys) == Merged(xs, ys)
    ensures Remaining(Merged(xs, ys), now, policy) <= Remaining(xs, now, policy)
  {
    hide Merged, Ascending;
    MergedFacts(xs, ys);
    MergedFacts(ys, xs);
    MergedFacts(Merged(xs, ys), ys);
    SameMembersSameRecord(Merged(xs, ys), Merged(ys, xs));
    SameMembersSameRecord(Merged(Merged(xs, ys), ys), Merged(xs, ys));
    MoreUsesLessLeft(xs, Merged(xs, ys), now, policy);
  }

  lemma MoreUsesLessLeft(xs: seq<Timestamp>, ys: seq<Timestamp>, now: Timestamp, policy: Policy)
    requires Ascending(xs) && Ascending(ys) && forall t :: t in xs ==> t in ys
    ensures Remaining(ys, now, policy) <= Remaining(xs, now, policy)
  {
    hide Later, Ascending;
    LaterFacts(xs, now - policy.windowSeconds);
    LaterFacts(ys, now - policy.windowSeconds);
    SubsetIsShorter(Recent(xs, now, policy), Recent(ys, now, policy));
  }

  lemma {:induction false} LaterFacts(xs: seq<Timestamp>, since: Timestamp)
    requires Ascending(xs)
    ensures Ascending(Later(xs, since))
    ensures forall t :: t in Later(xs, since) <==> t in xs && t > since
  {
    if xs == [] {
    } else {
      LaterFacts(xs[1..], since);
      assert forall t :: t in xs <==> t == xs[0] || t in xs[1..];
    }
  }

  lemma {:induction false} SubsetIsShorter(xs: seq<Timestamp>, ys: seq<Timestamp>)
    requires Ascending(xs) && Ascending(ys)
    requires forall t :: t in xs ==> t in ys
    ensures |xs| <= |ys|
  {
    if xs == [] {
    } else {
      assert xs[0] in xs;
      var i :| 0 <= i < |ys| && ys[i] == xs[0];
      forall t | t in xs[1..] ensures t in ys[i + 1..] {
        assert t in xs;
        var j :| 0 <= j < |ys| && ys[j] == t;
        assert j > i;
        assert ys[i + 1..][j - i - 1] == t;
      }
      SubsetIsShorter(xs[1..], ys[i + 1..]);
    }
  }

  lemma {:induction false} LargestFacts(xs: seq<Timestamp>)
    requires xs != []
    ensures Largest(xs) in xs && forall t :: t in xs ==> t <= Largest(xs)
    ensures Smallest(xs) in xs && forall t :: t in xs ==> t >= Smallest(xs)
  {
    if |xs| > 1 {
      LargestFacts(xs[1..]);
      assert forall t :: t in xs <==> t == xs[0] || t in xs[1..];
    }
  }

  // ----- The ration over a run -----

  datatype Event =
    | SpendE(at: Timestamp)
    | MergeE(peer: seq<Timestamp>)
    | CompactE(at: Timestamp)

  /** The record, the uses this device was granted in order, and the last compaction. */
  datatype Ledger = Ledger(used: seq<Timestamp>, granted: seq<Timestamp>, compacted: Option<Timestamp>)

  function Step(l: Ledger, e: Event, policy: Policy): Ledger {
    match e
    case SpendE(at) =>
      if Check(l.used, at, policy).None? then l.(used := Recorded(l.used, at), granted := l.granted + [at]) else l
    case MergeE(peer) => l.(used := Merged(l.used, peer))
    case CompactE(at) => l.(used := Later(l.used, at - policy.windowSeconds), compacted := Some(at))
  }

  function After(events: seq<Event>, policy: Policy): Ledger {
    if events == [] then Ledger([], [], None)
    else Step(After(events[..|events| - 1], policy), events[|events| - 1], policy)
  }

  /** Compaction is never called with a time a later spend or compaction goes back behind. */
  ghost predicate CompactsForward(events: seq<Event>) {
    forall i, j :: 0 <= i < j < |events| && events[i].CompactE? && !events[j].MergeE? ==> events[i].at <= events[j].at
  }

  /** A policy whose uses cannot fall together: two of them are apart, or there is at most one to a window. */
  predicate KeepsApart(policy: Policy) {
    policy.windowSeconds > 0 && (policy.cooldownSeconds > 0 || policy.passes <= 1) && policy.passes <= MAX_U32
  }

  /** Consecutive grants keep their distance, and every `passes` of them span a whole window. */
  predicate Rationed(granted: seq<Timestamp>, policy: Policy) {
    && (forall i, j :: 0 <= i < j < |granted| ==>
          granted[j] - granted[i] >= Min(policy.cooldownSeconds, policy.windowSeconds))
    && (forall i, j :: 0 <= i < j < |granted| && j - i >= policy.passes ==>
        granted[j] - granted[i] >= policy.windowSeconds)
  }

  ghost predicate Sound(l: Ledger, policy: Policy) {
    && Ascending(l.used)
    && Rationed(l.granted, policy)
    && forall t :: t in l.granted ==>
         t in l.used || (l.compacted.Some? && t <= l.compacted.value - policy.windowSeconds)
  }

  /** While fewer than `passes` uses are recent, the granted ones among them are at most so many from the end. */
  lemma RecentGrantsAreFew(granted: seq<Timestamp>, recent: seq<Timestamp>, i: nat)
    requires i < |granted| && Ascending(granted) && Ascending(recent)
    requires forall t :: t in granted[i..] ==> t in recent
    ensures |granted| - i <= |recent|
  {
    SubsetIsShorter(granted[i..], recent);
  }

  lemma GrantIsRationed(l: Ledger, at: Timestamp, policy: Policy)
    requires KeepsApart(policy)
    requires Sound(l, policy) && Check(l.used, at, policy).None?
    requires l.compacted.Some? ==> l.compacted.value <= at
    ensures Rationed(l.granted + [at], policy)
  {
    hide Later, Largest, Smallest;
    var recent := Recent(l.used, at, policy);
    LaterFacts(l.used, at - policy.windowSeconds);
    var n := |l.granted|;
    forall i | 0 <= i < n
      ensures at - l.granted[i] >= Min(policy.cooldownSeconds, policy.windowSeconds)
      ensures n - i >= policy.passes ==> at - l.granted[i] >= policy.windowSeconds
    {
      if l.granted[i] > at - policy.windowSeconds {
        GrantsFromAreRecent(l, at, policy, i);
        assert l.granted[i] in l.granted[i..];
        LargestFacts(recent);
        RecentGrantsAreFew(l.granted, recent, i);
      }
    }
  }

  /** From a recent grant on, every grant is among the recent uses. */
  lemma GrantsFromAreRecent(l: Ledger, at: Timestamp, policy: Policy, i: nat)
    requires KeepsApart(policy) && policy.passes > 0
    requires Sound(l, policy) && i < |l.granted| && l.granted[i] > at - policy.windowSeconds
    requires l.compacted.Some? ==> l.compacted.value <= at
    ensures forall t :: t in l.granted[i..] ==> t in Recent(l.used, at, policy)
    ensures Ascending(l.granted)
  {
    hide Later;
    LaterFacts(l.used, at - policy.windowSeconds);
    forall t | t in l.granted[i..] ensures t in Recent(l.used, at, policy) {
      var j :| i <= j < |l.granted| && l.granted[j] == t;
      assert l.granted[j] in l.granted;
    }
  }

  lemma {:induction false} RunIsSound(events: seq<Event>, policy: Policy)
    requires KeepsApart(policy)
    requires CompactsForward(events)
    ensures Sound(After(events, policy), policy)
    ensures var c := After(events, policy).compacted;
            c.Some? ==> exists i :: 0 <= i < |events| && events[i] == CompactE(c.value)
  {
    if events == [] {
    } else {
      var n := |events| - 1;
      var l := After(events[..n], policy);
      RunIsSound(events[..n], policy);
      hide Sound, KeepsApart;
      if l.compacted.Some? {
        var i :| 0 <= i < n && events[..n][i] == CompactE(l.compacted.value);
        assert events[i] == CompactE(l.compacted.value);
      }
      StepIsSound(l, events[n], policy);
    }
  }

  lemma StepIsSound(l: Ledger, e: Event, policy: Policy)
    requires KeepsApart(policy) && Sound(l, policy)
    requires l.compacted.Some? && !e.MergeE? ==> l.compacted.value <= e.at
    ensures Sound(Step(l, e, policy), policy)
  {
    hide Check, Recorded, Merged, Later, Rationed, KeepsApart;
    match e
    case SpendE(at) =>
      RecordedFacts(l.used, at);
      if Check(l.used, at, policy).None? {
        GrantIsRationed(l, at, policy);
      }
    case MergeE(peer) => MergedFacts(l.used, peer);
    case CompactE(at) => LaterFacts(l.used, at - policy.windowSeconds);
  }

  /** How many grants fall in `[from, to)`. */
  function CountIn(granted: seq<Timestamp>, from: Timestamp, to: Timestamp): nat {
    if granted == [] then 0
    else CountIn(granted[..|granted| - 1], from, to) + if from <= granted[|granted| - 1] < to then 1 else 0
  }

  lemma {:induction false} CountSpan(xs: seq<Timestamp>, from: Timestamp, to: Timestamp) returns (f: nat, l: nat)
    requires CountIn(xs, from, to) > 0
    ensures f <= l < |xs| && from <= xs[f] < to && from <= xs[l] < to
    ensures CountIn(xs, from, to) <= l - f + 1
  {
    var n := |xs| - 1;
    if CountIn(xs[..n], from, to) > 0 {
      f, l := CountSpan(xs[..n], from, to);
      if from <= xs[n] < to {
        l := n;
      }
    } else {
      f, l := n, n;
    }
  }

  /** In every stretch as long as the window there are at most the configured number of grants. */
  ghost predicate QuotaHolds(granted: seq<Timestamp>, policy: Policy) {
    forall from :: WithinQuota(granted, from, policy)
  }

  predicate WithinQuota(granted: seq<Timestamp>, from: Timestamp, policy: Policy) {
    CountIn(granted, from, from + policy.windowSeconds) <= policy.passes
  }

  lemma RationedIsWithin(granted: seq<Timestamp>, from: Timestamp, policy: Policy)
    requires policy.windowSeconds > 0 && Rationed(granted, policy) && (policy.passes == 0 ==> granted == [])
    ensures WithinQuota(granted, from, policy)
  {
    if CountIn(granted, from, from + policy.windowSeconds) > 0 {
      var f, l := CountSpan(granted, from, from + policy.windowSeconds);
      assert granted[l] - granted[f] < policy.windowSeconds;
    }
  }

  /**
   * Whatever peers spent, and however often the record was compacted with a clock that goes forward,
   * any stretch as long as the window holds at most the configured number of this device's passes, kept
   * apart by the cooldown.
   */
  lemma QuotaHoldsOverEveryWindow(events: seq<Event>, policy: Policy)
    requires KeepsApart(policy)
    requires CompactsForward(events)
    ensures QuotaHolds(After(events, policy).granted, policy)
    ensures forall i, j :: 0 <= i < j < |After(events, policy).granted| ==>
              After(events, policy).granted[j] - After(events, policy).granted[i]
                >= Min(policy.cooldownSeconds, policy.windowSeconds)
  {
    RunIsSound(events, policy);
    NoPassesNoGrants(events, policy);
    var granted := After(events, policy).granted;
    forall from ensures WithinQuota(granted, from, policy) {
      RationedIsWithin(granted, from, policy);
    }
  }

  /** The quota is kept over every run exactly when no two uses can share a second, or only one pass is given. */
  lemma QuotaHoldsExactlyWhen(policy: Policy)
    requires policy.windowSeconds > 0 && policy.passes <= MAX_U32
    ensures (forall events :: CompactsForward(events) ==> QuotaHolds(After(events, policy).granted, policy))
            <==> policy.cooldownSeconds > 0 || policy.passes <= 1
  {
    hide Check, CountIn, Rationed, After;
    if KeepsApart(policy) {
      forall events | CompactsForward(events) ensures QuotaHolds(After(events, policy).granted, policy) {
        QuotaHoldsOverEveryWindow(events, policy);
      }
    } else {
      var events := Spends(0, policy.passes + 1);
      ZeroCooldownCollapses(0, policy.passes + 1, policy);
      CountCopies(0, policy.passes + 1, policy.windowSeconds);
      assert CompactsForward(events);
      assert !WithinQuota(After(events, policy).granted, 0, policy);
    }
  }

  lemma {:induction false} NoPassesNoGrants(events: seq<Event>, policy: Policy)
    ensures policy.passes == 0 ==> After(events, policy).granted == []
  {
    if events == [] {
    } else {
      NoPassesNoGrants(events[..|events| - 1], policy);
    }
  }

  // ----- Compaction and refusals -----

  /** Compacting at `now` changes no answer at `now` or later. */
  lemma CompactionIsInvisible(xs: seq<Timestamp>, now: Timestamp, later: Timestamp, policy: Policy)
    requires now <= later
    ensures Check(Later(xs, now - policy.windowSeconds), later, policy) == Check(xs, later, policy)
    ensures Remaining(Later(xs, now - policy.windowSeconds), later, policy) == Remaining(xs, later, policy)
  {
    LaterTwice(xs, now - policy.windowSeconds, later - policy.windowSeconds);
  }

  lemma {:induction false} LaterTwice(xs: seq<Timestamp>, a: Timestamp, b: Timestamp)
    requires a <= b
    ensures Later(Later(xs, a), b) == Later(xs, b)
  {
    if xs == [] {
    } else {
      LaterTwice(xs[1..], a, b);
    }
  }

  /** Nothing leaves the window before its oldest use does. */
  lemma RecentUntil(xs: seq<Timestamp>, now: Timestamp, t: Timestamp, policy: Policy)
    requires Ascending(xs) && Recent(xs, now, policy) != []
    requires now <= t < Smallest(Recent(xs, now, policy)) + policy.windowSeconds
    ensures Recent(xs, t, policy) == Recent(xs, now, policy)
  {
    var recent, since := Recent(xs, now, policy), t - policy.windowSeconds;
    LaterFacts(xs, now - policy.windowSeconds);
    LaterTwice(xs, now - policy.windowSeconds, since);
    LargestFacts(recent);
    LaterFacts(recent, since);
    SameMembersSameRecord(Later(recent, since), recent);
  }

  /** When the oldest use does leave, it leaves alone. */
  lemma RecentAfter(xs: seq<Timestamp>, now: Timestamp, policy: Policy)
    requires Ascending(xs) && Recent(xs, now, policy) != []
    ensures Recent(xs, Smallest(Recent(xs, now, policy)) + policy.windowSeconds, policy) == Recent(xs, now, policy)[1..]
  {
    var recent := Recent(xs, now, policy);
    LaterFacts(xs, now - policy.windowSeconds);
    LargestFacts(recent);
    LaterTwice(xs, now - policy.windowSeconds, Smallest(recent));
    LaterIsTail(recent);
  }

  /** A refusal for a spent quota names the exact instant a pass comes back. */
  lemma QuotaRefusalIsExact(xs: seq<Timestamp>, now: Timestamp, t: Timestamp, policy: Policy)
    requires Ascending(xs) && 0 < policy.passes <= MAX_U32
    requires Check(xs, now, policy).Some? && Check(xs, now, policy).value.QuotaSpent?
    requires |Recent(xs, now, policy)| == policy.passes
    requires now <= t <= Check(xs, now, policy).value.nextAt
    ensures Check(xs, t, policy).Some? <==> t < Check(xs, now, policy).value.nextAt
  {
    hide Recent, Smallest, Largest;
    var recent := Recent(xs, now, policy);
    if t < Smallest(recent) + policy.windowSeconds {
      RecentUntil(xs, now, t, policy);
    } else {
      RecentAfter(xs, now, policy);
      RecentIsAscending(xs, now, policy);
      if |recent| > 1 {
        TailHasSmallerLargest(recent);
      }
    }
  }

  lemma RecentIsAscending(xs: seq<Timestamp>, now: Timestamp, policy: Policy)
    requires Ascending(xs)
    ensures Ascending(Recent(xs, now, policy))
  {
    LaterFacts(xs, now - policy.windowSeconds);
  }

  lemma TailHasSmallerLargest(xs: seq<Timestamp>)
    requires Ascending(xs) && |xs| > 1
    ensures Largest(xs[1..]) <= Largest(xs)
  {
    LargestFacts(xs);
    LargestFacts(xs[1..]);
  }

  lemma LaterIsTail(xs: seq<Timestamp>)
    requires Ascending(xs) && xs != []
    ensures Later(xs, Smallest(xs)) == xs[1..]
  {
    LargestFacts(xs);
    assert Smallest(xs) == xs[0];
    LaterFacts(xs, xs[0]);
    assert forall t :: t in xs[1..] <==> t in xs && t > xs[0] by {
      forall t | t in xs && t > xs[0] ensures t in xs[1..] {
      }
    }
    SameMembersSameRecord(Later(xs, xs[0]), xs[1..]);
  }

  /** `n` spends in one second. */
  function Spends(at: Timestamp, n: nat): (events: seq<Event>)
    ensures |events| == n && forall i :: 0 <= i < n ==> events[i] == SpendE(at)
  {
    seq(n, _ => SpendE(at))
  }

  function Copies(at: Timestamp, n: nat): (xs: seq<Timestamp>)
    ensures |xs| == n && forall i :: 0 <= i < n ==> xs[i] == at
  {
    seq(n, _ => at)
  }

  /** With two passes and a zero cooldown every spend of a second is granted, and they leave one record. */
  lemma {:induction false} ZeroCooldownCollapses(at: Timestamp, n: nat, policy: Policy)
    requires policy.passes >= 2 && policy.cooldownSeconds == 0 && policy.windowSeconds > 0
    ensures After(Spends(at, n), policy) == Ledger(if n == 0 then [] else [at], Copies(at, n), None)
  {
    if n == 0 {
      assert Spends(at, 0) == [] && Copies(at, 0) == [];
    } else {
      ZeroCooldownCollapses(at, n - 1, policy);
      assert Spends(at, n)[..n - 1] == Spends(at, n - 1);
      assert Copies(at, n) == Copies(at, n - 1) + [at];
      AnotherInTheSecond(at, policy);
    }
  }

  lemma AnotherInTheSecond(at: Timestamp, policy: Policy)
    requires policy.passes >= 2 && policy.cooldownSeconds == 0 && policy.windowSeconds > 0
    ensures Check([], at, policy).None? && Recorded([], at) == [at]
    ensures Check([at], at, policy).None? && Recorded([at], at) == [at]
  {
    assert [at][1..] == [];
    assert Later([], at - policy.windowSeconds) == [];
    assert Later([at], at - policy.windowSeconds) == [at];
  }

  lemma {:induction false} CountCopies(at: Timestamp, n: nat, window: nat)
    requires window > 0
    ensures CountIn(Copies(at, n), at, at + window) == n
  {
    if n == 0 {
      assert Copies(at, 0) == [];
    } else {
      assert Copies(at, n)[..n - 1] == Copies(at, n - 1);
      CountCopies(at, n - 1, window);
    }
  }

  /** The uses that still count at `now`: less than a window old, or noted ahead of the clock. */
  function Counted(xs: seq<Timestamp>, now: Timestamp, policy: Policy): set<Timestamp> {
    set t | t in xs && now - t < policy.windowSeconds
  }

  lemma RecentAreCounted(xs: seq<Timestamp>, now: Timestamp, policy: Policy)
    requires Ascending(xs)
    ensures Ascending(Recent(xs, now, policy))
    ensures forall t :: t in Recent(xs, now, policy) <==> t in Counted(xs, now, policy)
    ensures |Recent(xs, now, policy)| == |Counted(xs, now, policy)|
  {
    LaterFacts(xs, now - policy.windowSeconds);
    var recent := Recent(xs, now, policy);
    assert Counted(xs, now, policy) == set t | t in recent;
    MembersAreCounted(recent);
  }

  lemma {:induction false} MembersAreCounted(xs: seq<Timestamp>)
    requires Ascending(xs)
    ensures |set t | t in xs| == |xs|
  {
    if xs == [] {
      assert (set t | t in xs) == {};
    } else {
      var n := |xs| - 1;
      MembersAreCounted(xs[..n]);
      assert xs[n] !in xs[..n];
      assert (set t | t in xs) == (set t | t in xs[..n]) + {xs[n]};
    }
  }

  /**
   * A pass is granted exactly when there are passes at all, fewer than all of them are counted, and every
   * one counted is a whole cooldown ago. What is left is the rest of them.
   */
  lemma GrantedExactlyWhen(xs: seq<Timestamp>, now: Timestamp, policy: Policy)
    requires Ascending(xs) && policy.passes <= MAX_U32
    ensures Check(xs, now, policy).None? <==>
              && policy.passes > 0 && |Counted(xs, now, policy)| < policy.passes
              && forall t :: t in Counted(xs, now, policy) ==> t + policy.cooldownSeconds <= now
    ensures Remaining(xs, now, policy) == Max(policy.passes - |Counted(xs, now, policy)|, 0)
  {
    hide Recent, Counted, Largest, Smallest;
    RecentAreCounted(xs, now, policy);
    var recent := Recent(xs, now, policy);
    if recent != [] {
      LargestFacts(recent);
    }
  }

  /**
   * A refusal names its reason: no passes; a cooldown, until a cooldown after the last use counted; or the
   * quota, until the first one counted leaves the window.
   */
  lemma RefusalIsTrue(xs: seq<Timestamp>, now: Timestamp, policy: Policy)
    requires Ascending(xs) && policy.passes <= MAX_U32 && Check(xs, now, policy).Some?
    ensures var used := Counted(xs, now, policy);
            match Check(xs, now, policy).value
            case Disabled => policy.passes == 0
            case CoolingDown(until) =>
              && now < until && until - policy.cooldownSeconds in used
              && forall t :: t in used ==> t + policy.cooldownSeconds <= until
            case QuotaSpent(nextAt) =>
              && |used| >= policy.passes && nextAt - policy.windowSeconds in used
              && forall t :: t in used ==> nextAt <= t + policy.windowSeconds
  {
    hide Recent, Counted, Largest, Smallest;
    RecentAreCounted(xs, now, policy);
    var recent := Recent(xs, now, policy);
    if recent != [] {
      LargestFacts(recent);
    }
  }

  /**
   * A cooldown refuses until the instant it names, or until the use it is about leaves the window; from
   * that instant on only the quota can refuse.
   */
  lemma CooldownRefusalIsExact(xs: seq<Timestamp>, now: Timestamp, t: Timestamp, policy: Policy)
    requires Ascending(xs) && policy.passes <= MAX_U32 && now <= t
    requires Check(xs, now, policy).Some? && Check(xs, now, policy).value.CoolingDown?
    ensures var until := Check(xs, now, policy).value.until;
            && (t < until && t < until - policy.cooldownSeconds + policy.windowSeconds ==> Check(xs, t, policy).Some?)
            && (until <= t ==> (Check(xs, t, policy).None? <==> |Counted(xs, t, policy)| < policy.passes))
  {
    hide Check;
    RefusalIsTrue(xs, now, policy);
    GrantedExactlyWhen(xs, now, policy);
    GrantedExactlyWhen(xs, t, policy);
    SomePasses(xs, now, policy);
    SomePasses(xs, t, policy);
    var until := Check(xs, now, policy).value.until;
    if t < until && t < until - policy.cooldownSeconds + policy.windowSeconds {
      assert until - policy.cooldownSeconds in Counted(xs, t, policy);
    }
    forall u | u in Counted(xs, t, policy) ensures u in Counted(xs, now, policy) {
    }
  }

  lemma SomePasses(xs: seq<Timestamp>, now: Timestamp, policy: Policy)
    ensures Check(xs, now, policy) == Some(Disabled) <==> policy.passes == 0
  {
  }

  /** The cooldown is looked for only among uses inside the quota window. */
  lemma CooldownEndsWithTheWindow(at: Timestamp, policy: Policy)
    requires policy.passes > 0
    ensures Check([at], at + policy.windowSeconds, policy).None?
  {
    assert [at][1..] == [];
    LaterFacts([at], at);
    assert Later([at], at) == [];
  }
}
