/** What each session operation does to the one session a profile can have. */
module SessionFacts {
  import opened Basics
  import opened LockLattice
  import opened SessionStore

  /** At most one session per profile: what `Start` keeps, and every run therefore has. */
  predicate Unique(xs: seq<Session>) {
    forall i, j :: 0 <= i < j < |xs| ==> xs[i].profile != xs[j].profile
  }

  predicate Runs(st: Store, p: string) {
    ForProfile(st, p).Some?
  }

  // ----- Lookup and sorting -----

  lemma LookupIsMembership(st: Store, s: Session)
    requires Unique(st.running)
    ensures ForProfile(st, s.profile) == Some(s) <==> s in st.running
  {
    if s in st.running {
      var i :| 0 <= i < |st.running| && st.running[i] == s;
    }
  }

  lemma StringLeTotal(a: string, b: string)
    ensures StringLe(a, b) || StringLe(b, a)
  {
  }

  /** Byte order: the one text begins the other, or has the smaller character where they first differ. */
  lemma {:induction false} StringLeExactlyWhen(a: string, b: string)
    ensures StringLe(a, b) <==>
              exists k :: 0 <= k <= |a| && k <= |b| && a[..k] == b[..k] && (k == |a| || (k < |b| && a[k] < b[k]))
  {
    if a == [] {
      assert a[..0] == b[..0];
    } else if b != [] {
      if a[0] == b[0] {
        StringLeExactlyWhen(a[1..], b[1..]);
        forall k | 0 < k <= |a| && k <= |b| ensures a[..k] == b[..k] <==> a[1..][..k - 1] == b[1..][..k - 1] {
          assert a[..k] == [a[0]] + a[1..][..k - 1] && b[..k] == [b[0]] + b[1..][..k - 1];
        }
        if StringLe(a, b) {
          var k :| 0 <= k <= |a| - 1 && k <= |b| - 1 && a[1..][..k] == b[1..][..k]
                   && (k == |a| - 1 || (k < |b| - 1 && a[1..][k] < b[1..][k]));
          assert a[..k + 1] == b[..k + 1];
        }
      } else {
        assert a[..0] == b[..0];
        forall k | 0 < k <= |a| && k <= |b| ensures a[..k] != b[..k] {
          assert a[..k][0] != b[..k][0];
        }
      }
    }
  }

  lemma {:induction false} StringLeTrans(a: string, b: string, c: string)
    requires StringLe(a, b) && StringLe(b, c)
    ensures StringLe(a, c)
  {
    if a != [] && a[0] == b[0] == c[0] {
      StringLeTrans(a[1..], b[1..], c[1..]);
    }
  }

  lemma {:induction false} StringLeAntisym(a: string, b: string)
    requires StringLe(a, b) && StringLe(b, a)
    ensures a == b
  {
    if a != [] && b != [] {
      StringLeAntisym(a[1..], b[1..]);
      assert a == [a[0]] + a[1..] && b == [b[0]] + b[1..];
    }
  }

  lemma {:induction false} InsertSplits(xs: seq<Session>, s: Session) returns (k: nat)
    ensures k <= |xs| && InsertById(xs, s) == xs[..k] + [s] + xs[k..]
  {
    if xs == [] {
      k := 0;
    } else if StringLe(xs[|xs| - 1].id, s.id) {
      k := |xs|;
    } else {
      var n := |xs| - 1;
      k := InsertSplits(xs[..n], s);
      assert xs[..n][..k] == xs[..k] && xs[..n][k..] + [xs[n]] == xs[k..];
    }
  }

  /** The sort returns the same sessions in id order. */
  lemma {:induction false} SortIsASort(xs: seq<Session>)
    ensures SortedById(SortById(xs))
    ensures multiset(SortById(xs)) == multiset(xs)
  {
    hide StringLe, InsertById;
    if xs == [] {
    } else {
      var n := |xs| - 1;
      SortIsASort(xs[..n]);
      InsertKeepsOrder(SortById(xs[..n]), xs[n]);
      InsertIsAddition(SortById(xs[..n]), xs[n]);
      assert xs == xs[..n] + [xs[n]];
    }
  }

  lemma {:induction false} InsertIsAddition(xs: seq<Session>, s: Session)
    ensures multiset(InsertById(xs, s)) == multiset(xs) + multiset{s}
  {
    hide StringLe;
    if xs != [] && !StringLe(xs[|xs| - 1].id, s.id) {
      InsertIsAddition(xs[..|xs| - 1], s);
      assert xs == xs[..|xs| - 1] + [xs[|xs| - 1]];
    }
  }

  lemma {:induction false} InsertKeepsOrder(xs: seq<Session>, s: Session)
    requires SortedById(xs)
    ensures SortedById(InsertById(xs, s))
    ensures InsertById(xs, s) != []
    ensures var last := InsertById(xs, s)[|InsertById(xs, s)| - 1];
            last == s || (xs != [] && last == xs[|xs| - 1])
  {
    if xs != [] && !StringLe(xs[|xs| - 1].id, s.id) {
      InsertKeepsOrder(xs[..|xs| - 1], s);
      StringLeTotal(xs[|xs| - 1].id, s.id);
    }
  }

  lemma {:induction false} SortMembers(xs: seq<Session>)
    requires Unique(xs)
    ensures Unique(SortById(xs))
    ensures forall s :: s in SortById(xs) <==> s in xs
  {
    if xs == [] {
    } else {
      var n := |xs| - 1;
      SortMembers(xs[..n]);
      LastIsNew(xs);
      InsertMembers(SortById(xs[..n]), xs[n]);
      assert xs == xs[..n] + [xs[n]];
    }
  }

  lemma LastIsNew(xs: seq<Session>)
    requires Unique(xs) && xs != []
    ensures forall t :: t in xs[..|xs| - 1] ==> t.profile != xs[|xs| - 1].profile
  {
  }

  lemma InsertMembers(xs: seq<Session>, s: Session)
    requires Unique(xs) && forall t :: t in xs ==> t.profile != s.profile
    ensures Unique(InsertById(xs, s))
    ensures forall t :: t in InsertById(xs, s) <==> t == s || t in xs
  {
    hide InsertById;
    var k := InsertSplits(xs, s);
    var ys := xs[..k] + [s] + xs[k..];
    assert forall j :: 0 <= j < |ys| ==> ys[j] == if j < k then xs[j] else if j == k then s else xs[j - 1];
    assert ys[k] == s;
    forall t | t in xs ensures t in ys {
      var j :| 0 <= j < |xs| && xs[j] == t;
      assert ys[if j < k then j else j + 1] == t;
    }
  }

  // ----- Start, restore -----

  lemma StartFacts(st: Store, s: Session)
    requires Unique(st.running)
    ensures Unique(Start(st, s).running)
    ensures Start(st, s).dismissed == st.dismissed
    ensures forall p :: p != s.profile ==> ForProfile(Start(st, s), p) == ForProfile(st, p)
    ensures ForProfile(Start(st, s), s.profile) ==
              match ForProfile(st, s.profile)
              case None => Some(s)
              case Some(h) => Some(h.(lock := h.lock.Merge(s.lock), startedAt := Min(h.startedAt, s.startedAt)))
  {
    var st' := Start(st, s);
    var i := ProfileIndex(st.running, s.profile);
    if i < |st.running| {
      forall p ensures p != s.profile ==> ForProfile(st', p) == ForProfile(st, p) {
        UpdateKeepsOthers(st, st', i, p);
      }
      LookupIsMembership(st', st'.running[i]);
    } else {
      PushedFacts(st, s);
    }
  }

  /** A session of a profile that has none is added to the others. */
  lemma PushedFacts(st: Store, s: Session)
    requires Unique(st.running) && !Runs(st, s.profile)
    ensures var st' := Store(SortById(st.running + [s]), st.dismissed);
            Unique(st'.running)
            && forall p :: ForProfile(st', p) == if p == s.profile then Some(s) else ForProfile(st, p)
  {
    hide SortById;
    var pushed := Store(st.running + [s], st.dismissed);
    var st' := Store(SortById(pushed.running), st.dismissed);
    SortMembers(pushed.running);
    forall p ensures ForProfile(st', p) == if p == s.profile then Some(s) else ForProfile(st, p) {
      SameMembersSameLookup(pushed, st', p);
      if p == s.profile {
        LookupIsMembership(pushed, s);
      } else if Runs(st, p) {
        LookupIsMembership(pushed, ForProfile(st, p).value);
      }
    }
  }

  lemma UpdateKeepsOthers(st: Store, st': Store, i: nat, p: string)
    requires i < |st.running| && |st'.running| == |st.running|
    requires forall j :: 0 <= j < |st.running| && j != i ==> st'.running[j] == st.running[j]
    requires st'.running[i].profile == st.running[i].profile
    requires Unique(st.running)
    ensures Unique(st'.running)
    ensures p != st.running[i].profile ==> ForProfile(st', p) == ForProfile(st, p)
    ensures ForProfile(st', st.running[i].profile) == Some(st'.running[i])
  {
    assert st'.running[i] in st'.running;
    LookupIsMembership(st', st'.running[i]);
    if p != st.running[i].profile {
      SameProfilesSameIndex(st.running, st'.running, p);
    }
  }

  lemma SameProfilesSameIndex(xs: seq<Session>, ys: seq<Session>, p: string)
    requires |xs| == |ys| && forall j :: 0 <= j < |xs| ==> xs[j].profile == ys[j].profile
    ensures ProfileIndex(xs, p) == ProfileIndex(ys, p)
  {
  }

  lemma SameMembersSameLookup(st: Store, st': Store, p: string)
    requires Unique(st.running) && Unique(st'.running)
    requires forall s :: s in st.running <==> s in st'.running
    ensures ForProfile(st, p) == ForProfile(st', p)
  {
    if Runs(st, p) {
      LookupIsMembership(st', ForProfile(st, p).value);
    }
  }

  lemma RestoreOneFacts(st: Store, s: Session)
    requires Unique(st.running)
    ensures Unique(RestoreOne(st, s).running)
    ensures RestoreOne(st, s).dismissed == st.dismissed
    ensures forall p :: p != s.profile ==> ForProfile(RestoreOne(st, s), p) == ForProfile(st, p)
    ensures ForProfile(RestoreOne(st, s), s.profile) ==
              match ForProfile(st, s.profile)
              case None => if DismissalCovers(st, s) then None else Some(s)
              case Some(h) => Some(h.(lock := h.lock.Harden(s.lock)))
  {
    var i := ProfileIndex(st.running, s.profile);
    if i < |st.running| {
      forall p ensures p != s.profile ==> ForProfile(RestoreOne(st, s), p) == ForProfile(st, p) {
        UpdateKeepsOthers(st, RestoreOne(st, s), i, p);
      }
      UpdateKeepsOthers(st, RestoreOne(st, s), i, s.profile);
    } else {
      StartFacts(st, s);
    }
  }

  /** A restore ends nothing and weakens nothing, whatever the stored copy says. */
  lemma {:induction false} RestoreNeverWeakens(st: Store, incoming: Store, p: string)
    requires Unique(st.running)
    ensures Unique(Restore(st, incoming).running)
    ensures Runs(st, p) ==>
              && Runs(Restore(st, incoming), p)
              && StillHolds(ForProfile(st, p).value.lock, ForProfile(Restore(st, incoming), p).value.lock, {})
              && ForProfile(Restore(st, incoming), p).value.startedAt == ForProfile(st, p).value.startedAt
    ensures forall q :: q in Restore(st, incoming).dismissed <==> q in st.dismissed || q in incoming.dismissed
    ensures forall q :: q in Restore(st, incoming).dismissed ==>
              Restore(st, incoming).dismissed[q] == if q in st.dismissed then st.dismissed[q] else incoming.dismissed[q]
  {
    RestoreAllFacts(st, incoming.running, p);
    var adopted := RestoreAll(st, incoming.running);
    SameMembersSameLookup(adopted, Restore(st, incoming), p);
  }

  lemma {:induction false} RestoreAllFacts(st: Store, incoming: seq<Session>, p: string)
    requires Unique(st.running)
    ensures Unique(RestoreAll(st, incoming).running)
    ensures RestoreAll(st, incoming).dismissed == st.dismissed
    ensures Runs(st, p) ==>
              && Runs(RestoreAll(st, incoming), p)
              && StillHolds(ForProfile(st, p).value.lock, ForProfile(RestoreAll(st, incoming), p).value.lock, {})
              && ForProfile(RestoreAll(st, incoming), p).value.startedAt == ForProfile(st, p).value.startedAt
  {
    if incoming == [] {
    } else {
      RestoreAllFacts(st, incoming[..|incoming| - 1], p);
      RestoreOneFacts(RestoreAll(st, incoming[..|incoming| - 1]), incoming[|incoming| - 1]);
    }
  }

  /** A restore does not bring back a profile while the ending held here falls inside every stored session of it. */
  lemma {:induction false} RestoreDoesNotRevive(st: Store, incoming: Store, p: string)
    requires Unique(st.running) && !Runs(st, p)
    requires forall s :: s in incoming.running && s.profile == p ==>
               && p in st.dismissed && s.startedAt <= st.dismissed[p]
               && (s.lock.endsAt.Some? ==> st.dismissed[p] < s.lock.endsAt.value)
    ensures !Runs(Restore(st, incoming), p)
  {
    RestoreAllSkips(st, incoming.running, p);
    RestoreAllFacts(st, incoming.running, p);
    SameMembersSameLookup(RestoreAll(st, incoming.running), Restore(st, incoming), p);
  }

  lemma {:induction false} RestoreAllSkips(st: Store, incoming: seq<Session>, p: string)
    requires Unique(st.running) && !Runs(st, p)
    requires forall s :: s in incoming && s.profile == p ==> DismissalCovers(st, s)
    ensures !Runs(RestoreAll(st, incoming), p)
  {
    if incoming == [] {
    } else {
      var n := |incoming| - 1;
      RestoreAllSkips(st, incoming[..n], p);
      RestoreAllFacts(st, incoming[..n], p);
      RestoreOneFacts(RestoreAll(st, incoming[..n]), incoming[n]);
    }
  }

  // ----- End, request, reap -----

  lemma WithoutFacts(st: Store, i: nat, dismissed: map<string, Timestamp>, p: string)
    requires i < |st.running| && Unique(st.running)
    ensures Unique(Store(Without(st.running, i), dismissed).running)
    ensures ForProfile(Store(Without(st.running, i), dismissed), p) ==
              if p == st.running[i].profile then None else ForProfile(st, p)
  {
    WithoutMembers(st, i);
    var st' := Store(Without(st.running, i), dismissed);
    hide Without;
    if p != st.running[i].profile && Runs(st, p) {
      LookupIsMembership(st', ForProfile(st, p).value);
    }
  }

  lemma WithoutMembers(st: Store, i: nat)
    requires i < |st.running| && Unique(st.running)
    ensures Unique(Without(st.running, i))
    ensures forall s :: s in Without(st.running, i) <==> s in st.running && s != st.running[i]
  {
    var rest := Without(st.running, i);
    assert forall s :: s in rest <==> s in st.running && s != st.running[i] by {
      forall s | s in st.running && s != st.running[i] ensures s in rest {
        var j :| 0 <= j < |st.running| && st.running[j] == s;
        assert rest[if j < i then j else j - 1] == s;
      }
    }
  }

  /** The session `id` names, when one does. */
  function Named(st: Store, id: string): Option<Session> {
    var i := IdIndex(st.running, id);
    if i < |st.running| then Some(st.running[i]) else None
  }

  lemma NamedIsLooked(st: Store, id: string)
    requires Unique(st.running) && Named(st, id).Some?
    ensures ForProfile(st, Named(st, id).value.profile) == Named(st, id)
  {
    LookupIsMembership(st, Named(st, id).value);
  }

  /** Ending succeeds exactly when the lock opens, removes that session alone, and remembers when. */
  lemma EndFacts(st: Store, id: string, now: Timestamp, ev: set<Lock>)
    requires Unique(st.running)
    ensures var (st', r) := End(st, id, now, ev);
            && Unique(st'.running)
            && (r.Ok? <==> Named(st, id).Some? && Named(st, id).value.lock.CanRelease(now, ev))
            && (r.Err? ==> st' == st)
            && (r.Ok? ==>
                  && r.value == Named(st, id).value
                  && st'.dismissed == st.dismissed[r.value.profile := ClampedInto(r.value, now)]
                  && forall p :: ForProfile(st', p) == if p == r.value.profile then None else ForProfile(st, p))
  {
    var (st', r) := End(st, id, now, ev);
    if r.Ok? {
      forall p ensures ForProfile(st', p) == if p == r.value.profile then None else ForProfile(st, p) {
        WithoutFacts(st, IdIndex(st.running, id), st'.dismissed, p);
      }
      WithoutFacts(st, IdIndex(st.running, id), st'.dismissed, "");
    }
  }

  lemma RequestFacts(st: Store, id: string, now: Timestamp)
    requires Unique(st.running)
    ensures var (st', r) := RequestRelease(st, id, now);
            && Unique(st'.running) && st'.dismissed == st.dismissed
            && (r.Ok? <==> Named(st, id).Some?)
            && (r.Ok? ==> r.value <= now + DELAYED_RELEASE_SECONDS)
            && forall p :: ForProfile(st', p) ==
                 if Named(st, id).Some? && Named(st, id).value.profile == p
                 then Some(Named(st, id).value.(lock := Named(st, id).value.lock.RequestRelease(now)))
                 else ForProfile(st, p)
  {
    var (st', r) := RequestRelease(st, id, now);
    if r.Ok? {
      var i := IdIndex(st.running, id);
      UpdateKeepsOthers(st, st', i, "");
      forall p ensures p != st.running[i].profile ==> ForProfile(st', p) == ForProfile(st, p) {
        UpdateKeepsOthers(st, st', i, p);
      }
    }
  }

  lemma {:induction false} ReapFacts(st: Store, now: Timestamp)
    requires Unique(st.running)
    ensures Unique(Reap(st, now).running)
    ensures forall s :: s in Reap(st, now).running <==> s in st.running && !s.IsOver(now)
    ensures forall p :: ForProfile(Reap(st, now), p) ==
              if Runs(st, p) && ForProfile(st, p).value.IsOver(now) then None else ForProfile(st, p)
  {
    StillRunningMembers(st.running, now);
    forall p ensures ForProfile(Reap(st, now), p) ==
                       if Runs(st, p) && ForProfile(st, p).value.IsOver(now) then None else ForProfile(st, p) {
      if Runs(st, p) && !ForProfile(st, p).value.IsOver(now) {
        LookupIsMembership(Reap(st, now), ForProfile(st, p).value);
      } else if Runs(Reap(st, now), p) {
        LookupIsMembership(st, ForProfile(Reap(st, now), p).value);
      }
    }
  }

  /** Every session is either handed back as over or still running, as often as it was listed. */
  lemma {:induction false} ReapSplits(xs: seq<Session>, now: Timestamp)
    ensures multiset(Over(xs, now)) + multiset(StillRunning(xs, now)) == multiset(xs)
    ensures forall s :: s in Over(xs, now) <==> s in xs && s.IsOver(now)
  {
    if xs == [] {
    } else {
      ReapSplits(xs[..|xs| - 1], now);
      assert xs == xs[..|xs| - 1] + [xs[|xs| - 1]];
    }
  }

  lemma {:induction false} StillRunningMembers(xs: seq<Session>, now: Timestamp)
    requires Unique(xs)
    ensures Unique(StillRunning(xs, now))
    ensures forall s :: s in StillRunning(xs, now) <==> s in xs && !s.IsOver(now)
  {
    if xs == [] {
    } else {
      StillRunningMembers(xs[..|xs| - 1], now);
      LastIsNew(xs);
      assert xs == xs[..|xs| - 1] + [xs[|xs| - 1]];
    }
  }

  // ----- Reconcile -----

  lemma ReconcileOneFacts(st: Store, now: Timestamp, a: Activation, minted: string)
    requires Unique(st.running)
    ensures Unique(ReconcileOne(st, now, a, minted).running)
    ensures ReconcileOne(st, now, a, minted).dismissed == st.dismissed
    ensures forall p :: p != a.profile ==> ForProfile(ReconcileOne(st, now, a, minted), p) == ForProfile(st, p)
    ensures ForProfile(ReconcileOne(st, now, a, minted), a.profile) ==
              if Skips(st, now, a) then ForProfile(st, a.profile)
              else match ForProfile(st, a.profile)
                   case None => Some(SessionFor(st, now, a, minted))
                   case Some(h) => Some(h.(lock := h.lock.Merge(a.LockOf()), startedAt := Min(h.startedAt, now)))
  {
    StartFacts(st, SessionFor(st, now, a, minted));
  }

  /** What reconcile leaves of one profile: never a weaker lock, and never a session gone. */
  lemma {:induction false} ReconcileKeeps(st: Store, now: Timestamp, acts: seq<Activation>, mint: nat -> string,
                                          p: string)
    requires Unique(st.running)
    ensures var st' := Reconcile(st, now, acts, mint).0;
            && Unique(st'.running) && st'.dismissed == st.dismissed
            && (Runs(st, p) ==>
                  && Runs(st', p)
                  && StillHolds(ForProfile(st, p).value.lock, ForProfile(st', p).value.lock, {})
                  && ForProfile(st', p).value.startedAt <= ForProfile(st, p).value.startedAt
                  && (ForProfile(st, p).value.startedAt <= now ==>
                        ForProfile(st', p).value.startedAt == ForProfile(st, p).value.startedAt))
            && (!Runs(st, p) && Runs(st', p) ==> ForProfile(st', p).value.startedAt == now)
  {
    hide Reconcile, ReconcileOne, StillHolds;
    if acts == [] {
      NothingToReconcile(st, now, mint, p);
    } else {
      var n := |acts| - 1;
      ReconcileKeeps(st, now, acts[..n], mint, p);
      var minted := ReconcileLast(st, now, acts, mint);
      var before := Reconcile(st, now, acts[..n], mint).0;
      ReconcileOneKeeps(before, now, acts[n], minted, p);
      if Runs(st, p) {
        var none: set<Timestamp> := {};
        assert none + none == none;
        StillHoldsChains(ForProfile(st, p).value.lock, ForProfile(before, p).value.lock,
                         ForProfile(ReconcileOne(before, now, acts[n], minted), p).value.lock, none, none);
      }
    }
  }

  lemma NothingToReconcile(st: Store, now: Timestamp, mint: nat -> string, p: string)
    ensures Reconcile(st, now, [], mint).0 == st
    ensures Runs(st, p) ==> StillHolds(ForProfile(st, p).value.lock, ForProfile(st, p).value.lock, {})
  {
  }

  lemma ReconcileOneKeeps(st: Store, now: Timestamp, a: Activation, minted: string, p: string)
    requires Unique(st.running)
    ensures var st' := ReconcileOne(st, now, a, minted);
            && Unique(st'.running) && st'.dismissed == st.dismissed
            && (Runs(st, p) ==>
                  && Runs(st', p)
                  && StillHolds(ForProfile(st, p).value.lock, ForProfile(st', p).value.lock, {})
                  && ForProfile(st', p).value.startedAt <= ForProfile(st, p).value.startedAt
                  && (ForProfile(st, p).value.startedAt <= now ==>
                        ForProfile(st', p).value.startedAt == ForProfile(st, p).value.startedAt))
            && (!Runs(st, p) && Runs(st', p) ==> ForProfile(st', p).value.startedAt == now)
  {
    hide ReconcileOne, Skips;
    ReconcileOneFacts(st, now, a, minted);
  }

  lemma ReconcileLast(st: Store, now: Timestamp, acts: seq<Activation>, mint: nat -> string) returns (minted: string)
    requires acts != []
    ensures var n := |acts| - 1;
            Reconcile(st, now, acts, mint).0 ==
                ReconcileOne(Reconcile(st, now, acts[..n], mint).0, now, acts[n], minted)
  {
    hide Start, Skips;
    var n := |acts| - 1;
    var (before, started) := Reconcile(st, now, acts[..n], mint);
    minted := if ForProfile(before, acts[n].profile).Some? then "" else mint(|started|);
  }
}
