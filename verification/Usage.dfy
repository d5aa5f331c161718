/** The ledgers of use: seconds by target for budgets, opens by target for launch limits. */
module Usage {
  import opened Basics
  import opened Refills

  function RollupsFrom(rollups: seq<Rollup>, before: Timestamp): seq<Rollup> {
    if rollups == [] then []
    else
      var rest, last := RollupsFrom(rollups[..|rollups| - 1], before), rollups[|rollups| - 1];
      if last.at >= before then rest + [last] else rest
  }

  function OpensFrom(opens: seq<Timestamp>, before: Timestamp): seq<Timestamp> {
    if opens == [] then []
    else
      var rest, last := OpensFrom(opens[..|opens| - 1], before), opens[|opens| - 1];
      if last >= before then rest + [last] else rest
  }

  class Consumption {
    var rollups: seq<Rollup>

    constructor ()
      ensures rollups == []
    {
      rollups := [];
    }

    /** Recording adds its seconds to every window that is open at that instant, and to no other. */
    method Record(at: Timestamp, seconds: nat)
      modifies this
      ensures rollups == old(rollups) + [Rollup(at, seconds)]
      ensures forall from :: TotalSince(rollups, from) ==
                  TotalSince(old(rollups), from) + if from.None? || from.value <= at then seconds else 0
    {
      rollups := rollups + [Rollup(at, seconds)];
      assert rollups[..|rollups| - 1] == old(rollups);
    }

    method Prune(before: Timestamp)
      modifies this
      ensures rollups == RollupsFrom(old(rollups), before)
    {
      var kept: seq<Rollup> := [];
      for i := 0 to |rollups|
        invariant rollups == old(rollups) && kept == RollupsFrom(rollups[..i], before)
      {
        assert rollups[..i + 1][..i] == rollups[..i];
        if rollups[i].at >= before {
          kept := kept + [rollups[i]];
        }
      }
      assert rollups[..|rollups|] == rollups;
      rollups := kept;
    }
  }

  class Launches {
    var at: seq<Timestamp>

    constructor ()
      ensures at == []
    {
      at := [];
    }

    method Record(t: Timestamp)
      modifies this
      ensures at == old(at) + [t]
      ensures forall from :: CountOpens(at, from) ==
                  CountOpens(old(at), from) + if from.None? || from.value <= t then 1 else 0
    {
      at := at + [t];
      assert at[..|at| - 1] == old(at);
    }

    method Prune(before: Timestamp)
      modifies this
      ensures at == OpensFrom(old(at), before)
    {
      var kept: seq<Timestamp> := [];
      for i := 0 to |at|
        invariant at == old(at) && kept == OpensFrom(at[..i], before)
      {
        assert at[..i + 1][..i] == at[..i];
        if at[i] >= before {
          kept := kept + [at[i]];
        }
      }
      assert at[..|at|] == at;
      at := kept;
    }
  }

  // ----- What pruning can be seen by -----

  /** The start of what both a window and a pruning at `before` leave. */
  function LaterStart(from: Option<Timestamp>, before: Timestamp): Option<Timestamp> {
    if from.Some? then Some(Max(from.value, before)) else Some(before)
  }

  lemma InLaterWindow(t: Timestamp, before: Timestamp, from: Option<Timestamp>)
    ensures InWindow(t, LaterStart(from, before)) <==> t >= before && InWindow(t, from)
  {
  }

  lemma {:induction false} PrunedTotals(rollups: seq<Rollup>, before: Timestamp, from: Option<Timestamp>)
    ensures TotalSince(RollupsFrom(rollups, before), from) == TotalSince(rollups, LaterStart(from, before))
  {
    hide LaterStart, InWindow;
    if rollups == [] {
    } else {
      var n := |rollups| - 1;
      var last := rollups[n];
      PrunedTotals(rollups[..n], before, from);
      InLaterWindow(last.at, before, from);
      var rest := RollupsFrom(rollups[..n], before);
      assert (rest + [last])[..|rest|] == rest;
    }
  }

  lemma {:induction false} PrunedCounts(opens: seq<Timestamp>, before: Timestamp, from: Option<Timestamp>)
    ensures CountOpens(OpensFrom(opens, before), from) == CountOpens(opens, LaterStart(from, before))
  {
    hide LaterStart, InWindow;
    if opens == [] {
    } else {
      var n := |opens| - 1;
      PrunedCounts(opens[..n], before, from);
      InLaterWindow(opens[n], before, from);
      var rest := OpensFrom(opens[..n], before);
      assert (rest + [opens[n]])[..|rest|] == rest;
    }
  }

  /**
   * Dropping what is older than the window open at `now` changes no answer at that or any later
   * instant, for any refill that ever starts over.
   */
  lemma PruningIsInvisible(rollups: seq<Rollup>, opens: seq<Timestamp>, refill: Refill, now: Timestamp,
                           later: Timestamp, offset: int)
    requires refill != Never && now <= later
    ensures var before, from := WindowStart(refill, now, offset).value, WindowStart(refill, later, offset);
            && UsedSince(RollupsFrom(rollups, before), from) == UsedSince(rollups, from)
            && OpensSince(OpensFrom(opens, before), from) == OpensSince(opens, from)
  {
    WindowStartIsMonotone(refill, now, later, offset);
    var before, from := WindowStart(refill, now, offset).value, WindowStart(refill, later, offset);
    assert from.Some? && before <= from.value;
    hide WindowStart;
    PrunedTotals(rollups, before, from);
    PrunedCounts(opens, before, from);
    SpentExactlyWhen(rollups, from, 0);
    SpentExactlyWhen(RollupsFrom(rollups, before), from, 0);
  }

  /**
   * A ration that never refills sees pruning. The answers stay exactly when nothing dropped had been
   * used or what is left still fills the counter, and when the opens dropped are a whole turn of theirs.
   */
  lemma NeverSeesPruning(rollups: seq<Rollup>, opens: seq<Timestamp>, before: Timestamp)
    ensures UsedSince(RollupsFrom(rollups, before), None) == UsedSince(rollups, None) <==>
              || (forall r :: r in rollups && r.at < before ==> r.seconds == 0)
              || TotalSince(rollups, Some(before)) >= MAX_U32
    ensures OpensSince(OpensFrom(opens, before), None) == OpensSince(opens, None) <==>
              CountBefore(opens, before) % (MAX_U32 + 1) == 0
  {
    PrunedTotals(rollups, before, None);
    UsedBefore(rollups, before);
    SpentExactlyWhen(rollups, None, 0);
    SpentExactlyWhen(RollupsFrom(rollups, before), None, 0);
    PrunedCounts(opens, before, None);
    CountsSplit(opens, before);
    WholeTurns(CountOpens(opens, Some(before)), CountBefore(opens, before));
  }

  /** How many opens are older than `before`. */
  function CountBefore(opens: seq<Timestamp>, before: Timestamp): nat {
    if opens == [] then 0
    else CountBefore(opens[..|opens| - 1], before) + if opens[|opens| - 1] < before then 1 else 0
  }

  lemma {:induction false} CountsSplit(opens: seq<Timestamp>, before: Timestamp)
    ensures CountOpens(opens, None) == CountOpens(opens, Some(before)) + CountBefore(opens, before)
  {
    if opens == [] {
    } else {
      CountsSplit(opens[..|opens| - 1], before);
    }
  }

  lemma WholeTurns(kept: nat, dropped: nat)
    ensures kept % (MAX_U32 + 1) == (kept + dropped) % (MAX_U32 + 1) <==> dropped % (MAX_U32 + 1) == 0
  {
  }

  lemma {:induction false} UsedBefore(rollups: seq<Rollup>, before: Timestamp)
    ensures TotalSince(rollups, Some(before)) <= TotalSince(rollups, None)
    ensures TotalSince(rollups, Some(before)) == TotalSince(rollups, None) <==>
              forall r :: r in rollups && r.at < before ==> r.seconds == 0
  {
    if rollups == [] {
    } else {
      var n := |rollups| - 1;
      UsedBefore(rollups[..n], before);
      assert rollups == rollups[..n] + [rollups[n]];
    }
  }

  /** Two devices that merge the same rollups in different orders count the same. */
  lemma OrderNeverCounts(a: seq<Rollup>, b: seq<Rollup>, from: Option<Timestamp>)
    ensures UsedSince(a + b, from) == UsedSince(b + a, from)
  {
    TotalsAdd(a, b, from);
    TotalsAdd(b, a, from);
    SpentExactlyWhen(a + b, from, 0);
    SpentExactlyWhen(b + a, from, 0);
  }

  lemma {:induction false} TotalsAdd(a: seq<Rollup>, b: seq<Rollup>, from: Option<Timestamp>)
    ensures TotalSince(a + b, from) == TotalSince(a, from) + TotalSince(b, from)
  {
    if b == [] {
      assert a + b == a;
    } else {
      var n := |b| - 1;
      TotalsAdd(a, b[..n], from);
      assert (a + b)[..|a| + n] == a + b[..n];
    }
  }
}
