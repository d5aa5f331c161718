/** Proof that the machine was restarted: boot numbers derived from uptime, and first sightings. */
module BootRecord {
  import opened LockLattice
  import opened SessionStore

  datatype Counter = Counter(lastUptime: int, bootId: nat)

  const FRESH_COUNTER: Counter := Counter(0, 0)

  /** A reading belongs to a new boot when it is the first, or when uptime went backwards. */
  function ObserveUptime(c: Counter, uptime: int): Counter {
    Counter(uptime, if c.bootId == 0 || uptime < c.lastUptime then c.bootId + 1 else c.bootId)
  }

  function Ids(running: seq<Session>): set<string> {
    set s | s in running :: s.id
  }

  /** A live id keeps the boot it was sighted in, or gets this one; every other id goes. */
  function ObserveRunning(seen: map<string, nat>, bootId: nat, live: set<string>): map<string, nat> {
    map id | id in live :: if id in seen then seen[id] else bootId
  }

  predicate Restarted(seen: map<string, nat>, id: string, bootId: nat) {
    id in seen && seen[id] != bootId
  }

  function Evidence(seen: map<string, nat>, id: string, bootId: nat): set<Lock> {
    if Restarted(seen, id, bootId) then {RestartRequired} else {}
  }

  class BootCounter {
    var lastUptime: int
    var bootId: nat

    function View(): Counter
      reads this
    {
      Counter(lastUptime, bootId)
    }

    constructor ()
      ensures View() == FRESH_COUNTER
    {
      lastUptime, bootId := 0, 0;
    }

    method Observe(uptime: int) returns (id: nat)
      modifies this
      ensures View() == ObserveUptime(old(View()), uptime) && id == bootId
    {
      if bootId == 0 || uptime < lastUptime {
        bootId := bootId + 1;
      }
      lastUptime := uptime;
      id := bootId;
    }
  }

  class Boots {
    var seen: map<string, nat>

    constructor ()
      ensures seen == map[]
    {
      seen := map[];
    }

    method Observe(bootId: nat, running: seq<Session>)
      modifies this
      ensures seen == ObserveRunning(old(seen), bootId, Ids(running))
    {
      for i := 0 to |running|
        invariant seen.Keys == old(seen).Keys + Ids(running[..i])
        invariant forall id :: id in seen ==> seen[id] == if id in old(seen) then old(seen)[id] else bootId
      {
        if running[i].id !in seen {
          seen := seen[running[i].id := bootId];
        }
        assert running[..i + 1] == running[..i] + [running[i]];
      }
      assert running[..|running|] == running;
      seen := map id | id in seen && id in Ids(running) :: seen[id];
    }
  }

  // ----- What a history of readings proves -----

  /** One reading of uptime, and the ids of the sessions running when it was taken. */
  datatype Reading = Reading(uptime: int, live: set<string>)

  function CounterAfter(h: seq<Reading>): Counter {
    if h == [] then FRESH_COUNTER else ObserveUptime(CounterAfter(h[..|h| - 1]), h[|h| - 1].uptime)
  }

  function SeenAfter(h: seq<Reading>): map<string, nat> {
    if h == [] then map[]
    else ObserveRunning(SeenAfter(h[..|h| - 1]), CounterAfter(h).bootId, h[|h| - 1].live)
  }

  /** Every reading from `f` on saw the session. */
  predicate UnbrokenFrom(h: seq<Reading>, f: nat, id: string) {
    forall j :: f <= j < |h| ==> id in h[j].live
  }

  /** Uptime fell between readings `k - 1` and `k`, and every reading from the first of them on saw the session. */
  predicate FellAt(h: seq<Reading>, k: int, id: string) {
    0 < k < |h| && h[k].uptime < h[k - 1].uptime && UnbrokenFrom(h, k - 1, id)
  }

  /** Uptime fell between two consecutive readings that both saw the session, and none has missed it since. */
  predicate FellSinceSighting(h: seq<Reading>, id: string) {
    exists k :: 0 < k < |h| && FellAt(h, k, id)
  }

  lemma {:induction false} CounterTracksReadings(h: seq<Reading>)
    ensures h != [] ==> CounterAfter(h).lastUptime == h[|h| - 1].uptime && CounterAfter(h).bootId > 0
  {
    if h == [] {
    } else {
      CounterTracksReadings(h[..|h| - 1]);
    }
  }

  /** A fall since the sighting is the newest one, or an earlier one that the newest reading has not broken. */
  lemma FallIsNewestOrEarlier(h: seq<Reading>, id: string)
    requires |h| > 1
    ensures var n := |h| - 1;
            FellSinceSighting(h, id) <==>
              && id in h[n].live && id in h[n - 1].live
              && (h[n].uptime < h[n - 1].uptime || FellSinceSighting(h[..n], id))
  {
    var n := |h| - 1;
    var before := h[..n];
    if FellSinceSighting(h, id) {
      var k :| 0 < k < |h| && FellAt(h, k, id);
      assert id in h[n].live && id in h[n - 1].live;
      if k < n {
        assert FellAt(before, k, id);
      }
    }
    if id in h[n].live && id in h[n - 1].live {
      if h[n].uptime < h[n - 1].uptime {
        assert FellAt(h, n, id);
      } else if FellSinceSighting(before, id) {
        var k :| 0 < k < n && FellAt(before, k, id);
        assert FellAt(h, k, id);
      }
    }
  }

  lemma {:induction false} SeenTracksReadings(h: seq<Reading>, id: string)
    ensures id in SeenAfter(h) <==> h != [] && id in h[|h| - 1].live
    ensures id in SeenAfter(h) ==>
              && SeenAfter(h)[id] <= CounterAfter(h).bootId
              && (SeenAfter(h)[id] < CounterAfter(h).bootId <==> FellSinceSighting(h, id))
    ensures FellSinceSighting(h, id) ==> id in SeenAfter(h)
  {
    if |h| > 1 {
      hide FellSinceSighting;
      var n := |h| - 1;
      SeenTracksReadings(h[..n], id);
      CounterTracksReadings(h[..n]);
      FallIsNewestOrEarlier(h, id);
    }
  }

  /** Restart evidence exists exactly when an uptime reading fell since the unbroken sighting began. */
  lemma RestartIsProvedExactlyWhen(h: seq<Reading>, id: string)
    ensures Evidence(SeenAfter(h), id, CounterAfter(h).bootId)
         == if FellSinceSighting(h, id) then {RestartRequired} else {}
  {
    hide FellSinceSighting;
    SeenTracksReadings(h, id);
  }
}
