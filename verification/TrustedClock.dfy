/** Trusted time: what a device can prove about elapsed time without a server. */
module TrustedClock {
  import opened Basics

  /** Drift of the wall clock up to this many seconds is not reported. */
  const TOLERANCE_SECONDS: int := 60

  datatype Reading = Reading(wall: Timestamp, uptime: int, bootId: nat)

  datatype Verdict = Verdict(now: Timestamp, refusedForward: int, refusedBackward: int, unverified: int)

  datatype Witness = Witness(lastWall: Timestamp, lastUptime: int, lastBootId: nat, trusted: Timestamp)

  function First(r: Reading): Witness {
    Witness(r.wall, r.uptime, r.bootId, r.wall)
  }

  predicate Rebooted(w: Witness, r: Reading) {
    r.bootId != w.lastBootId || r.uptime < w.lastUptime
  }

  function Judge(w: Witness, r: Reading): Verdict {
    var wallDelta := r.wall - w.lastWall;
    if Rebooted(w, r) then
      if wallDelta > TOLERANCE_SECONDS then Verdict(w.trusted + wallDelta, 0, 0, wallDelta)
      else if wallDelta < -TOLERANCE_SECONDS then Verdict(w.trusted, 0, -wallDelta, 0)
      else Verdict(w.trusted, 0, 0, 0)
    else
      var elapsed := r.uptime - w.lastUptime;
      var drift := wallDelta - elapsed;
      Verdict(w.trusted + elapsed,
              if drift > TOLERANCE_SECONDS then drift else 0,
              if drift < -TOLERANCE_SECONDS then -drift else 0,
              0)
  }

  function Observe(w: Witness, r: Reading): Witness {
    Witness(r.wall, r.uptime, r.bootId, Judge(w, r).now)
  }

  /** Whether taking `incoming` in place of `w` is refused. */
  predicate AdoptionMovesForward(w: Witness, incoming: Witness) {
    || incoming.trusted > w.trusted
    || incoming.lastWall < w.lastWall
    || (incoming.lastBootId == w.lastBootId && incoming.lastUptime < w.lastUptime)
  }

  class ClockWitness {
    var lastWall: Timestamp
    var lastUptime: int
    var lastBootId: nat
    var trusted: Timestamp

    function View(): Witness
      reads this
    {
      Witness(lastWall, lastUptime, lastBootId, trusted)
    }

    constructor (r: Reading)
      ensures View() == First(r)
    {
      lastWall, lastUptime, lastBootId, trusted := r.wall, r.uptime, r.bootId, r.wall;
    }

    method TakeReading(r: Reading) returns (verdict: Verdict)
      modifies this
      ensures View() == Observe(old(View()), r) && verdict == Judge(old(View()), r)
      ensures trusted >= old(trusted)
    {
      var rebooted := r.bootId != lastBootId || r.uptime < lastUptime;
      var wallDelta := r.wall - lastWall;
      verdict := Verdict(trusted, 0, 0, 0);
      if rebooted {
        if wallDelta > TOLERANCE_SECONDS {
          verdict := verdict.(unverified := wallDelta, now := trusted + wallDelta);
        } else if wallDelta < -TOLERANCE_SECONDS {
          verdict := verdict.(refusedBackward := -wallDelta);
        }
      } else {
        var elapsed := r.uptime - lastUptime;
        verdict := verdict.(now := trusted + elapsed);
        var drift := wallDelta - elapsed;
        if drift > TOLERANCE_SECONDS {
          verdict := verdict.(refusedForward := drift);
        } else if drift < -TOLERANCE_SECONDS {
          verdict := verdict.(refusedBackward := -drift);
        }
      }
      verdict := verdict.(now := Max(verdict.now, trusted));
      lastWall, lastUptime, lastBootId, trusted := r.wall, r.uptime, r.bootId, verdict.now;
    }
  }

  // ----- Runs of readings -----

  function Run(w: Witness, rs: seq<Reading>): Witness {
    if rs == [] then w else Observe(Run(w, rs[..|rs| - 1]), rs[|rs| - 1])
  }

  /** The reading before the last of `rs`: one of them, or what the witness was left with. */
  function Before(w: Witness, rs: seq<Reading>): Reading
    requires rs != []
  {
    if |rs| == 1 then Reading(w.lastWall, w.lastUptime, w.lastBootId) else rs[|rs| - 2]
  }

  /** Two readings of one boot: the same boot id, and an uptime that did not fall. */
  predicate SameBoot(a: Reading, b: Reading) {
    a.bootId == b.bootId && a.uptime <= b.uptime
  }

  /** The uptime that passed within boots, from reading to reading. */
  function UptimeWithinBoots(w: Witness, rs: seq<Reading>): int {
    if rs == [] then 0
    else
      var a, b := Before(w, rs), rs[|rs| - 1];
      UptimeWithinBoots(w, rs[..|rs| - 1]) + if SameBoot(a, b) then b.uptime - a.uptime else 0
  }

  /** The wall time that passed from one boot to the next, where it was more than a minute. */
  function WallAcrossBoots(w: Witness, rs: seq<Reading>): int {
    if rs == [] then 0
    else
      var a, b := Before(w, rs), rs[|rs| - 1];
      WallAcrossBoots(w, rs[..|rs| - 1]) + if !SameBoot(a, b) && b.wall - a.wall > 60 then b.wall - a.wall else 0
  }

  lemma RunRemembersTheLast(w: Witness, rs: seq<Reading>)
    requires rs != []
    ensures var last := Run(w, rs[..|rs| - 1]);
            Before(w, rs) == Reading(last.lastWall, last.lastUptime, last.lastBootId)
  {
  }

  /** Trusted time never goes back, and is uptime within boots and wall time across them, and nothing else. */
  lemma {:induction false} TrustedTimeIsAccountedFor(w: Witness, rs: seq<Reading>)
    ensures Run(w, rs).trusted == w.trusted + UptimeWithinBoots(w, rs) + WallAcrossBoots(w, rs)
    ensures UptimeWithinBoots(w, rs) >= 0 && WallAcrossBoots(w, rs) >= 0
    ensures forall k :: 0 <= k <= |rs| ==> Run(w, rs[..k]).trusted <= Run(w, rs).trusted
  {
    if rs == [] {
    } else {
      var n := |rs| - 1;
      TrustedTimeIsAccountedFor(w, rs[..n]);
      RunRemembersTheLast(w, rs);
      forall k | 0 <= k <= |rs| ensures Run(w, rs[..k]).trusted <= Run(w, rs).trusted {
        if k <= n {
          assert rs[..n][..k] == rs[..k];
        } else {
          assert rs[..k] == rs;
        }
      }
    }
  }

  /** A clock that never was read before believes its first reading, and counts on from it. */
  lemma FirstReadingIsBelieved(r: Reading, rs: seq<Reading>)
    ensures Run(First(r), rs).trusted == r.wall + UptimeWithinBoots(First(r), rs) + WallAcrossBoots(First(r), rs)
    ensures |rs| == 1 ==> Before(First(r), rs) == r
  {
    TrustedTimeIsAccountedFor(First(r), rs);
  }

  /**
   * A verdict accounts for every second of the wall clock: it was trusted, or reported refused one way or
   * the other, but for a minute of tolerance, which is kept only where nothing is reported.
   */
  lemma VerdictAccountsForTheWall(w: Witness, r: Reading)
    ensures var v := Judge(w, r);
            var slack := r.wall - w.lastWall - (v.now - w.trusted) - v.refusedForward + v.refusedBackward;
            && v.now >= w.trusted && v.refusedForward >= 0 && v.refusedBackward >= 0
            && -60 <= slack <= 60
            && (v.refusedForward > 0 || v.refusedBackward > 0 || v.unverified > 0 ==> slack == 0)
            && (v.refusedForward > 0 ==> v.refusedForward > 60 && v.refusedBackward == 0)
            && (v.refusedBackward > 0 ==> v.refusedBackward > 60)
            && v.unverified == if SameBoot(Reading(w.lastWall, w.lastUptime, w.lastBootId), r) then 0
                               else v.now - w.trusted
  {
  }

  /** Every reading is from the boot of `w`, with uptime never falling. */
  ghost predicate OneBoot(w: Witness, rs: seq<Reading>) {
    && (forall k :: 0 <= k < |rs| ==> rs[k].bootId == w.lastBootId && rs[k].uptime >= w.lastUptime)
    && (forall j, k :: 0 <= j < k < |rs| ==> rs[j].uptime <= rs[k].uptime)
  }

  /** Within one boot the wall clock does not matter at all: only uptime moves trusted time. */
  lemma {:induction false} WallIsIgnoredWithinABoot(w: Witness, rs: seq<Reading>)
    requires OneBoot(w, rs) && rs != []
    ensures Run(w, rs).trusted == w.trusted + rs[|rs| - 1].uptime - w.lastUptime
    ensures Run(w, rs).lastUptime == rs[|rs| - 1].uptime && Run(w, rs).lastBootId == w.lastBootId
  {
    var n := |rs| - 1;
    if n == 0 {
      assert rs[..0] == [];
      assert Run(w, []) == w;
    } else {
      WallIsIgnoredWithinABoot(w, rs[..n]);
    }
  }

  // ----- Adopting a stored witness -----

  /** Two witnesses that differ only in how far trusted time has come stay that way. */
  lemma {:induction false} LagIsKept(a: Witness, b: Witness, rs: seq<Reading>)
    requires a.(trusted := 0) == b.(trusted := 0)
    ensures Run(a, rs).trusted - Run(b, rs).trusted == a.trusted - b.trusted
    ensures Run(a, rs).(trusted := 0) == Run(b, rs).(trusted := 0)
  {
    if rs == [] {
    } else {
      LagIsKept(a, b, rs[..|rs| - 1]);
    }
  }

  lemma {:induction false} RunSplitsFirst(w: Witness, rs: seq<Reading>)
    requires rs != []
    ensures Run(w, rs) == Run(Observe(w, rs[0]), rs[1..])
  {
    var n := |rs| - 1;
    if n == 0 {
      assert rs[..0] == [] && rs[1..] == [];
      assert Run(w, []) == w;
    } else {
      RunSplitsFirst(w, rs[..n]);
      assert rs[..n][1..] == rs[1..][..n - 1];
    }
  }

  /**
   * A stored witness is taken when its trusted time is not ahead, its wall clock not behind and, for a
   * witness of the same boot, its uptime not behind; and then only.
   */
  lemma TakesExactlyWhen(w: Witness, incoming: Witness)
    ensures !AdoptionMovesForward(w, incoming) <==>
              && incoming.trusted <= w.trusted && w.lastWall <= incoming.lastWall
              && (incoming.lastBootId == w.lastBootId ==> w.lastUptime <= incoming.lastUptime)
    ensures !AdoptionMovesForward(w, w)
  {
  }

  /**
   * An accepted witness of the same boot, followed by a reading of a new boot or of no smaller
   * uptime, leaves trusted time at or behind the run that never adopted it, for ever after.
   */
  lemma AdoptionNeverGains(w: Witness, incoming: Witness, rs: seq<Reading>)
    requires !AdoptionMovesForward(w, incoming) && incoming.lastBootId == w.lastBootId
    requires rs != [] ==> rs[0].bootId != incoming.lastBootId || rs[0].uptime >= incoming.lastUptime
    ensures Run(incoming, rs).trusted <= Run(w, rs).trusted
  {
    if rs != [] {
      var a, b := Observe(incoming, rs[0]), Observe(w, rs[0]);
      RunSplitsFirst(incoming, rs);
      RunSplitsFirst(w, rs);
      LagIsKept(a, b, rs[1..]);
    }
  }

  /**
   * The guard alone is not enough. An accepted witness can never gain, whatever reading comes next,
   * exactly when it is of the same boot and the same uptime.
   */
  lemma AdoptionIsSafeExactlyWhen(w: Witness, incoming: Witness)
    requires !AdoptionMovesForward(w, incoming)
    ensures (forall rs :: Run(incoming, rs).trusted <= Run(w, rs).trusted)
       <==> incoming.lastBootId == w.lastBootId && incoming.lastUptime == w.lastUptime
  {
    if incoming.lastBootId == w.lastBootId && incoming.lastUptime == w.lastUptime {
      forall rs ensures Run(incoming, rs).trusted <= Run(w, rs).trusted {
        if rs != [] {
          RunSplitsFirst(incoming, rs);
          RunSplitsFirst(w, rs);
          LagIsKept(Observe(incoming, rs[0]), Observe(w, rs[0]), rs[1..]);
        }
      }
    } else {
      var gain := w.trusted - incoming.trusted + TOLERANCE_SECONDS + 1;
      var r :=
        if incoming.lastBootId == w.lastBootId
        then Reading(incoming.lastWall + gain + incoming.lastUptime - w.lastUptime, w.lastUptime, w.lastBootId)
        else Reading(w.lastWall, incoming.lastUptime + gain, incoming.lastBootId);
      OneReading(incoming, r);
      OneReading(w, r);
      assert Run(incoming, [r]).trusted > Run(w, [r]).trusted;
    }
  }

  lemma OneReading(w: Witness, r: Reading)
    ensures Run(w, [r]) == Observe(w, r)
  {
    assert [r][..0] == [];
    assert Run(w, []) == w;
  }
}
