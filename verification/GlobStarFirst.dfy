/**
 * The matcher's loop with its two tests exchanged: the star is looked for before the characters are
 * compared. It decides what a glob means, on every text and in as few steps.
 */
module GlobStarFirst {
  import opened Basics
  import opened Text
  import opened Glob
  import opened GlobLoop

  /** Where the loop is: the text since the last star has been matched by a stretch without a star. */
  predicate Trial(p: string, t: string, pi: nat, ti: nat, star: Option<nat>, starTi: nat) {
    && Attempt(p, t, pi, ti, star, starTi)
    && (star.Some? ==> forall j :: star.value < j < pi ==> p[j] != '*')
  }

  /** What is still open there: the current trial, or the last star swallowing more. */
  predicate Left(p: string, t: string, pi: nat, ti: nat, star: Option<nat>, starTi: nat)
    requires Trial(p, t, pi, ti, star, starTi)
  {
    || Matches(p[pi..], t[ti..])
    || (star.Some? && starTi < |t| && Matches(p[star.value..], t[starTi + 1..]))
  }

  method GlobMatchStarFirst(p: string, t: string) returns (matched: bool, ghost steps: nat)
    ensures matched == Matches(p, t)
    ensures steps <= Budget(p, |t|) + |p|
  {
    hide Matches, Left, Trial, Budget, Lower;
    var pi: nat, ti: nat := 0, 0;
    var star: Option<nat>, starTi: nat := None, 0;
    steps := 0;
    FromTheStart(p, t);
    while ti < |t|
      invariant Bounds(p, t, pi, ti, star, starTi) && Trial(p, t, pi, ti, star, starTi)
      invariant Matches(p, t) == Left(p, t, pi, ti, star, starTi)
      invariant steps <= Budget(p, starTi) + pi
      decreases |t| - starTi, |p| - pi
    {
      steps := steps + 1;
      if pi < |p| && p[pi] == '*' {
        StarStarts(p, t, pi, ti, star, starTi);
        BudgetGrows(p, starTi, ti);
        star := Some(pi);
        starTi := ti;
        pi := pi + 1;
      } else if pi < |p| && (p[pi] == '?' || Lower(p[pi]) == Lower(t[ti])) {
        CharacterMatched(p, t, pi, ti, star, starTi);
        pi := pi + 1;
        ti := ti + 1;
      } else if star.Some? {
        StarSwallowsMore(p, t, pi, ti, star, starTi);
        BudgetGrows(p, starTi, starTi);
        pi := star.value + 1;
        starTi := starTi + 1;
        ti := starTi;
      } else {
        StarSwallowsMore(p, t, pi, ti, star, starTi);
        BudgetGrows(p, starTi, starTi);
        BudgetGrows(p, starTi + 1, |t|);
        return false, steps;
      }
      TrialBounds(p, t, pi, ti, star, starTi);
    }
    TextIsUsedUp(p, t, pi, star, starTi);
    BudgetGrows(p, starTi, |t|);
    while pi < |p| && p[pi] == '*'
      invariant pi <= |p|
      invariant Matches(p, t) == Matches(p[pi..], [])
      invariant steps <= Budget(p, |t|) + pi
    {
      StarMatchesNothing(p, pi);
      steps := steps + 1;
      pi := pi + 1;
    }
    StarMatchesNothing(p, pi);
    matched := pi == |p|;
  }

  // ----- What each turn of the loop keeps -----

  /** A star matches where the rest of the pattern matches anywhere later. */
  lemma {:induction false} StarSwallows(p: string, t: string) returns (k: nat)
    requires p != [] && p[0] == '*' && Matches(p, t)
    ensures k <= |t| && Matches(p[1..], t[k..])
    decreases |t|
  {
    if Matches(p[1..], t) {
      k := 0;
      assert t[0..] == t;
    } else {
      k := StarSwallows(p, t[1..]);
      assert t[1..][k..] == t[k + 1..];
      k := k + 1;
    }
  }

  /** A star that matches a later part of the text matches from any earlier point. */
  lemma {:induction false} StarReaches(p: string, t: string, k: nat)
    requires p != [] && p[0] == '*' && k <= |t| && Matches(p, t[k..])
    ensures Matches(p, t)
    decreases |t|
  {
    if k == 0 {
      assert t[0..] == t;
    } else {
      assert t[k..] == t[1..][k - 1..];
      StarReaches(p, t[1..], k - 1);
    }
  }

  /** A stretch without a star uses up as many characters as it has. */
  lemma {:induction false} StretchUsesItsLength(p: string, from: nat, to: nat, t: string, k: nat)
    requires from <= to <= |p| && k <= |t| && Matches(p[from..], t[k..])
    requires forall j :: from <= j < to ==> p[j] != '*'
    ensures k + (to - from) <= |t| && Matches(p[to..], t[k + (to - from)..])
    decreases |p| - from
  {
    if from == to {
    } else {
      assert p[from..][0] == p[from] && p[from..][1..] == p[from + 1..];
      assert k < |t| && t[k..][1..] == t[k + 1..];
      StretchUsesItsLength(p, from + 1, to, t, k + 1);
    }
  }

  /** If the last star has to swallow more, the pattern from here on matches later than here. */
  lemma MoreIsLater(p: string, t: string, pi: nat, ti: nat, s: nat, starTi: nat) returns (m: nat)
    requires Trial(p, t, pi, ti, Some(s), starTi)
    requires starTi < |t| && Matches(p[s..], t[starTi + 1..])
    ensures ti < m <= |t| && Matches(p[pi..], t[m..])
  {
    var k := StarSwallows(p[s..], t[starTi + 1..]);
    assert p[s..][1..] == p[s + 1..] && t[starTi + 1..][k..] == t[starTi + 1 + k..];
    StretchUsesItsLength(p, s + 1, pi, t, starTi + 1 + k);
    m := starTi + 1 + k + (pi - (s + 1));
  }

  lemma StarStarts(p: string, t: string, pi: nat, ti: nat, star: Option<nat>, starTi: nat)
    requires Trial(p, t, pi, ti, star, starTi)
    requires pi < |p| && ti < |t| && p[pi] == '*'
    ensures Trial(p, t, pi + 1, ti, Some(pi), ti)
    ensures Left(p, t, pi, ti, star, starTi) == Left(p, t, pi + 1, ti, Some(pi), ti)
  {
    assert t[ti..][1..] == t[ti + 1..];
    assert p[pi..][0] == p[pi] && p[pi..][1..] == p[pi + 1..];
    if star.Some? && starTi < |t| && Matches(p[star.value..], t[starTi + 1..]) {
      var m := MoreIsLater(p, t, pi, ti, star.value, starTi);
      assert t[ti..][m - ti..] == t[m..];
      StarReaches(p[pi..], t[ti..], m - ti);
    }
  }

  lemma CharacterMatched(p: string, t: string, pi: nat, ti: nat, star: Option<nat>, starTi: nat)
    requires Trial(p, t, pi, ti, star, starTi)
    requires pi < |p| && ti < |t| && p[pi] != '*' && CharMatches(p[pi], t[ti])
    ensures Trial(p, t, pi + 1, ti + 1, star, starTi)
    ensures Left(p, t, pi, ti, star, starTi) == Left(p, t, pi + 1, ti + 1, star, starTi)
  {
    assert t[ti..][0] == t[ti] && t[ti..][1..] == t[ti + 1..];
    assert p[pi..][0] == p[pi] && p[pi..][1..] == p[pi + 1..];
  }

  lemma StarSwallowsMore(p: string, t: string, pi: nat, ti: nat, star: Option<nat>, starTi: nat)
    requires Trial(p, t, pi, ti, star, starTi)
    requires ti < |t| && (pi < |p| ==> p[pi] != '*' && !CharMatches(p[pi], t[ti]))
    ensures star.None? ==> !Left(p, t, pi, ti, star, starTi)
    ensures star.Some? ==>
              && Trial(p, t, star.value + 1, starTi + 1, star, starTi + 1)
              && Left(p, t, pi, ti, star, starTi) == Left(p, t, star.value + 1, starTi + 1, star, starTi + 1)
  {
    assert t[ti..][0] == t[ti];
    assert pi < |p| ==> p[pi..][0] == p[pi];
    if star.Some? {
      assert p[star.value..][0] == '*' && p[star.value..][1..] == p[star.value + 1..];
      assert starTi + 1 < |t| ==> t[starTi + 1..][1..] == t[starTi + 2..];
    }
  }

  lemma TextIsUsedUp(p: string, t: string, pi: nat, star: Option<nat>, starTi: nat)
    requires Trial(p, t, pi, |t|, star, starTi)
    ensures Left(p, t, pi, |t|, star, starTi) == Matches(p[pi..], [])
  {
    assert t[|t|..] == [];
    if star.Some? && starTi < |t| && Matches(p[star.value..], t[starTi + 1..]) {
      var m := MoreIsLater(p, t, pi, |t|, star.value, starTi);
      assert false;
    }
  }

  lemma TrialBounds(p: string, t: string, pi: nat, ti: nat, star: Option<nat>, starTi: nat)
    requires Trial(p, t, pi, ti, star, starTi)
    ensures Bounds(p, t, pi, ti, star, starTi)
  {
  }

  lemma FromTheStart(p: string, t: string)
    ensures Trial(p, t, 0, 0, None, 0) && Matches(p, t) == Left(p, t, 0, 0, None, 0)
  {
    assert p[0..] == p && t[0..] == t;
  }

  lemma StarMatchesNothing(p: string, pi: nat)
    requires pi <= |p|
    ensures pi < |p| && p[pi] == '*' ==> Matches(p[pi..], []) == Matches(p[pi + 1..], [])
    ensures pi == |p| || p[pi] != '*' ==> Matches(p[pi..], []) == (pi == |p|)
  {
    if pi < |p| {
      assert p[pi..][0] == p[pi] && p[pi..][1..] == p[pi + 1..];
    }
  }
}
