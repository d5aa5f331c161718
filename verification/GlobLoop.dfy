/** The glob matcher's loop: one pass with a single backtrack point. */
module GlobLoop {
  import opened Basics
  import opened Text
  import opened Glob

  /** `p[from..to]` is matched character by character by the text from `at` on. */
  predicate Literal(p: string, from: nat, to: nat, t: string, at: nat)
    requires from <= to <= |p|
  {
    at + (to - from) <= |t| && forall j :: from <= j < to ==> CharMatches(p[j], t[at + (j - from)])
  }

  /** Where the loop is: the text since the last star has been matched literally. */
  predicate Attempt(p: string, t: string, pi: nat, ti: nat, star: Option<nat>, starTi: nat) {
    && pi <= |p| && starTi <= ti <= |t|
    && (star.Some? ==>
          && star.value < pi && p[star.value] == '*' && ti - starTi == pi - (star.value + 1)
          && Literal(p, star.value + 1, pi, t, starTi))
  }

  /** What is still open there: the current attempt, or the last star swallowing more. */
  predicate Open(p: string, t: string, pi: nat, ti: nat, star: Option<nat>, starTi: nat)
    requires Attempt(p, t, pi, ti, star, starTi)
  {
    || GlobMatch(p[pi..], t[ti..])
    || (star.Some? && starTi < |t| && Starred(p[star.value + 1..], t[starTi + 1..]))
  }

  predicate Bounds(p: string, t: string, pi: nat, ti: nat, star: Option<nat>, starTi: nat) {
    pi <= |p| && starTi <= ti <= |t| && (star.Some? ==> star.value < pi)
  }

  /** The iterations that `n` characters swallowed by stars can cost. */
  function Budget(p: string, n: nat): nat {
    n * (|p| + 1)
  }

  /**
   * The matcher: one pass with a single backtrack point. It decides `GlobMatch` on every input, and
   * `steps`, its loop iterations, stay within pattern times text.
   */
  method GlobMatchAscii(p: string, t: string) returns (matched: bool, ghost steps: nat)
    ensures matched == GlobMatch(p, t)
    ensures steps <= Budget(p, |t|) + |p|
  {
    hide GlobMatch, Open, Attempt, Budget, Lower;
    var pi: nat, ti: nat := 0, 0;
    var star: Option<nat>, starTi: nat := None, 0;
    steps := 0;
    AtTheStart(p, t);
    while ti < |t|
      invariant Bounds(p, t, pi, ti, star, starTi) && Attempt(p, t, pi, ti, star, starTi)
      invariant GlobMatch(p, t) == Open(p, t, pi, ti, star, starTi)
      invariant steps <= Budget(p, starTi) + pi
      decreases |t| - starTi, |p| - pi
    {
      steps := steps + 1;
      if pi < |p| && (p[pi] == '?' || Lower(p[pi]) == Lower(t[ti])) {
        AfterLiteral(p, t, pi, ti, star, starTi);
        pi := pi + 1;
        ti := ti + 1;
      } else if pi < |p| && p[pi] == '*' {
        AfterStar(p, t, pi, ti, star, starTi);
        BudgetGrows(p, starTi, ti);
        star := Some(pi);
        starTi := ti;
        pi := pi + 1;
      } else if star.Some? {
        AfterMismatch(p, t, pi, ti, star, starTi);
        BudgetGrows(p, starTi, starTi);
        pi := star.value + 1;
        starTi := starTi + 1;
        ti := starTi;
      } else {
        AfterMismatch(p, t, pi, ti, star, starTi);
        BudgetGrows(p, starTi, starTi);
        BudgetGrows(p, starTi + 1, |t|);
        return false, steps;
      }
      AttemptBounds(p, t, pi, ti, star, starTi);
    }
    AtTheEnd(p, t, pi, star, starTi);
    BudgetGrows(p, starTi, |t|);
    while pi < |p| && p[pi] == '*'
      invariant pi <= |p|
      invariant GlobMatch(p, t) == GlobMatch(p[pi..], [])
      invariant steps <= Budget(p, |t|) + pi
    {
      TrailingStar(p, pi);
      steps := steps + 1;
      pi := pi + 1;
    }
    TrailingStar(p, pi);
    matched := pi == |p|;
  }

  // ----- What each turn of the loop keeps -----

  lemma {:induction false} StarredMeans(q: string, t: string) returns (k: nat)
    requires Starred(q, t)
    ensures k <= |t| && GlobMatch(q, t[k..])
    decreases |t|
  {
    if GlobMatch(q, t) {
      k := 0;
      assert t[0..] == t;
    } else {
      k := StarredMeans(q, t[1..]);
      assert t[1..][k..] == t[k + 1..];
      k := k + 1;
    }
  }

  lemma {:induction false} StarredIntro(q: string, t: string, k: nat)
    requires k <= |t| && GlobMatch(q, t[k..])
    ensures Starred(q, t)
    decreases |t|
  {
    if k == 0 {
      assert t[0..] == t;
    } else {
      assert t[k..] == t[1..][k - 1..];
      StarredIntro(q, t[1..], k - 1);
    }
  }

  /**
   * Why one backtrack point is enough: if the text from `at` matched the pattern up to `to`
   * literally, a match that begins no earlier reaches `to` no earlier either.
   */
  lemma {:induction false} LaterStartReachesLater(p: string, from: nat, to: nat, t: string, at: nat, k: nat)
    returns (m: nat)
    requires from <= to <= |p| && Literal(p, from, to, t, at)
    requires at <= k <= |t| && GlobMatch(p[from..], t[k..])
    ensures at + (to - from) <= m <= |t| && GlobMatch(p[to..], t[m..])
    decreases |p| - from
  {
    if from == to {
      m := k;
    } else {
      assert p[from..][0] == p[from] && p[from..][1..] == p[from + 1..];
      assert CharMatches(p[from], t[at]);
      if k < |t| && CharMatches(p[from], t[k]) {
        assert t[k..][0] == t[k] && t[k..][1..] == t[k + 1..];
        m := LaterStartReachesLater(p, from + 1, to, t, at + 1, k + 1);
      } else {
        assert p[from] == '*' && Starred(p[from + 1..], t[k..]);
        var d := StarredMeans(p[from + 1..], t[k..]);
        assert t[k..][d..] == t[k + d..];
        assert k != at;
        m := LaterStartReachesLater(p, from + 1, to, t, at + 1, k + d);
      }
    }
  }

  /** A longer run for the last star cannot help once a later point has been reached. */
  lemma LastStarDecides(p: string, t: string, pi: nat, ti: nat, s: nat, starTi: nat) returns (m: nat)
    requires s < pi <= |p| && ti <= |t| && ti - starTi == pi - (s + 1)
    requires Literal(p, s + 1, pi, t, starTi)
    requires starTi < |t| && Starred(p[s + 1..], t[starTi + 1..])
    ensures ti <= m <= |t| && GlobMatch(p[pi..], t[m..])
  {
    var d := StarredMeans(p[s + 1..], t[starTi + 1..]);
    assert t[starTi + 1..][d..] == t[starTi + 1 + d..];
    m := LaterStartReachesLater(p, s + 1, pi, t, starTi, starTi + 1 + d);
  }

  /** A star met later in the text is a star that could have been met now. */
  lemma StarTakesOver(p: string, t: string, pi: nat, ti: nat, m: nat)
    requires pi < |p| && p[pi] == '*' && ti <= m <= |t|
    requires GlobMatch(p[pi..], t[m..])
    ensures Starred(p[pi + 1..], t[ti..])
  {
    assert p[pi..][0] == '*' && p[pi..][1..] == p[pi + 1..];
    if m < |t| && CharMatches('*', t[m]) {
      assert t[m..][0] == t[m] && t[m..][1..] == t[m + 1..] == t[ti..][m + 1 - ti..];
      StarredIntro(p[pi + 1..], t[ti..], m + 1 - ti);
    } else {
      assert Starred(p[pi + 1..], t[m..]);
      var d := StarredMeans(p[pi + 1..], t[m..]);
      assert t[m..][d..] == t[ti..][m + d - ti..];
      StarredIntro(p[pi + 1..], t[ti..], m + d - ti);
    }
  }

  lemma AfterLiteral(p: string, t: string, pi: nat, ti: nat, star: Option<nat>, starTi: nat)
    requires Attempt(p, t, pi, ti, star, starTi)
    requires pi < |p| && ti < |t| && CharMatches(p[pi], t[ti])
    ensures Attempt(p, t, pi + 1, ti + 1, star, starTi)
    ensures Open(p, t, pi, ti, star, starTi) == Open(p, t, pi + 1, ti + 1, star, starTi)
  {
    assert t[ti..][0] == t[ti] && t[ti..][1..] == t[ti + 1..];
    assert p[pi..][0] == p[pi] && p[pi..][1..] == p[pi + 1..];
  }

  lemma AfterStar(p: string, t: string, pi: nat, ti: nat, star: Option<nat>, starTi: nat)
    requires Attempt(p, t, pi, ti, star, starTi)
    requires pi < |p| && ti < |t| && !CharMatches(p[pi], t[ti]) && p[pi] == '*'
    ensures Attempt(p, t, pi + 1, ti, Some(pi), ti)
    ensures Open(p, t, pi, ti, star, starTi) == Open(p, t, pi + 1, ti, Some(pi), ti)
  {
    assert t[ti..][0] == t[ti] && t[ti..][1..] == t[ti + 1..];
    assert p[pi..][0] == p[pi] && p[pi..][1..] == p[pi + 1..];
    var now := Starred(p[pi + 1..], t[ti..]);
    assert GlobMatch(p[pi..], t[ti..]) == now;
    assert Open(p, t, pi + 1, ti, Some(pi), ti) == now;
    if star.Some? && starTi < |t| && Starred(p[star.value + 1..], t[starTi + 1..]) {
      var m := LastStarDecides(p, t, pi, ti, star.value, starTi);
      StarTakesOver(p, t, pi, ti, m);
    }
  }

  lemma AfterMismatch(p: string, t: string, pi: nat, ti: nat, star: Option<nat>, starTi: nat)
    requires Attempt(p, t, pi, ti, star, starTi)
    requires ti < |t| && (pi < |p| ==> !CharMatches(p[pi], t[ti]) && p[pi] != '*')
    ensures star.None? ==> !Open(p, t, pi, ti, star, starTi)
    ensures star.Some? ==>
              && Attempt(p, t, star.value + 1, starTi + 1, star, starTi + 1)
              && Open(p, t, pi, ti, star, starTi) == Open(p, t, star.value + 1, starTi + 1, star, starTi + 1)
  {
    assert t[ti..][0] == t[ti];
    assert pi < |p| ==> p[pi..][0] == p[pi];
    assert starTi + 1 < |t| ==> t[starTi + 1..][1..] == t[starTi + 2..];
  }

  lemma AtTheEnd(p: string, t: string, pi: nat, star: Option<nat>, starTi: nat)
    requires Attempt(p, t, pi, |t|, star, starTi)
    ensures Open(p, t, pi, |t|, star, starTi) == GlobMatch(p[pi..], [])
  {
    assert t[|t|..] == [];
    if star.Some? && starTi < |t| && Starred(p[star.value + 1..], t[starTi + 1..]) {
      var m := LastStarDecides(p, t, pi, |t|, star.value, starTi);
    }
  }

  lemma BudgetGrows(p: string, a: nat, b: nat)
    requires a <= b
    ensures Budget(p, a) <= Budget(p, b)
    ensures Budget(p, a + 1) == Budget(p, a) + |p| + 1
  {
  }

  lemma AttemptBounds(p: string, t: string, pi: nat, ti: nat, star: Option<nat>, starTi: nat)
    requires Attempt(p, t, pi, ti, star, starTi)
    ensures Bounds(p, t, pi, ti, star, starTi)
  {
  }

  lemma AtTheStart(p: string, t: string)
    ensures Attempt(p, t, 0, 0, None, 0) && GlobMatch(p, t) == Open(p, t, 0, 0, None, 0)
  {
    assert p[0..] == p && t[0..] == t;
  }

  lemma TrailingStar(p: string, pi: nat)
    requires pi <= |p|
    ensures pi < |p| && p[pi] == '*' ==> GlobMatch(p[pi..], []) == GlobMatch(p[pi + 1..], [])
    ensures pi == |p| || p[pi] != '*' ==> GlobMatch(p[pi..], []) == (pi == |p|)
  {
    if pi < |p| {
      assert p[pi..][0] == p[pi] && p[pi..][1..] == p[pi + 1..];
    }
  }
}
