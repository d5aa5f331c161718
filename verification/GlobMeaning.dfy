/** What the glob matcher decides, against what a glob means. */
module GlobMeaning {
  import opened Text
  import opened Glob

  /** Everything the matcher accepts is a match. */
  lemma {:induction false} GlobIsSound(p: string, t: string)
    ensures GlobMatch(p, t) ==> Matches(p, t)
    decreases |p|, 1, 0
  {
    if p != [] && GlobMatch(p, t) {
      if t != [] && CharMatches(p[0], t[0]) {
        GlobIsSound(p[1..], t[1..]);
        if p[0] == '*' {
          SwallowOne(p, t);
        }
      } else {
        StarredIsSound(p, t);
      }
    }
  }

  lemma SwallowOne(p: string, t: string)
    requires p != [] && p[0] == '*' && t != [] && Matches(p[1..], t[1..])
    ensures Matches(p, t)
  {
    assert Matches(p, t[1..]);
  }

  lemma {:induction false} StarredIsSound(p: string, t: string)
    requires p != [] && p[0] == '*' && Starred(p[1..], t)
    ensures Matches(p, t)
    decreases |p|, 0, |t|
  {
    if GlobMatch(p[1..], t) {
      GlobIsSound(p[1..], t);
    } else {
      StarredIsSound(p, t[1..]);
    }
  }

  /** On text without a star, every match is accepted. */
  lemma {:induction false} GlobIsComplete(p: string, t: string)
    requires '*' !in t
    ensures Matches(p, t) ==> GlobMatch(p, t)
    decreases |p|, |t|
  {
    if p != [] && Matches(p, t) {
      if p[0] == '*' {
        assert t != [] ==> t[0] in t;
        if Matches(p[1..], t) {
          GlobIsComplete(p[1..], t);
        } else {
          GlobIsComplete(p, t[1..]);
          assert t[1..] != [] ==> t[1..][0] in t;
          assert Starred(p[1..], t[1..]);
        }
      } else {
        GlobIsComplete(p[1..], t[1..]);
      }
    }
  }

  function QuestionMarks(n: nat): (s: string)
    ensures |s| == n
  {
    seq(n, _ => '?')
  }

  lemma {:induction false} QuestionMarksMatch(n: nat, t: string, q: string)
    requires n <= |t|
    ensures GlobMatch(QuestionMarks(n) + q, t) == GlobMatch(q, t[n..])
    ensures Matches(QuestionMarks(n) + q, t) == Matches(q, t[n..])
  {
    if n == 0 {
      assert QuestionMarks(0) + q == q && t[0..] == t;
    } else {
      assert (QuestionMarks(n) + q)[1..] == QuestionMarks(n - 1) + q;
      assert t[1..][n - 1..] == t[n..];
      QuestionMarksMatch(n - 1, t[1..], q);
    }
  }

  /** The text on which the matcher and the meaning agree for every pattern is exactly the text without a star. */
  lemma GlobAgreesExactlyWhen(t: string)
    ensures (forall p :: GlobMatch(p, t) == Matches(p, t)) <==> '*' !in t
  {
    if '*' !in t {
      forall p ensures GlobMatch(p, t) == Matches(p, t) {
        GlobIsSound(p, t);
        GlobIsComplete(p, t);
      }
    } else {
      var i :| 0 <= i < |t| && t[i] == '*';
      var rest := |t| - i - 1;
      var q := "*?" + QuestionMarks(rest);
      var p := QuestionMarks(i) + q;
      QuestionMarksMatch(i, t, q);
      assert t[i..][0] == '*' && t[i..][1..] == t[i + 1..];
      assert q[1..] == QuestionMarks(rest + 1) + "" && QuestionMarks(rest + 1) == q[1..];
      QuestionMarksMatch(rest + 1, t[i..], "");
      assert t[i..][rest + 1..] == "";
      assert Matches(q[1..], t[i..]);
      assert Matches(p, t);
      TooManyQuestionMarks(rest + 1, t[i + 1..]);
      assert !GlobMatch(p, t);
    }
  }

  lemma {:induction false} TooManyQuestionMarks(n: nat, t: string)
    requires |t| < n
    ensures !GlobMatch(QuestionMarks(n), t)
  {
    if t == [] {
    } else {
      assert QuestionMarks(n)[1..] == QuestionMarks(n - 1);
      TooManyQuestionMarks(n - 1, t[1..]);
    }
  }

  /** The case of a pattern never matters. */
  lemma {:induction false} GlobIgnoresCase(p: string, q: string, t: string)
    requires LowerAll(p) == LowerAll(q)
    ensures GlobMatch(p, t) == GlobMatch(q, t)
    decreases |p|, 0, 0
  {
    if p == [] {
    } else {
      assert Lower(p[0]) == LowerAll(p)[0] == LowerAll(q)[0] == Lower(q[0]);
      assert LowerAll(p[1..]) == LowerAll(p)[1..] == LowerAll(q)[1..] == LowerAll(q[1..]);
      if t != [] && CharMatches(p[0], t[0]) {
        GlobIgnoresCase(p[1..], q[1..], t[1..]);
      } else {
        StarredIgnoresCase(p[1..], q[1..], t);
      }
    }
  }

  lemma {:induction false} StarredIgnoresCase(p: string, q: string, t: string)
    requires LowerAll(p) == LowerAll(q)
    ensures Starred(p, t) == Starred(q, t)
    decreases |p|, 1, |t|
  {
    GlobIgnoresCase(p, q, t);
    if t == [] {
    } else {
      StarredIgnoresCase(p, q, t[1..]);
    }
  }
}
