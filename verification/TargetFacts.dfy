/** What each kind of target matches, spelled out on the characters of what was observed. */
module TargetFacts {
  import opened Basics
  import opened Text
  import opened Glob
  import opened TargetMatch

  // ----- Letters -----

  const UPPER: string := "ABCDEFGHIJKLMNOPQRSTUVWXYZ"
  const LOWER: string := "abcdefghijklmnopqrstuvwxyz"

  /** The same character, or one letter in its two cases. */
  predicate SameLetter(a: char, b: char) {
    a == b || exists k :: 0 <= k < 26 && ((a == UPPER[k] && b == LOWER[k]) || (a == LOWER[k] && b == UPPER[k]))
  }

  predicate SameLetters(a: string, b: string) {
    |a| == |b| && forall i :: 0 <= i < |a| ==> SameLetter(a[i], b[i])
  }

  lemma LettersInOrder(k: int)
    requires 0 <= k < 26
    ensures UPPER[k] as int == 65 + k && LOWER[k] as int == 97 + k
  {
  }

  lemma LowerFoldsExactlyTheLetters(a: char, b: char)
    ensures Lower(a) == Lower(b) <==> SameLetter(a, b)
  {
    forall k | 0 <= k < 26 ensures UPPER[k] as int == 65 + k && LOWER[k] as int == 97 + k {
      LettersInOrder(k);
    }
    if Lower(a) == Lower(b) && a != b {
      var upper := if 'A' <= a <= 'Z' then a else b;
      var k := upper as int - 65;
      assert 0 <= k < 26 && UPPER[k] == upper && LOWER[k] == Lower(a);
    }
  }

  /** Texts are taken for equal exactly when they are, letter by letter, up to case. */
  lemma EqIgnoreCaseExactlyWhen(a: string, b: string)
    ensures EqIgnoreCase(a, b) <==> SameLetters(a, b)
  {
    if |a| == |b| {
      forall i | 0 <= i < |a| ensures LowerAll(a)[i] == LowerAll(b)[i] <==> SameLetter(a[i], b[i]) {
        LowerFoldsExactlyTheLetters(a[i], b[i]);
      }
    }
  }

  /** One text is found in another exactly when the other has a stretch equal to it up to case. */
  lemma FoundExactlyWhen(text: string, word: string)
    ensures Contains(LowerAll(text), LowerAll(word)) <==>
              exists before, found, after :: text == before + found + after && SameLetters(found, word)
  {
    var t, w := LowerAll(text), LowerAll(word);
    if Contains(t, w) {
      var i :| 0 <= i <= |t| && OccursAt(t, w, i);
      var found := text[i..i + |w|];
      assert LowerAll(found) == t[i..i + |w|];
      EqIgnoreCaseExactlyWhen(found, word);
      assert text == text[..i] + found + text[i + |w|..];
    }
    if before, found, after :| text == before + found + after && SameLetters(found, word) {
      EqIgnoreCaseExactlyWhen(found, word);
      var i := |before|;
      assert t[i..i + |w|] == LowerAll(found);
      assert OccursAt(t, w, i);
    }
  }

  // ----- Trimming -----

  /** All of the characters are ones to drop. */
  predicate AllOf(s: string, drop: char -> bool) {
    forall i :: 0 <= i < |s| ==> drop(s[i])
  }

  /** `core` is what is left of `s` when as much as can be is dropped from both ends. */
  ghost predicate IsCore(s: string, core: string, drop: char -> bool) {
    && (exists before, after :: s == before + core + after && AllOf(before, drop) && AllOf(after, drop))
    && (core != [] ==> !drop(core[0]) && !drop(core[|core| - 1]))
  }

  lemma {:induction false} TrimStartDrops(s: string, drop: char -> bool) returns (before: string)
    ensures s == before + TrimStart(s, drop) && AllOf(before, drop)
    ensures TrimStart(s, drop) != [] ==> !drop(TrimStart(s, drop)[0])
  {
    before := [];
    if s != [] && drop(s[0]) {
      before := TrimStartDrops(s[1..], drop);
      before := [s[0]] + before;
    }
  }

  lemma {:induction false} TrimEndDrops(s: string, drop: char -> bool) returns (after: string)
    ensures s == TrimEnd(s, drop) + after && AllOf(after, drop)
    ensures TrimEnd(s, drop) != [] ==> !drop(TrimEnd(s, drop)[|TrimEnd(s, drop)| - 1])
  {
    after := [];
    if s != [] && drop(s[|s| - 1]) {
      after := TrimEndDrops(s[..|s| - 1], drop);
      after := after + [s[|s| - 1]];
    }
  }

  lemma TrimmedIsCore(s: string, drop: char -> bool)
    ensures IsCore(s, TrimEnd(TrimStart(s, drop), drop), drop)
  {
    var inner := TrimStart(s, drop);
    var core := TrimEnd(inner, drop);
    var before := TrimStartDrops(s, drop);
    var after := TrimEndDrops(inner, drop);
    assert s == before + core + after;
    assert core != [] ==> core[0] == inner[0];
  }

  /** White space is the space and the five controls from the tab to the carriage return. */
  predicate White(c: char) {
    c in " \t\n\r" || c == 11 as char || c == 12 as char
  }

  /** Trimming takes white space, and only that, off both ends; trimming dots takes dots. */
  lemma TrimFacts(s: string)
    ensures IsCore(s, Trim(s), White)
    ensures IsCore(s, TrimDots(s), Dot)
  {
    TrimmedIsCore(s, IsSpace);
    TrimmedIsCore(s, IsDot);
    hide IsCore;
    SameCore(s, Trim(s), IsSpace, White);
    SameCore(s, TrimDots(s), IsDot, Dot);
  }

  predicate Dot(c: char) {
    c in "."
  }

  lemma SameCore(s: string, core: string, drop: char -> bool, drop': char -> bool)
    requires IsCore(s, core, drop) && forall c :: drop(c) == drop'(c)
    ensures IsCore(s, core, drop')
  {
    var before, after :| s == before + core + after && AllOf(before, drop) && AllOf(after, drop);
    assert AllOf(before, drop') && AllOf(after, drop');
  }

  // ----- Globs -----

  /** What a glob says, one pattern character at a time: `*` any run, `?` any character, a letter either case. */
  lemma GlobMeans(q: string, t: string)
    ensures Matches("", t) <==> t == ""
    ensures Matches("*" + q, t) <==> exists k :: 0 <= k <= |t| && Matches(q, t[k..])
    ensures forall c :: c != '*' ==>
              (Matches([c] + q, t) <==> t != "" && (c == '?' || SameLetter(c, t[0])) && Matches(q, t[1..]))
  {
    StarMeans(q, t);
    forall c | c != '*'
      ensures Matches([c] + q, t) <==> t != "" && (c == '?' || SameLetter(c, t[0])) && Matches(q, t[1..])
    {
      assert ([c] + q)[1..] == q;
      if t != "" {
        LowerFoldsExactlyTheLetters(c, t[0]);
      }
    }
  }

  lemma {:induction false} StarMeans(q: string, t: string)
    ensures Matches("*" + q, t) <==> exists k :: 0 <= k <= |t| && Matches(q, t[k..])
    decreases |t|
  {
    assert ("*" + q)[1..] == q;
    assert t[0..] == t;
    if t != "" {
      StarMeans(q, t[1..]);
      forall k | 0 < k <= |t| ensures t[1..][k - 1..] == t[k..] {
      }
      if k :| 0 <= k <= |t| && Matches(q, t[k..]) && k > 0 {
        assert Matches(q, t[1..][k - 1..]);
      }
      if k :| 0 <= k <= |t| - 1 && Matches(q, t[1..][k..]) {
        assert Matches(q, t[k + 1..]);
      }
    }
  }

  // ----- Targets -----

  /** The text a keyword is looked for in. */
  predicate IsTextOf(obs: Observation, text: string) {
    match obs
    case App(_, screen) => screen == Some(text)
    case Window(_, title) => text == title
    case Web(url) => text == url.Normalized()
    case Notification(_, title) => text == title
    case FileOpen(path) => text == path
    case Idle => false
  }

  /** `b` is `a` with every backslash turned round. */
  predicate Slashed(a: string, b: string) {
    |a| == |b| && forall i :: 0 <= i < |a| ==> if a[i] == '\\' then b[i] == '/' else b[i] == a[i]
  }

  /** The one text ends in the other, up to case, after nothing or a dot. */
  predicate EndsInLabels(h: string, d: string) {
    exists k :: 0 <= k <= |h| && SameLetters(h[k..], d) && (k == 0 || h[k - 1] == '.')
  }

  /** The observed host is the domain, or ends in a dot and it, once both are trimmed. */
  ghost predicate Within(domain: string, host: string) {
    exists d, h :: IsTrimmed(domain, d) && IsTrimmed(host, h) && d != "" && EndsInLabels(h, d)
  }

  /** White space off both ends, and then dots. */
  ghost predicate IsTrimmed(s: string, core: string) {
    exists middle :: IsCore(s, middle, White) && IsCore(middle, core, Dot)
  }

  /** Everything outside `[i, j)` is dropped, and its two ends are not. */
  ghost predicate Kept(s: string, i: nat, j: nat, drop: char -> bool) {
    && i <= j <= |s|
    && (forall k :: 0 <= k < i || j <= k < |s| ==> drop(s[k]))
    && (i < j ==> !drop(s[i]) && !drop(s[j - 1]))
  }

  lemma CoreIsKept(s: string, core: string, drop: char -> bool) returns (i: nat, j: nat)
    requires IsCore(s, core, drop)
    ensures Kept(s, i, j, drop) && core == s[i..j]
  {
    var before, after :| s == before + core + after && AllOf(before, drop) && AllOf(after, drop);
    i, j := |before|, |before| + |core|;
    forall k | j <= k < |s| ensures drop(s[k]) {
      assert s[k] == after[k - j];
    }
  }

  lemma CoreIsUnique(s: string, a: string, b: string, drop: char -> bool)
    requires IsCore(s, a, drop) && IsCore(s, b, drop)
    ensures a == b
  {
    var i, j := CoreIsKept(s, a, drop);
    var k, l := CoreIsKept(s, b, drop);
  }

  lemma TrimmedExactlyWhen(s: string, core: string)
    ensures IsTrimmed(s, core) <==> core == TrimDots(Trim(s))
  {
    TrimFacts(s);
    TrimFacts(Trim(s));
    if middle :| IsCore(s, middle, White) && IsCore(middle, core, Dot) {
      CoreIsUnique(s, middle, Trim(s), White);
      CoreIsUnique(middle, core, TrimDots(middle), Dot);
    }
  }

  lemma WithinExactlyWhen(domain: string, host: string)
    ensures var d, h := TrimDots(Trim(domain)), TrimDots(Trim(host));
            Within(domain, host) <==> d != "" && EndsInLabels(h, d)
  {
    hide IsTrimmed, EndsInLabels, Trim, TrimDots;
    var d, h := TrimDots(Trim(domain)), TrimDots(Trim(host));
    TrimmedExactlyWhen(domain, d);
    TrimmedExactlyWhen(host, h);
    if Within(domain, host) {
      var d', h' :| IsTrimmed(domain, d') && IsTrimmed(host, h') && d' != "" && EndsInLabels(h', d');
      TrimmedExactlyWhen(domain, d');
      TrimmedExactlyWhen(host, h');
    }
  }

  lemma DomainMatchesWithin(domain: string, host: string)
    ensures DomainMatches(domain, host) <==> Within(domain, host)
  {
    hide Within, Trim, TrimDots, EqIgnoreCase;
    var d, h := TrimDots(Trim(domain)), TrimDots(Trim(host));
    WithinExactlyWhen(domain, host);
    forall k | 0 <= k <= |h| ensures EqIgnoreCase(h[k..], d) <==> SameLetters(h[k..], d) {
      EqIgnoreCaseExactlyWhen(h[k..], d);
    }
    assert h[0..] == h;
    if DomainMatches(domain, host) {
      assert SameLetters(h[|h| - |d|..], d);
    }
  }

  /** What a target matches, kind by kind. */
  ghost predicate Describes(t: Target, obs: Observation) {
    match t
    case WholeDevice => obs != Idle
    case AppPackage(package) => obs.App? && SameLetters(package, obs.package)
    case AppScreen(package, screen) =>
      obs.App? && SameLetters(package, obs.package) && obs.screen.Some? && SameLetters(screen, obs.screen.value)
    case WindowsExe(exe) => obs.Window? && SameLetters(exe, obs.exe)
    case NotificationSource(package) => obs.Notification? && SameLetters(package, obs.package)
    case WindowTitle(pattern) => obs.Window? && GlobMatch(pattern, obs.title)
    case UrlGlob(pattern) => obs.Web? && GlobMatch(pattern, obs.url.Normalized())
    case FilePath(pattern) =>
      obs.FileOpen? && exists p, q :: Slashed(pattern, p) && Slashed(obs.path, q) && GlobMatch(p, q)
    case Domain(domain) => obs.Web? && Within(domain, obs.url.host)
    case Keyword(word) =>
      exists text, before, found, after ::
        IsTextOf(obs, text) && text == before + found + after && SameLetters(found, word)
  }

  lemma MatchesExactlyWhen(t: Target, obs: Observation)
    ensures TargetMatches(t, obs) <==> Describes(t, obs)
  {
    hide DomainMatches, Within, SameLetters, GlobMatch;
    match t
    case AppPackage(package) => if obs.App? { EqIgnoreCaseExactlyWhen(package, obs.package); }
    case AppScreen(package, screen) =>
      if obs.App? {
        EqIgnoreCaseExactlyWhen(package, obs.package);
        if obs.screen.Some? {
          EqIgnoreCaseExactlyWhen(screen, obs.screen.value);
        }
      }
    case WindowsExe(exe) => if obs.Window? { EqIgnoreCaseExactlyWhen(exe, obs.exe); }
    case NotificationSource(package) => if obs.Notification? { EqIgnoreCaseExactlyWhen(package, obs.package); }
    case Domain(domain) => if obs.Web? { DomainMatchesWithin(domain, obs.url.host); }
    case FilePath(pattern) => if obs.FileOpen? { PathsAreSlashed(pattern, obs.path); }
    case Keyword(word) => KeywordIsFound(word, obs);
    case _ =>
  }

  lemma PathsAreSlashed(pattern: string, path: string)
    ensures GlobMatch(Slashes(pattern), Slashes(path)) <==>
              exists p, q :: Slashed(pattern, p) && Slashed(path, q) && GlobMatch(p, q)
  {
    hide GlobMatch;
    assert Slashed(pattern, Slashes(pattern)) && Slashed(path, Slashes(path));
    forall p | Slashed(pattern, p) ensures p == Slashes(pattern) {
    }
    forall q | Slashed(path, q) ensures q == Slashes(path) {
    }
  }

  lemma KeywordIsFound(word: string, obs: Observation)
    ensures TargetMatches(Keyword(word), obs) <==>
              exists text, before, found, after ::
                IsTextOf(obs, text) && text == before + found + after && SameLetters(found, word)
  {
    hide SameLetters;
    var searched := obs.SearchableText();
    forall text ensures IsTextOf(obs, text) <==> searched == Some(text) {
    }
    if searched.Some? {
      FoundExactlyWhen(searched.value, word);
    }
  }

  // ----- Keys -----

  /** The same target but for the case of letters and what is trimmed off a domain. */
  predicate SameBut(a: Target, b: Target) {
    match (a, b)
    case (AppPackage(p), AppPackage(q)) => SameLetters(p, q)
    case (AppScreen(p, s), AppScreen(q, t)) => SameLetters(p, q) && SameLetters(s, t)
    case (WindowsExe(p), WindowsExe(q)) => SameLetters(p, q)
    case (WindowTitle(p), WindowTitle(q)) => SameLetters(p, q)
    case (Domain(p), Domain(q)) => SameLetters(TrimDots(Trim(p)), TrimDots(Trim(q)))
    case (UrlGlob(p), UrlGlob(q)) => SameLetters(p, q)
    case (Keyword(p), Keyword(q)) => SameLetters(p, q)
    case (FilePath(p), FilePath(q)) => SameLetters(p, q)
    case (NotificationSource(p), NotificationSource(q)) => SameLetters(p, q)
    case (WholeDevice, WholeDevice) => true
    case _ => false
  }

  /** One budget for one thing: targets the same up to case share a key, and no others do, screens aside. */
  lemma SharesAKeyExactlyWhen(a: Target, b: Target)
    ensures SameBut(a, b) ==> Key(a) == Key(b)
    ensures Key(a) == Key(b) && !a.AppScreen? ==> SameBut(a, b)
  {
    hide SameLetters;
    forall p, q ensures SameLetters(p, q) <==> LowerAll(p) == LowerAll(q) {
      EqIgnoreCaseExactlyWhen(p, q);
    }
    if Key(a) == Key(b) {
      KeySplits(a, b);
      TagDecidesKind(a, b);
    }
  }
}
