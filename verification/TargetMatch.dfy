/** Targets of rules, observations, and the relation between them. */
module TargetMatch {
  import opened Basics
  import opened Text
  import opened Glob
  import opened GlobMeaning

  datatype Target =
    | AppPackage(package: string)
    | AppScreen(package: string, screen: string)
    | WindowsExe(exe: string)
    | WindowTitle(pattern: string)
    | Domain(domain: string)
    | UrlGlob(pattern: string)
    | Keyword(text: string)
    | FilePath(pattern: string)
    | NotificationSource(package: string)
    | WholeDevice

  datatype Url = Url(host: string, scheme: string, path: string, query: string)
  {
    /** The address with the scheme kept and everything that never takes part in matching gone. */
    function Normalized(): string {
      (if scheme != "" then scheme + "://" else "") + host + path + (if query != "" then "?" + query else "")
    }
  }

  datatype Observation =
    | App(package: string, screen: Option<string>)
    | Window(exe: string, title: string)
    | Web(url: Url)
    | Notification(package: string, title: string)
    | FileOpen(path: string)
    | Idle
  {
    function SearchableText(): Option<string> {
      match this
      case Web(url) => Some(url.Normalized())
      case Window(_, title) => Some(title)
      case Notification(_, title) => Some(title)
      case App(_, screen) => screen
      case FileOpen(path) => Some(path)
      case Idle => None
    }
  }

  function TagOf(t: Target): string {
    match t
    case AppPackage(_) => "app"
    case AppScreen(_, _) => "screen"
    case WindowsExe(_) => "exe"
    case WindowTitle(_) => "title"
    case Domain(_) => "domain"
    case UrlGlob(_) => "url"
    case Keyword(_) => "keyword"
    case FilePath(_) => "path"
    case NotificationSource(_) => "notif"
    case WholeDevice => "device"
  }

  function BodyOf(t: Target): string {
    match t
    case AppPackage(package) => LowerAll(package)
    case AppScreen(package, screen) => LowerAll(package) + ":" + LowerAll(screen)
    case WindowsExe(exe) => LowerAll(exe)
    case WindowTitle(pattern) => LowerAll(pattern)
    case Domain(domain) => LowerAll(TrimDots(Trim(domain)))
    case UrlGlob(pattern) => LowerAll(pattern)
    case Keyword(text) => LowerAll(text)
    case FilePath(pattern) => LowerAll(pattern)
    case NotificationSource(package) => LowerAll(package)
    case WholeDevice => ""
  }

  /** The identity budgets, launch counts and config edits know a target by. */
  function Key(t: Target): string {
    if t.WholeDevice? then TagOf(t) else TagOf(t) + ":" + BodyOf(t)
  }

  /** The observed host is the rule's domain or ends in a dot and it. */
  predicate DomainMatches(rule: string, observed: string) {
    var r, o := TrimDots(Trim(rule)), TrimDots(Trim(observed));
    if r == "" || |o| < |r| then false
    else if |o| == |r| then EqIgnoreCase(o, r)
    else
      var split := |o| - |r|;
      o[split - 1] == '.' && EqIgnoreCase(o[split..], r)
  }

  predicate TargetMatches(t: Target, obs: Observation) {
    match (t, obs)
    case (WholeDevice, _) => !obs.Idle?
    case (AppPackage(package), App(p, _)) => EqIgnoreCase(package, p)
    case (AppScreen(package, screen), App(p, s)) => EqIgnoreCase(package, p) && s.Some? && EqIgnoreCase(screen, s.value)
    case (WindowsExe(exe), Window(e, _)) => EqIgnoreCase(exe, e)
    case (WindowTitle(pattern), Window(_, title)) => GlobMatch(pattern, title)
    case (Domain(domain), Web(url)) => DomainMatches(domain, url.host)
    case (UrlGlob(pattern), Web(url)) => GlobMatch(pattern, url.Normalized())
    case (FilePath(pattern), FileOpen(path)) => GlobMatch(Slashes(pattern), Slashes(path))
    case (NotificationSource(package), Notification(p, _)) => EqIgnoreCase(package, p)
    case (Keyword(text), _) =>
      obs.SearchableText().Some? && Contains(LowerAll(obs.SearchableText().value), LowerAll(text))
    case _ => false
  }

  // ----- Domains -----

  /** Exactly the domain itself and what puts a label and a dot before it, in any case of letters. */
  lemma DomainMatchesExactlyWhen(rule: string, observed: string)
    ensures var r, o := LowerAll(TrimDots(Trim(rule))), LowerAll(TrimDots(Trim(observed)));
            DomainMatches(rule, observed) <==> r != "" && (o == r || exists sub :: o == sub + "." + r)
  {
    var rr, oo := TrimDots(Trim(rule)), TrimDots(Trim(observed));
    var r, o := LowerAll(rr), LowerAll(oo);
    if r != "" && |o| > |r| {
      var split := |o| - |r|;
      assert LowerAll(oo[split..]) == o[split..];
      if DomainMatches(rule, observed) {
        assert o == o[..split - 1] + "." + r;
      }
      if exists sub :: o == sub + "." + r {
        var sub :| o == sub + "." + r;
        assert |sub| == split - 1 && o[split - 1] == '.' && o[split..] == r;
        assert oo[split - 1] == '.';
      }
    }
  }

  // ----- The key decides what a target matches -----

  /** A text is cut in one way only at its first colon. */
  lemma FirstColonSplits(a: string, b: string, c: string, d: string)
    requires ':' !in a && ':' !in c
    requires a + ":" + b == c + ":" + d
    ensures a == c && b == d
  {
    var s, s' := a + ":" + b, c + ":" + d;
    assert s[|a|] == ':' && s'[|c|] == ':';
    assert forall i :: 0 <= i < |a| ==> s[i] == a[i];
    assert forall i :: 0 <= i < |c| ==> s'[i] == c[i];
    assert |a| == |c|;
    assert s[..|a|] == a && s'[..|a|] == c;
    assert s[|a| + 1..] == b && s'[|a| + 1..] == d;
  }

  lemma TagsHaveNoColon(t: Target)
    ensures ':' !in TagOf(t)
  {
  }

  lemma TagDecidesKind(a: Target, b: Target)
    requires TagOf(a) == TagOf(b)
    ensures a.AppPackage? == b.AppPackage? && a.AppScreen? == b.AppScreen? && a.WindowsExe? == b.WindowsExe?
    ensures a.WindowTitle? == b.WindowTitle? && a.Domain? == b.Domain? && a.UrlGlob? == b.UrlGlob?
    ensures a.Keyword? == b.Keyword? && a.FilePath? == b.FilePath? && a.NotificationSource? == b.NotificationSource?
    ensures a.WholeDevice? == b.WholeDevice?
  {
    assert TagOf(a)[0] == TagOf(b)[0] && TagOf(a)[1] == TagOf(b)[1];
  }

  lemma KeySplits(a: Target, b: Target)
    requires Key(a) == Key(b)
    ensures TagOf(a) == TagOf(b) && BodyOf(a) == BodyOf(b)
  {
    TagsHaveNoColon(a);
    TagsHaveNoColon(b);
    assert !a.WholeDevice? ==> Key(a)[|TagOf(a)|] == ':';
    assert !b.WholeDevice? ==> Key(b)[|TagOf(b)|] == ':';
    assert ':' in Key(a) <==> !a.WholeDevice?;
    assert ':' in Key(b) <==> !b.WholeDevice?;
    if !a.WholeDevice? {
      FirstColonSplits(TagOf(a), BodyOf(a), TagOf(b), BodyOf(b));
    }
  }

  /** A screen target whose package has a colon in it could share a key with another. */
  predicate PlainKey(t: Target) {
    t.AppScreen? ==> ':' !in t.package
  }

  lemma LowerKeepsColons(s: string)
    ensures ':' in LowerAll(s) <==> ':' in s
  {
    if ':' in s {
      var i :| 0 <= i < |s| && s[i] == ':';
      assert LowerAll(s)[i] == ':';
    }
    if ':' in LowerAll(s) {
      var i :| 0 <= i < |s| && LowerAll(s)[i] == ':';
      assert s[i] == ':';
    }
  }

  lemma DomainIgnoresCase(a: string, b: string, observed: string)
    requires LowerAll(TrimDots(Trim(a))) == LowerAll(TrimDots(Trim(b)))
    ensures DomainMatches(a, observed) == DomainMatches(b, observed)
  {
    DomainMatchesExactlyWhen(a, observed);
    DomainMatchesExactlyWhen(b, observed);
  }

  lemma SlashesKeepCase(a: string, b: string)
    requires LowerAll(a) == LowerAll(b)
    ensures LowerAll(Slashes(a)) == LowerAll(Slashes(b))
  {
    var x, y := LowerAll(Slashes(a)), LowerAll(Slashes(b));
    assert |a| == |LowerAll(a)| == |LowerAll(b)| == |b|;
    forall i | 0 <= i < |a| ensures x[i] == y[i] {
      assert LowerAll(a)[i] == LowerAll(b)[i];
      assert Lower(a[i]) == Lower(b[i]);
    }
  }

  /** Screens of one package, as matching compares packages; nothing is asked of any other target. */
  predicate SameScreen(a: Target, b: Target) {
    a.AppScreen? ==> b.AppScreen? && EqIgnoreCase(a.package, b.package)
  }

  lemma OneKeySamePackage(a: Target, b: Target, obs: Observation)
    requires Key(a) == Key(b) && SameScreen(a, b)
    ensures TargetMatches(a, obs) == TargetMatches(b, obs)
  {
    KeySplits(a, b);
    TagDecidesKind(a, b);
    match (a, b)
    case (AppScreen(p, s), AppScreen(q, t)) =>
      var n := |LowerAll(p)|;
      assert LowerAll(s) == BodyOf(a)[n + 1..] && LowerAll(t) == BodyOf(b)[n + 1..];
    case (WindowTitle(p), WindowTitle(q)) =>
      if obs.Window? {
        GlobIgnoresCase(p, q, obs.title);
      }
    case (UrlGlob(p), UrlGlob(q)) =>
      if obs.Web? {
        GlobIgnoresCase(p, q, obs.url.Normalized());
      }
    case (FilePath(p), FilePath(q)) =>
      if obs.FileOpen? {
        SlashesKeepCase(p, q);
        GlobIgnoresCase(Slashes(p), Slashes(q), Slashes(obs.path));
      }
    case (Domain(d), Domain(e)) =>
      if obs.Web? {
        DomainIgnoresCase(d, e, obs.url.host);
      }
    case _ =>
  }

  /** Two targets with one key describe the same observations exactly when they are not screens of two packages. */
  lemma KeyFixesMatchingExactlyWhen(a: Target, b: Target)
    requires Key(a) == Key(b)
    ensures (forall obs :: TargetMatches(a, obs) == TargetMatches(b, obs)) <==> SameScreen(a, b)
  {
    if SameScreen(a, b) {
      forall obs ensures TargetMatches(a, obs) == TargetMatches(b, obs) {
        OneKeySamePackage(a, b, obs);
      }
    } else {
      KeySplits(a, b);
      TagDecidesKind(a, b);
      var own := App(a.package, Some(a.screen));
      assert TargetMatches(a, own) && !TargetMatches(b, own);
    }
  }

  /** In particular when no screen target has a colon in its package, where the key puts one. */
  lemma KeyFixesMatching(a: Target, b: Target, obs: Observation)
    requires Key(a) == Key(b) && PlainKey(a) && PlainKey(b)
    ensures TargetMatches(a, obs) == TargetMatches(b, obs)
  {
    KeySplits(a, b);
    TagDecidesKind(a, b);
    if a.AppScreen? {
      LowerKeepsColons(a.package);
      LowerKeepsColons(b.package);
      FirstColonSplits(LowerAll(a.package), LowerAll(a.screen), LowerAll(b.package), LowerAll(b.screen));
    }
    OneKeySamePackage(a, b, obs);
  }

  /** Without that condition it fails: two screens of different packages, one key. */
  lemma ColonInPackageSharesAKey()
    ensures var a, b := AppScreen("x:y", "z"), AppScreen("x", "y:z");
            && Key(a) == Key(b)
            && TargetMatches(a, App("x:y", Some("z"))) && !TargetMatches(b, App("x:y", Some("z")))
  {
    assert LowerAll("x:y") == "x:y" && LowerAll("z") == "z" && LowerAll("x") == "x" && LowerAll("y:z") == "y:z";
    assert Key(AppScreen("x:y", "z")) == "screen:x:y:z";
  }
}
