/** Reading an address: what takes part in matching is kept, and what does not is dropped. */
module UrlText {
  import opened Basics
  import opened Text
  import opened TargetMatch

  // ----- Reading -----

  /** The first position at which `word` is found, or the length. */
  function Find(s: string, word: string): (i: nat)
    ensures i <= |s| && (i < |s| ==> OccursAt(s, word, i))
    ensures forall j :: 0 <= j < i ==> !OccursAt(s, word, j)
    decreases |s|
  {
    FindFrom(s, word, 0)
  }

  function FindFrom(s: string, word: string, k: nat): (i: nat)
    requires k <= |s| && forall j :: 0 <= j < k ==> !OccursAt(s, word, j)
    ensures i <= |s| && (i < |s| ==> OccursAt(s, word, i))
    ensures forall j :: 0 <= j < i ==> !OccursAt(s, word, j)
    decreases |s| - k
  {
    if k == |s| || OccursAt(s, word, k) then k else FindFrom(s, word, k + 1)
  }

  /** The first position of any of the characters, or the length. */
  function FirstOf(s: string, chars: string): (i: nat)
    ensures i <= |s| && (i < |s| ==> s[i] in chars)
    ensures forall j :: 0 <= j < i ==> s[j] !in chars
  {
    if s == [] || s[0] in chars then 0 else 1 + FirstOf(s[1..], chars)
  }

  /** What stands behind the last `c`, or everything. */
  function BehindLast(s: string, c: char): string {
    if s == [] then []
    else if s[|s| - 1] == c then []
    else BehindLast(s[..|s| - 1], c) + [s[|s| - 1]]
  }

  function UpTo(s: string, chars: string): string {
    s[..FirstOf(s, chars)]
  }

  /** The host, path and query of an address whose scheme has been taken off. */
  function ReadAddress(scheme: string, address: string): Url {
    var local := UpTo(address[FirstOf(address, "/?#")..], "#");
    var q := FirstOf(local, "?");
    Url(LowerAll(HostOf(UpTo(address, "/?#"))), LowerAll(scheme),
        local[..q], if q < |local| then local[q + 1..] else "")
  }

  /** Without whoever stands before the last `@` and the port behind the first colon. */
  function HostOf(authority: string): string {
    UpTo(BehindLast(authority, '@'), ":")
  }

  function Parse(raw: string): Url {
    var trimmed := Trim(raw);
    var i := Find(trimmed, "://");
    if i < |trimmed| then ReadAddress(trimmed[..i], trimmed[i + 3..]) else ReadAddress("", trimmed)
  }

  // ----- Writing -----

  /** An address with everything one can carry. */
  datatype Address = Address(
    scheme: Option<string>, user: Option<string>, host: string, port: Option<string>, path: string,
    query: Option<string>, fragment: Option<string>)

  predicate Free(s: string, chars: string) {
    forall i :: 0 <= i < |s| ==> s[i] !in chars
  }

  predicate FreeOpt(s: Option<string>, chars: string) {
    s.Some? ==> Free(s.value, chars)
  }

  /** No part holds a character that would end it. */
  predicate Proper(a: Address) {
    && FreeOpt(a.scheme, ":") && FreeOpt(a.user, "/?#") && Free(a.host, "/?#@:") && FreeOpt(a.port, "/?#@")
    && Free(a.path, "?#") && (a.path != "" ==> a.path[0] == '/') && FreeOpt(a.query, "#")
  }

  function PortOf(a: Address): string {
    if a.port.Some? then ":" + a.port.value else ""
  }

  function Authority(a: Address): string {
    (if a.user.Some? then a.user.value + "@" else "") + a.host + PortOf(a)
  }

  /** What follows the host, up to the fragment. */
  function LocalPart(a: Address): string {
    a.path + if a.query.Some? then "?" + a.query.value else ""
  }

  function Rest(a: Address): string {
    LocalPart(a) + if a.fragment.Some? then "#" + a.fragment.value else ""
  }

  function Written(a: Address): string {
    (if a.scheme.Some? then a.scheme.value + "://" else "") + Authority(a) + Rest(a)
  }

  // ----- What is read of it -----

  lemma {:induction false} FirstOfIs(s: string, chars: string, k: nat)
    requires k <= |s| && (k < |s| ==> s[k] in chars) && forall j :: 0 <= j < k ==> s[j] !in chars
    ensures FirstOf(s, chars) == k
  {
  }

  lemma CutBefore(head: string, tail: string, chars: string)
    requires Free(head, chars) && (tail != "" ==> tail[0] in chars)
    ensures FirstOf(head + tail, chars) == |head|
    ensures UpTo(head + tail, chars) == head && (head + tail)[|head|..] == tail
  {
    FirstOfIs(head + tail, chars, |head|);
  }

  lemma {:induction false} BehindLastIs(head: string, tail: string, c: char)
    requires Free(tail, [c]) && (head != "" ==> head[|head| - 1] == c)
    ensures BehindLast(head + tail, c) == tail
  {
    if tail == "" {
      assert head + tail == head;
    } else {
      var n := |tail| - 1;
      BehindLastIs(head, tail[..n], c);
      assert (head + tail)[..|head| + n] == head + tail[..n];
      assert tail == tail[..n] + [tail[n]];
    }
  }

  lemma UserIsDropped(a: Address)
    requires Proper(a)
    ensures BehindLast(Authority(a), '@') == a.host + PortOf(a)
  {
    var head := if a.user.Some? then a.user.value + "@" else "";
    assert Authority(a) == head + (a.host + PortOf(a));
    BehindLastIs(head, a.host + PortOf(a), '@');
  }

  lemma HostIsRead(a: Address)
    requires Proper(a)
    ensures HostOf(Authority(a)) == a.host
    ensures Free(Authority(a), "/?#")
  {
    UserIsDropped(a);
    hide BehindLast;
    CutBefore(a.host, PortOf(a), ":");
  }

  lemma LocalPartIsRead(a: Address)
    requires Proper(a)
    ensures var local := UpTo(Rest(a), "#"); var q := FirstOf(local, "?");
            && local[..q] == a.path
            && (if q < |local| then local[q + 1..] else "") == a.query.GetOr("")
    ensures Rest(a) != "" ==> Rest(a)[0] in "/?#"
  {
    CutBefore(LocalPart(a), if a.fragment.Some? then "#" + a.fragment.value else "", "#");
    CutBefore(a.path, if a.query.Some? then "?" + a.query.value else "", "?");
  }

  lemma AddressIsRead(a: Address)
    requires Proper(a)
    ensures var s := Authority(a) + Rest(a); UpTo(s, "/?#") == Authority(a) && s[FirstOf(s, "/?#")..] == Rest(a)
  {
    HostIsRead(a);
    LocalPartIsRead(a);
    CutBefore(Authority(a), Rest(a), "/?#");
  }

  lemma {:induction false} FindIs(s: string, word: string, k: nat)
    requires k <= |s| && word != ""
    requires k < |s| ==> OccursAt(s, word, k)
    requires forall j :: 0 <= j < k ==> !OccursAt(s, word, j)
    ensures Find(s, word) == k
  {
  }

  lemma FoundByItsHead(s: string, word: string, j: nat)
    requires word != ""
    ensures OccursAt(s, word, j) ==> s[j] == word[0]
  {
  }

  lemma SchemeIsFound(scheme: string, tail: string)
    requires Free(scheme, ":")
    ensures Find(scheme + "://" + tail, "://") == |scheme|
  {
    var s, k := scheme + "://" + tail, |scheme|;
    assert s[k..k + 3] == "://";
    forall j | 0 <= j < k ensures !OccursAt(s, "://", j) {
      assert s[j] == scheme[j];
      FoundByItsHead(s, "://", j);
    }
    FindIs(s, "://", k);
  }

  /** Some position holds "://". */
  predicate HasMark(s: string) {
    exists i :: 0 <= i <= |s| && OccursAt(s, "://", i)
  }

  lemma NoMarkIsFound(s: string)
    ensures Find(s, "://") < |s| <==> HasMark(s)
  {
  }

  /**
   * Who is named, on which port and at which fragment never takes part: an address with a scheme is read
   * as its scheme and host in small letters and its path and query as they are.
   */
  lemma NoiseIsDropped(raw: string, a: Address)
    requires Proper(a) && Trim(raw) == Written(a) && (a.scheme.None? ==> !HasMark(Written(a)))
    ensures Parse(raw) == Url(LowerAll(a.host), LowerAll(a.scheme.GetOr("")), a.path, a.query.GetOr(""))
  {
    hide Proper, Find, Trim, HasMark, ReadAddress, Authority, Rest;
    var address := Authority(a) + Rest(a);
    PartsAreRead(a, a.scheme.GetOr(""));
    if a.scheme.Some? {
      var scheme := a.scheme.value;
      SchemeHasNoColon(a);
      SchemeIsFound(scheme, address);
      assert Written(a) == scheme + "://" + address;
      assert Written(a)[|scheme| + 3..] == address && Written(a)[..|scheme|] == scheme;
    } else {
      NoMarkIsFound(Written(a));
      assert Written(a) == address;
    }
  }

  lemma SchemeHasNoColon(a: Address)
    requires Proper(a)
    ensures FreeOpt(a.scheme, ":")
  {
  }

  lemma PartsAreRead(a: Address, scheme: string)
    requires Proper(a)
    ensures ReadAddress(scheme, Authority(a) + Rest(a)) ==
              Url(LowerAll(a.host), LowerAll(scheme), a.path, a.query.GetOr(""))
  {
    hide Proper, FirstOf, UpTo, HostOf, Authority, Rest;
    HostIsRead(a);
    LocalPartIsRead(a);
    AddressIsRead(a);
  }

  /** Reading gives back what the address of a page is spelled as, when it is spelled as one. */
  lemma ParseUndoesNormalized(u: Url)
    requires Free(u.scheme, ":") && Free(u.host, "/?#@:") && Free(u.path, "?#") && Free(u.query, "#")
    requires u.path != "" ==> u.path[0] == '/'
    requires LowerAll(u.scheme) == u.scheme && LowerAll(u.host) == u.host
    requires Trim(u.Normalized()) == u.Normalized() && (u.scheme == "" ==> !HasMark(u.Normalized()))
    ensures Parse(u.Normalized()) == u
  {
    hide Trim, HasMark, Parse, LowerAll;
    var a := Address(if u.scheme != "" then Some(u.scheme) else None, None, u.host, None, u.path,
                     if u.query != "" then Some(u.query) else None, None);
    assert Written(a) == u.Normalized();
    NoiseIsDropped(u.Normalized(), a);
  }

  /**
   * An address with no scheme is read for its host exactly when "://" stands nowhere in it. Otherwise all
   * that stands before it is taken for a scheme.
   */
  lemma SchemelessIsReadExactlyWhen(raw: string, a: Address)
    requires Proper(a) && a.scheme.None? && a.host != "" && Trim(raw) == Written(a)
    ensures Parse(raw) == Url(LowerAll(a.host), "", a.path, a.query.GetOr("")) <==> !HasMark(Written(a))
  {
    hide Trim, ReadAddress, Find;
    if HasMark(Written(a)) {
      hide HasMark;
      NoMarkIsFound(Written(a));
      var i := Find(Written(a), "://");
      NoMarkAtTheStart(a);
      SchemeIsKept(Written(a)[..i], Written(a)[i + 3..]);
    } else {
      NoiseIsDropped(raw, a);
      assert LowerAll("") == "";
    }
  }

  lemma NoMarkAtTheStart(a: Address)
    requires Proper(a) && a.scheme.None? && a.host != ""
    ensures !OccursAt(Written(a), "://", 0)
  {
    var s := Written(a);
    FoundByItsHead(s, "://", 0);
    if a.user.Some? {
      var user := a.user.value + "@";
      assert s[0] == user[0] && (|user| > 1 ==> s[1] == user[1]);
      assert |user| > 1 ==> user[1] != '/';
      assert |s| >= 3 ==> s[0..3][0] == s[0] && s[0..3][1] == s[1];
    } else {
      assert s[0] == a.host[0];
    }
  }

  lemma SchemeIsKept(scheme: string, address: string)
    ensures ReadAddress(scheme, address).scheme == LowerAll(scheme)
  {
  }

  /** One such: the page carries another address in its query, and that one is read for the host. */
  lemma CarriedAddressIsRead()
    ensures Parse("a.b/?u=http://c.d").host == "c.d"
  {
    var raw, a := "a.b/?u=http://c.d", Address(Some("a.b/?u=http"), None, "c.d", None, "", None, None);
    hide Parse, Trim;
    NothingToTrim(raw);
    assert Written(a) == raw;
    NoiseIsDropped(raw, a);
    assert LowerAll("c.d") == "c.d";
  }
}
