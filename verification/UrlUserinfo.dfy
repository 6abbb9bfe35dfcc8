/**
  Dropping the userinfo of a URL before it is shown, against the components of RFC 3986,
  sections 3.2 and 3.2.1.
 */
module UrlUserinfo {
  import opened Wrappers
  import opened Text

  /** `value.find("://")` */
  function FindScheme(s: string): Option<nat> {
    if |s| < 3 then None
    else if s[..3] == "://" then Some(0)
    else match FindScheme(s[1..])
      case None => None
      case Some(n) => Some(n + 1)
  }

  predicate EndsAuthority(c: char) { c == '/' || c == '?' || c == '#' }

  /** `rest.find(['/', '?', '#'])`, or the whole length. */
  function AuthorityEnd(s: string): (n: nat)
    ensures n <= |s|
  {
    if s == "" || EndsAuthority(s[0]) then 0 else 1 + AuthorityEnd(s[1..])
  }

  /** `authority.rfind('@')` */
  function LastAt(s: string): (r: Option<nat>)
    ensures r.Some? ==> r.value < |s|
  {
    if s == "" then None
    else if s[|s| - 1] == '@' then Some(|s| - 1)
    else LastAt(s[..|s| - 1])
  }

  function StripUrlUserinfo(value: string): string {
    match FindScheme(value)
    case None => value
    case Some(schemeAt) =>
      SchemeFits(value);
      StripAfterScheme(value, schemeAt + 3)
  }

  function StripAfterScheme(value: string, restStart: nat): string
    requires restStart <= |value|
  {
    var rest := value[restStart..];
    var authorityEnd := AuthorityEnd(rest);
    match LastAt(rest[..authorityEnd])
    case None => value
    case Some(at) => value[..restStart] + rest[at + 1..authorityEnd] + rest[authorityEnd..]
  }

  lemma {:induction false} SchemeFits(s: string)
    ensures FindScheme(s).Some? ==> FindScheme(s).value + 3 <= |s|
  {
    if |s| >= 3 {
      SchemeFits(s[1..]);
    }
  }

  // ----- the components -----

  /** What precedes "://": it does not contain that mark, nor does it reach into it. */
  predicate IsSchemePart(s: string) {
    FindScheme(s + "://") == Some(|s|)
  }

  predicate InAuthority(s: string) {
    forall i | 0 <= i < |s| :: !EndsAuthority(s[i])
  }

  /** Path, query and fragment, from their first delimiter on. */
  predicate IsTail(s: string) {
    s == "" || EndsAuthority(s[0])
  }

  /** Host and port: the part of the authority after its last '@'. */
  predicate IsHostPort(s: string) {
    InAuthority(s) && '@' !in s
  }

  function Url(scheme: string, userinfo: Option<string>, hostPort: string, tail: string): string {
    scheme + "://" + (Authority(userinfo, hostPort) + tail)
  }

  function Authority(userinfo: Option<string>, hostPort: string): string {
    if userinfo.Some? then userinfo.value + "@" + hostPort else hostPort
  }

  predicate AreComponents(scheme: string, userinfo: Option<string>, hostPort: string, tail: string) {
    IsSchemePart(scheme) && (userinfo.Some? ==> InAuthority(userinfo.value)) && IsHostPort(hostPort) && IsTail(tail)
  }

  lemma {:induction false} SchemeFoundAtMark(s: string, rest: string)
    requires IsSchemePart(s)
    ensures FindScheme(s + "://" + rest) == Some(|s|)
  {
    var marked := s + "://";
    if s == "" {
      assert (marked + rest)[..3] == "://";
    } else {
      assert (marked + rest)[..3] == marked[..3];
      assert marked[1..] == s[1..] + "://";
      assert (marked + rest)[1..] == s[1..] + "://" + rest;
      assert |s[1..] + "://"| >= 3;
      SchemeFoundAtMark(s[1..], rest);
    }
  }

  lemma {:induction false} AuthorityEndsAtTail(a: string, tail: string)
    requires InAuthority(a) && IsTail(tail)
    ensures AuthorityEnd(a + tail) == |a|
  {
    if a == "" {
      assert a + tail == tail;
    } else {
      assert (a + tail)[1..] == a[1..] + tail;
      AuthorityEndsAtTail(a[1..], tail);
    }
  }

  lemma {:induction false} LastAtIsLast(u: string, h: string)
    requires '@' !in h
    ensures LastAt(u + "@" + h) == Some(|u|)
    ensures LastAt(h) == None
    decreases |h|
  {
    if h == "" {
      assert (u + "@" + h)[|u|] == '@';
    } else {
      assert (u + "@" + h)[..|u + "@" + h| - 1] == u + "@" + h[..|h| - 1];
      LastAtIsLast(u, h[..|h| - 1]);
    }
  }

  /** What the scan finds after the "://": where the authority ends, and where its userinfo ends. */
  lemma AuthorityIsFound(userinfo: Option<string>, hostPort: string, tail: string)
    requires AreComponents("", userinfo, hostPort, tail)
    ensures var authority := Authority(userinfo, hostPort);
      var rest := authority + tail;
      && AuthorityEnd(rest) == |authority| && rest[..|authority|] == authority && rest[|authority|..] == tail
      && LastAt(authority) == (if userinfo.Some? then Some(|userinfo.value|) else None)
      && (userinfo.Some? ==> rest[|userinfo.value| + 1..|authority|] == hostPort)
  {
    AuthorityEndsAtTail(Authority(userinfo, hostPort), tail);
    if userinfo.Some? {
      LastAtIsLast(userinfo.value, hostPort);
    } else {
      LastAtIsLast("", hostPort);
    }
  }

  lemma StripAfterMark(mark: string, userinfo: Option<string>, hostPort: string, tail: string)
    requires AreComponents("", userinfo, hostPort, tail)
    ensures StripAfterScheme(mark + (Authority(userinfo, hostPort) + tail), |mark|) == mark + (hostPort + tail)
  {
    var rest := Authority(userinfo, hostPort) + tail;
    AuthorityIsFound(userinfo, hostPort, tail);
    CutAfter(mark, rest);
    if userinfo.Some? {
      Associates(mark, hostPort, tail);
    }
  }

  /** Stripping removes the userinfo and nothing else: scheme, host, port, path, query and fragment stay. */
  lemma StripKeepsTheRest(scheme: string, userinfo: Option<string>, hostPort: string, tail: string)
    requires AreComponents(scheme, userinfo, hostPort, tail)
    ensures StripUrlUserinfo(Url(scheme, userinfo, hostPort, tail)) == Url(scheme, None, hostPort, tail)
  {
    var mark := scheme + "://";
    SchemeFoundAtMark(scheme, Authority(userinfo, hostPort) + tail);
    NoScheme();
    StripAfterMark(mark, userinfo, hostPort, tail);
  }

  lemma NoScheme()
    ensures IsSchemePart("")
  {
    assert "" + "://" == "://" && "://"[..3] == "://";
  }

  lemma SchemePartCons(c: char, part: string, rest: string)
    requires IsSchemePart(part) && ([c] + part + "://" + rest)[..3] != "://"
    ensures IsSchemePart([c] + part)
    ensures [c] + part + "://" + rest == [c] + (part + "://" + rest)
  {
    var head := [c] + part + "://";
    assert head[1..] == part + "://";
    assert head[..3] == ([c] + part + "://" + rest)[..3];
  }

  lemma {:induction false} FindSchemeSplits(s: string)
    requires FindScheme(s).Some?
    ensures var n := FindScheme(s).value;
      n + 3 <= |s| && IsSchemePart(s[..n]) && s == s[..n] + "://" + s[n + 3..]
  {
    SchemeFits(s);
    if s[..3] == "://" {
      assert s[..0] + "://" == "://";
      assert s == s[..3] + s[3..];
    } else {
      FindSchemeSplits(s[1..]);
      var n := FindScheme(s).value;
      var part, rest := s[1..][..n - 1], s[1..][n + 2..];
      assert s[1..] == part + "://" + rest;
      assert s[..n] == [s[0]] + part && s[n + 3..] == rest;
      SchemePartCons(s[0], part, rest);
    }
  }

  lemma {:induction false} AuthorityEndSplits(s: string)
    ensures InAuthority(s[..AuthorityEnd(s)]) && IsTail(s[AuthorityEnd(s)..])
  {
    if s != "" && !EndsAuthority(s[0]) {
      AuthorityEndSplits(s[1..]);
      var n := AuthorityEnd(s);
      assert s[..n][1..] == s[1..][..n - 1] && s[n..] == s[1..][n - 1..];
      forall i | 0 <= i < n ensures !EndsAuthority(s[..n][i]) {
        if i > 0 {
          assert s[..n][i] == s[1..][..n - 1][i - 1];
        }
      }
    }
  }

  lemma {:induction false} LastAtSplits(s: string)
    ensures LastAt(s).None? ==> '@' !in s
    ensures LastAt(s).Some? ==> s[LastAt(s).value] == '@' && '@' !in s[LastAt(s).value + 1..]
  {
    if s != "" {
      var front := s[..|s| - 1];
      LastAtSplits(front);
      assert s == front + [s[|s| - 1]];
      if s[|s| - 1] != '@' && LastAt(front).Some? {
        var at := LastAt(front).value;
        assert s[at + 1..] == front[at + 1..] + [s[|s| - 1]];
      }
    }
  }

  lemma AuthorityHasParts(authority: string) returns (userinfo: Option<string>, hostPort: string)
    requires InAuthority(authority)
    ensures authority == Authority(userinfo, hostPort)
    ensures IsHostPort(hostPort) && (userinfo.Some? ==> InAuthority(userinfo.value))
  {
    LastAtSplits(authority);
    match LastAt(authority)
    case None =>
      userinfo, hostPort := None, authority;
    case Some(at) =>
      userinfo, hostPort := Some(authority[..at]), authority[at + 1..];
      assert authority == authority[..at] + "@" + authority[at + 1..];
  }

  /** Every value with a "://" has components. */
  lemma ComponentsExist(value: string)
    returns (scheme: string, userinfo: Option<string>, hostPort: string, tail: string)
    requires FindScheme(value).Some?
    ensures AreComponents(scheme, userinfo, hostPort, tail)
    ensures value == Url(scheme, userinfo, hostPort, tail)
  {
    FindSchemeSplits(value);
    var n := FindScheme(value).value;
    var rest := value[n + 3..];
    AuthorityEndSplits(rest);
    var end := AuthorityEnd(rest);
    scheme, tail := value[..n], rest[end..];
    userinfo, hostPort := AuthorityHasParts(rest[..end]);
    assert rest == rest[..end] + tail;
  }

  predicate MarkAt(s: string, i: nat) {
    i + 3 <= |s| && s[i] == ':' && s[i + 1] == '/' && s[i + 2] == '/'
  }

  /** The scheme ends at the first "://". */
  lemma {:induction false} FindsFirstMark(s: string)
    ensures match FindScheme(s)
      case None => forall i: nat :: !MarkAt(s, i)
      case Some(n) => MarkAt(s, n) && forall i: nat | i < n :: !MarkAt(s, i)
  {
    assert |s| >= 3 ==> (s[..3] == "://" <==> MarkAt(s, 0));
    if |s| >= 3 && s[..3] != "://" {
      FindsFirstMark(s[1..]);
      assert forall i: nat | i > 0 :: MarkAt(s, i) <==> MarkAt(s[1..], i - 1);
      forall i: nat | MarkAt(s, i) ensures i > 0 && MarkAt(s[1..], i - 1) {
      }
    }
  }

  predicate FreeOf(s: string, cs: string) {
    forall i | 0 <= i < |s| :: s[i] !in cs
  }

  /** Character by character: from the authority, which ends at the first '/', '?' or '#', everything up to its
      last '@' is taken out. */
  lemma StripsUpToLastAt(scheme: string, user: string, hostPort: string, tail: string)
    requires MarkAt(scheme + "://", |scheme|) && forall i: nat | i < |scheme| :: !MarkAt(scheme + "://", i)
    requires FreeOf(user, "/?#") && FreeOf(hostPort, "/?#@") && (tail == "" || tail[0] in "/?#")
    ensures StripUrlUserinfo(scheme + "://" + (user + "@" + hostPort + tail)) == scheme + "://" + (hostPort + tail)
    ensures StripUrlUserinfo(scheme + "://" + (hostPort + tail)) == scheme + "://" + (hostPort + tail)
  {
    FindsFirstMark(scheme + "://");
    assert FindScheme(scheme + "://") == Some(|scheme|);
    assert AreComponents(scheme, Some(user), hostPort, tail) && AreComponents(scheme, None, hostPort, tail);
    StripKeepsTheRest(scheme, Some(user), hostPort, tail);
    StripKeepsTheRest(scheme, None, hostPort, tail);
  }

  /** For every value at all: stripping twice is stripping once, and what is left of the authority of a
      URL has no '@'. */
  lemma StripIsStable(value: string)
    ensures StripUrlUserinfo(StripUrlUserinfo(value)) == StripUrlUserinfo(value)
    ensures FindScheme(value).Some? ==>
      exists scheme, hostPort, tail ::
        AreComponents(scheme, None, hostPort, tail) && StripUrlUserinfo(value) == Url(scheme, None, hostPort, tail)
    ensures FindScheme(value).None? ==> StripUrlUserinfo(value) == value
  {
    if FindScheme(value).Some? {
      var scheme, userinfo, hostPort, tail := ComponentsExist(value);
      StripKeepsTheRest(scheme, userinfo, hostPort, tail);
      StripKeepsTheRest(scheme, None, hostPort, tail);
      assert AreComponents(scheme, None, hostPort, tail);
    }
  }
}
