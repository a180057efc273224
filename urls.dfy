/** Parsed URLs, as far as the crawlers look at them.

    Resolving an href against the page (`new URL(raw, location.href)`) is a parameter of the
    operations that need it: it yields a parsed `Url` or fails, which stands for the exception
    `new URL` throws. Serialising (`u.toString()`) is written out for the shape WHATWG URLs with
    an authority have, `scheme "//" [userinfo "@"] host [":" port] path-and-query ["#" fragment]`,
    and `Hostname` reads the host back out of such a string, which is what `new URL(href).hostname`
    does to a serialised URL. */
module Urls {
  import opened Wrappers
  import opened Js

  datatype UrlRecord = UrlRecord(
    scheme: string,          // `protocol`, with its colon: "https:"
    userinfo: string,        // "" or "user:password@"
    host: string,            // `hostname`
    port: string,            // "" or ":8080"
    path: string,            // path and query: "/a/b?x=1"
    fragment: Option<string> // `hash` without its "#"; None when there is none
  )

  predicate IsAuthorityEnd(c: char) {
    c == '/' || c == '?' || c == '#'
  }

  predicate IsSchemeChar(c: char) {
    IsAsciiLetter(c) || IsDigit(c) || c == '+' || c == '-' || c == '.'
  }

  predicate IsHostChar(c: char) {
    c != '@' && c != ':' && !IsAuthorityEnd(c)
  }

  /** The components as a parser produces them: each can be told apart from its neighbours in
      the serialised string (userinfo is percent-encoded, hosts are not bracketed IPv6 literals). */
  predicate ValidUrl(u: UrlRecord) {
    && |u.scheme| >= 2 && u.scheme[|u.scheme| - 1] == ':'
    && (forall i :: 0 <= i < |u.scheme| - 1 ==> IsSchemeChar(u.scheme[i]))
    && (u.userinfo == [] || u.userinfo[|u.userinfo| - 1] == '@')
    && (forall i :: 0 <= i < |u.userinfo| - 1 ==> u.userinfo[i] != '@' && !IsAuthorityEnd(u.userinfo[i]))
    && |u.host| > 0 && (forall i :: 0 <= i < |u.host| ==> IsHostChar(u.host[i]))
    && (u.port == [] || u.port[0] == ':')
    && (forall i :: 1 <= i < |u.port| ==> IsDigit(u.port[i]))
    && (u.path == [] || u.path[0] == '/' || u.path[0] == '?')
    && (forall i :: 0 <= i < |u.path| ==> u.path[i] != '#')
  }

  type Url = u: UrlRecord | ValidUrl(u) witness UrlRecord("h:", "", "h", "", "", None)

  /** `u.protocol === 'http:' || u.protocol === 'https:'` */
  predicate IsHttp(u: UrlRecord) {
    u.scheme == "http:" || u.scheme == "https:"
  }

  /** `u.hash = ''`: assigning the empty string removes the fragment. */
  function StripFragment(u: Url): (v: Url)
    ensures v.fragment == None
    ensures v.scheme == u.scheme && v.userinfo == u.userinfo && v.host == u.host
    ensures v.port == u.port && v.path == u.path
  {
    u.(fragment := None)
  }

  function FragmentSuffix(f: Option<string>): string {
    match f
    case None => ""
    case Some(t) => "#" + t
  }

  /** The authority of a URL: `userinfo@host:port`. */
  function AuthorityText(u: UrlRecord): string {
    u.userinfo + u.host + u.port
  }

  /** What follows the authority: path, query and fragment. */
  function AfterAuthority(u: UrlRecord): string {
    u.path + FragmentSuffix(u.fragment)
  }

  /** `u.toString()`: scheme, `//`, authority, then path, query and fragment. */
  function Serialize(u: UrlRecord): string {
    (u.scheme + "//") + AuthorityText(u) + AfterAuthority(u)
  }

  predicate IsNotSlash(c: char) { c != '/' }
  predicate IsAuthorityChar(c: char) { !IsAuthorityEnd(c) }
  predicate IsNotColon(c: char) { c != ':' }

  /** The position just after the last `@` of `t`, or 0 when there is none. */
  function AfterLastAt(t: string): (r: nat)
    ensures r <= |t|
    ensures r > 0 ==> t[r - 1] == '@'
    ensures forall k :: r <= k < |t| ==> t[k] != '@'
  {
    if t == [] then 0
    else if t[|t| - 1] == '@' then |t|
    else AfterLastAt(t[..|t| - 1])
  }

  lemma AfterLastAtIs(t: string, r: nat)
    requires r <= |t|
    requires r > 0 ==> t[r - 1] == '@'
    requires forall k :: r <= k < |t| ==> t[k] != '@'
    ensures AfterLastAt(t) == r
  {
  }

  /** The authority of an absolute URL string: what follows the first `//` up to the first
      `/`, `?` or `#`. */
  function Authority(s: string): Option<string> {
    var slash := RunEnd(IsNotSlash, s, 0);
    if slash + 1 >= |s| || s[slash + 1] != '/' then None
    else Some(s[slash + 2..RunEnd(IsAuthorityChar, s, slash + 2)])
  }

  /** The host within an authority: after its last `@`, before the port's `:`. */
  function HostOfAuthority(authority: string): string {
    var hostPort := authority[AfterLastAt(authority)..];
    hostPort[..RunEnd(IsNotColon, hostPort, 0)]
  }

  /** `new URL(href).hostname` for an absolute URL string. `None` stands for the exception
      thrown on a string that is not of this form. */
  function Hostname(s: string): (r: Option<string>)
    ensures r.Some? ==> |r.value| > 0
  {
    match Authority(s)
    case None => None
    case Some(authority) =>
      var host := HostOfAuthority(authority);
      if host == [] then None else Some(host)
  }

  /** A greedy run that starts where a piece `y` starts, where every character of `y` belongs
      and the character after it does not, ends where `y` ends. */
  lemma RunOver(p: char -> bool, x: string, y: string, z: string)
    requires forall k :: 0 <= k < |y| ==> p(y[k])
    requires z == [] || !p(z[0])
    ensures RunEnd(p, x + y + z, |x|) == |x| + |y|
  {
    var s := x + y + z;
    assert forall k :: |x| <= k < |x| + |y| ==> s[k] == y[k - |x|];
    assert |x| + |y| < |s| ==> s[|x| + |y|] == z[0];
    RunEndIs(p, s, |x|, |x| + |y|);
  }

  /** The first `/` of a serialised URL opens its `//`. */
  lemma FirstSlashOfSerialize(u: Url)
    ensures |u.scheme| + 1 < |Serialize(u)|
    ensures RunEnd(IsNotSlash, Serialize(u), 0) == |u.scheme|
    ensures Serialize(u)[|u.scheme| + 1] == '/'
  {
    var tail := "//" + AuthorityText(u) + AfterAuthority(u);
    assert Serialize(u) == [] + u.scheme + tail;
    forall k | 0 <= k < |u.scheme| ensures IsNotSlash(u.scheme[k]) {
      if k < |u.scheme| - 1 {
        assert IsSchemeChar(u.scheme[k]);
      }
    }
    RunOver(IsNotSlash, [], u.scheme, tail);
  }

  /** Userinfo, host and port hold no character that ends an authority. */
  lemma AuthorityChars(u: Url)
    ensures forall k :: 0 <= k < |AuthorityText(u)| ==> IsAuthorityChar(AuthorityText(u)[k])
  {
    var authority := AuthorityText(u);
    forall k | 0 <= k < |authority| ensures IsAuthorityChar(authority[k]) {
      if k < |u.userinfo| {
        assert authority[k] == u.userinfo[k];
      } else if k < |u.userinfo| + |u.host| {
        assert authority[k] == u.host[k - |u.userinfo|];
      } else {
        assert authority[k] == u.port[k - |u.userinfo| - |u.host|];
      }
    }
  }

  /** The authority of a serialised URL is its userinfo, host and port. */
  lemma AuthorityOfSerialize(u: Url)
    ensures |u.scheme| + 2 + |AuthorityText(u)| <= |Serialize(u)|
    ensures RunEnd(IsAuthorityChar, Serialize(u), |u.scheme| + 2) == |u.scheme| + 2 + |AuthorityText(u)|
    ensures Serialize(u)[|u.scheme| + 2..|u.scheme| + 2 + |AuthorityText(u)|] == AuthorityText(u)
  {
    var head, authority, tail := u.scheme + "//", AuthorityText(u), AfterAuthority(u);
    AuthorityChars(u);
    assert tail == [] || !IsAuthorityChar(tail[0]) by {
      if u.path == [] && tail != [] {
        assert tail[0] == '#';
      }
    }
    RunOver(IsAuthorityChar, head, authority, tail);
    assert (head + authority + tail)[|head|..|head| + |authority|] == authority;
  }

  /** The host is what lies between the userinfo's `@` and the port's `:`. */
  lemma HostOfAuthorityOf(u: Url)
    ensures HostOfAuthority(AuthorityText(u)) == u.host
  {
    var authority := AuthorityText(u);
    forall k | |u.userinfo| <= k < |authority| ensures authority[k] != '@' {
      if k < |u.userinfo| + |u.host| {
        assert authority[k] == u.host[k - |u.userinfo|];
      } else {
        assert authority[k] == u.port[k - |u.userinfo| - |u.host|];
      }
    }
    assert |u.userinfo| > 0 ==> authority[|u.userinfo| - 1] == u.userinfo[|u.userinfo| - 1];
    AfterLastAtIs(authority, |u.userinfo|);
    var hostPort := authority[|u.userinfo|..];
    assert hostPort == u.host + u.port;
    RunEndIs(IsNotColon, hostPort, 0, |u.host|);
    assert hostPort[..|u.host|] == u.host;
  }

  /** Reading the host back from a serialised URL gives the URL's host: the serialisation loses
      nothing `hostname` looks at. */
  lemma HostnameOfSerialize(u: Url)
    ensures Hostname(Serialize(u)) == Some(u.host)
  {
    FirstSlashOfSerialize(u);
    AuthorityOfSerialize(u);
    assert Authority(Serialize(u)) == Some(AuthorityText(u));
    HostOfAuthorityOf(u);
  }

  /** A serialised URL without a fragment contains no `#`. */
  lemma SerializeWithoutFragment(u: Url)
    requires u.fragment == None
    ensures '#' !in Serialize(u)
  {
    assert '#' !in u.scheme by {
      forall k | 0 <= k < |u.scheme| ensures u.scheme[k] != '#' {
        if k < |u.scheme| - 1 {
          assert IsSchemeChar(u.scheme[k]);
        }
      }
    }
    AuthorityChars(u);
    assert '#' !in AuthorityText(u);
    assert AfterAuthority(u) == u.path;
  }

}
