/**
  * The wire suite's cookie jar: a list of cookies that drops expired ones lazily, chooses the cookies of a
  * request by domain, path and scheme, and orders them by path length (RFC 6265, sections 5.1.3, 5.1.4, 5.3
  * and 5.4). The jar is proved to answer like a plain map that never forgets anything by itself.
  */
module CookieJar {
  import opened Text

  /** The parts of a parsed URL the jar reads. */
  datatype Url = Url(protocol: string, hostname: string, pathname: string)

  /** The calls into the JavaScript runtime, left open: every result holds whatever they return. */
  datatype Runtime = Runtime(
    lower: string -> string,
    /** `Number(text)` of a decimal integer, None when it is not finite. */
    number: string -> Option<int>,
    /** `Date.parse(text)`, None for NaN. */
    parseDate: string -> Option<int>)

  datatype Cookie = Cookie(
    name: string, value: string, domain: string, hostOnly: bool, path: string, secure: bool, expiresAt: Option<int>)

  datatype Key = Key(name: string, domain: string, path: string)

  function KeyOf(c: Cookie): (k: Key) { Key(c.name, c.domain, c.path) }

  // ---------------------------------------------------------------- matching

  function LastIndexOfChar(s: string, c: char): (r: int)
    ensures -1 <= r < |s|
    ensures r == -1 ==> c !in s
    ensures r >= 0 ==> s[r] == c && c !in s[r + 1..]
  {
    if s == "" then -1
    else if s[|s| - 1] == c then |s| - 1
    else
      assert s == s[..|s| - 1] + [s[|s| - 1]];
      var r := LastIndexOfChar(s[..|s| - 1], c);
      assert r >= 0 ==> s[r + 1..] == s[..|s| - 1][r + 1..] + [s[|s| - 1]];
      r
  }

  function DefaultPath(pathname: string): (r: string)
    ensures "/" <= r
  {
    if !("/" <= pathname) then "/"
    else
      var last := LastIndexOfChar(pathname, '/');
      if last <= 0 then "/" else pathname[..last]
  }

  predicate DomainMatches(host: string, domain: string)
  {
    host == domain || (|domain| < |host| && host[|host| - |domain| - 1..] == "." + domain)
  }

  predicate PathMatches(requestPath: string, cookiePath: string)
  {
    if requestPath == cookiePath then true
    else if !(cookiePath <= requestPath) then false
    else (cookiePath != "" && cookiePath[|cookiePath| - 1] == '/') || requestPath[|cookiePath|] == '/'
  }

  predicate IsSecureOrigin(url: Url)
  {
    url.protocol == "https:" || url.hostname == "localhost" || url.hostname == "127.0.0.1" || url.hostname == "[::1]"
  }

  predicate Expired(c: Cookie, now: int)
  {
    c.expiresAt.Some? && c.expiresAt.value <= now
  }

  /** The cookie goes to a request for `url` (`host` is its lower-cased host name). */
  predicate Applies(c: Cookie, host: string, url: Url)
  {
    && (if c.hostOnly then host == c.domain else DomainMatches(host, c.domain))
    && PathMatches(url.pathname, c.path)
    && (!c.secure || IsSecureOrigin(url))
  }

  // ---------------------------------------------------------------- Set-Cookie parsing

  datatype Attributes = Attributes(
    domain: string, hostOnly: bool, path: string, secure: bool, maxAge: Option<int>, expires: Option<int>)

  predicate IsDigits(s: string) { s != "" && forall i :: 0 <= i < |s| ==> '0' <= s[i] <= '9' }

  /** The pattern `^-?\d+$`. */
  predicate IsInteger(s: string)
  {
    IsDigits(s) || (s != "" && s[0] == '-' && IsDigits(s[1..]))
  }

  function AttributeKey(rt: Runtime, attribute: string): (k: string)
  {
    var separator := IndexOfChar(attribute, '=');
    rt.lower(Trim(if separator == -1 then attribute else attribute[..separator]))
  }

  function AttributeValue(attribute: string): (v: string)
  {
    var separator := IndexOfChar(attribute, '=');
    if separator == -1 then "" else Trim(attribute[separator + 1..])
  }

  /** The `Domain` attribute as it is compared: without one leading dot, lower-cased. */
  function DomainCandidate(rt: Runtime, value: string): (d: string)
  {
    rt.lower(if "." <= value then value[1..] else value)
  }

  /** One attribute's effect, or None when the whole cookie is refused for naming another domain. */
  function WithAttribute(rt: Runtime, host: string, pathname: string, a: Attributes, attribute: string): (r: Option<Attributes>)
  {
    var key := AttributeKey(rt, attribute);
    var value := AttributeValue(attribute);
    if key == "domain" then
      var candidate := DomainCandidate(rt, value);
      if candidate == "" then Some(a)
      else if !DomainMatches(host, candidate) then None
      else Some(a.(domain := candidate, hostOnly := false))
    else if key == "path" then
      Some(a.(path := if "/" <= value then value else DefaultPath(pathname)))
    else if key == "secure" then Some(a.(secure := true))
    else if key == "max-age" then
      Some(if IsInteger(value) && rt.number(value).Some? then a.(maxAge := rt.number(value)) else a)
    else if key == "expires" then
      Some(if rt.parseDate(value).Some? then a.(expires := rt.parseDate(value)) else a)
    else Some(a)
  }

  function WithAttributes(rt: Runtime, host: string, pathname: string, a: Attributes, attributes: seq<string>): (r: Option<Attributes>)
    decreases |attributes|
  {
    if attributes == [] then Some(a)
    else match WithAttribute(rt, host, pathname, a, attributes[0])
      case None => None
      case Some(b) => WithAttributes(rt, host, pathname, b, attributes[1..])
  }

  function InitialAttributes(host: string, pathname: string): (a: Attributes)
  {
    Attributes(host, true, DefaultPath(pathname), false, None, None)
  }

  /** Max-Age wins over Expires (RFC 6265, section 5.3, step 3). */
  function ExpiryOf(a: Attributes, now: int): (r: Option<int>)
  {
    if a.maxAge.Some? then Some(now + a.maxAge.value * 1000) else a.expires
  }

  /** The cookie a `Set-Cookie` header describes, or None when the header stores and removes nothing. */
  function ParseSetCookie(rt: Runtime, url: Url, setCookie: string, now: int): (r: Option<Cookie>)
  {
    var parts := Split(setCookie, ";");
    var equals := IndexOfChar(parts[0], '=');
    if equals <= 0 then None
    else
      var name := Trim(parts[0][..equals]);
      var value := Trim(parts[0][equals + 1..]);
      if name == "" then None
      else
        var host := rt.lower(url.hostname);
        match WithAttributes(rt, host, url.pathname, InitialAttributes(host, url.pathname), parts[1..])
        case None => None
        case Some(a) => Some(Cookie(name, value, a.domain, a.hostOnly, a.path, a.secure, ExpiryOf(a, now)))
  }

  // ---------------------------------------------------------------- the list jar, as values

  function Without(cookies: seq<Cookie>, key: Key): (r: seq<Cookie>)
  {
    Filter(cookies, (c: Cookie) => KeyOf(c) != key)
  }

  function Purged(cookies: seq<Cookie>, now: int): (r: seq<Cookie>)
  {
    Filter(cookies, (c: Cookie) => !Expired(c, now))
  }

  function Applicable(cookies: seq<Cookie>, host: string, url: Url): (r: seq<Cookie>)
  {
    Filter(cookies, (c: Cookie) => Applies(c, host, url))
  }

  /** A cookie that is expired, or secure and from an insecure origin, is not kept. */
  predicate Refused(c: Cookie, secureOrigin: bool, now: int)
  {
    Expired(c, now) || (c.secure && !secureOrigin)
  }

  /** The list after a store: the old cookie of the key goes even when the new one is refused. */
  function Stored(cookies: seq<Cookie>, parsed: Option<Cookie>, secureOrigin: bool, now: int): (r: seq<Cookie>)
  {
    match parsed
    case None => cookies
    case Some(c) =>
      var rest := Without(cookies, KeyOf(c));
      if Refused(c, secureOrigin, now) then rest else rest + [c]
  }

  function Insert(c: Cookie, sorted: seq<Cookie>): (r: seq<Cookie>)
    ensures forall x :: x in r <==> x == c || x in sorted
  {
    if sorted == [] || |c.path| >= |sorted[0].path| then [c] + sorted
    else
      assert sorted == [sorted[0]] + sorted[1..];
      [sorted[0]] + Insert(c, sorted[1..])
  }

  /** The stable sort by descending path length. */
  function SortByPath(cookies: seq<Cookie>): (r: seq<Cookie>)
    ensures forall x :: x in r <==> x in cookies
  {
    if cookies == [] then []
    else
      assert cookies == [cookies[0]] + cookies[1..];
      Insert(cookies[0], SortByPath(cookies[1..]))
  }

  /** The cookies sent with a request, in the order they are sent. */
  function Sent(cookies: seq<Cookie>, host: string, url: Url, now: int): (r: seq<Cookie>)
    ensures forall c :: c in r <==> c in cookies && !Expired(c, now) && Applies(c, host, url)
  {
    SortByPath(Applicable(Purged(cookies, now), host, url))
  }

  function Pair(c: Cookie): (s: string) { c.name + "=" + c.value }

  function Pairs(cookies: seq<Cookie>): (r: seq<string>)
    ensures |r| == |cookies|
    ensures forall i :: 0 <= i < |cookies| ==> r[i] == Pair(cookies[i])
  {
    if cookies == [] then [] else [Pair(cookies[0])] + Pairs(cookies[1..])
  }

  function Header(cookies: seq<Cookie>): (h: Option<string>)
  {
    if cookies == [] then None else Some(Join(Pairs(cookies), "; "))
  }

  /** What `get` reads out of the pairs of a header: the value of the first pair of that name. */
  function FindPair(pairs: seq<string>, name: string): (r: Option<string>)
  {
    if pairs == [] then None
    else
      var equals := IndexOfChar(pairs[0], '=');
      if Slice(pairs[0], equals) == name then Some(pairs[0][equals + 1..]) else FindPair(pairs[1..], name)
  }

  /** `pair.slice(0, equals)`: with no `=` the index is -1 and all but the last character is kept. */
  function Slice(pair: string, equals: int): (r: string)
    requires -1 <= equals < |pair|
  {
    if equals >= 0 then pair[..equals] else if pair == "" then "" else pair[..|pair| - 1]
  }

  function FindInHeader(header: Option<string>, name: string): (r: Option<string>)
  {
    if header.None? || header.value == "" then None else FindPair(Split(header.value, "; "), name)
  }

  /** The attribute loop of `store`: None when an attribute refuses the whole cookie. */
  method ReadAttributes(rt: Runtime, host: string, pathname: string, attributes: seq<string>) returns (r: Option<Attributes>)
    ensures r == WithAttributes(rt, host, pathname, InitialAttributes(host, pathname), attributes)
  {
    var a := InitialAttributes(host, pathname);
    var i := 0;
    while i < |attributes|
      invariant 0 <= i <= |attributes|
      invariant WithAttributes(rt, host, pathname, InitialAttributes(host, pathname), attributes) ==
                WithAttributes(rt, host, pathname, a, attributes[i..])
    {
      assert attributes[i..][0] == attributes[i] && attributes[i..][1..] == attributes[i + 1..];
      var key, value := AttributeKey(rt, attributes[i]), AttributeValue(attributes[i]);
      if key == "domain" {
        var candidate := DomainCandidate(rt, value);
        if candidate != "" {
          if !DomainMatches(host, candidate) { return None; }
          a := a.(domain := candidate, hostOnly := false);
        }
      } else if key == "path" {
        a := a.(path := if "/" <= value then value else DefaultPath(pathname));
      } else if key == "secure" {
        a := a.(secure := true);
      } else if key == "max-age" {
        var seconds := rt.number(value);
        if IsInteger(value) && seconds.Some? { a := a.(maxAge := seconds); }
      } else if key == "expires" {
        var at := rt.parseDate(value);
        if at.Some? { a := a.(expires := at); }
      }
      i := i + 1;
    }
    r := Some(a);
  }

  // ---------------------------------------------------------------- the jar

  class Jar {
    var cookies: seq<Cookie>

    constructor ()
      ensures cookies == []
    {
      cookies := [];
    }

    method Store(rt: Runtime, url: Url, setCookie: string, now: int)
      modifies this
      ensures cookies == Stored(old(cookies), ParseSetCookie(rt, url, setCookie, now), IsSecureOrigin(url), now)
    {
      var parts := Split(setCookie, ";");
      var pair, attributes := parts[0], parts[1..];
      var equals := IndexOfChar(pair, '=');
      if equals <= 0 { return; }
      var name, value := Trim(pair[..equals]), Trim(pair[equals + 1..]);
      if name == "" { return; }
      var host := rt.lower(url.hostname);
      var parsed := ReadAttributes(rt, host, url.pathname, attributes);
      if parsed.None? { return; }
      var a := parsed.value;
      var expiresAt := ExpiryOf(a, now);
      cookies := Without(cookies, Key(name, a.domain, a.path));
      if expiresAt.Some? && expiresAt.value <= now { return; }
      if a.secure && !IsSecureOrigin(url) { return; }
      cookies := cookies + [Cookie(name, value, a.domain, a.hostOnly, a.path, a.secure, expiresAt)];
    }

    method HeaderFor(rt: Runtime, url: Url, now: int) returns (header: Option<string>)
      modifies this
      ensures cookies == Purged(old(cookies), now)
      ensures header == Header(Sent(old(cookies), rt.lower(url.hostname), url, now))
    {
      var host := rt.lower(url.hostname);
      cookies := Purged(cookies, now);
      var matching := SortByPath(Applicable(cookies, host, url));
      if matching == [] { return None; }
      header := Some(Join(Pairs(matching), "; "));
    }

    method Get(rt: Runtime, url: Url, name: string, now: int) returns (value: Option<string>)
      modifies this
      ensures cookies == Purged(old(cookies), now)
      ensures value == FindInHeader(Header(Sent(old(cookies), rt.lower(url.hostname), url, now)), name)
    {
      var header := HeaderFor(rt, url, now);
      if header.None? || header.value == "" { return None; }
      var pairs := Split(header.value, "; ");
      var i := 0;
      while i < |pairs|
        invariant 0 <= i <= |pairs|
        invariant FindPair(pairs, name) == FindPair(pairs[i..], name)
      {
        var equals := IndexOfChar(pairs[i], '=');
        if Slice(pairs[i], equals) == name { return Some(pairs[i][equals + 1..]); }
        i := i + 1;
      }
      value := None;
    }
  }
}
