/**
  * What the jar stores and sends, read off the URL, the cookie and the header text alone: the matching rules and the
  * meaning of a `Set-Cookie` header, without the functions that compute them.
  */
module CookieRules {
  import opened Text
  import opened CookieJar
  import opened CookieJarProofs

  // ---------------------------------------------------------------- matching

  /** The path itself, or one below it: what follows starts at a slash. */
  ghost predicate AtOrBelow(requestPath: string, cookiePath: string)
  {
    || requestPath == cookiePath
    || (exists tail :: tail != "" && requestPath == cookiePath + tail && tail[0] == '/')
    || (exists head, tail :: cookiePath == head + "/" && requestPath == cookiePath + tail)
  }

  lemma PathMatchMeans(requestPath: string, cookiePath: string)
    ensures PathMatches(requestPath, cookiePath) <==> AtOrBelow(requestPath, cookiePath)
  {
    if cookiePath <= requestPath && requestPath != cookiePath {
      var tail := requestPath[|cookiePath|..];
      assert requestPath == cookiePath + tail && tail[0] == requestPath[|cookiePath|];
      if cookiePath != "" && cookiePath[|cookiePath| - 1] == '/' {
        var head := cookiePath[..|cookiePath| - 1];
        assert cookiePath == head + "/";
      }
    }
  }

  /** The host itself, or one with labels and a dot before it. */
  ghost predicate HostIn(host: string, domain: string)
  {
    host == domain || exists labels :: host == labels + "." + domain
  }

  lemma DomainMatchMeans(host: string, domain: string)
    ensures DomainMatches(host, domain) <==> HostIn(host, domain)
  {
    if |domain| < |host| && host[|host| - |domain| - 1..] == "." + domain {
      var labels := host[..|host| - |domain| - 1];
      assert host == labels + ("." + domain) == labels + "." + domain;
    }
    if labels :| host == labels + "." + domain {
      assert host[|host| - |domain| - 1..] == "." + domain;
    }
  }

  /** A directory and a last part: the directory, or the root. Anything that is no absolute path: the root. */
  lemma DefaultPathMeans(pathname: string)
    ensures !("/" <= pathname) ==> DefaultPath(pathname) == "/"
    ensures forall directory, last :: pathname == directory + "/" + last && '/' !in last && "/" <= pathname ==>
              DefaultPath(pathname) == if directory == "" then "/" else directory
  {
    forall directory, last | pathname == directory + "/" + last && '/' !in last && "/" <= pathname
      ensures DefaultPath(pathname) == if directory == "" then "/" else directory
    {
      var at := LastIndexOfChar(pathname, '/');
      var k := |directory|;
      assert pathname[k] == '/' && pathname[k + 1..] == last;
      assert forall i :: k < i < |pathname| ==> pathname[i] == last[i - k - 1];
      assert forall i :: at < i < |pathname| ==> pathname[i] == pathname[at + 1..][i - at - 1];
      assert at == k;
      assert pathname[..k] == directory;
    }
  }

  /** A cookie may go with a request: it has not expired, and host, path and scheme are its own. */
  ghost predicate Goes(c: Cookie, host: string, url: Url, now: int)
  {
    && (c.expiresAt == None || now < c.expiresAt.value)
    && (c.hostOnly ==> host == c.domain) && HostIn(host, c.domain)
    && AtOrBelow(url.pathname, c.path)
    && (c.secure ==> url.protocol == "https:" || url.hostname in {"localhost", "127.0.0.1", "[::1]"})
  }

  lemma SentMeans(cookies: seq<Cookie>, host: string, url: Url, now: int, c: Cookie)
    ensures c in Sent(cookies, host, url, now) <==> c in cookies && Goes(c, host, url, now)
  {
    hide PathMatches, AtOrBelow, DomainMatches;
    PathMatchMeans(url.pathname, c.path);
    DomainMatchMeans(host, c.domain);
  }

  /** A cookie of `/admin` does not go with a request for `/administrator`, in any jar. */
  lemma BesideIsNotSent(cookies: seq<Cookie>, host: string, url: Url, now: int, c: Cookie, next: char, rest: string)
    requires c.path != "" && c.path[|c.path| - 1] != '/' && next != '/' && url.pathname == c.path + [next] + rest
    ensures c !in Sent(cookies, host, url, now)
  {
    SentMeans(cookies, host, url, now, c);
    hide Sent;
    if AtOrBelow(url.pathname, c.path) {
      assert url.pathname[|c.path|] == next;
    }
  }

  /** A cookie for `b.c` does not go to `ab.c`, in any jar. */
  lemma OtherHostIsNotSent(cookies: seq<Cookie>, host: string, url: Url, now: int, c: Cookie, before: string, last: char)
    requires last != '.' && host == before + [last] + c.domain
    ensures c !in Sent(cookies, host, url, now)
  {
    SentMeans(cookies, host, url, now, c);
    hide Sent;
    if HostIn(host, c.domain) {
      assert host[|before|] == last;
    }
  }

  /** After a store: the cookies of other keys, and the new one unless it has expired or may not be set from there. */
  lemma StoredMeans(cookies: seq<Cookie>, parsed: Cookie, url: Url, now: int, c: Cookie)
    ensures c in Stored(cookies, Some(parsed), IsSecureOrigin(url), now) <==>
            || (c in cookies && (c.name != parsed.name || c.domain != parsed.domain || c.path != parsed.path))
            || (c == parsed && (c.expiresAt == None || now < c.expiresAt.value)
                && (c.secure ==> url.protocol == "https:" || url.hostname in {"localhost", "127.0.0.1", "[::1]"}))
  {
  }

  // ---------------------------------------------------------------- attributes

  /** `key = value` and a bare key, with white space around either. */
  lemma AttributeReads(rt: Runtime, key: string, value: string)
    requires '=' !in key
    ensures AttributeKey(rt, key + "=" + value) == rt.lower(Trim(key)) && AttributeValue(key + "=" + value) == Trim(value)
    ensures AttributeKey(rt, key) == rt.lower(Trim(key)) && AttributeValue(key) == ""
  {
    FirstEquals(key, value);
    assert (key + "=" + value)[..|key|] == key && (key + "=" + value)[|key| + 1..] == value;
  }

  /** One leading dot is not part of the domain. */
  lemma LeadingDotGoes(rt: Runtime, domain: string)
    ensures DomainCandidate(rt, "." + domain) == rt.lower(domain)
    ensures (domain == "" || domain[0] != '.') ==> DomainCandidate(rt, domain) == rt.lower(domain)
  {
    assert ("." + domain)[1..] == domain;
  }

  /** An optional minus sign and decimal digits, at least one. */
  lemma IntegersAre(s: string)
    ensures IsInteger(s) <==> OnlyDigits(s) || exists digits :: s == "-" + digits && OnlyDigits(digits)
  {
    hide OnlyDigits;
    DigitsAre(s);
    if s != "" && s[0] == '-' {
      DigitsAre(s[1..]);
      assert s == "-" + s[1..];
    }
  }

  ghost predicate OnlyDigits(s: string) { s != "" && forall i :: 0 <= i < |s| ==> s[i] in "0123456789" }

  lemma DigitsAre(s: string)
    ensures IsDigits(s) <==> OnlyDigits(s)
  {
    forall c ensures '0' <= c <= '9' <==> c in "0123456789" { DigitsOf(c); }
  }

  lemma DigitsOf(c: char)
    ensures '0' <= c <= '9' <==> c in "0123456789"
  {
    var digits := "0123456789";
    if '0' <= c <= '9' { assert digits[c as int - '0' as int] == c; }
  }

  /** The attribute says something under that key; one without a readable value says nothing. */
  ghost predicate Says(rt: Runtime, attribute: string, key: string)
  {
    var value := AttributeValue(attribute);
    && AttributeKey(rt, attribute) == key
    && (key == "domain" ==> DomainCandidate(rt, value) != "")
    && (key == "max-age" ==> IsInteger(value) && rt.number(value).Some?)
    && (key == "expires" ==> rt.parseDate(value).Some?)
  }

  ghost predicate NoneSays(rt: Runtime, attributes: seq<string>, key: string)
  {
    forall i :: 0 <= i < |attributes| ==> !Says(rt, attributes[i], key)
  }

  /** `value` is what the last attribute that says something under `key` says. */
  ghost predicate LastSays(rt: Runtime, attributes: seq<string>, key: string, value: string)
  {
    exists i :: 0 <= i < |attributes| && Says(rt, attributes[i], key) && AttributeValue(attributes[i]) == value &&
                NoneSays(rt, attributes[i + 1..], key)
  }

  /** Under every key the last attribute that says something counts, and without one the default. */
  ghost predicate Means(rt: Runtime, host: string, pathname: string, attributes: seq<string>, a: Attributes)
  {
    && (NoneSays(rt, attributes, "domain") ==> a.domain == host && a.hostOnly)
    && (forall v :: LastSays(rt, attributes, "domain", v) ==> a.domain == DomainCandidate(rt, v) && !a.hostOnly)
    && (NoneSays(rt, attributes, "path") ==> a.path == DefaultPath(pathname))
    && (forall v :: LastSays(rt, attributes, "path", v) ==> a.path == if "/" <= v then v else DefaultPath(pathname))
    && (NoneSays(rt, attributes, "secure") <==> !a.secure)
    && (NoneSays(rt, attributes, "max-age") ==> a.maxAge == None)
    && (forall v :: LastSays(rt, attributes, "max-age", v) ==> a.maxAge == rt.number(v) && a.maxAge.Some?)
    && (NoneSays(rt, attributes, "expires") ==> a.expires == None)
    && (forall v :: LastSays(rt, attributes, "expires", v) ==> a.expires == rt.parseDate(v) && a.expires.Some?)
  }

  lemma NoneSaysMore(rt: Runtime, attributes: seq<string>, attribute: string, key: string)
    ensures NoneSays(rt, attributes + [attribute], key) <==> NoneSays(rt, attributes, key) && !Says(rt, attribute, key)
  {
    hide Says;
    var all, n := attributes + [attribute], |attributes|;
    assert all[n] == attribute && forall i :: 0 <= i < n ==> all[i] == attributes[i];
  }

  lemma OneMore(rt: Runtime, attributes: seq<string>, attribute: string, key: string)
    ensures var all := attributes + [attribute];
            && (NoneSays(rt, all, key) <==> NoneSays(rt, attributes, key) && !Says(rt, attribute, key))
            && forall v :: LastSays(rt, all, key, v) <==>
                           if Says(rt, attribute, key) then v == AttributeValue(attribute) else LastSays(rt, attributes, key, v)
  {
    NoneSaysMore(rt, attributes, attribute, key);
    hide Says, AttributeValue;
    var all, n := attributes + [attribute], |attributes|;
    forall v ensures LastSays(rt, all, key, v) <==>
                     if Says(rt, attribute, key) then v == AttributeValue(attribute) else LastSays(rt, attributes, key, v) {
      if Says(rt, attribute, key) && v == AttributeValue(attribute) {
        assert all[n] == attribute && all[n + 1..] == [];
      }
      if !Says(rt, attribute, key) && LastSays(rt, attributes, key, v) {
        var i :| 0 <= i < n && Says(rt, attributes[i], key) && AttributeValue(attributes[i]) == v && NoneSays(rt, attributes[i + 1..], key);
        NoneSaysMore(rt, attributes[i + 1..], attribute, key);
        assert all[i] == attributes[i] && all[i + 1..] == attributes[i + 1..] + [attribute];
      }
      if LastSays(rt, all, key, v) {
        var i :| 0 <= i < |all| && Says(rt, all[i], key) && AttributeValue(all[i]) == v && NoneSays(rt, all[i + 1..], key);
        if i < n {
          NoneSaysMore(rt, attributes[i + 1..], attribute, key);
          assert all[i] == attributes[i] && all[i + 1..] == attributes[i + 1..] + [attribute];
        }
      }
    }
  }

  lemma OneStep(rt: Runtime, host: string, pathname: string, a: Attributes, attribute: string)
    ensures var r := WithAttribute(rt, host, pathname, a, attribute);
            var v := AttributeValue(attribute);
            r.Some? ==>
              && (if Says(rt, attribute, "domain") then r.value.domain == DomainCandidate(rt, v) && !r.value.hostOnly
                  else r.value.domain == a.domain && r.value.hostOnly == a.hostOnly)
              && r.value.path == (if Says(rt, attribute, "path") then (if "/" <= v then v else DefaultPath(pathname)) else a.path)
              && (r.value.secure <==> a.secure || Says(rt, attribute, "secure"))
              && r.value.maxAge == (if Says(rt, attribute, "max-age") then rt.number(v) else a.maxAge)
              && r.value.expires == (if Says(rt, attribute, "expires") then rt.parseDate(v) else a.expires)
  {
    hide AttributeKey, AttributeValue, DomainMatches, DefaultPath, DomainCandidate, IsInteger;
  }

  lemma {:induction false} AttributesMean(rt: Runtime, host: string, pathname: string, attributes: seq<string>)
    ensures var r := WithAttributes(rt, host, pathname, InitialAttributes(host, pathname), attributes);
            r.Some? ==> Means(rt, host, pathname, attributes, r.value)
    decreases |attributes|
  {
    hide WithAttribute, Says, DefaultPath, DomainCandidate, AttributeValue;
    var start := InitialAttributes(host, pathname);
    if attributes != [] {
      var n := |attributes| - 1;
      var before, last := attributes[..n], attributes[n];
      assert attributes == before + [last];
      AttributesMean(rt, host, pathname, before);
      AttributesSplit(rt, host, pathname, start, before, [last]);
      var b := WithAttributes(rt, host, pathname, start, before);
      if b.Some? {
        LastStep(rt, host, pathname, b.value, last);
        hide WithAttributes;
        var r := WithAttribute(rt, host, pathname, b.value, last);
        if r.Some? { MeansMore(rt, host, pathname, before, b.value, last, r.value); }
      }
    }
  }

  lemma LastStep(rt: Runtime, host: string, pathname: string, a: Attributes, attribute: string)
    ensures WithAttributes(rt, host, pathname, a, [attribute]) == WithAttribute(rt, host, pathname, a, attribute)
  {
    hide WithAttribute;
  }

  lemma MeansMore(rt: Runtime, host: string, pathname: string, attributes: seq<string>, a: Attributes, last: string, b: Attributes)
    requires Means(rt, host, pathname, attributes, a) && WithAttribute(rt, host, pathname, a, last) == Some(b)
    ensures Means(rt, host, pathname, attributes + [last], b)
  {
    OneStep(rt, host, pathname, a, last);
    OneMore(rt, attributes, last, "domain");
    OneMore(rt, attributes, last, "path");
    OneMore(rt, attributes, last, "secure");
    OneMore(rt, attributes, last, "max-age");
    OneMore(rt, attributes, last, "expires");
    Readable(rt, last);
    hide WithAttribute, Says, DefaultPath, DomainCandidate, AttributeValue, NoneSays, LastSays;
  }

  lemma Readable(rt: Runtime, attribute: string)
    ensures Says(rt, attribute, "max-age") ==> rt.number(AttributeValue(attribute)).Some?
    ensures Says(rt, attribute, "expires") ==> rt.parseDate(AttributeValue(attribute)).Some?
  {
  }

  // ---------------------------------------------------------------- the whole header

  /** The cookie has the trimmed name and value and what the attributes mean; Max-Age wins over Expires. */
  ghost predicate IsCookieOf(rt: Runtime, url: Url, name: string, value: string, attributes: seq<string>, now: int, c: Cookie)
  {
    && c.name == Trim(name) && c.value == Trim(value)
    && exists a :: Means(rt, rt.lower(url.hostname), url.pathname, attributes, a)
        && c.domain == a.domain && c.hostOnly == a.hostOnly && c.path == a.path && c.secure == a.secure
        && c.expiresAt == match a.maxAge { case Some(seconds) => Some(now + 1000 * seconds) case None => a.expires }
  }

  /**
    * A header of a pair and any attributes is refused exactly for an empty name or an attribute that names another
    * domain, and else gives the cookie that it describes.
    */
  lemma SetCookieReads(rt: Runtime, url: Url, name: string, value: string, attributes: seq<string>, now: int)
    requires '=' !in name && ';' !in name && ';' !in value && forall i :: 0 <= i < |attributes| ==> ';' !in attributes[i]
    ensures var r := ParseSetCookie(rt, url, Join([name + "=" + value] + attributes, ";"), now);
            && (r.None? <==> Trim(name) == "" || AnyForeign(rt, rt.lower(url.hostname), attributes))
            && (r.Some? ==> IsCookieOf(rt, url, name, value, attributes, now, r.value))
  {
    var parts := [name + "=" + value] + attributes;
    SplitOfJoin(parts, ";");
    PartsMean(rt, url, Join(parts, ";"), name, value, attributes, now);
    hide ParseSetCookie, IsCookieOf, AnyForeign, Trim, Join;
  }

  lemma PartsMean(rt: Runtime, url: Url, setCookie: string, name: string, value: string, attributes: seq<string>, now: int)
    requires '=' !in name && Split(setCookie, ";") == [name + "=" + value] + attributes
    ensures var r := ParseSetCookie(rt, url, setCookie, now);
            && (r.None? <==> Trim(name) == "" || AnyForeign(rt, rt.lower(url.hostname), attributes))
            && (r.Some? ==> IsCookieOf(rt, url, name, value, attributes, now, r.value))
  {
    PartsRead(rt, url, setCookie, name, value, attributes, now);
    var host := rt.lower(url.hostname);
    RefusedMeansForeign(rt, host, url.pathname, InitialAttributes(host, url.pathname), attributes);
    AttributesMean(rt, host, url.pathname, attributes);
    var a := WithAttributes(rt, host, url.pathname, InitialAttributes(host, url.pathname), attributes);
    if a.Some? { CookieWith(rt, url, name, value, attributes, now, a.value); }
    hide ParseSetCookie, WithAttributes, Means, AnyForeign, Trim, Split, InitialAttributes, IsCookieOf, ExpiryOf;
  }

  lemma CookieWith(rt: Runtime, url: Url, name: string, value: string, attributes: seq<string>, now: int, a: Attributes)
    requires Means(rt, rt.lower(url.hostname), url.pathname, attributes, a)
    ensures IsCookieOf(rt, url, name, value, attributes, now,
                       Cookie(Trim(name), Trim(value), a.domain, a.hostOnly, a.path, a.secure, ExpiryOf(a, now)))
  {
    hide Means, Trim;
  }

  lemma PartsRead(rt: Runtime, url: Url, setCookie: string, name: string, value: string, attributes: seq<string>, now: int)
    requires '=' !in name && Split(setCookie, ";") == [name + "=" + value] + attributes
    ensures var host := rt.lower(url.hostname);
            var a := WithAttributes(rt, host, url.pathname, InitialAttributes(host, url.pathname), attributes);
            ParseSetCookie(rt, url, setCookie, now) ==
            if Trim(name) == "" || a.None? then None
            else Some(Cookie(Trim(name), Trim(value), a.value.domain, a.value.hostOnly, a.value.path, a.value.secure, ExpiryOf(a.value, now)))
  {
    var pair := name + "=" + value;
    FirstEquals(name, value);
    assert pair[..|name|] == name && pair[|name| + 1..] == value;
    var parts := Split(setCookie, ";");
    assert parts[0] == pair && parts[1..] == attributes;
    TrimOfNothing();
    hide WithAttributes, Trim, InitialAttributes, ExpiryOf, Split, IndexOfChar;
  }

  lemma TrimOfNothing()
    ensures Trim("") == ""
  {
  }

  /** Without an equals sign before the first semicolon nothing is stored or removed. */
  lemma NoPairReads(rt: Runtime, url: Url, first: string, attributes: seq<string>, now: int)
    requires '=' !in first && ';' !in first && forall i :: 0 <= i < |attributes| ==> ';' !in attributes[i]
    ensures ParseSetCookie(rt, url, Join([first] + attributes, ";"), now).None?
  {
    hide ParseSetCookie, Join;
    SplitOfJoin([first] + attributes, ";");
    NoPair(rt, url, Join([first] + attributes, ";"), now);
  }

  lemma NoPair(rt: Runtime, url: Url, setCookie: string, now: int)
    requires '=' !in Split(setCookie, ";")[0]
    ensures ParseSetCookie(rt, url, setCookie, now).None?
  {
    hide Split, WithAttributes, Trim;
    assert IndexOfChar(Split(setCookie, ";")[0], '=') == -1;
  }

  /** Every header is of one of the two forms. */
  lemma HeaderForms(setCookie: string) returns (first: string, attributes: seq<string>)
    ensures setCookie == Join([first] + attributes, ";") && ';' !in first && forall i :: 0 <= i < |attributes| ==> ';' !in attributes[i]
    ensures '=' in first ==> exists name, value :: first == name + "=" + value && '=' !in name && ';' !in name && ';' !in value
  {
    var parts := Split(setCookie, ";");
    JoinOfSplit(setCookie, ";");
    PartsLackSeparator(setCookie, ';');
    first, attributes := parts[0], parts[1..];
    assert parts == [first] + attributes;
    forall i | 0 <= i < |attributes| ensures ';' !in attributes[i] { assert attributes[i] == parts[i + 1]; }
    var k := IndexOfChar(first, '=');
    if k >= 0 {
      assert first == first[..k] + "=" + first[k + 1..];
    }
  }

  // ---------------------------------------------------------------- reading a header back

  /** A pair is split at its first equals sign; one without it counts as named by all but its last character. */
  lemma PairReads(name: string, value: string, rest: seq<string>, wanted: string)
    requires '=' !in name
    ensures FindPair([name + "=" + value] + rest, wanted) == if name == wanted then Some(value) else FindPair(rest, wanted)
    ensures FindPair([name] + rest, wanted) ==
            if wanted == (if name == "" then "" else name[..|name| - 1]) then Some(name) else FindPair(rest, wanted)
  {
    var pair := name + "=" + value;
    FirstEquals(name, value);
    assert pair[..|name|] == name && pair[|name| + 1..] == value;
    assert ([pair] + rest)[1..] == rest && ([name] + rest)[1..] == rest;
  }

  /** No header and an empty one hold no cookie. */
  lemma NothingReads(wanted: string)
    ensures FindInHeader(None, wanted) == None && FindInHeader(Some(""), wanted) == None && FindPair([], wanted) == None
  {
  }
}
