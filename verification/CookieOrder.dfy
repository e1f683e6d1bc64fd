/**
  * The order of cookies in a header against RFC 6265: section 5.3, step 11, lets a cookie that replaces another keep its
  * creation time, by which section 5.4 orders cookies of equal path length. The jar moves a replaced cookie to the end
  * of its list. When the two orders are the same.
  */
module CookieOrder {
  import opened Text
  import opened CookieJar
  import opened CookieJarProofs

  // ---------------------------------------------------------------- the reference

  /** The key has an unexpired cookie. */
  predicate Replaces(m: MapJar, c: Cookie, now: int)
  {
    KeyOf(c) in m.entries && !Expired(m.entries[KeyOf(c)].cookie, now)
  }

  /** As `MapStored`, but a cookie that replaces an unexpired one keeps its creation time. */
  ghost function RfcStored(m: MapJar, parsed: Option<Cookie>, secureOrigin: bool, now: int): (r: MapJar)
  {
    match parsed
    case None => m
    case Some(c) =>
      if Refused(c, secureOrigin, now) then m.(entries := m.entries - {KeyOf(c)})
      else if Replaces(m, c, now) then m.(entries := m.entries[KeyOf(c) := Entry(c, m.entries[KeyOf(c)].stamp)])
      else MapJar(m.entries[KeyOf(c) := Entry(c, m.next)], m.next + 1)
  }

  ghost function RfcStep(rt: Runtime, m: MapJar, op: Op): (r: MapJar)
  {
    match op
    case Store(url, setCookie, now) => RfcStored(m, ParseSetCookie(rt, url, setCookie, now), IsSecureOrigin(url), now)
    case _ => m
  }

  /** The same cookies, each under its own key, with creation times that differ. */
  ghost predicate Twins(n: MapJar, m: MapJar)
  {
    (forall k :: TwinAt(n, m, k)) && forall k, l :: k != l ==> StampsDiffer(n, k, l) && StampsDiffer(m, k, l)
  }

  ghost predicate TwinAt(n: MapJar, m: MapJar, k: Key)
  {
    && (k in n.entries <==> k in m.entries)
    && (k in m.entries ==>
          && n.entries[k].cookie == m.entries[k].cookie && KeyOf(m.entries[k].cookie) == k
          && n.entries[k].stamp < n.next && m.entries[k].stamp < m.next)
  }

  ghost predicate StampsDiffer(m: MapJar, k: Key, l: Key)
  {
    k in m.entries && l in m.entries ==> m.entries[k].stamp != m.entries[l].stamp
  }

  lemma StoreKeepsTwins(n: MapJar, m: MapJar, parsed: Option<Cookie>, secureOrigin: bool, now: int)
    requires Twins(n, m)
    ensures Twins(MapStored(n, parsed, secureOrigin, now), RfcStored(m, parsed, secureOrigin, now))
  {
    hide Expired, Refused;
    var n', m' := MapStored(n, parsed, secureOrigin, now), RfcStored(m, parsed, secureOrigin, now);
    forall k ensures TwinAt(n', m', k) { assert TwinAt(n, m, k); }
    forall k: Key, l: Key | k != l ensures StampsDiffer(n', k, l) && StampsDiffer(m', k, l) {
      assert TwinAt(n, m, k) && TwinAt(n, m, l) && StampsDiffer(n, k, l) && StampsDiffer(m, k, l);
    }
  }

  // ---------------------------------------------------------------- cookies whose order shows

  /** Some request carries both cookies, and their paths do not decide which goes first. */
  ghost predicate Rivals(c: Cookie, d: Cookie)
  {
    |c.path| == |d.path| && exists host, url :: Applies(c, host, url) && Applies(d, host, url)
  }

  /** One of the domains is, or may be, a host that both cookies go to. */
  predicate DomainsMeet(c: Cookie, d: Cookie)
  {
    || (DomainMatches(c.domain, d.domain) && (d.hostOnly ==> c.domain == d.domain))
    || (DomainMatches(d.domain, c.domain) && (c.hostOnly ==> c.domain == d.domain))
  }

  /** Rivals have one path and domains that meet. */
  lemma RivalsMeet(c: Cookie, d: Cookie)
    ensures Rivals(c, d) <==> c.path == d.path && DomainsMeet(c, d)
  {
    if Rivals(c, d) {
      var host, url :| Applies(c, host, url) && Applies(d, host, url);
      EqualLengthMeansEqualPath(c, d, host, url);
      CommonHost(host, c.domain, d.domain);
    }
    if c.path == d.path && DomainsMeet(c, d) {
      var host := if DomainMatches(c.domain, d.domain) && (d.hostOnly ==> c.domain == d.domain) then c.domain else d.domain;
      var url := Url("https:", host, c.path);
      assert Applies(c, host, url) && Applies(d, host, url);
    }
  }

  /** Of two domains a host belongs to, one belongs to the other. */
  lemma CommonHost(host: string, a: string, b: string)
    ensures DomainMatches(host, a) && DomainMatches(host, b) ==> DomainMatches(a, b) || DomainMatches(b, a)
  {
    if DomainMatches(host, a) && DomainMatches(host, b) && host != a && host != b {
      ShorterMatches(host, a, b);
      ShorterMatches(host, b, a);
    }
  }

  lemma ShorterMatches(host: string, a: string, b: string)
    requires DomainMatches(host, a) && DomainMatches(host, b) && host != a && host != b
    ensures |a| >= |b| ==> DomainMatches(a, b)
  {
    if |a| >= |b| {
      var n := |host|;
      assert host[n - |a|..] == a by { assert host[n - |a| - 1..][1..] == a; }
      assert host[n - |b|..] == b by { assert host[n - |b| - 1..][1..] == b; }
      if |a| == |b| {
        assert a == b;
      } else {
        assert a[|a| - |b| - 1..] == host[n - |b| - 1..];
      }
    }
  }

  ghost predicate LiveIn(m: MapJar, c: Cookie, now: int) { Holds(m, c) && !Expired(c, now) }

  /** The maps order every two unexpired rivals alike. */
  ghost predicate Agrees(n: MapJar, m: MapJar, now: int)
  {
    forall c, d :: LiveIn(m, c, now) && LiveIn(m, d, now) && Rivals(c, d) ==> (Stamp(n, c) < Stamp(n, d) <==> Stamp(m, c) < Stamp(m, d))
  }

  /** Whatever is requested, the list sends the reference's listing. */
  ghost predicate InRfcOrder(cookies: seq<Cookie>, m: MapJar, now: int)
  {
    forall host, url :: IsListing(m, host, url, now, Sent(cookies, host, url, now))
  }

  /** The list sends every request the reference's listing exactly when the maps agree on rivals. */
  lemma OrderShows(cookies: seq<Cookie>, n: MapJar, m: MapJar, clock: int, now: int)
    requires Represents(cookies, n, clock) && clock <= now && Twins(n, m)
    ensures InRfcOrder(cookies, m, now) <==> Agrees(n, m, now)
  {
    hide Represents, Sent, Rivals, Stamp, Expired;
    forall host, url ensures IsListing(n, host, url, now, Sent(cookies, host, url, now)) {
      SentIsListing(cookies, n, clock, host, url, now);
    }
    if Agrees(n, m, now) {
      forall host, url ensures IsListing(m, host, url, now, Sent(cookies, host, url, now)) {
        SameListing(n, m, host, url, now, Sent(cookies, host, url, now));
      }
    }
    if InRfcOrder(cookies, m, now) {
      forall c, d | LiveIn(m, c, now) && LiveIn(m, d, now) && Rivals(c, d)
        ensures Stamp(n, c) < Stamp(n, d) <==> Stamp(m, c) < Stamp(m, d)
      {
        var host, url := CarriesBoth(c, d);
        OneListingAgrees(n, m, host, url, now, Sent(cookies, host, url, now), c, d);
      }
    }
  }

  lemma CarriesBoth(c: Cookie, d: Cookie) returns (host: string, url: Url)
    requires Rivals(c, d)
    ensures Applies(c, host, url) && Applies(d, host, url) && |c.path| == |d.path|
  {
    host, url :| Applies(c, host, url) && Applies(d, host, url);
  }

  lemma SameListing(n: MapJar, m: MapJar, host: string, url: Url, now: int, s: seq<Cookie>)
    requires Twins(n, m) && Agrees(n, m, now) && IsListing(n, host, url, now, s)
    ensures IsListing(m, host, url, now, s)
  {
    hide Applies, Stamp, Expired;
    forall c ensures c in s <==> Holds(m, c) && !Expired(c, now) && Applies(c, host, url) {
      assert TwinAt(n, m, KeyOf(c));
    }
    forall i, j | 0 <= i < j < |s| ensures Before(m, s[i], s[j]) {
      assert s[i] in s && s[j] in s && Before(n, s[i], s[j]);
      if |s[i].path| == |s[j].path| { assert Rivals(s[i], s[j]); }
    }
  }

  lemma OneListingAgrees(n: MapJar, m: MapJar, host: string, url: Url, now: int, s: seq<Cookie>, c: Cookie, d: Cookie)
    requires IsListing(n, host, url, now, s) && IsListing(m, host, url, now, s) && |c.path| == |d.path|
    requires LiveIn(m, c, now) && LiveIn(m, d, now) && Applies(c, host, url) && Applies(d, host, url)
    ensures Stamp(n, c) < Stamp(n, d) <==> Stamp(m, c) < Stamp(m, d)
  {
    hide Applies, Stamp, Expired, Holds;
    var i :| 0 <= i < |s| && s[i] == c;
    var j :| 0 <= j < |s| && s[j] == d;
    if i < j {
      assert Before(n, s[i], s[j]) && Before(m, s[i], s[j]);
    } else if j < i {
      assert Before(n, s[j], s[i]) && Before(m, s[j], s[i]);
    }
  }

  // ---------------------------------------------------------------- one store

  /** An accepted cookie replaces an unexpired one, and an unexpired rival of it was created after that one. */
  ghost predicate Disorders(m: MapJar, parsed: Option<Cookie>, secureOrigin: bool, now: int)
  {
    && parsed.Some? && !Refused(parsed.value, secureOrigin, now) && Replaces(m, parsed.value, now)
    && exists d :: LiveIn(m, d, now) && Rivals(parsed.value, d) && Stamp(m, parsed.value) < Stamp(m, d)
  }

  lemma RivalsBothWays(c: Cookie, d: Cookie)
    ensures Rivals(c, d) <==> Rivals(d, c)
  {
    if Rivals(c, d) {
      var host, url :| Applies(c, host, url) && Applies(d, host, url);
      assert Applies(d, host, url) && Applies(c, host, url);
    }
    if Rivals(d, c) {
      var host, url :| Applies(d, host, url) && Applies(c, host, url);
      assert Applies(c, host, url) && Applies(d, host, url);
    }
  }

  /** A store keeps the order of RFC 6265 exactly when it does not replace a cookie older than an unexpired rival. */
  lemma StoreKeepsOrder(n: MapJar, m: MapJar, parsed: Option<Cookie>, secureOrigin: bool, now: int)
    requires Twins(n, m) && Agrees(n, m, now)
    ensures Agrees(MapStored(n, parsed, secureOrigin, now), RfcStored(m, parsed, secureOrigin, now), now) <==>
            !Disorders(m, parsed, secureOrigin, now)
  {
    hide Rivals, Expired;
    var n', m' := MapStored(n, parsed, secureOrigin, now), RfcStored(m, parsed, secureOrigin, now);
    if parsed.Some? {
      var c := parsed.value;
      assert TwinAt(n, m, KeyOf(c));
      forall d ensures KeyOf(d) != KeyOf(c) ==> Stamp(n', d) == Stamp(n, d) && Stamp(m', d) == Stamp(m, d) && (Holds(m', d) <==> Holds(m, d)) {
      }
      if Refused(c, secureOrigin, now) {
        assert forall d :: LiveIn(m', d, now) ==> KeyOf(d) != KeyOf(c);
      } else {
        AcceptedAgrees(n, m, c, n', m', now);
      }
    }
  }

  lemma AcceptedAgrees(n: MapJar, m: MapJar, c: Cookie, n': MapJar, m': MapJar, now: int)
    requires Twins(n, m) && Agrees(n, m, now) && !Expired(c, now)
    requires n' == MapJar(n.entries[KeyOf(c) := Entry(c, n.next)], n.next + 1)
    requires m' == if Replaces(m, c, now) then m.(entries := m.entries[KeyOf(c) := Entry(c, m.entries[KeyOf(c)].stamp)])
                   else MapJar(m.entries[KeyOf(c) := Entry(c, m.next)], m.next + 1)
    ensures Agrees(n', m', now) <==>
            !(Replaces(m, c, now) && exists d :: LiveIn(m, d, now) && Rivals(c, d) && Stamp(m, c) < Stamp(m, d))
  {
    hide Rivals, Expired;
    var late := Replaces(m, c, now) && exists d :: LiveIn(m, d, now) && Rivals(c, d) && Stamp(m, c) < Stamp(m, d);
    if late {
      var d :| LiveIn(m, d, now) && Rivals(c, d) && Stamp(m, c) < Stamp(m, d);
      assert TwinAt(n, m, KeyOf(d)) && TwinAt(n, m, KeyOf(c));
      assert LiveIn(m', c, now) && LiveIn(m', d, now);
      assert Stamp(m', c) < Stamp(m', d) && !(Stamp(n', c) < Stamp(n', d));
    } else {
      forall a, b | LiveIn(m', a, now) && LiveIn(m', b, now) && Rivals(a, b)
        ensures Stamp(n', a) < Stamp(n', b) <==> Stamp(m', a) < Stamp(m', b)
      {
        RivalsBothWays(a, b);
        assert TwinAt(n, m, KeyOf(a)) && TwinAt(n, m, KeyOf(b)) && (KeyOf(a) != KeyOf(b) ==> StampsDiffer(m, KeyOf(a), KeyOf(b)));
        if KeyOf(a) != KeyOf(c) && KeyOf(b) != KeyOf(c) {
          assert LiveIn(m, a, now) && LiveIn(m, b, now);
        } else if KeyOf(a) == KeyOf(c) && KeyOf(b) != KeyOf(c) {
          assert a == c && LiveIn(m, b, now);
        } else if KeyOf(a) != KeyOf(c) {
          assert b == c && LiveIn(m, a, now);
        }
      }
    }
  }

  /**
    * In terms of the list, for a cookie that replaces one of the same host-only mark: a store disorders exactly when an
    * unexpired rival follows the replaced cookie.
    */
  lemma RivalFollows(cookies: seq<Cookie>, n: MapJar, m: MapJar, clock: int, c: Cookie, secureOrigin: bool, now: int, i: nat)
    requires Represents(cookies, n, clock) && clock <= now && Twins(n, m) && Agrees(n, m, now) && !Refused(c, secureOrigin, now)
    requires i < |cookies| && KeyOf(cookies[i]) == KeyOf(c) && cookies[i].hostOnly == c.hostOnly && !Expired(cookies[i], now)
    ensures Disorders(m, Some(c), secureOrigin, now) <==>
            exists j :: i < j < |cookies| && !Expired(cookies[j], now) && Rivals(c, cookies[j])
  {
    hide Rivals, Increasing, MapInvariant, WellFormed;
    var o := cookies[i];
    assert TwinAt(n, m, KeyOf(o));
    assert o in cookies && LiveIn(m, o, now) && Stamp(m, o) == Stamp(m, c);
    forall d ensures Rivals(o, d) <==> Rivals(c, d) {
      RivalsMeet(o, d);
      RivalsMeet(c, d);
    }
    if Disorders(m, Some(c), secureOrigin, now) {
      var d :| LiveIn(m, d, now) && Rivals(c, d) && Stamp(m, c) < Stamp(m, d);
      assert TwinAt(n, m, KeyOf(d));
      assert Stamp(n, o) < Stamp(n, d);
      LiveIsListed(cookies, n, clock, d, now);
      var j :| 0 <= j < |cookies| && cookies[j] == d;
      if j < i { IncreasingAt(n, cookies, j, i); }
    }
    if j :| i < j < |cookies| && !Expired(cookies[j], now) && Rivals(c, cookies[j]) {
      IncreasingAt(n, cookies, i, j);
      assert TwinAt(n, m, KeyOf(cookies[j]));
      assert cookies[j] in cookies && LiveIn(m, cookies[j], now);
    }
  }

  lemma LiveIsListed(cookies: seq<Cookie>, n: MapJar, clock: int, d: Cookie, now: int)
    requires Represents(cookies, n, clock) && clock <= now && LiveIn(n, d, now)
    ensures d in cookies
  {
    assert KeyOf(d) in n.entries;
  }

  // ---------------------------------------------------------------- runs

  /** Whether the operation is a store that disorders. */
  ghost predicate StepDisorders(rt: Runtime, m: MapJar, op: Op)
  {
    op.Store? && Disorders(m, ParseSetCookie(rt, op.url, op.setCookie, op.now), IsSecureOrigin(op.url), op.now)
  }

  /** No store of the run disorders, as the reference goes along. */
  ghost predicate NeverDisorders(rt: Runtime, m: MapJar, ops: seq<Op>)
    decreases |ops|
  {
    ops == [] || (!StepDisorders(rt, m, ops[0]) && NeverDisorders(rt, RfcStep(rt, m, ops[0]), ops[1..]))
  }

  /** After every operation of the run the list sends every request the reference's listing. */
  ghost predicate AlwaysInRfcOrder(rt: Runtime, cookies: seq<Cookie>, m: MapJar, ops: seq<Op>)
    decreases |ops|
  {
    ops == [] ||
    var next, ref := ListStep(rt, cookies, ops[0]).0, RfcStep(rt, m, ops[0]);
    InRfcOrder(next, ref, ops[0].now) && AlwaysInRfcOrder(rt, next, ref, ops[1..])
  }

  /** The run of the reference: as `MapRun`, with creation times kept. */
  ghost predicate RfcRun(rt: Runtime, m: MapJar, ops: seq<Op>, answers: seq<Answer>)
    decreases |ops|
  {
    |ops| == |answers| &&
    (ops == [] || (MapAnswers(rt, m, ops[0], answers[0]) && RfcRun(rt, RfcStep(rt, m, ops[0]), ops[1..], answers[1..])))
  }

  lemma AgreesLater(n: MapJar, m: MapJar, clock: int, now: int)
    requires Agrees(n, m, clock) && clock <= now
    ensures Agrees(n, m, now)
  {
    hide Rivals, Stamp, Holds;
    forall c, d | LiveIn(m, c, now) && LiveIn(m, d, now) && Rivals(c, d) ensures Stamp(n, c) < Stamp(n, d) <==> Stamp(m, c) < Stamp(m, d) {
      assert LiveIn(m, c, clock) && LiveIn(m, d, clock);
    }
  }

  /** One operation: the maps stay twins, and the list stays in order exactly when it does not disorder. */
  lemma StepInOrder(rt: Runtime, cookies: seq<Cookie>, n: MapJar, m: MapJar, clock: int, op: Op)
    requires Represents(cookies, n, clock) && Twins(n, m) && Agrees(n, m, clock) && clock <= op.now
    ensures var next, n', m' := ListStep(rt, cookies, op).0, MapStep(rt, n, op), RfcStep(rt, m, op);
            && Represents(next, n', op.now) && Twins(n', m')
            && (InRfcOrder(next, m', op.now) <==> !StepDisorders(rt, m, op))
            && (InRfcOrder(next, m', op.now) <==> Agrees(n', m', op.now))
    ensures MapAnswers(rt, m, op, ListStep(rt, cookies, op).1)
  {
    hide Represents, Twins, Agrees, Disorders, ParseSetCookie, Stored, MapStored, RfcStored, Sent, IsListing, Header, FindInHeader;
    var next, n', m' := ListStep(rt, cookies, op).0, MapStep(rt, n, op), RfcStep(rt, m, op);
    StepRefines(rt, cookies, n, clock, op);
    AgreesLater(n, m, clock, op.now);
    OrderShows(cookies, n, m, clock, op.now);
    if op.Store? {
      var parsed := ParseSetCookie(rt, op.url, op.setCookie, op.now);
      StoreKeepsTwins(n, m, parsed, IsSecureOrigin(op.url), op.now);
      StoreKeepsOrder(n, m, parsed, IsSecureOrigin(op.url), op.now);
    }
    OrderShows(next, n', m', op.now, op.now);
    AnswersAlike(rt, cookies, n, m, clock, op);
  }

  lemma AnswersAlike(rt: Runtime, cookies: seq<Cookie>, n: MapJar, m: MapJar, clock: int, op: Op)
    requires Represents(cookies, n, clock) && clock <= op.now && InRfcOrder(cookies, m, op.now)
    ensures MapAnswers(rt, m, op, ListStep(rt, cookies, op).1)
  {
    hide ParseSetCookie, Stored, IsListing, Header, FindInHeader, FirstNamed;
    if op.Get? {
      GetFindsFirst(Sent(cookies, rt.lower(op.url.hostname), op.url, op.now), op.name);
    }
  }

  lemma {:induction false} RunInOrder(rt: Runtime, cookies: seq<Cookie>, n: MapJar, m: MapJar, clock: int, ops: seq<Op>)
    requires Represents(cookies, n, clock) && Twins(n, m) && Agrees(n, m, clock) && NonDecreasing(ops, clock)
    ensures AlwaysInRfcOrder(rt, cookies, m, ops) <==> NeverDisorders(rt, m, ops)
    ensures NeverDisorders(rt, m, ops) ==> RfcRun(rt, m, ops, ListRun(rt, cookies, ops))
    decreases |ops|
  {
    hide Represents, Twins, Agrees, StepDisorders, ListStep, MapStep, RfcStep, InRfcOrder, MapAnswers;
    if ops != [] {
      StepInOrder(rt, cookies, n, m, clock, ops[0]);
      var next, n', m' := ListStep(rt, cookies, ops[0]).0, MapStep(rt, n, ops[0]), RfcStep(rt, m, ops[0]);
      if !StepDisorders(rt, m, ops[0]) {
        RunInOrder(rt, next, n', m', ops[0].now, ops[1..]);
      }
      assert ListRun(rt, cookies, ops)[1..] == ListRun(rt, next, ops[1..]);
    }
  }

  /**
    * Over every run with a clock that does not go back, the jar sends its cookies in the order of RFC 6265 after every
    * operation exactly when no store replaces an unexpired cookie that is older than an unexpired rival; and then it
    * answers every operation as the reference does.
    */
  lemma JarKeepsRfcOrder(rt: Runtime, ops: seq<Op>, start: int)
    requires NonDecreasing(ops, start)
    ensures AlwaysInRfcOrder(rt, [], MapJar(map[], 0), ops) <==> NeverDisorders(rt, MapJar(map[], 0), ops)
    ensures NeverDisorders(rt, MapJar(map[], 0), ops) ==> RfcRun(rt, MapJar(map[], 0), ops, ListRun(rt, [], ops))
  {
    hide StepDisorders, ListStep, MapStep, RfcStep, InRfcOrder, MapAnswers;
    RunInOrder(rt, [], MapJar(map[], 0), MapJar(map[], 0), start, ops);
  }

  // ---------------------------------------------------------------- an input

  /** A `Set-Cookie` header that is just a name and a value. */
  lemma PlainCookie(rt: Runtime, url: Url, name: char, value: char, now: int)
    requires name !in "=; " && value !in "=; " && !IsSpace(name) && !IsSpace(value)
    ensures ParseSetCookie(rt, url, [name] + "=" + [value], now) ==
            Some(Cookie([name], [value], rt.lower(url.hostname), true, DefaultPath(url.pathname), false, None))
  {
    hide DefaultPath, IsSpace;
    var text := [name] + "=" + [value];
    NoSeparator(text, ";");
    assert Split(text, ";") == [text];
    FirstEquals([name], [value]);
    assert text[..1] == [name] && text[2..] == [value];
    assert Trim([name]) == [name] && Trim([value]) == [value];
  }

  /**
    * Storing `a`, `b` and `a` again from one URL: the last store disorders, the jar sends `b` first and the reference
    * `a`.
    */
  lemma ReplacedGoesLast(rt: Runtime, now: int)
    ensures var url := Url("https:", "example.com", "/");
            var host := rt.lower(url.hostname);
            var ops := [Store(url, "a=1", now), Store(url, "b=2", now), Store(url, "a=3", now)];
            var a, b := Cookie("a", "3", host, true, "/", false, None), Cookie("b", "2", host, true, "/", false, None);
            var ref := RfcStep(rt, RfcStep(rt, RfcStep(rt, MapJar(map[], 0), ops[0]), ops[1]), ops[2]);
            && ListAfter(rt, [], ops) == [b, a]
            && Sent([b, a], host, url, now) == [b, a]
            && IsListing(ref, host, url, now, [a, b])
  {
    hide ParseSetCookie, Stored, RfcStored, Sent, IsListing, Header, FindInHeader, ListAfter;
    var url := Url("https:", "example.com", "/");
    var host := rt.lower(url.hostname);
    PlainCookie(rt, url, 'a', '1', now);
    PlainCookie(rt, url, 'b', '2', now);
    PlainCookie(rt, url, 'a', '3', now);
    hide IsSpace;
    assert "a=1" == ['a'] + "=" + ['1'] && "b=2" == ['b'] + "=" + ['2'] && "a=3" == ['a'] + "=" + ['3'];
    RootPath();
    hide DefaultPath;
    var a1, b := Cookie("a", "1", host, true, "/", false, None), Cookie("b", "2", host, true, "/", false, None);
    assert "a"[0] != "b"[0];
    ReplacedIsOlder(a1, b, a1.(value := "3"), host, url, now);
    AfterThree(rt, Store(url, "a=1", now), Store(url, "b=2", now), Store(url, "a=3", now));
  }

  lemma RootPath()
    ensures DefaultPath("/") == "/"
  {
  }

  lemma AfterThree(rt: Runtime, x: Op, y: Op, z: Op)
    ensures ListAfter(rt, [], [x, y, z]) == ListStep(rt, ListStep(rt, ListStep(rt, [], x).0, y).0, z).0
  {
    hide ListStep;
    var one := ListStep(rt, [], x).0;
    var two := ListStep(rt, one, y).0;
    assert [x, y, z][1..] == [y, z] && [y, z][1..] == [z] && [z][1..] == [];
    assert ListAfter(rt, two, [z]) == ListStep(rt, two, z).0;
    assert ListAfter(rt, one, [y, z]) == ListStep(rt, two, z).0;
  }

  lemma ReplacedIsOlder(a1: Cookie, b: Cookie, a: Cookie, host: string, url: Url, now: int)
    requires a1.expiresAt.None? && a.expiresAt.None? && b.expiresAt.None? && !a1.secure && !a.secure && !b.secure
    requires KeyOf(a1) == KeyOf(a) != KeyOf(b) && |a.path| == |b.path| && Applies(a, host, url) && Applies(b, host, url)
    ensures Stored(Stored(Stored([], Some(a1), true, now), Some(b), true, now), Some(a), true, now) == [b, a]
    ensures Sent([b, a], host, url, now) == [b, a]
    ensures var ref := RfcStored(RfcStored(RfcStored(MapJar(map[], 0), Some(a1), true, now), Some(b), true, now), Some(a), true, now);
            IsListing(ref, host, url, now, [a, b])
  {
    hide Applies, Stored, Sent, KeyOf;
    ListOfTwo(a1, b, a, host, url, now);
    var one := RfcStored(MapJar(map[], 0), Some(a1), true, now);
    assert one == MapJar(map[KeyOf(a1) := Entry(a1, 0)], 1);
    var two := RfcStored(one, Some(b), true, now);
    assert two == MapJar(map[KeyOf(a1) := Entry(a1, 0), KeyOf(b) := Entry(b, 1)], 2);
    var ref := RfcStored(two, Some(a), true, now);
    assert ref == MapJar(map[KeyOf(a) := Entry(a, 0), KeyOf(b) := Entry(b, 1)], 2);
    hide RfcStored;
    assert forall c :: Holds(ref, c) <==> c == a || c == b;
    assert Before(ref, a, b);
  }

  lemma ListOfTwo(a1: Cookie, b: Cookie, a: Cookie, host: string, url: Url, now: int)
    requires a1.expiresAt.None? && a.expiresAt.None? && b.expiresAt.None? && !a1.secure && !a.secure && !b.secure
    requires KeyOf(a1) == KeyOf(a) != KeyOf(b) && |a.path| == |b.path| && Applies(a, host, url) && Applies(b, host, url)
    ensures Stored(Stored(Stored([], Some(a1), true, now), Some(b), true, now), Some(a), true, now) == [b, a]
    ensures Sent([b, a], host, url, now) == [b, a]
  {
    hide Applies, Filter;
    FilterPair([], a1, (c: Cookie) => KeyOf(c) != KeyOf(a1));
    FilterPair([a1], b, (c: Cookie) => KeyOf(c) != KeyOf(b));
    FilterPair([], a1, (c: Cookie) => KeyOf(c) != KeyOf(b));
    FilterPair([a1], b, (c: Cookie) => KeyOf(c) != KeyOf(a));
    FilterPair([], a1, (c: Cookie) => KeyOf(c) != KeyOf(a));
    FilterPair([b], a, (c: Cookie) => !Expired(c, now));
    FilterPair([], b, (c: Cookie) => !Expired(c, now));
    FilterPair([b], a, (c: Cookie) => Applies(c, host, url));
    FilterPair([], b, (c: Cookie) => Applies(c, host, url));
    assert [] + [a1] == [a1] && [a1] + [b] == [a1, b] && [] + [b] == [b] && [b] + [a] == [b, a];
    assert Stored([], Some(a1), true, now) == [a1];
    assert Stored([a1], Some(b), true, now) == [a1, b];
    assert Without([a1, b], KeyOf(a)) == [b];
    assert Purged([b, a], now) == [b, a];
    assert Applicable([b, a], host, url) == [b, a];
    SortPair(b, a);
  }

  lemma {:induction false} FilterPair(before: seq<Cookie>, c: Cookie, keep: Cookie -> bool)
    ensures Filter(before + [c], keep) == Filter(before, keep) + (if keep(c) then [c] else [])
    ensures Filter([], keep) == []
  {
    if before == [] {
      assert [c][1..] == [] && before + [c] == [c];
    } else {
      FilterPair(before[1..], c, keep);
      assert (before + [c])[1..] == before[1..] + [c];
    }
  }

  lemma SortPair(b: Cookie, a: Cookie)
    requires |a.path| == |b.path|
    ensures SortByPath([b, a]) == [b, a]
  {
    assert [b, a][1..] == [a] && [a][1..] == [];
    assert SortByPath([a]) == [a];
  }
}
