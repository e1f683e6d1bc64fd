/**
  * What the cookie jar promises over every run: it answers like a map from (name, domain, path) to the last
  * accepted cookie, filtered when it is read; a header splits back into the cookies it was made of; and a
  * cookie comes back to the URL that set it.
  */
module CookieJarProofs {
  import opened Text
  import opened CookieJar

  // ---------------------------------------------------------------- domain and path matching

  /** Domain matching is a partial order. */
  lemma DomainMatchingIsPartialOrder(a: string, b: string, c: string)
    ensures DomainMatches(a, a)
    ensures DomainMatches(a, b) && DomainMatches(b, a) ==> a == b
    ensures DomainMatches(a, b) && DomainMatches(b, c) ==> DomainMatches(a, c)
  {
    if DomainMatches(a, b) && DomainMatches(b, c) && a != b && b != c {
      assert a[|a| - |b| - 1..][1..] == b;
      assert a[|a| - |b|..] == b;
      assert a[|a| - |c| - 1..] == b[|b| - |c| - 1..];
    }
  }

  /** Path matching is a partial order. */
  lemma PathMatchingIsPartialOrder(a: string, b: string, c: string)
    ensures PathMatches(a, a)
    ensures PathMatches(a, b) && PathMatches(b, a) ==> a == b
    ensures PathMatches(a, b) && PathMatches(b, c) ==> PathMatches(a, c)
  {
    if PathMatches(a, b) && PathMatches(b, c) && a != b && b != c {
      assert c <= a;
      assert a[|c|] == b[|c|];
    }
  }

  /** A request path matches its own default path exactly when it is absolute. */
  lemma MatchesDefaultPath(pathname: string)
    ensures PathMatches(pathname, DefaultPath(pathname)) <==> "/" <= pathname
  {
    hide LastIndexOfChar;
    var last := LastIndexOfChar(pathname, '/');
    if "/" <= pathname {
      if last > 0 {
        assert pathname[last] == '/';
      }
    }
  }

  /** Two cookies sent with one request whose paths are equally long have the same path. */
  lemma EqualLengthMeansEqualPath(a: Cookie, b: Cookie, host: string, url: Url)
    requires Applies(a, host, url) && Applies(b, host, url) && |a.path| == |b.path|
    ensures a.path == b.path
  {
    assert a.path == url.pathname[..|a.path|];
    assert b.path == url.pathname[..|b.path|];
  }

  // ---------------------------------------------------------------- what a header can hold

  /** The shape of every stored cookie that makes a header readable again. */
  predicate WellFormed(c: Cookie)
  {
    c.name != "" && '=' !in c.name && ';' !in c.name && ';' !in c.value
  }

  lemma ParsedIsWellFormed(rt: Runtime, url: Url, setCookie: string, now: int)
    ensures var r := ParseSetCookie(rt, url, setCookie, now); r.Some? ==> WellFormed(r.value)
  {
    PartsLackSeparator(setCookie, ';');
    var pair := Split(setCookie, ";")[0];
    var equals := IndexOfChar(pair, '=');
    if equals > 0 {
      var name, value := Trim(pair[..equals]), Trim(pair[equals + 1..]);
      assert ';' !in pair[..equals] && ';' !in pair[equals + 1..];
      assert '=' !in name && ';' !in name && ';' !in value;
    }
  }

  /** Splitting a header gives back exactly the pairs it was joined from. */
  lemma HeaderSplitsBack(cookies: seq<Cookie>)
    requires cookies != [] && forall c :: c in cookies ==> WellFormed(c)
    ensures Header(cookies).Some? && Header(cookies).value != ""
    ensures Split(Header(cookies).value, "; ") == Pairs(cookies)
  {
    var pairs := Pairs(cookies);
    forall i | 0 <= i < |pairs| ensures ';' !in pairs[i] {
      assert WellFormed(cookies[i]);
    }
    SplitOfJoin(pairs, "; ");
    assert pairs[0] <= Join(pairs, "; ");
    assert WellFormed(cookies[0]);
  }

  /** The first of `cookies` with that name. */
  ghost function FirstNamed(cookies: seq<Cookie>, name: string): (r: Option<string>)
    ensures r.None? <==> forall i :: 0 <= i < |cookies| ==> cookies[i].name != name
    ensures r.Some? ==> exists i :: 0 <= i < |cookies| && cookies[i].name == name && cookies[i].value == r.value
                                    && forall j :: 0 <= j < i ==> cookies[j].name != name
  {
    if cookies == [] then None
    else if cookies[0].name == name then Some(cookies[0].value)
    else
      var r := FirstNamed(cookies[1..], name);
      assert r.Some? ==> exists i :: 0 <= i < |cookies[1..]| && cookies[1..][i].name == name && cookies[1..][i].value == r.value
                                    && forall j :: 0 <= j < i ==> cookies[1..][j].name != name;
      assert r.Some? ==> exists i :: 0 <= i < |cookies| && cookies[i].name == name && cookies[i].value == r.value
                                    && forall j :: 0 <= j < i ==> cookies[j].name != name by {
        if r.Some? {
          var i :| 0 <= i < |cookies[1..]| && cookies[1..][i].name == name && cookies[1..][i].value == r.value
                                    && forall j :: 0 <= j < i ==> cookies[1..][j].name != name;
          assert cookies[i + 1].name == name;
          forall j | 0 <= j < i + 1 ensures cookies[j].name != name {
            if j > 0 { assert cookies[1..][j - 1].name != name; }
          }
        }
      }
      r
  }

  lemma {:induction false} FindPairIsFirstNamed(cookies: seq<Cookie>, name: string)
    requires forall c :: c in cookies ==> WellFormed(c)
    ensures FindPair(Pairs(cookies), name) == FirstNamed(cookies, name)
  {
    if cookies != [] {
      var c := cookies[0];
      assert c in cookies;
      FirstEquals(c.name, c.value);
      assert Pairs(cookies)[1..] == Pairs(cookies[1..]);
      assert Pair(c)[..|c.name|] == c.name && Pair(c)[|c.name| + 1..] == c.value;
      FindPairIsFirstNamed(cookies[1..], name);
    }
  }

  lemma FirstEquals(name: string, value: string)
    requires '=' !in name
    ensures IndexOfChar(name + "=" + value, '=') == |name|
  {
    var s := name + "=" + value;
    var k := IndexOfChar(s, '=');
    assert s[|name|] == '=';
    assert forall i :: 0 <= i < |name| ==> s[i] == name[i];
    assert '=' !in s[..|name|];
    assert k >= 0 && '=' !in s[..k];
    assert s[..k + 1] == s[..k] + [s[k]];
  }

  /** `get` is the value of the first cookie sent under that name. */
  lemma GetFindsFirst(cookies: seq<Cookie>, name: string)
    requires forall c :: c in cookies ==> WellFormed(c)
    ensures FindInHeader(Header(cookies), name) == FirstNamed(cookies, name)
  {
    if cookies != [] {
      HeaderSplitsBack(cookies);
      FindPairIsFirstNamed(cookies, name);
    }
  }

  // ---------------------------------------------------------------- the reference: a map that never purges

  datatype Entry = Entry(cookie: Cookie, stamp: nat)

  /** The last accepted cookie of each key, with the number of the store that accepted it. */
  datatype MapJar = MapJar(entries: map<Key, Entry>, next: nat)

  ghost function MapStored(m: MapJar, parsed: Option<Cookie>, secureOrigin: bool, now: int): (r: MapJar)
  {
    match parsed
    case None => m
    case Some(c) =>
      if Refused(c, secureOrigin, now) then m.(entries := m.entries - {KeyOf(c)})
      else MapJar(m.entries[KeyOf(c) := Entry(c, m.next)], m.next + 1)
  }

  ghost function Stamp(m: MapJar, c: Cookie): (n: nat)
  {
    if KeyOf(c) in m.entries then m.entries[KeyOf(c)].stamp else 0
  }

  /** Longer paths first, then the earlier store. */
  ghost predicate Before(m: MapJar, a: Cookie, b: Cookie)
  {
    |a.path| > |b.path| || (|a.path| == |b.path| && Stamp(m, a) < Stamp(m, b))
  }

  ghost predicate Holds(m: MapJar, c: Cookie)
  {
    KeyOf(c) in m.entries && m.entries[KeyOf(c)].cookie == c
  }

  /** `s` lists, in priority order, exactly the unexpired cookies of the map that go to `url`. */
  ghost predicate IsListing(m: MapJar, host: string, url: Url, now: int, s: seq<Cookie>)
  {
    && (forall i, j :: 0 <= i < j < |s| ==> Before(m, s[i], s[j]))
    && (forall c :: c in s <==> Holds(m, c) && !Expired(c, now) && Applies(c, host, url))
  }

  /** There is only one such listing. */
  lemma ListingIsUnique(m: MapJar, host: string, url: Url, now: int, s: seq<Cookie>, t: seq<Cookie>)
    requires IsListing(m, host, url, now, s) && IsListing(m, host, url, now, t)
    ensures s == t
  {
    SortedIsUnique(m, s, t);
  }

  lemma {:induction false} SortedIsUnique(m: MapJar, s: seq<Cookie>, t: seq<Cookie>)
    requires forall i, j :: 0 <= i < j < |s| ==> Before(m, s[i], s[j])
    requires forall i, j :: 0 <= i < j < |t| ==> Before(m, t[i], t[j])
    requires forall c :: c in s <==> c in t
    ensures s == t
  {
    assert t != [] ==> t[0] in s;
    if s != [] {
      assert s[0] in t;
      assert t[0] in s;
      assert s[0] == t[0];
      forall c ensures c in s[1..] <==> c in t[1..] {
        if c in s[1..] {
          assert c in t && c != s[0];
          var i :| 0 <= i < |t| && t[i] == c;
          assert t[1..][i - 1] == c;
        }
        if c in t[1..] {
          assert c in s && c != t[0];
          var i :| 0 <= i < |s| && s[i] == c;
          assert s[1..][i - 1] == c;
        }
      }
      SortedIsUnique(m, s[1..], t[1..]);
    }
  }

  // ---------------------------------------------------------------- runs

  datatype Op =
    | Store(url: Url, setCookie: string, now: int)
    | HeaderFor(url: Url, now: int)
    | Get(url: Url, name: string, now: int)

  datatype Answer = Done | Cookies(header: Option<string>) | Value(value: Option<string>)

  /** The clock of a run never goes back, and starts at or after `from`. */
  ghost predicate NonDecreasing(ops: seq<Op>, from: int)
  {
    ops == [] || (from <= ops[0].now && NonDecreasing(ops[1..], ops[0].now))
  }

  ghost function ListStep(rt: Runtime, cookies: seq<Cookie>, op: Op): (r: (seq<Cookie>, Answer))
  {
    match op
    case Store(url, setCookie, now) =>
      (Stored(cookies, ParseSetCookie(rt, url, setCookie, now), IsSecureOrigin(url), now), Done)
    case HeaderFor(url, now) =>
      (Purged(cookies, now), Cookies(Header(Sent(cookies, rt.lower(url.hostname), url, now))))
    case Get(url, name, now) =>
      (Purged(cookies, now), Value(FindInHeader(Header(Sent(cookies, rt.lower(url.hostname), url, now)), name)))
  }

  ghost function ListRun(rt: Runtime, cookies: seq<Cookie>, ops: seq<Op>): (answers: seq<Answer>)
    decreases |ops|
  {
    if ops == [] then []
    else
      var (next, answer) := ListStep(rt, cookies, ops[0]);
      [answer] + ListRun(rt, next, ops[1..])
  }

  ghost function MapStep(rt: Runtime, m: MapJar, op: Op): (r: MapJar)
  {
    match op
    case Store(url, setCookie, now) => MapStored(m, ParseSetCookie(rt, url, setCookie, now), IsSecureOrigin(url), now)
    case _ => m
  }

  /** The answer the map gives: read from its one listing, with nothing removed by reading. */
  ghost predicate MapAnswers(rt: Runtime, m: MapJar, op: Op, answer: Answer)
  {
    match op
    case Store(_, _, _) => answer == Done
    case HeaderFor(url, now) =>
      exists s :: IsListing(m, rt.lower(url.hostname), url, now, s) && answer == Cookies(Header(s))
    case Get(url, name, now) =>
      exists s :: IsListing(m, rt.lower(url.hostname), url, now, s) && answer == Value(FirstNamed(s, name))
  }

  ghost predicate MapRun(rt: Runtime, m: MapJar, ops: seq<Op>, answers: seq<Answer>)
    decreases |ops|
  {
    |ops| == |answers| &&
    (ops == [] || (MapAnswers(rt, m, ops[0], answers[0]) && MapRun(rt, MapStep(rt, m, ops[0]), ops[1..], answers[1..])))
  }

  // ---------------------------------------------------------------- the refinement

  /** The list is in the order of the stores. */
  ghost predicate Increasing(m: MapJar, cookies: seq<Cookie>)
  {
    cookies == [] || ((forall c :: c in cookies[1..] ==> Stamp(m, cookies[0]) < Stamp(m, c)) && Increasing(m, cookies[1..]))
  }

  ghost predicate MapInvariant(cookies: seq<Cookie>, m: MapJar, clock: int)
  {
    forall k :: k in m.entries ==>
      && KeyOf(m.entries[k].cookie) == k && m.entries[k].stamp < m.next
      && (m.entries[k].cookie in cookies || Expired(m.entries[k].cookie, clock))
  }

  /** The list holds the map's cookies in the order of their stores; those it lacks have expired. */
  ghost predicate Represents(cookies: seq<Cookie>, m: MapJar, clock: int)
  {
    && (forall c :: c in cookies ==> Holds(m, c) && WellFormed(c))
    && MapInvariant(cookies, m, clock)
    && Increasing(m, cookies)
  }

  lemma {:induction false} IncreasingAt(m: MapJar, cookies: seq<Cookie>, i: nat, j: nat)
    requires Increasing(m, cookies) && i < j < |cookies|
    ensures Stamp(m, cookies[i]) < Stamp(m, cookies[j])
  {
    if i == 0 {
      assert cookies[j] == cookies[1..][j - 1];
    } else {
      IncreasingAt(m, cookies[1..], i - 1, j - 1);
    }
  }

  lemma {:induction false} FilterIncreasing(m: MapJar, cookies: seq<Cookie>, keep: Cookie -> bool)
    requires Increasing(m, cookies)
    ensures Increasing(m, Filter(cookies, keep))
  {
    if cookies != [] {
      FilterIncreasing(m, cookies[1..], keep);
      if keep(cookies[0]) {
        assert Filter(cookies, keep)[1..] == Filter(cookies[1..], keep);
      }
    }
  }

  lemma {:induction false} SameStampsIncreasing(m: MapJar, n: MapJar, cookies: seq<Cookie>)
    requires Increasing(m, cookies) && forall c :: c in cookies ==> Stamp(m, c) == Stamp(n, c)
    ensures Increasing(n, cookies)
  {
    if cookies != [] {
      assert cookies[0] in cookies;
      SameStampsIncreasing(m, n, cookies[1..]);
    }
  }

  lemma {:induction false} AppendIncreasing(m: MapJar, cookies: seq<Cookie>, c: Cookie)
    requires Increasing(m, cookies) && forall x :: x in cookies ==> Stamp(m, x) < Stamp(m, c)
    ensures Increasing(m, cookies + [c])
  {
    if cookies != [] {
      assert cookies[0] in cookies;
      AppendIncreasing(m, cookies[1..], c);
      assert (cookies + [c])[1..] == cookies[1..] + [c];
    }
  }

  lemma {:induction false} InsertSorted(m: MapJar, c: Cookie, sorted: seq<Cookie>)
    requires forall i, j :: 0 <= i < j < |sorted| ==> Before(m, sorted[i], sorted[j])
    requires forall x :: x in sorted ==> Stamp(m, c) < Stamp(m, x)
    ensures forall i, j :: 0 <= i < j < |Insert(c, sorted)| ==> Before(m, Insert(c, sorted)[i], Insert(c, sorted)[j])
  {
    if sorted != [] {
      if |c.path| >= |sorted[0].path| {
        forall i | 0 <= i < |sorted| ensures Before(m, c, sorted[i]) {
          assert sorted[i] in sorted;
          assert i > 0 ==> Before(m, sorted[0], sorted[i]);
        }
      } else {
        InsertSorted(m, c, sorted[1..]);
        var rest := Insert(c, sorted[1..]);
        forall j | 0 <= j < |rest| ensures Before(m, sorted[0], rest[j]) {
          assert rest[j] in rest;
          if rest[j] in sorted[1..] {
            var k :| 0 <= k < |sorted[1..]| && sorted[1..][k] == rest[j];
            assert sorted[k + 1] == rest[j];
          }
        }
      }
    }
  }

  /** Sorting a list that is in store order by path length gives the priority order: the sort is stable. */
  lemma {:induction false} SortIsPriorityOrder(m: MapJar, cookies: seq<Cookie>)
    requires Increasing(m, cookies)
    ensures forall i, j :: 0 <= i < j < |SortByPath(cookies)| ==> Before(m, SortByPath(cookies)[i], SortByPath(cookies)[j])
  {
    if cookies != [] {
      SortIsPriorityOrder(m, cookies[1..]);
      InsertSorted(m, cookies[0], SortByPath(cookies[1..]));
    }
  }

  /** The cookies the list sends are the map's listing. */
  lemma SentIsListing(cookies: seq<Cookie>, m: MapJar, clock: int, host: string, url: Url, now: int)
    requires Represents(cookies, m, clock) && clock <= now
    ensures IsListing(m, host, url, now, Sent(cookies, host, url, now))
  {
    FilterIncreasing(m, cookies, (c: Cookie) => !Expired(c, now));
    assert Increasing(m, Purged(cookies, now));
    FilterIncreasing(m, Purged(cookies, now), (c: Cookie) => Applies(c, host, url));
    assert Increasing(m, Applicable(Purged(cookies, now), host, url));
    SortIsPriorityOrder(m, Applicable(Purged(cookies, now), host, url));
    forall c | Holds(m, c) && !Expired(c, now) && Applies(c, host, url)
      ensures c in Sent(cookies, host, url, now)
    {
      assert c in cookies;
    }
  }

  lemma PurgeRepresents(cookies: seq<Cookie>, m: MapJar, clock: int, now: int)
    requires Represents(cookies, m, clock) && clock <= now
    ensures Represents(Purged(cookies, now), m, now)
  {
    FilterIncreasing(m, cookies, (c: Cookie) => !Expired(c, now));
  }

  lemma StoreRepresents(cookies: seq<Cookie>, m: MapJar, clock: int, parsed: Option<Cookie>, secureOrigin: bool, now: int)
    requires Represents(cookies, m, clock) && clock <= now
    requires parsed.Some? ==> WellFormed(parsed.value)
    ensures Represents(Stored(cookies, parsed, secureOrigin, now), MapStored(m, parsed, secureOrigin, now), now)
  {
    if parsed.Some? {
      var c := parsed.value;
      var rest, n := Without(cookies, KeyOf(c)), MapStored(m, parsed, secureOrigin, now);
      FilterIncreasing(m, cookies, (x: Cookie) => KeyOf(x) != KeyOf(c));
      assert Increasing(m, rest);
      forall x | x in rest ensures Stamp(m, x) == Stamp(n, x) && Stamp(n, x) < m.next && Holds(n, x) {
        assert x in cookies;
      }
      SameStampsIncreasing(m, n, rest);
      if !Refused(c, secureOrigin, now) {
        AppendIncreasing(n, rest, c);
      }
    }
  }

  lemma StepRefines(rt: Runtime, cookies: seq<Cookie>, m: MapJar, clock: int, op: Op)
    requires Represents(cookies, m, clock) && clock <= op.now
    ensures Represents(ListStep(rt, cookies, op).0, MapStep(rt, m, op), op.now)
    ensures MapAnswers(rt, m, op, ListStep(rt, cookies, op).1)
  {
    match op
    case Store(url, setCookie, now) =>
      ParsedIsWellFormed(rt, url, setCookie, now);
      StoreRepresents(cookies, m, clock, ParseSetCookie(rt, url, setCookie, now), IsSecureOrigin(url), now);
    case HeaderFor(url, now) =>
      PurgeRepresents(cookies, m, clock, now);
      SentIsListing(cookies, m, clock, rt.lower(url.hostname), url, now);
    case Get(url, name, now) =>
      PurgeRepresents(cookies, m, clock, now);
      SentIsListing(cookies, m, clock, rt.lower(url.hostname), url, now);
      GetFindsFirst(Sent(cookies, rt.lower(url.hostname), url, now), name);
  }

  lemma {:induction false} RunRefinesFrom(rt: Runtime, cookies: seq<Cookie>, m: MapJar, clock: int, ops: seq<Op>)
    requires Represents(cookies, m, clock) && NonDecreasing(ops, clock)
    ensures MapRun(rt, m, ops, ListRun(rt, cookies, ops))
    decreases |ops|
  {
    if ops != [] {
      StepRefines(rt, cookies, m, clock, ops[0]);
      RunRefinesFrom(rt, ListStep(rt, cookies, ops[0]).0, MapStep(rt, m, ops[0]), ops[0].now, ops[1..]);
      assert ListRun(rt, cookies, ops)[1..] == ListRun(rt, ListStep(rt, cookies, ops[0]).0, ops[1..]);
    }
  }

  /** Over every run with a clock that does not go back, the jar answers exactly like the map. */
  lemma JarRefinesMap(rt: Runtime, ops: seq<Op>, start: int)
    requires NonDecreasing(ops, start)
    ensures MapRun(rt, MapJar(map[], 0), ops, ListRun(rt, [], ops))
  {
    RunRefinesFrom(rt, [], MapJar(map[], 0), start, ops);
  }

  // ---------------------------------------------------------------- reachable jars

  /** The list, the map and the clock after a run. */
  ghost function ListAfter(rt: Runtime, cookies: seq<Cookie>, ops: seq<Op>): (r: seq<Cookie>)
    decreases |ops|
  {
    if ops == [] then cookies else ListAfter(rt, ListStep(rt, cookies, ops[0]).0, ops[1..])
  }

  ghost function MapAfter(rt: Runtime, m: MapJar, ops: seq<Op>): (r: MapJar)
    decreases |ops|
  {
    if ops == [] then m else MapAfter(rt, MapStep(rt, m, ops[0]), ops[1..])
  }

  function Clock(ops: seq<Op>, from: int): (now: int) { if ops == [] then from else ops[|ops| - 1].now }

  lemma {:induction false} RunRepresents(rt: Runtime, cookies: seq<Cookie>, m: MapJar, clock: int, ops: seq<Op>)
    requires Represents(cookies, m, clock) && NonDecreasing(ops, clock)
    ensures Represents(ListAfter(rt, cookies, ops), MapAfter(rt, m, ops), Clock(ops, clock))
    decreases |ops|
  {
    hide ListStep, MapStep, Represents;
    if ops != [] {
      StepRefines(rt, cookies, m, clock, ops[0]);
      RunRepresents(rt, ListStep(rt, cookies, ops[0]).0, MapStep(rt, m, ops[0]), ops[0].now, ops[1..]);
    }
  }

  /** The list every run reaches holds the map's cookies in the order of their stores; those it lacks have expired. */
  lemma ReachedRepresents(rt: Runtime, ops: seq<Op>, start: int)
    requires NonDecreasing(ops, start)
    ensures Represents(ListAfter(rt, [], ops), MapAfter(rt, MapJar(map[], 0), ops), Clock(ops, start))
  {
    hide ListStep, MapStep;
    RunRepresents(rt, [], MapJar(map[], 0), start, ops);
  }

  /** No two cookies of a jar that a run reaches share name, domain and path. */
  lemma KeysAreUnique(rt: Runtime, ops: seq<Op>, start: int, i: nat, j: nat)
    requires NonDecreasing(ops, start) && i < j < |ListAfter(rt, [], ops)|
    ensures KeyOf(ListAfter(rt, [], ops)[i]) != KeyOf(ListAfter(rt, [], ops)[j])
  {
    hide ListStep, MapStep, ListAfter, MapAfter;
    ReachedRepresents(rt, ops, start);
    IncreasingAt(MapAfter(rt, MapJar(map[], 0), ops), ListAfter(rt, [], ops), i, j);
  }

  /** The header of a jar that a run reaches splits back into exactly the cookies it sends. */
  lemma SentHeaderSplitsBack(rt: Runtime, ops: seq<Op>, start: int, host: string, url: Url, now: int)
    requires NonDecreasing(ops, start)
    ensures var sent := Sent(ListAfter(rt, [], ops), host, url, now);
            if sent == [] then Header(sent).None? else Header(sent).Some? && Split(Header(sent).value, "; ") == Pairs(sent)
    ensures forall name :: FindInHeader(Header(Sent(ListAfter(rt, [], ops), host, url, now)), name) ==
                           FirstNamed(Sent(ListAfter(rt, [], ops), host, url, now), name)
  {
    hide ListStep, MapStep, ListAfter, MapAfter, Split, Header, FindInHeader, FirstNamed;
    ReachedRepresents(rt, ops, start);
    var sent := Sent(ListAfter(rt, [], ops), host, url, now);
    if sent == [] {
      NothingSent();
    } else {
      HeaderSplitsBack(sent);
    }
    forall name ensures FindInHeader(Header(sent), name) == FirstNamed(sent, name) { GetFindsFirst(sent, name); }
  }

  lemma NothingSent()
    ensures Header([]).None?
  {
  }

  // ---------------------------------------------------------------- what the attributes amount to

  lemma {:induction false} AttributesSplit(rt: Runtime, host: string, pathname: string, a: Attributes, xs: seq<string>, ys: seq<string>)
    ensures WithAttributes(rt, host, pathname, a, xs + ys) ==
            match WithAttributes(rt, host, pathname, a, xs)
            case None => None
            case Some(b) => WithAttributes(rt, host, pathname, b, ys)
    decreases |xs|
  {
    hide WithAttribute;
    if xs == [] {
      assert xs + ys == ys;
    } else {
      assert (xs + ys)[0] == xs[0] && (xs + ys)[1..] == xs[1..] + ys;
      var b := WithAttribute(rt, host, pathname, a, xs[0]);
      if b.Some? { AttributesSplit(rt, host, pathname, b.value, xs[1..], ys); }
    }
  }

  /** An attribute that names a domain the host does not belong to. */
  ghost predicate Foreign(rt: Runtime, host: string, attribute: string)
  {
    var candidate := DomainCandidate(rt, AttributeValue(attribute));
    AttributeKey(rt, attribute) == "domain" && candidate != "" && !DomainMatches(host, candidate)
  }

  ghost predicate AnyForeign(rt: Runtime, host: string, attributes: seq<string>)
  {
    attributes != [] && (Foreign(rt, host, attributes[0]) || AnyForeign(rt, host, attributes[1..]))
  }

  /** The whole cookie is refused exactly when some attribute names another domain (RFC 6265, section 5.3, step 6). */
  lemma {:induction false} RefusedMeansForeign(rt: Runtime, host: string, pathname: string, a: Attributes, attributes: seq<string>)
    ensures WithAttributes(rt, host, pathname, a, attributes).None? <==> AnyForeign(rt, host, attributes)
    decreases |attributes|
  {
    hide WithAttribute, Foreign;
    if attributes != [] {
      var b := WithAttribute(rt, host, pathname, a, attributes[0]);
      OneForeign(rt, host, pathname, a, attributes[0]);
      if b.Some? { RefusedMeansForeign(rt, host, pathname, b.value, attributes[1..]); }
    }
  }

  lemma OneForeign(rt: Runtime, host: string, pathname: string, a: Attributes, attribute: string)
    ensures WithAttribute(rt, host, pathname, a, attribute).None? <==> Foreign(rt, host, attribute)
  {
    hide AttributeKey, AttributeValue, DomainMatches, DefaultPath, DomainCandidate, IsInteger;
  }

  ghost predicate HasKey(rt: Runtime, attributes: seq<string>, key: string)
  {
    attributes != [] && (AttributeKey(rt, attributes[0]) == key || HasKey(rt, attributes[1..], key))
  }

  /** What attributes of other keys leave alone. */
  lemma {:induction false} OtherKeysLeave(rt: Runtime, host: string, pathname: string, a: Attributes, attributes: seq<string>)
    ensures var r := WithAttributes(rt, host, pathname, a, attributes);
            r.Some? ==>
              && (r.value.secure <==> a.secure || HasKey(rt, attributes, "secure"))
              && (!HasKey(rt, attributes, "path") ==> r.value.path == a.path)
              && (!HasKey(rt, attributes, "max-age") ==> r.value.maxAge == a.maxAge)
              && (!HasKey(rt, attributes, "expires") ==> r.value.expires == a.expires)
              && (!HasKey(rt, attributes, "domain") ==> r.value.domain == a.domain && r.value.hostOnly == a.hostOnly)
    decreases |attributes|
  {
    hide WithAttribute;
    if attributes != [] {
      var b := WithAttribute(rt, host, pathname, a, attributes[0]);
      OneAttribute(rt, host, pathname, a, attributes[0]);
      if b.Some? { OtherKeysLeave(rt, host, pathname, b.value, attributes[1..]); }
    }
  }

  lemma OneAttribute(rt: Runtime, host: string, pathname: string, a: Attributes, attribute: string)
    ensures var r := WithAttribute(rt, host, pathname, a, attribute);
            var key, value := AttributeKey(rt, attribute), AttributeValue(attribute);
            r.Some? ==>
              && (r.value.secure <==> a.secure || key == "secure")
              && r.value.path == (if key != "path" then a.path else if "/" <= value then value else DefaultPath(pathname))
              && r.value.maxAge == (if key == "max-age" && IsInteger(value) && rt.number(value).Some? then rt.number(value) else a.maxAge)
              && r.value.expires == (if key == "expires" && rt.parseDate(value).Some? then rt.parseDate(value) else a.expires)
              && (key != "domain" ==> r.value.domain == a.domain && r.value.hostOnly == a.hostOnly)
  {
    hide AttributeKey, AttributeValue, DomainMatches, DefaultPath, DomainCandidate, IsInteger;
  }

  /** The last `Path` attribute decides the path: its value when absolute, else the default path. */
  lemma LastPathWins(rt: Runtime, host: string, pathname: string, before: seq<string>, path: string, after: seq<string>)
    requires AttributeKey(rt, path) == "path" && !HasKey(rt, after, "path")
    ensures var r := WithAttributes(rt, host, pathname, InitialAttributes(host, pathname), before + [path] + after);
            r.Some? ==> r.value.path == if "/" <= AttributeValue(path) then AttributeValue(path) else DefaultPath(pathname)
  {
    hide WithAttributes, WithAttribute, HasKey, AttributeKey, AttributeValue, IsInteger, DefaultPath;
    LastAttribute(rt, host, pathname, before, path, after);
  }

  /** The last readable `Max-Age` decides the expiry, whatever `Expires` says. */
  lemma MaxAgeWins(rt: Runtime, host: string, pathname: string, before: seq<string>, maxAge: string, after: seq<string>, now: int)
    requires AttributeKey(rt, maxAge) == "max-age" && IsInteger(AttributeValue(maxAge)) && rt.number(AttributeValue(maxAge)).Some?
    requires !HasKey(rt, after, "max-age")
    ensures var r := WithAttributes(rt, host, pathname, InitialAttributes(host, pathname), before + [maxAge] + after);
            r.Some? ==> ExpiryOf(r.value, now) == Some(now + rt.number(AttributeValue(maxAge)).value * 1000)
  {
    hide WithAttributes, WithAttribute, HasKey, AttributeKey, AttributeValue, IsInteger, DefaultPath;
    LastAttribute(rt, host, pathname, before, maxAge, after);
  }

  lemma LastAttribute(rt: Runtime, host: string, pathname: string, before: seq<string>, attribute: string, after: seq<string>)
    ensures var key, value := AttributeKey(rt, attribute), AttributeValue(attribute);
            var r := WithAttributes(rt, host, pathname, InitialAttributes(host, pathname), before + [attribute] + after);
            r.Some? ==>
              && (key == "path" && !HasKey(rt, after, "path") ==>
                    r.value.path == if "/" <= value then value else DefaultPath(pathname))
              && (key == "max-age" && IsInteger(value) && rt.number(value).Some? && !HasKey(rt, after, "max-age") ==>
                    r.value.maxAge == rt.number(value))
  {
    hide WithAttribute, HasKey, AttributeKey, AttributeValue, IsInteger, DefaultPath;
    var start := InitialAttributes(host, pathname);
    assert before + [attribute] + after == before + ([attribute] + after);
    AttributesSplit(rt, host, pathname, start, before, [attribute] + after);
    var a := WithAttributes(rt, host, pathname, start, before);
    if a.Some? {
      assert ([attribute] + after)[0] == attribute && ([attribute] + after)[1..] == after;
      OneAttribute(rt, host, pathname, a.value, attribute);
      var b := WithAttribute(rt, host, pathname, a.value, attribute);
      if b.Some? { OtherKeysLeave(rt, host, pathname, b.value, after); }
    }
  }

  // ---------------------------------------------------------------- a cookie comes back

  /** No attribute sets the path to anything but the default path. */
  ghost predicate NoAbsolutePath(rt: Runtime, attributes: seq<string>)
  {
    forall i :: 0 <= i < |attributes| && AttributeKey(rt, attributes[i]) == "path" ==> !("/" <= AttributeValue(attributes[i]))
  }

  /** The domain is the host itself for a host-only cookie, else one the host belongs to. */
  ghost predicate ForHost(host: string, a: Attributes)
  {
    if a.hostOnly then a.domain == host else DomainMatches(host, a.domain)
  }

  lemma AttributeKeepsHost(rt: Runtime, host: string, pathname: string, a: Attributes, attribute: string)
    requires ForHost(host, a)
    ensures var r := WithAttribute(rt, host, pathname, a, attribute); r.Some? ==> ForHost(host, r.value)
    ensures var r := WithAttribute(rt, host, pathname, a, attribute);
            r.Some? && a.path == DefaultPath(pathname) && NoAbsolutePath(rt, [attribute]) ==> r.value.path == DefaultPath(pathname)
  {
    hide AttributeKey, AttributeValue, DomainMatches, DefaultPath, DomainCandidate, IsInteger;
    assert NoAbsolutePath(rt, [attribute]) && AttributeKey(rt, attribute) == "path" ==> !("/" <= AttributeValue([attribute][0]));
  }

  lemma {:induction false} AttributesKeepHost(rt: Runtime, host: string, pathname: string, a: Attributes, attributes: seq<string>)
    requires ForHost(host, a)
    ensures var r := WithAttributes(rt, host, pathname, a, attributes);
            && (r.Some? ==> ForHost(host, r.value))
            && (r.Some? && a.path == DefaultPath(pathname) && NoAbsolutePath(rt, attributes) ==> r.value.path == DefaultPath(pathname))
    decreases |attributes|
  {
    if attributes != [] {
      AttributeKeepsHost(rt, host, pathname, a, attributes[0]);
      var b := WithAttribute(rt, host, pathname, a, attributes[0]);
      if b.Some? {
        AttributesKeepHost(rt, host, pathname, b.value, attributes[1..]);
        assert NoAbsolutePath(rt, attributes) ==> NoAbsolutePath(rt, attributes[1..]) && NoAbsolutePath(rt, attributes[..1]);
        assert attributes[..1] == [attributes[0]];
      }
    }
  }

  /** The operation stores nothing under the key. */
  ghost predicate Spares(rt: Runtime, op: Op, key: Key)
  {
    op.Store? ==>
      var parsed := ParseSetCookie(rt, op.url, op.setCookie, op.now);
      parsed.None? || KeyOf(parsed.value) != key
  }

  /** A cookie stays in the list, unless it expires, while nothing is stored under its key. */
  lemma {:induction false} StaysListed(rt: Runtime, cookies: seq<Cookie>, c: Cookie, clock: int, after: seq<Op>)
    requires c in cookies || Expired(c, clock)
    requires NonDecreasing(after, clock) && forall i :: 0 <= i < |after| ==> Spares(rt, after[i], KeyOf(c))
    ensures c in ListAfter(rt, cookies, after) || Expired(c, Clock(after, clock))
    decreases |after|
  {
    hide ParseSetCookie, Header, FindInHeader;
    if after != [] {
      assert Spares(rt, after[0], KeyOf(c));
      StaysListed(rt, ListStep(rt, cookies, after[0]).0, c, after[0].now, after[1..]);
    }
  }

  /**
    * A cookie accepted from a URL is sent, until it expires, with every later request to the same host and scheme whose
    * path matches the cookie's path: whatever the jar held before, and after any further operations that store nothing
    * under its key.
    */
  lemma AcceptedIsSent(rt: Runtime, cookies: seq<Cookie>, url: Url, setCookie: string, now: int, after: seq<Op>, later: Url, at: int)
    requires var parsed := ParseSetCookie(rt, url, setCookie, now);
             && parsed.Some? && !Refused(parsed.value, IsSecureOrigin(url), now)
             && !Expired(parsed.value, at)
             && PathMatches(later.pathname, parsed.value.path)
             && forall i :: 0 <= i < |after| ==> Spares(rt, after[i], KeyOf(parsed.value))
    requires NonDecreasing(after, now) && Clock(after, now) <= at
    requires later.protocol == url.protocol && later.hostname == url.hostname
    ensures var parsed := ParseSetCookie(rt, url, setCookie, now);
            parsed.value in Sent(ListAfter(rt, Stored(cookies, parsed, IsSecureOrigin(url), now), after), rt.lower(later.hostname), later, at)
  {
    var c := ParseSetCookie(rt, url, setCookie, now).value;
    ParsedApplies(rt, url, setCookie, now, later);
    hide ParseSetCookie, ListAfter, NonDecreasing, Spares, PathMatches;
    assert c in Stored(cookies, Some(c), IsSecureOrigin(url), now);
    StaysListed(rt, Stored(cookies, Some(c), IsSecureOrigin(url), now), c, now, after);
  }

  lemma ParsedApplies(rt: Runtime, url: Url, setCookie: string, now: int, later: Url)
    requires var parsed := ParseSetCookie(rt, url, setCookie, now);
             && parsed.Some? && !Refused(parsed.value, IsSecureOrigin(url), now) && PathMatches(later.pathname, parsed.value.path)
    requires later.protocol == url.protocol && later.hostname == url.hostname
    ensures Applies(ParseSetCookie(rt, url, setCookie, now).value, rt.lower(later.hostname), later)
  {
    var host := rt.lower(url.hostname);
    AttributesKeepHost(rt, host, url.pathname, InitialAttributes(host, url.pathname), Split(setCookie, ";")[1..]);
  }

  /** Without an absolute `Path`, that is every path at or below the default path, the URL's own among them. */
  lemma PathlessCookieComesBack(rt: Runtime, cookies: seq<Cookie>, url: Url, setCookie: string, now: int, after: seq<Op>, later: Url, at: int)
    requires var parsed := ParseSetCookie(rt, url, setCookie, now);
             && parsed.Some? && !Refused(parsed.value, IsSecureOrigin(url), now) && !Expired(parsed.value, at)
             && forall i :: 0 <= i < |after| ==> Spares(rt, after[i], KeyOf(parsed.value))
    requires NonDecreasing(after, now) && Clock(after, now) <= at
    requires NoAbsolutePath(rt, Split(setCookie, ";")[1..])
    requires later.protocol == url.protocol && later.hostname == url.hostname
    requires PathMatches(later.pathname, DefaultPath(url.pathname)) || (later == url && "/" <= url.pathname)
    ensures var parsed := ParseSetCookie(rt, url, setCookie, now);
            parsed.value in Sent(ListAfter(rt, Stored(cookies, parsed, IsSecureOrigin(url), now), after), rt.lower(later.hostname), later, at)
  {
    DefaultPathOf(rt, url, setCookie, now);
    MatchesDefaultPath(url.pathname);
    hide ParseSetCookie, ListAfter, NonDecreasing, Spares, PathMatches, DefaultPath, NoAbsolutePath, Sent;
    AcceptedIsSent(rt, cookies, url, setCookie, now, after, later, at);
  }

  lemma DefaultPathOf(rt: Runtime, url: Url, setCookie: string, now: int)
    requires NoAbsolutePath(rt, Split(setCookie, ";")[1..])
    ensures var parsed := ParseSetCookie(rt, url, setCookie, now); parsed.Some? ==> parsed.value.path == DefaultPath(url.pathname)
  {
    var host := rt.lower(url.hostname);
    AttributesKeepHost(rt, host, url.pathname, InitialAttributes(host, url.pathname), Split(setCookie, ";")[1..]);
  }
}
