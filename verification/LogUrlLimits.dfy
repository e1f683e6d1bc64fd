/**
  * How far the last check of the URL censor goes. It promises to catch every spelling of an interaction path with a
  * segment that may not be shown, percent-encoded letters and `..` among them; it stops at white space, and it takes a
  * path whose first segment is a reserved name as it is. Those are exactly the paths it misses.
  */
module LogUrlLimits {
  import opened Text
  import opened LogUrl
  import opened LogUrlProofs

  /** Up to the first `?`, `#` or `&`: the path with its white space. */
  function WholeLen(s: string): (n: nat)
    ensures n <= |s|
    ensures forall i :: 0 <= i < n ==> s[i] != '?' && s[i] != '#' && s[i] != '&'
    ensures n < |s| ==> s[n] == '?' || s[n] == '#' || s[n] == '&'
  {
    if s == "" || s[0] == '?' || s[0] == '#' || s[0] == '&' then 0 else 1 + WholeLen(s[1..])
  }

  /** The promise as it is made: all segments of the path are named ones. */
  ghost predicate AllNamed(rest: string)
  {
    var segments := Split(rest[..WholeLen(rest)], "/");
    forall i :: 0 <= i < |segments| ==> segments[i] in NAMED_SEGMENTS
  }

  /** White space in the path, or a reserved name as its first segment. */
  ghost predicate Excused(rest: string)
  {
    || (exists i :: 0 <= i < WholeLen(rest) && IsSpace(rest[i]))
    || FirstReal(Split(rest[..PathLen(rest)], "/")) in [Some("openapi.json"), Some("wallet")]
  }

  lemma {:induction false} SplitKeeps(s: string, c: char)
    requires c in s && c != '/'
    ensures exists i :: 0 <= i < |Split(s, "/")| && c in Split(s, "/")[i]
    decreases |s|
  {
    var k := IndexOf(s, "/");
    var parts := Split(s, "/");
    if k < 0 {
      assert c in parts[0];
    } else {
      var head, rest := s[..k], s[k + 1..];
      SlashAt(s, k);
      assert parts == [head] + Split(rest, "/");
      hide Split, IndexOf;
      if c in head {
        assert c in parts[0];
      } else {
        assert c in rest;
        SplitKeeps(rest, c);
        var i :| 0 <= i < |Split(rest, "/")| && c in Split(rest, "/")[i];
        assert parts[i + 1] == Split(rest, "/")[i];
      }
    }
  }

  lemma SlashAt(s: string, k: nat)
    requires k == IndexOf(s, "/")
    ensures k < |s| && s[k] == '/' && forall c :: c in s ==> c in s[..k] || c == '/' || c in s[k + 1..]
  {
    assert At(s, "/", k);
    assert s[k..k + 1] == "/";
    assert s == s[..k] + [s[k]] + s[k + 1..];
  }

  lemma NamedHaveNoSpace(segment: string, c: char)
    requires segment in NAMED_SEGMENTS && c in segment
    ensures !IsSpace(c)
  {
  }

  /** What the check lets pass breaks the promise exactly when it is excused. */
  lemma ExcusedMeans(rest: string)
    requires NamedOnly(rest)
    ensures !AllNamed(rest) <==> Excused(rest)
  {
    hide Split, FirstReal, NAMED_SEGMENTS;
    var whole := rest[..WholeLen(rest)];
    if i :| 0 <= i < WholeLen(rest) && IsSpace(rest[i]) {
      assert whole[i] == rest[i] && rest[i] != '/';
      SplitKeeps(whole, rest[i]);
      var n :| 0 <= n < |Split(whole, "/")| && rest[i] in Split(whole, "/")[n];
      if Split(whole, "/")[n] in NAMED_SEGMENTS { NamedHaveNoSpace(Split(whole, "/")[n], rest[i]); }
    } else {
      assert PathLen(rest) == WholeLen(rest);
      ReservedIsUnnamed(Split(whole, "/"));
    }
  }

  lemma ReservedIsUnnamed(segments: seq<string>)
    ensures FirstReal(segments) in [Some("openapi.json"), Some("wallet")] ==> exists i :: 0 <= i < |segments| && segments[i] !in NAMED_SEGMENTS
  {
    hide FirstReal;
    var first := FirstReal(segments);
    if first in [Some("openapi.json"), Some("wallet")] {
      var i :| 0 <= i < |segments| && segments[i] == first.value;
      assert first.value[0] == 'o' || first.value[0] == 'w';
    }
  }

  /** An interaction prefix at `i`, and what follows. */
  ghost predicate ExcusedAt(decoded: string, i: nat)
    requires i <= |decoded|
  {
    var p := PrefixLen(decoded[i..], false);
    p > 0 && Excused(decoded[i + p..])
  }

  ghost predicate ShownAt(decoded: string, i: nat)
    requires i <= |decoded|
  {
    var p := PrefixLen(decoded[i..], false);
    p > 0 && !AllNamed(decoded[i + p..])
  }

  /**
    * A logged URL, read back by the check's decoder, shows a segment that is not a named one behind an interaction prefix
    * exactly when white space or a reserved first segment excuses it.
    */
  lemma LoggedShowsExcused(names: seq<string>, url: string, i: nat)
    requires AreNames(names) && i <= |Decoded(Logged(names, url), CHECK_DECODE_PASSES)|
    ensures ShownAt(Decoded(Logged(names, url), CHECK_DECODE_PASSES), i) <==> ExcusedAt(Decoded(Logged(names, url), CHECK_DECODE_PASSES), i)
  {
    hide Logged, Decoded, PrefixLen, NamedOnly, AllNamed, Excused;
    LoggedPathsAreNamed(names, url, i);
    var d := Decoded(Logged(names, url), CHECK_DECODE_PASSES);
    var p := PrefixLen(d[i..], false);
    if p > 0 { ExcusedMeans(d[i + p..]); }
  }

  /** The URL after the two rewrites, as the check reads it. */
  ghost function Checked(names: seq<string>, url: string): (d: string)
    requires AreNames(names)
  {
    Decoded(CensorIds(CensorValues(names, url)), CHECK_DECODE_PASSES)
  }

  ghost predicate AnyExcusedIn(d: string) { exists i :: 0 <= i <= |d| && ExcusedAt(d, i) }

  /**
    * From the URL alone: it is logged as the censor exactly when the check finds an unnamed segment that nothing excuses,
    * or the rewrites leave nothing else; and what is logged shows an unnamed segment exactly when the check finds none
    * and white space or a reserved name excuses one.
    */
  lemma LoggedFromUrl(names: seq<string>, url: string)
    requires AreNames(names)
    ensures Logged(names, url) == CENSOR <==> AnyUnnamedIn(Checked(names, url)) || CensorIds(CensorValues(names, url)) == CENSOR
    ensures var d := Decoded(Logged(names, url), CHECK_DECODE_PASSES);
            (exists i :: 0 <= i <= |d| && ShownAt(d, i)) <==> !AnyUnnamedIn(Checked(names, url)) && AnyExcusedIn(Checked(names, url))
  {
    hide Decoded, CensorValues, CensorIds, UnnamedAt, ExcusedAt, ShownAt, AreNames;
    var d := Decoded(Logged(names, url), CHECK_DECODE_PASSES);
    forall i: nat | i <= |d| ensures ShownAt(d, i) <==> ExcusedAt(d, i) { LoggedShowsExcused(names, url, i); }
    if AnyUnnamedIn(Checked(names, url)) {
      CensorDecodes();
      forall i: nat | i <= |d| ensures !ExcusedAt(d, i) { CensorExcusesNothing(i); }
    }
  }

  lemma CensorDecodes()
    ensures Decoded(CENSOR, CHECK_DECODE_PASSES) == CENSOR
  {
    hide DecodeOnce;
    CensorIsPlain();
    NoEscapeNoChange(CENSOR);
    FixedPoint(CENSOR, CHECK_DECODE_PASSES);
  }

  lemma CensorExcusesNothing(i: nat)
    requires i <= |CENSOR|
    ensures !ExcusedAt(CENSOR, i)
  {
    hide ApiPrefixLen, PagePrefixLen, Excused;
    CensorIsPlain();
  }

  // ---------------------------------------------------------------- inputs

  lemma {:induction false} NoQuery(names: seq<string>, s: string)
    requires AreNames(names) && '?' !in s && '&' !in s
    ensures CensorValues(names, s) == s
  {
    hide AreNames;
    if s != "" {
      assert s[0] in s;
      NoQuery(names, s[1..]);
    }
  }

  lemma {:induction false} NoIds(s: string)
    requires forall i :: 0 <= i < |s| ==> IdStart(s[i..]).None?
    ensures CensorIds(s) == s
  {
    hide IdStart;
    if s != "" {
      assert s[0..] == s;
      var rest := s[1..];
      forall i | 0 <= i < |rest| ensures IdStart(rest[i..]).None? { assert rest[i..] == s[i + 1..]; }
      NoIds(rest);
    }
  }

  /** A prefix starts with a slash, plain or encoded, and goes on with an `i` or a `u`. */
  lemma PrefixNext(s: string, encoded: bool)
    requires PrefixLen(s, encoded) > 0
    ensures |s| > 1 && ((s[0] == '/' && (s[1] == 'i' || s[1] == 'u')) || (encoded && |s| > 2 && s[0] == '%' && s[1] == '2' && (s[2] == 'F' || s[2] == 'f')))
  {
    hide VersionLen;
    if s[0] == '/' {
      var u := s[1..];
      assert "interaction" <= u || "ui" <= u;
      assert u[0] == "interaction"[0] || u[0] == "ui"[0];
    }
  }

  /** No slash of the text is followed by an `i` or a `u`, and none is encoded, from `from` on. */
  predicate NoPrefixFrom(s: string, from: nat)
  {
    forall i :: from <= i < |s| - 1 ==>
      && (s[i] == '/' ==> s[i + 1] != 'i' && s[i + 1] != 'u')
      && (s[i] == '%' && i < |s| - 2 ==> !(s[i + 1] == '2' && (s[i + 2] == 'F' || s[i + 2] == 'f')))
  }

  lemma NoPrefix(s: string, from: nat, i: nat, encoded: bool)
    requires NoPrefixFrom(s, from) && from <= i <= |s|
    ensures PrefixLen(s[i..], encoded) == 0
  {
    hide PrefixLen;
    var t := s[i..];
    assert |t| > 0 ==> t[0] == s[i];
    assert |t| > 1 ==> t[1] == s[i + 1];
    assert |t| > 2 ==> t[2] == s[i + 2];
    if PrefixLen(t, encoded) > 0 { PrefixNext(t, encoded); }
  }

  /** `/interaction/v1/` in front of anything is an interaction prefix. */
  lemma PrefixOf(rest: string, encoded: bool)
    ensures PrefixLen("/interaction/v1/" + rest, encoded) == 16
  {
    hide VersionLen;
    var s := "/interaction/v1/" + rest;
    var u := s[1..];
    assert u[..11] == "interaction" && u[11..][0] == '/' && u[12..] == "v1/" + rest && u[14..][0] == '/';
    VersionOne(rest);
  }

  lemma VersionOne(rest: string)
    ensures VersionLen("v1/" + rest) == 2
  {
    hide CandidateLen;
    var v := "v1/" + rest;
    assert v[2..][0] == '/';
    assert DigitsLen(v[2..]) == 0;
    NoCandidate(v[2..]);
  }

  lemma NoCandidate(s: string)
    requires s != "" && s[0] == '/'
    ensures CandidateLen(s) == 0
  {
    assert "-rc."[0] != s[0];
  }

  /** A text with no prefix but perhaps one at its start is logged as it came when that one leads to no id and to no unnamed segment. */
  lemma LoggedAsItCame(names: seq<string>, url: string, decoded: string)
    requires AreNames(names) && '?' !in url && '&' !in url && NoPrefixFrom(url, 1) && NoPrefixFrom(decoded, 1)
    requires Decoded(url, CHECK_DECODE_PASSES) == decoded && IdStart(url).None? && !UnnamedAt(decoded, 0)
    ensures Logged(names, url) == url
  {
    hide AreNames, Decoded, UnnamedAt, CensorValues, CensorIds, PrefixLen, SkippedLen, NoPrefixFrom;
    NoQuery(names, url);
    forall i | 0 <= i < |url| ensures IdStart(url[i..]).None? {
      if i == 0 { assert url[0..] == url; } else { NoPrefix(url, 1, i, true); }
    }
    NoIds(url);
    forall i | 0 <= i <= |decoded| ensures !UnnamedAt(decoded, i) {
      if i > 0 {
        NoPrefix(decoded, 1, i, false);
        NotUnnamed(decoded, i);
      }
    }
  }

  lemma NotUnnamed(decoded: string, i: nat)
    requires i <= |decoded| && PrefixLen(decoded[i..], false) == 0
    ensures !UnnamedAt(decoded, i)
  {
  }

  lemma PrefixLeads(url: string, tail: string)
    requires url == "/interaction/v1/" + tail
    ensures SkippedLen(tail).None? ==> IdStart(url).None?
    ensures NamedOnly(tail) ==> !UnnamedAt(url, 0)
  {
    hide PrefixLen, SkippedLen, NamedOnly;
    PrefixOf(tail, true);
    PrefixOf(tail, false);
    assert url[16..] == tail && url[0..] == url;
  }

  /** A path behind the reserved name: `..` leads from it to the id, and the URL is logged as it came. */
  lemma ReservedInput(names: seq<string>)
    requires AreNames(names)
    ensures Logged(names, "/interaction/v1/" + "wallet/../SECRET") == "/interaction/v1/" + "wallet/../SECRET"
  {
    hide AreNames, Decoded, DecodeOnce, UnnamedAt, Logged, IdStart, SkippedLen, NamedOnly, NoPrefixFrom;
    var tail := "wallet/../SECRET";
    var url := "/interaction/v1/" + tail;
    ReservedPlain();
    WalletSkips();
    WalletIsNamed();
    PrefixLeads(url, tail);
    NoEscapeNoChange(url);
    FixedPoint(url, CHECK_DECODE_PASSES);
    LoggedAsItCame(names, url, url);
  }

  lemma ReservedPlain()
    ensures var url := "/interaction/v1/" + "wallet/../SECRET";
            NoPrefixFrom(url, 1) && '?' !in url && '&' !in url && '%' !in url
  {
  }

  lemma WalletSkips()
    ensures SkippedLen("wallet/../SECRET").None?
  {
    var s := "wallet/../SECRET";
    assert s[..6] == "wallet" && s[6..][0] == '/';
    assert DotSlashLen(s) == 0;
    assert Reserved(s);
  }

  lemma WalletIsNamed()
    ensures NamedOnly("wallet/../SECRET")
  {
    hide NamedOnly;
    WalletFirst("../SECRET");
    assert "wallet" + "/" + "../SECRET" == "wallet/../SECRET";
  }

  /** The wallet prefix and anything behind it. */
  lemma WalletFirst(tail: string)
    ensures NamedOnly("wallet" + "/" + tail)
  {
    hide IndexOf;
    var s := "wallet" + "/" + tail;
    var n := PathLen(s);
    assert forall i :: 0 <= i < 7 ==> s[i] == "wallet/"[i];
    assert n > 6;
    hide PathLen;
    var path := s[..n];
    assert path == "wallet" + "/" + path[7..];
    FirstSeparator("wallet", "/", path[7..]);
    assert path[..6] == "wallet";
    var segments := Split(path, "/");
    assert segments[0] == "wallet";
    hide Split;
    assert FirstReal(segments) == Some("wallet");
  }

  /** A percent-encoded letter, and an encoded space before the id: the URL is logged as it came. */
  lemma SpaceInput(names: seq<string>)
    requires AreNames(names)
    ensures Logged(names, "/%69nteraction/v1/%20SECRET") == "/%69nteraction/v1/%20SECRET"
    ensures Decoded("/%69nteraction/v1/%20SECRET", CHECK_DECODE_PASSES) == "/interaction/v1/" + " SECRET"
  {
    hide AreNames, Decoded, DecodeOnce, UnnamedAt, Logged, IdStart, SkippedLen, NamedOnly, NoPrefixFrom;
    var url, decoded := "/%69nteraction/v1/%20SECRET", "/interaction/v1/" + " SECRET";
    SpacePlain();
    SpaceDecodes();
    SpaceEnds();
    PrefixLeads(decoded, " SECRET");
    NoIdAtStart(url);
    LoggedAsItCame(names, url, decoded);
  }

  lemma NoIdAtStart(url: string)
    requires NoPrefixFrom(url, 0)
    ensures IdStart(url).None?
  {
    hide PrefixLen;
    NoPrefix(url, 0, 0, true);
    assert url[0..] == url;
  }

  lemma SpacePlain()
    ensures var url := "/%69nteraction/v1/%20SECRET"; NoPrefixFrom(url, 0) && NoPrefixFrom(url, 1) && '?' !in url && '&' !in url
    ensures NoPrefixFrom("/interaction/v1/" + " SECRET", 1)
  {
    SpaceDecodedPlain();
    SpaceHasNoPrefix();
    FromLater("/%69nteraction/v1/%20SECRET");
    hide NoPrefixFrom;
  }

  lemma SpaceHasNoPrefix()
    ensures NoPrefixFrom("/%69nteraction/v1/%20SECRET", 0)
  {
  }

  lemma FromLater(s: string)
    requires NoPrefixFrom(s, 0)
    ensures NoPrefixFrom(s, 1)
  {
  }

  lemma SpaceDecodedPlain()
    ensures var decoded := "/interaction/v1/" + " SECRET"; NoPrefixFrom(decoded, 1) && '%' !in decoded
  {
  }

  lemma SpaceEnds()
    ensures NamedOnly(" SECRET")
  {
    assert PathLen(" SECRET") == 0;
    NoSeparator("", "/");
    assert Split("", "/") == [""];
  }

  lemma SpaceDecodes()
    ensures Decoded("/%69nteraction/v1/%20SECRET", CHECK_DECODE_PASSES) == "/interaction/v1/" + " SECRET"
  {
    hide DecodeOnce, Escaped;
    var url, decoded := "/%69nteraction/v1/%20SECRET", "/interaction/v1/" + " SECRET";
    OncedSpace("nteraction/v1/", "SECRET");
    assert "/" + ("%69" + ("nteraction/v1/" + ("%20" + "SECRET"))) == url;
    assert "/" + ("i" + ("nteraction/v1/" + (" " + "SECRET"))) == decoded;
    SpaceDecodedPlain();
    NoEscapeNoChange(decoded);
    FixedPoint(decoded, CHECK_DECODE_PASSES - 1);
  }

  lemma OncedSpace(middle: string, last: string)
    requires '%' !in middle && '%' !in last
    ensures DecodeOnce("/" + ("%69" + (middle + ("%20" + last)))) == "/" + ("i" + (middle + (" " + last)))
  {
    assert Escaped("%20") && EscapedChar("%20") == ' ' && Escaped("%69") && EscapedChar("%69") == 'i';
    hide DecodeOnce, Escaped;
    NoEscapeNoChange(last);
    EscapeDecodes("%20", ' ', last);
    PlainThen(middle, "%20" + last);
    EscapeDecodes("%69", 'i', middle + ("%20" + last));
    PlainThen("/", "%69" + (middle + ("%20" + last)));
  }

  lemma EscapeDecodes(escape: string, c: char, rest: string)
    requires |escape| == 3 && Escaped(escape) && EscapedChar(escape) == c
    ensures DecodeOnce(escape + rest) == [c] + DecodeOnce(rest)
  {
    assert (escape + rest)[3..] == rest;
  }

  lemma {:induction false} PlainThen(plain: string, rest: string)
    requires '%' !in plain
    ensures DecodeOnce(plain + rest) == plain + DecodeOnce(rest)
  {
    if plain == "" {
      assert plain + rest == rest;
    } else {
      var s := plain + rest;
      assert plain[0] in plain && s[0] == plain[0];
      assert s[1..] == plain[1..] + rest;
      assert DecodeOnce(s) == [s[0]] + DecodeOnce(s[1..]);
      hide DecodeOnce;
      PlainThen(plain[1..], rest);
    }
  }
}
