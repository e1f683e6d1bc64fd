/**
  * The URL censor in terms of texts alone: which texts are interaction prefixes, which ids behind them are censored, what
  * a logged URL may show behind one, and what the value of a listed parameter is. The scanners that find them are
  * proved to find exactly these texts.
  */
module LogUrlForms {
  import opened Text
  import opened LogUrl
  import opened LogUrlProofs

  // ---------------------------------------------------------------- interaction prefixes

  ghost predicate IsSlash(w: string, encoded: bool) { w == "/" || (encoded && (w == "%2F" || w == "%2f")) }

  /** Decimal digits without a leading zero. */
  ghost predicate IsCount(w: string) { w != "" && w[0] != '0' && forall i :: 0 <= i < |w| ==> '0' <= w[i] <= '9' }

  ghost predicate IsNumber(w: string) { w == "0" || IsCount(w) }

  /** Nothing, or the mark of a release candidate. */
  ghost predicate IsCandidate(w: string) { w == "" || exists number :: IsNumber(number) && w == "-rc." + number }

  ghost predicate IsVersion(w: string)
  {
    exists count, candidate :: IsCount(count) && IsCandidate(candidate) && w == "v" + count + candidate
  }

  ghost predicate IsApiPrefix(w: string, encoded: bool)
  {
    exists a, b, version, c ::
      IsSlash(a, encoded) && IsSlash(b, encoded) && IsSlash(c, encoded) && IsVersion(version) && w == a + "interaction" + b + version + c
  }

  ghost predicate IsPagePrefix(w: string, encoded: bool)
  {
    exists a, b, c :: IsSlash(a, encoded) && IsSlash(b, encoded) && IsSlash(c, encoded) && w == a + "ui" + b + "interaction" + c
  }

  /** `/interaction/v1/`, `/interaction/v2-rc.0/`, `/ui/interaction/` and the like. */
  ghost predicate IsPrefix(w: string, encoded: bool) { IsApiPrefix(w, encoded) || IsPagePrefix(w, encoded) }

  lemma SlashSound(s: string, encoded: bool)
    ensures SlashLen(s, encoded) > 0 ==> IsSlash(s[..SlashLen(s, encoded)], encoded)
  {
  }

  lemma SlashComplete(w: string, rest: string, encoded: bool)
    requires IsSlash(w, encoded)
    ensures SlashLen(w + rest, encoded) == |w| > 0 && (w[0] == '/' || w[0] == '%')
  {
  }

  lemma {:induction false} AllDigits(digits: string, rest: string)
    requires (forall i :: 0 <= i < |digits| ==> IsDigit(digits[i])) && (rest == "" || !IsDigit(rest[0]))
    ensures DigitsLen(digits + rest) == |digits|
  {
    if digits == "" {
      assert digits + rest == rest;
    } else {
      assert (digits + rest)[1..] == digits[1..] + rest;
      AllDigits(digits[1..], rest);
    }
  }

  lemma NumberSound(s: string)
    ensures NumberLen(s) > 0 ==> IsNumber(s[..NumberLen(s)])
  {
  }

  lemma NumberComplete(w: string, rest: string)
    requires IsNumber(w) && (rest == "" || !IsDigit(rest[0]))
    ensures NumberLen(w + rest) == |w|
  {
    var s := w + rest;
    if w != "0" {
      AllDigits(w[1..], rest);
      assert s[1..] == w[1..] + rest;
    }
  }

  lemma CandidateSound(s: string)
    ensures IsCandidate(s[..CandidateLen(s)])
  {
    hide NumberLen, IsNumber;
    var n := CandidateLen(s);
    if n > 0 {
      NumberSound(s[4..]);
      var number := s[4..][..n - 4];
      assert s[..n] == "-rc." + number;
    }
  }

  lemma CandidateComplete(w: string, rest: string)
    requires IsCandidate(w) && rest != "" && (rest[0] == '/' || rest[0] == '%')
    ensures CandidateLen(w + rest) == |w| && (w == "" || w[0] == '-')
  {
    var s := w + rest;
    if w == "" {
      assert s == rest && "-rc."[0] != rest[0];
    } else {
      hide NumberLen, IsNumber;
      var number :| IsNumber(number) && w == "-rc." + number;
      NumberComplete(number, rest);
      assert s[..4] == "-rc." && s[4..] == number + rest;
      NumberIsSome(number);
    }
  }

  lemma NumberIsSome(number: string)
    requires IsNumber(number)
    ensures number != ""
  {
  }

  lemma VersionSound(s: string)
    ensures VersionLen(s) > 0 ==> IsVersion(s[..VersionLen(s)])
  {
    hide CandidateLen, IsCandidate;
    if VersionLen(s) > 0 {
      var d := 1 + DigitsLen(s[2..]);
      var count, candidate := s[1..1 + d], s[1 + d..][..CandidateLen(s[1 + d..])];
      CandidateSound(s[1 + d..]);
      assert forall i :: 1 <= i < d ==> count[i] == s[2..][i - 1];
      assert IsCount(count);
      assert s[..VersionLen(s)] == "v" + count + candidate;
    }
  }

  lemma VersionComplete(w: string, rest: string)
    requires IsVersion(w) && rest != "" && (rest[0] == '/' || rest[0] == '%')
    ensures VersionLen(w + rest) == |w| > 0
  {
    hide CandidateLen, IsCandidate, VersionLen;
    var count, candidate :| IsCount(count) && IsCandidate(candidate) && w == "v" + count + candidate;
    CandidateComplete(candidate, rest);
    VersionOf(count, candidate + rest);
    assert w + rest == "v" + count + (candidate + rest);
  }

  lemma VersionOf(count: string, after: string)
    requires IsCount(count) && (after == "" || !IsDigit(after[0]))
    ensures VersionLen("v" + count + after) == 1 + |count| + CandidateLen(after)
  {
    hide CandidateLen;
    var s := "v" + count + after;
    AllDigits(count[1..], after);
    assert s[2..] == count[1..] + after && s[1 + |count|..] == after;
  }

  lemma InFour(s: string, i: nat, j: nat, k: nat, n: nat)
    requires i <= j <= k <= n <= |s|
    ensures s[..n] == s[..i] + (s[i..][..j - i] + (s[j..][..k - j] + s[k..][..n - k]))
  {
  }

  lemma Regroup(a: string, b: string, c: string, d: string, e: string, f: string)
    ensures a + b + c + d + e + f == a + (b + (c + (d + (e + f))))
    ensures a + b + c + d + e == a + (b + (c + (d + e)))
    ensures a + b + c + d == a + (b + (c + d))
  {
    assert a + b + c + d == a + (b + (c + d));
    assert a + b + c + d + e == a + (b + (c + (d + e)));
    assert (d + e) + f == d + (e + f);
  }

  lemma ApiSound(s: string, a: string, encoded: bool)
    requires IsSlash(a, encoded)
    ensures ApiPrefixLen(s, encoded) > 0 ==> IsApiPrefix(a + s[..ApiPrefixLen(s, encoded)], encoded)
  {
    hide SlashLen, VersionLen, IsSlash, IsVersion, IsApiPrefix;
    var n := ApiPrefixLen(s, encoded);
    if n > 0 {
      var i := 11 + SlashLen(s[11..], encoded);
      var j := i + VersionLen(s[i..]);
      SlashSound(s[11..], encoded);
      VersionSound(s[i..]);
      SlashSound(s[j..], encoded);
      InFour(s, 11, i, j, n);
      assert s[..11] == "interaction";
      ApiOf(a, s[11..][..i - 11], s[i..][..j - i], s[j..][..n - j], encoded);
    }
  }

  lemma ApiOf(a: string, b: string, version: string, c: string, encoded: bool)
    requires IsSlash(a, encoded) && IsSlash(b, encoded) && IsVersion(version) && IsSlash(c, encoded)
    ensures IsApiPrefix(a + ("interaction" + (b + (version + c))), encoded)
  {
    hide IsSlash, IsVersion;
    Regroup(a, "interaction", b, version, c, "");
  }

  lemma ApiComplete(b: string, version: string, c: string, rest: string, encoded: bool)
    requires IsSlash(b, encoded) && IsVersion(version) && IsSlash(c, encoded)
    ensures ApiPrefixLen("interaction" + b + version + c + rest, encoded) == |"interaction" + b + version + c|
  {
    hide SlashLen, VersionLen, IsSlash, IsVersion;
    var s := "interaction" + b + version + c + rest;
    assert s[..11] == "interaction";
    assert s[11..] == b + (version + c + rest);
    SlashComplete(b, version + c + rest, encoded);
    assert s[11 + |b|..] == version + (c + rest);
    SlashComplete(c, rest, encoded);
    VersionComplete(version, c + rest);
    assert s[11 + |b| + |version|..] == c + rest;
  }

  lemma PageSound(s: string, a: string, encoded: bool)
    requires IsSlash(a, encoded)
    ensures PagePrefixLen(s, encoded) > 0 ==> IsPagePrefix(a + s[..PagePrefixLen(s, encoded)], encoded)
  {
    hide SlashLen, IsSlash, IsPagePrefix;
    var n := PagePrefixLen(s, encoded);
    if n > 0 {
      var i := 2 + SlashLen(s[2..], encoded);
      SlashSound(s[2..], encoded);
      SlashSound(s[i + 11..], encoded);
      InFour(s, 2, i, i + 11, n);
      assert s[..2] == "ui" && s[i..][..11] == "interaction";
      PageOf(a, s[2..][..i - 2], s[i + 11..][..n - i - 11], encoded);
    }
  }

  lemma PageOf(a: string, b: string, c: string, encoded: bool)
    requires IsSlash(a, encoded) && IsSlash(b, encoded) && IsSlash(c, encoded)
    ensures IsPagePrefix(a + ("ui" + (b + ("interaction" + c))), encoded)
  {
    hide IsSlash;
    Regroup(a, "ui", b, "interaction", c, "");
  }

  lemma PageComplete(b: string, c: string, rest: string, encoded: bool)
    requires IsSlash(b, encoded) && IsSlash(c, encoded)
    ensures PagePrefixLen("ui" + b + "interaction" + c + rest, encoded) == |"ui" + b + "interaction" + c|
    ensures ApiPrefixLen("ui" + b + "interaction" + c + rest, encoded) == 0
  {
    hide SlashLen, IsSlash, VersionLen;
    var s := "ui" + b + "interaction" + c + rest;
    assert s[..2] == "ui" && s[0] != "interaction"[0];
    assert s[2..] == b + ("interaction" + c + rest);
    SlashComplete(b, "interaction" + c + rest, encoded);
    assert s[2 + |b|..][..11] == "interaction";
    assert s[13 + |b|..] == c + rest;
    SlashComplete(c, rest, encoded);
  }

  /** The scanner finds exactly the prefixes: the text it takes is one, and it takes every one whatever follows. */
  lemma PrefixMeans(s: string, encoded: bool, n: nat)
    requires 0 < n <= |s|
    ensures PrefixLen(s, encoded) == n <==> IsPrefix(s[..n], encoded)
  {
    if PrefixLen(s, encoded) == n { PrefixSound(s, encoded); }
    if IsPrefix(s[..n], encoded) {
      PrefixComplete(s[..n], s[n..], encoded);
      assert s == s[..n] + s[n..];
    }
  }

  lemma PrefixSound(s: string, encoded: bool)
    requires PrefixLen(s, encoded) > 0
    ensures IsPrefix(s[..PrefixLen(s, encoded)], encoded)
  {
    hide SlashLen, ApiPrefixLen, PagePrefixLen, IsSlash, IsApiPrefix, IsPagePrefix;
    var k := SlashLen(s, encoded);
    SlashSound(s, encoded);
    ApiSound(s[k..], s[..k], encoded);
    PageSound(s[k..], s[..k], encoded);
    var n := PrefixLen(s, encoded);
    assert s[..n] == s[..k] + s[k..][..n - k];
  }

  lemma PrefixComplete(w: string, rest: string, encoded: bool)
    requires IsPrefix(w, encoded)
    ensures PrefixLen(w + rest, encoded) == |w| > 0
  {
    hide SlashLen, ApiPrefixLen, PagePrefixLen, IsSlash, IsVersion;
    if IsApiPrefix(w, encoded) {
      var a, b, version, c :| IsSlash(a, encoded) && IsSlash(b, encoded) && IsSlash(c, encoded) && IsVersion(version)
                              && w == a + "interaction" + b + version + c;
      var after := "interaction" + b + version + c + rest;
      SlashComplete(a, after, encoded);
      assert w + rest == a + after;
      assert (w + rest)[|a|..] == after;
      ApiComplete(b, version, c, rest, encoded);
    } else {
      var a, b, c :| IsSlash(a, encoded) && IsSlash(b, encoded) && IsSlash(c, encoded) && w == a + "ui" + b + "interaction" + c;
      var after := "ui" + b + "interaction" + c + rest;
      SlashComplete(a, after, encoded);
      assert w + rest == a + after;
      assert (w + rest)[|a|..] == after;
      PageComplete(b, c, rest, encoded);
    }
  }

  // ---------------------------------------------------------------- ids

  /** Where a segment ends: at a slash, plain or encoded, at `?`, `#`, `&` or at the end of the URL. */
  ghost predicate Ends(tail: string)
  {
    tail == "" || tail[0] == '/' || tail[0] == '?' || tail[0] == '#' || tail[0] == '&' || At(tail, "%2F", 0) || At(tail, "%2f", 0)
  }

  /** No segment ends inside the text. */
  ghost predicate Unbroken(w: string)
  {
    && (forall i :: 0 <= i < |w| ==> w[i] != '/' && w[i] != '?' && w[i] != '#' && w[i] != '&')
    && (forall i :: !At(w, "%2F", i) && !At(w, "%2f", i))
  }

  /** An empty segment or a dot, with the slash behind it. */
  ghost predicate IsRound(w: string) { IsSlash(w, true) || exists slash :: IsSlash(slash, true) && w == "." + slash }

  ghost predicate IsReservedName(w: string) { w == "openapi.json" || w == "wallet" }

  lemma EndsMeans(tail: string)
    ensures Ended(tail) <==> Ends(tail)
  {
    if |tail| >= 3 {
      assert tail[0..3] == [tail[0], tail[1], tail[2]];
    }
  }

  lemma NotEndedHere(w: string, tail: string)
    requires Unbroken(w) && w != "" && Ends(tail)
    ensures !Ended(w + tail) && SlashLen(w + tail, true) == 0
  {
    var s := w + tail;
    assert |w| >= 3 ==> s[0] == w[0] && s[1] == w[1] && s[2] == w[2] && w[0..3] == [w[0], w[1], w[2]];
    assert !At(w, "%2F", 0) && !At(w, "%2f", 0);
    assert tail != "" ==> s[|w|] == tail[0];
    assert At(tail, "%2F", 0) || At(tail, "%2f", 0) ==> tail[0] == tail[0..3][0];
  }

  lemma UnbrokenTail(w: string)
    requires Unbroken(w) && w != ""
    ensures Unbroken(w[1..])
  {
    var v := w[1..];
    forall i ensures !At(v, "%2F", i) && !At(v, "%2f", i) {
      if 0 <= i && i + 3 <= |v| {
        assert v[i..i + 3] == w[i + 1..i + 1 + 3];
        assert !At(w, "%2F", i + 1) && !At(w, "%2f", i + 1);
      }
    }
  }

  lemma {:induction false} UnbrokenIsSegment(w: string, tail: string)
    requires Unbroken(w) && Ends(tail)
    ensures SegmentLen(w + tail) == |w|
  {
    hide Ended, Ends, Unbroken;
    EndsMeans(tail);
    if w == "" {
      assert w + tail == tail;
    } else {
      NotEndedHere(w, tail);
      UnbrokenTail(w);
      UnbrokenIsSegment(w[1..], tail);
      assert (w + tail)[1..] == w[1..] + tail;
    }
  }

  /** The scanner leaves out a segment as reserved exactly when it is one of the two names. */
  lemma ReservedMeans(id: string, tail: string)
    requires Unbroken(id) && id != "" && Ends(tail)
    ensures Reserved(id + tail) <==> IsReservedName(id)
  {
    ReservedAs("openapi.json", id, tail);
    ReservedAs("wallet", id, tail);
    hide Ended, Ends, Unbroken;
  }

  lemma ReservedAs(name: string, id: string, tail: string)
    requires Unbroken(id) && Ends(tail) && (forall i :: 0 <= i < |name| ==> 'a' <= name[i] <= 'z' || name[i] == '.')
    ensures name <= id + tail && Ended((id + tail)[|name|..]) <==> id == name
  {
    hide Ended;
    var s := id + tail;
    EndsMeans(tail);
    if id == name {
      assert s[|name|..] == tail && s[..|name|] == name;
    } else if |name| < |id| {
      var after := id[|name|..];
      UnbrokenSuffix(id, |name|);
      NotEndedHere(after, tail);
      assert s[|name|..] == after + tail;
    } else if |id| == |name| {
      assert s[..|name|] == id;
    } else if tail != "" {
      assert s[|id|] == tail[0];
      assert At(tail, "%2F", 0) || At(tail, "%2f", 0) ==> tail[0] == tail[0..3][0];
      assert tail[0] != name[|id|];
    }
  }

  lemma {:induction false} UnbrokenSuffix(w: string, n: nat)
    requires Unbroken(w) && n <= |w|
    ensures Unbroken(w[n..])
  {
    hide Unbroken;
    if n == 0 {
      assert w[0..] == w;
    } else {
      UnbrokenTail(w);
      UnbrokenSuffix(w[1..], n - 1);
      assert w[1..][n - 1..] == w[n..];
    }
  }

  lemma RoundIsTaken(round: string, rest: string)
    requires IsRound(round)
    ensures DotSlashLen(round + rest) == |round| > 0
  {
    hide SlashLen, IsSlash;
    if IsSlash(round, true) {
      SlashComplete(round, rest, true);
    } else {
      var slash :| IsSlash(slash, true) && round == "." + slash;
      SlashComplete(slash, rest, true);
      assert (round + rest)[1..] == slash + rest && (round + rest)[0] == '.';
      NoSlashAtDot(round + rest);
    }
  }

  lemma NoSlashAtDot(s: string)
    requires s != "" && s[0] == '.'
    ensures SlashLen(s, true) == 0
  {
  }

  /** An id that is no dot before a slash: no round is taken from it. */
  lemma IdIsNoRound(id: string, tail: string)
    requires Unbroken(id) && id != "" && Ends(tail) && (id == "." ==> SlashLen(tail, true) == 0)
    ensures DotSlashLen(id + tail) == 0
  {
    hide Unbroken, Ends, SlashLen;
    NotEndedHere(id, tail);
    assert (id + tail)[1..] == id[1..] + tail;
    if id[0] == '.' {
      if |id| > 1 {
        UnbrokenTail(id);
        NotEndedHere(id[1..], tail);
      } else {
        assert id == "." && id[1..] + tail == tail;
      }
    }
  }

  lemma {:induction false} RoundsAreSkipped(rounds: seq<string>, id: string, tail: string)
    requires forall i :: 0 <= i < |rounds| ==> IsRound(rounds[i])
    requires Unbroken(id) && id != "" && Ends(tail) && (id == "." ==> SlashLen(tail, true) == 0) && !IsReservedName(id)
    ensures SkippedLen(Concat(rounds) + (id + tail)) == Some(|Concat(rounds)|)
  {
    hide Unbroken, Ends, SlashLen, DotSlashLen, SegmentLen, Reserved, IsRound;
    var s := Concat(rounds) + (id + tail);
    if rounds == [] {
      assert s == id + tail;
      IdIsNoRound(id, tail);
      ReservedMeans(id, tail);
      UnbrokenIsSegment(id, tail);
    } else {
      RoundsAreSkipped(rounds[1..], id, tail);
      var rest := Concat(rounds[1..]) + (id + tail);
      RoundIsTaken(rounds[0], rest);
      assert s == rounds[0] + rest && s[|rounds[0]|..] == rest;
    }
  }

  /**
    * The id behind an interaction prefix, and behind empty and dot segments there, is replaced whole and nothing before it:
    * every segment but the two reserved names, and but a dot that a slash follows.
    */
  lemma IdIsCensored(prefix: string, rounds: seq<string>, id: string, tail: string)
    requires IsPrefix(prefix, true) && forall i :: 0 <= i < |rounds| ==> IsRound(rounds[i])
    requires Unbroken(id) && id != "" && Ends(tail) && (id == "." ==> tail == "" || tail[0] in "?#&")
    requires id != "openapi.json" && id != "wallet"
    ensures CensorIds(prefix + Concat(rounds) + id + tail) == prefix + Concat(rounds) + "[Redacted]" + CensorIds(tail)
  {
    NoSlashAhead(tail);
    hide Unbroken, Ends, SlashLen, SegmentLen, CensorIds, IsPrefix, IsRound, IdStart, Concat, SkippedLen;
    var skipped := Concat(rounds);
    RoundsAreSkipped(rounds, id, tail);
    IdStartsAt(prefix, skipped, id + tail);
    UnbrokenIsSegment(id, tail);
    CensoredFrom(prefix + skipped, id, tail);
    assert prefix + skipped + id + tail == prefix + skipped + (id + tail);
  }

  lemma NoSlashAhead(tail: string)
    ensures tail == "" || tail[0] in "?#&" ==> SlashLen(tail, true) == 0
  {
  }

  lemma CensoredFrom(before: string, id: string, tail: string)
    requires IdStart(before + (id + tail)) == Some(|before|) && SegmentLen(id + tail) == |id| > 0
    ensures CensorIds(before + (id + tail)) == before + "[Redacted]" + CensorIds(tail)
  {
    hide SegmentLen, CensorIds, IdStart;
    var s := before + (id + tail);
    IdStep(s);
    assert s[..|before|] == before && s[|before|..] == id + tail && (id + tail)[|id|..] == tail;
  }

  lemma IdStartsAt(prefix: string, skipped: string, rest: string)
    requires IsPrefix(prefix, true) && SkippedLen(skipped + rest) == Some(|skipped|)
    ensures IdStart(prefix + skipped + rest) == Some(|prefix + skipped|)
  {
    hide PrefixLen, SkippedLen, IsPrefix;
    PrefixComplete(prefix, skipped + rest, true);
    assert prefix + skipped + rest == prefix + (skipped + rest);
    assert (prefix + (skipped + rest))[|prefix|..] == skipped + rest;
  }

  // ---------------------------------------------------------------- reserved names stay

  /** Text in which no slash starts passes the id rewrite. */
  lemma WordPasses(word: string, rest: string)
    requires forall i :: 0 <= i < |word| ==> word[i] != '/' && word[i] != '%'
    ensures CensorIds(word + rest) == word + CensorIds(rest)
  {
    hide CensorIds;
    var s := word + rest;
    forall i | 0 <= i < |word| ensures !LogUrlProofs.SlashAt(s, i) {
      assert s[i..][0] == word[i];
      SlashStarts(s[i..]);
    }
    IdsAgree(s, |word|);
    assert s[..|word|] == word && s[|word|..] == rest;
  }

  lemma SlashPasses(slash: string, rest: string)
    requires IsSlash(slash, true) && IdStart(slash + rest).None?
    ensures CensorIds(slash + rest) == slash + CensorIds(rest)
  {
    hide CensorIds, IdStart;
    var s := slash + rest;
    IdStep(s);
    if slash == "/" {
      assert s[1..] == rest;
    } else {
      WordPasses(slash[1..], rest);
      assert s[1..] == slash[1..] + rest && s[0] == slash[0] && slash == [slash[0]] + slash[1..];
    }
  }

  lemma NoPrefixAfter(slash: string, rest: string)
    requires IsSlash(slash, true) && (rest == "" || (rest[0] != 'i' && rest[0] != 'u'))
    ensures IdStart(slash + rest).None?
  {
    hide SlashLen, SkippedLen, VersionLen;
    SlashComplete(slash, rest, true);
    assert (slash + rest)[|slash|..] == rest;
    assert "interaction"[0] == 'i' && "ui"[0] == 'u';
  }

  /** `/interaction/` before a text that is no version is no prefix. */
  lemma NoVersionAfter(slash: string, c: string, rest: string)
    requires IsSlash(slash, true) && IsSlash(c, true) && (rest == "" || rest[0] != 'v')
    ensures IdStart(slash + ("interaction" + (c + rest))).None?
  {
    hide SlashLen, SkippedLen;
    var after := "interaction" + (c + rest);
    SlashComplete(slash, after, true);
    assert (slash + after)[|slash|..] == after;
    assert after[11..] == c + rest;
    SlashComplete(c, rest, true);
    assert after[11 + |c|..] == rest;
    assert VersionLen(rest) == 0;
    assert after[0] == 'i' && "ui"[0] != after[0];
  }

  ghost predicate AreSlashes(slashes: seq<string>) { forall i :: 0 <= i < |slashes| ==> IsSlash(slashes[i], true) }

  lemma {:induction false} SlashesLeadNowhere(slashes: seq<string>, name: string, tail: string)
    requires AreSlashes(slashes) && IsReservedName(name) && Ends(tail)
    ensures SkippedLen(Concat(slashes) + (name + tail)).None?
    ensures (Concat(slashes) + (name + tail))[0] in "ow/%"
  {
    hide Ends, SkippedLen, IsSlash;
    NameLeadsNowhere(name, tail);
    if slashes == [] {
      assert Concat(slashes) + (name + tail) == name + tail;
    } else {
      SlashesLeadNowhere(slashes[1..], name, tail);
      var rest := Concat(slashes[1..]) + (name + tail);
      SlashLeadsNowhere(slashes[0], rest);
      assert Concat(slashes) + (name + tail) == slashes[0] + rest;
    }
  }

  lemma NameLeadsNowhere(name: string, tail: string)
    requires IsReservedName(name) && Ends(tail)
    ensures SkippedLen(name + tail).None? && (name + tail)[0] in "ow/%"
  {
    hide Ends, SlashLen, Reserved, SegmentLen;
    NameIsUnbroken(name);
    IdIsNoRound(name, tail);
    ReservedMeans(name, tail);
  }

  lemma SlashLeadsNowhere(slash: string, rest: string)
    requires IsSlash(slash, true) && SkippedLen(rest).None?
    ensures SkippedLen(slash + rest).None? && (slash + rest)[0] in "ow/%"
  {
    hide SlashLen, IsSlash, Reserved, Ended;
    var s := slash + rest;
    RoundIsTaken(slash, rest);
    SlashComplete(slash, rest, true);
    SlashEnds(s);
    assert s[|slash|..] == rest && s[0] == slash[0];
  }

  lemma SlashEnds(s: string)
    requires SlashLen(s, true) > 0
    ensures Ended(s)
  {
  }

  lemma NameIsUnbroken(name: string)
    requires IsReservedName(name)
    ensures Unbroken(name) && name != "" && name[0] in "ow" && name != "." && forall i :: 0 <= i < |name| ==> name[i] != '/' && name[i] != '%'
  {
    assert forall i :: 0 <= i < |name| ==> name[i] != '/' && name[i] != '%' && name[i] != '?' && name[i] != '#' && name[i] != '&';
    forall i ensures !At(name, "%2F", i) && !At(name, "%2f", i) {
      if 0 <= i && i + 3 <= |name| { assert name[i] == name[i..i + 3][0]; }
    }
  }

  lemma {:induction false} SlashesPass(slashes: seq<string>, name: string, tail: string)
    requires AreSlashes(slashes) && IsReservedName(name) && Ends(tail)
    ensures CensorIds(Concat(slashes) + (name + tail)) == Concat(slashes) + (name + CensorIds(tail))
  {
    hide CensorIds, IdStart, Ends, IsSlash, SkippedLen;
    if slashes == [] {
      NameIsUnbroken(name);
      WordPasses(name, tail);
      assert Concat(slashes) + (name + tail) == name + tail;
    } else {
      var rest := Concat(slashes[1..]) + (name + tail);
      assert AreSlashes(slashes[1..]);
      SlashesLeadNowhere(slashes[1..], name, tail);
      NoPrefixAfter(slashes[0], rest);
      SlashPasses(slashes[0], rest);
      SlashesPass(slashes[1..], name, tail);
      assert Concat(slashes) + (name + tail) == slashes[0] + rest;
    }
  }

  lemma NoIdAtReserved(prefix: string, rest: string)
    requires IsPrefix(prefix, true) && SkippedLen(rest).None?
    ensures IdStart(prefix + rest).None?
  {
    hide PrefixLen, SkippedLen, IsPrefix;
    PrefixComplete(prefix, rest, true);
    assert (prefix + rest)[|prefix|..] == rest;
  }

  /** A reserved name behind a prefix stays, and so does all before it, with empty segments in between or without. */
  lemma ReservedNameStays(prefix: string, slashes: seq<string>, name: string, tail: string)
    requires IsPrefix(prefix, true) && AreSlashes(slashes) && (name == "openapi.json" || name == "wallet") && Ends(tail)
    ensures CensorIds(prefix + Concat(slashes) + name + tail) == prefix + Concat(slashes) + name + CensorIds(tail)
  {
    hide CensorIds, Ends, AreSlashes, SkippedLen, IsPrefix, Concat;
    SlashesLeadNowhere(slashes, name, tail);
    SlashesPass(slashes, name, tail);
    PrefixPasses(prefix, Concat(slashes) + (name + tail));
    Regroup(prefix, Concat(slashes), name, tail, "", "");
    Regroup(prefix, Concat(slashes), name, CensorIds(tail), "", "");
  }

  /**
    * A dot segment on the way is not skipped then: the last one is censored as if it were the id, and the name stays behind
    * it. So the name stays with all before it exactly when only empty segments are in between.
    */
  lemma DotBeforeReserved(prefix: string, rounds: seq<string>, slash: string, slashes: seq<string>, name: string, tail: string)
    requires IsPrefix(prefix, true) && (forall i :: 0 <= i < |rounds| ==> IsRound(rounds[i])) && IsSlash(slash, true) && AreSlashes(slashes)
    requires IsReservedName(name) && Ends(tail)
    ensures CensorIds(prefix + Concat(rounds) + "." + (slash + Concat(slashes) + name + tail)) ==
            prefix + Concat(rounds) + "[Redacted]" + (slash + Concat(slashes) + name + CensorIds(tail))
  {
    hide CensorIds, Ends, AreSlashes, SkippedLen, IsPrefix, IsRound, IsSlash, IdStart, SegmentLen, Concat, IsReservedName;
    SlashAndMore(slash, slashes, name, tail);
    var rest, skipped := slash + Concat(slashes) + name + tail, Concat(rounds);
    LastDot(rounds, slash, slashes, name, tail);
    IdStartsAt(prefix, skipped, "." + rest);
    CensoredFrom(prefix + skipped, ".", rest);
    assert prefix + skipped + "." + rest == prefix + skipped + ("." + rest);
  }

  lemma SlashAndMore(slash: string, slashes: seq<string>, name: string, tail: string)
    requires IsSlash(slash, true) && AreSlashes(slashes) && IsReservedName(name) && Ends(tail)
    ensures CensorIds(slash + Concat(slashes) + name + tail) == slash + Concat(slashes) + name + CensorIds(tail)
  {
    hide CensorIds, Ends, AreSlashes, IsSlash, SkippedLen, IdStart, Concat, IsReservedName;
    var rest := Concat(slashes) + (name + tail);
    SlashesLeadNowhere(slashes, name, tail);
    NoPrefixAfter(slash, rest);
    SlashPasses(slash, rest);
    SlashesPass(slashes, name, tail);
    Regroup(slash, Concat(slashes), name, tail, "", "");
    Regroup(slash, Concat(slashes), name, CensorIds(tail), "", "");
  }

  lemma {:induction false} LastDot(rounds: seq<string>, slash: string, slashes: seq<string>, name: string, tail: string)
    requires (forall i :: 0 <= i < |rounds| ==> IsRound(rounds[i])) && IsSlash(slash, true) && AreSlashes(slashes)
    requires IsReservedName(name) && Ends(tail)
    ensures var rest := "." + (slash + Concat(slashes) + name + tail);
            SkippedLen(Concat(rounds) + rest) == Some(|Concat(rounds)|) && SegmentLen(rest) == 1
  {
    hide Ends, SlashLen, SkippedLen, SegmentLen, IsRound, IsSlash, AreSlashes;
    var rest := "." + (slash + Concat(slashes) + name + tail);
    DotIsSegment(slash, slashes, name, tail);
    if rounds == [] {
      assert Concat(rounds) + rest == rest;
    } else {
      LastDot(rounds[1..], slash, slashes, name, tail);
      SkipOne(rounds[0], Concat(rounds[1..]) + rest);
      assert Concat(rounds) + rest == rounds[0] + (Concat(rounds[1..]) + rest);
    }
  }

  lemma SkipOne(round: string, rest: string)
    requires IsRound(round) && SkippedLen(rest).Some?
    ensures SkippedLen(round + rest) == Some(|round| + SkippedLen(rest).value)
  {
    hide DotSlashLen, IsRound, Reserved, SegmentLen;
    RoundIsTaken(round, rest);
    assert (round + rest)[|round|..] == rest;
  }

  lemma DotIsSegment(slash: string, slashes: seq<string>, name: string, tail: string)
    requires IsSlash(slash, true) && AreSlashes(slashes) && IsReservedName(name) && Ends(tail)
    ensures var rest := "." + (slash + Concat(slashes) + name + tail); SkippedLen(rest) == Some(0) && SegmentLen(rest) == 1
  {
    hide Ends, AreSlashes, IsSlash, SkippedLen, SegmentLen, IsReservedName;
    SlashesLeadNowhere(slashes, name, tail);
    var behind := Concat(slashes) + (name + tail);
    DotEnds(slash, behind);
    DotIsId(slash, behind);
    assert slash + Concat(slashes) + name + tail == slash + behind;
  }

  lemma DotEnds(slash: string, behind: string)
    requires IsSlash(slash, true)
    ensures SegmentLen("." + (slash + behind)) == 1 && !Reserved("." + (slash + behind))
  {
    hide SlashLen, IsSlash;
    var rest := "." + (slash + behind);
    assert rest[0] == '.' && rest[1..] == slash + behind;
    SlashComplete(slash, behind, true);
    NoSlashAtDot(rest);
    SlashEnds(rest[1..]);
    assert "openapi.json"[0] != '.' && "wallet"[0] != '.';
  }

  lemma DotIsId(slash: string, behind: string)
    requires IsSlash(slash, true) && SkippedLen(behind).None?
    ensures SkippedLen("." + (slash + behind)) == Some(0)
  {
    hide DotSlashLen, IsSlash, Reserved, SegmentLen;
    var rest := "." + (slash + behind);
    DotEnds(slash, behind);
    RoundIsTaken("." + slash, behind);
    assert rest == "." + slash + behind && rest[|"." + slash|..] == behind;
  }

  lemma PrefixPasses(prefix: string, rest: string)
    requires IsPrefix(prefix, true) && SkippedLen(rest).None? && rest != "" && rest[0] in "ow/%"
    ensures CensorIds(prefix + rest) == prefix + CensorIds(rest)
  {
    NoIdAtReserved(prefix, rest);
    hide CensorIds, IdStart, IsSlash, IsVersion, SkippedLen;
    if IsApiPrefix(prefix, true) {
      var a, b, version, c :| IsSlash(a, true) && IsSlash(b, true) && IsSlash(c, true) && IsVersion(version)
                              && prefix == a + "interaction" + b + version + c;
      ApiPasses(a, b, version, c, rest);
    } else {
      var a, b, c :| IsSlash(a, true) && IsSlash(b, true) && IsSlash(c, true) && prefix == a + "ui" + b + "interaction" + c;
      PagePasses(a, b, c, rest);
    }
  }

  lemma ApiPasses(a: string, b: string, version: string, c: string, rest: string)
    requires IsSlash(a, true) && IsSlash(b, true) && IsSlash(c, true) && IsVersion(version)
    requires rest != "" && rest[0] in "ow/%" && IdStart(a + "interaction" + b + version + c + rest).None?
    ensures CensorIds(a + "interaction" + b + version + c + rest) == a + "interaction" + b + version + c + CensorIds(rest)
  {
    hide CensorIds, IdStart, IsSlash, IsVersion;
    NoPrefixAfter(c, rest);
    SlashPasses(c, rest);
    VersionIsWord(version);
    WordPasses(version, c + rest);
    NoPrefixAfter(b, version + (c + rest));
    SlashPasses(b, version + (c + rest));
    WordPasses("interaction", b + (version + (c + rest)));
    Regroup(a, "interaction", b, version, c, rest);
    SlashPasses(a, "interaction" + (b + (version + (c + rest))));
    Regroup(a, "interaction", b, version, c, CensorIds(rest));
  }

  lemma VersionIsWord(version: string)
    requires IsVersion(version)
    ensures version != "" && version[0] == 'v' && forall i :: 0 <= i < |version| ==> version[i] != '/' && version[i] != '%'
  {
    VersionComplete(version, "/");
    hide IsVersion, VersionLen;
    var s := version + "/";
    assert forall i :: 0 <= i < |version| ==> s[i] == version[i] && IsVersionChar(s[i]);
  }

  lemma PagePasses(a: string, b: string, c: string, rest: string)
    requires IsSlash(a, true) && IsSlash(b, true) && IsSlash(c, true)
    requires rest != "" && rest[0] in "ow/%" && IdStart(a + "ui" + b + "interaction" + c + rest).None?
    ensures CensorIds(a + "ui" + b + "interaction" + c + rest) == a + "ui" + b + "interaction" + c + CensorIds(rest)
  {
    hide CensorIds, IdStart, IsSlash;
    NoPrefixAfter(c, rest);
    SlashPasses(c, rest);
    WordPasses("interaction", c + rest);
    NoVersionAfter(b, c, rest);
    SlashPasses(b, "interaction" + (c + rest));
    WordPasses("ui", b + ("interaction" + (c + rest)));
    Regroup(a, "ui", b, "interaction", c, rest);
    SlashPasses(a, "ui" + (b + ("interaction" + (c + rest))));
    Regroup(a, "ui", b, "interaction", c, CensorIds(rest));
  }

  // ---------------------------------------------------------------- what may follow a prefix

  /** The path ends at `?`, `#`, `&`, white space or the end, and its segments lie between slashes. */
  ghost predicate CutsInto(rest: string, path: string, tail: string, segments: seq<string>)
  {
    && rest == path + tail
    && (forall i :: 0 <= i < |path| ==> path[i] !in "?#&" && !IsSpace(path[i]))
    && (tail == "" || tail[0] in "?#&" || IsSpace(tail[0]))
    && segments != [] && path == Join(segments, "/") && forall i :: 0 <= i < |segments| ==> '/' !in segments[i]
  }

  /** The first segment that is neither empty nor a dot is a reserved name. */
  ghost predicate ReservedFirst(segments: seq<string>)
  {
    exists k :: 0 <= k < |segments| && IsReservedName(segments[k]) &&
                forall i :: 0 <= i < k ==> segments[i] == "" || segments[i] == "."
  }

  ghost predicate OnlyNamed(segments: seq<string>)
  {
    forall i :: 0 <= i < |segments| ==> segments[i] in ["", ".", "..", "[Redacted]", "personal", "answer", "cancel"]
  }

  ghost predicate MayFollow(rest: string)
  {
    exists path, tail, segments :: CutsInto(rest, path, tail, segments) && (OnlyNamed(segments) || ReservedFirst(segments))
  }

  lemma {:induction false} FirstRealMeans(segments: seq<string>)
    ensures FirstReal(segments) == Some("openapi.json") || FirstReal(segments) == Some("wallet") <==> ReservedFirst(segments)
  {
    hide ReservedFirst;
    ReservedFirstStep(segments);
    if segments != [] { FirstRealMeans(segments[1..]); }
  }

  lemma ReservedFirstStep(segments: seq<string>)
    ensures ReservedFirst(segments) <==>
            && segments != []
            && (IsReservedName(segments[0]) || ((segments[0] == "" || segments[0] == ".") && ReservedFirst(segments[1..])))
  {
    if segments != [] {
      var rest := segments[1..];
      if k :| 0 <= k < |rest| && IsReservedName(rest[k]) && forall i :: 0 <= i < k ==> rest[i] == "" || rest[i] == "." {
        assert segments[k + 1] == rest[k];
        assert forall i :: 0 < i < k + 1 ==> segments[i] == rest[i - 1];
      }
      if k :| 0 < k < |segments| && IsReservedName(segments[k]) && forall i :: 0 <= i < k ==> segments[i] == "" || segments[i] == "." {
        assert rest[k - 1] == segments[k];
        assert forall i :: 0 <= i < k - 1 ==> rest[i] == segments[i + 1];
      }
    }
  }

  lemma NamedSegmentsAre(segments: seq<string>)
    ensures (forall i :: 0 <= i < |segments| ==> segments[i] in NAMED_SEGMENTS) <==> OnlyNamed(segments)
  {
  }

  /** There is one way to cut, and it is that of the check. */
  lemma CutIsUnique(rest: string, path: string, tail: string, segments: seq<string>)
    ensures CutsInto(rest, path, tail, segments) <==>
            path == rest[..PathLen(rest)] && tail == rest[PathLen(rest)..] && segments == Split(path, "/")
  {
    hide PathLen, IsSpace, Split;
    var n := PathLen(rest);
    if path == rest[..n] && tail == rest[n..] && segments == Split(path, "/") {
      JoinOfSplit(path, "/");
      PartsLackSeparator(path, '/');
    }
    if CutsInto(rest, path, tail, segments) {
      SplitOfJoin(segments, "/");
      assert forall i :: 0 <= i < |path| ==> rest[i] == path[i];
      assert tail != "" ==> rest[|path|] == tail[0];
      assert n == |path|;
    }
  }

  lemma NamedOnlyMeans(rest: string)
    ensures NamedOnly(rest) <==> MayFollow(rest)
  {
    hide PathLen, Split, CutsInto, OnlyNamed, ReservedFirst, FirstReal, NAMED_SEGMENTS;
    var path, tail := rest[..PathLen(rest)], rest[PathLen(rest)..];
    var segments := Split(path, "/");
    CutIsUnique(rest, path, tail, segments);
    FirstRealMeans(segments);
    NamedSegmentsAre(segments);
    if p, t, parts :| CutsInto(rest, p, t, parts) && (OnlyNamed(parts) || ReservedFirst(parts)) {
      CutIsUnique(rest, p, t, parts);
    }
  }

  /** The check looks, at every place, for a prefix that something else follows. */
  lemma UnnamedMeans(decoded: string, i: nat)
    requires i <= |decoded|
    ensures UnnamedAt(decoded, i) <==>
            exists prefix, rest :: decoded[i..] == prefix + rest && IsPrefix(prefix, false) && !MayFollow(rest)
  {
    hide PrefixLen, NamedOnly, IsPrefix, MayFollow;
    var s := decoded[i..];
    var n := PrefixLen(s, false);
    if n > 0 {
      PrefixSound(s, false);
      NamedOnlyMeans(s[n..]);
      assert s == s[..n] + s[n..] && decoded[i + n..] == s[n..];
    }
    if prefix, rest :| s == prefix + rest && IsPrefix(prefix, false) && !MayFollow(rest) {
      PrefixComplete(prefix, rest, false);
      NamedOnlyMeans(rest);
      assert decoded[i + n..] == s[n..] == rest;
    }
  }

  // ---------------------------------------------------------------- the logged URL

  /** The first passes undo as many layers of encoding, and no more. */
  lemma {:induction false} PassesUndoLayers(s: string, layers: seq<char -> bool>, passes: nat)
    requires (forall i :: 0 <= i < |s| ==> s[i] as int < 256) && passes <= |layers|
    ensures Decoded(EncodedWith(s, layers), passes) == EncodedWith(s, layers[passes..])
    decreases passes
  {
    hide Encode, DecodeOnce;
    if passes > 0 {
      DecodeUndoesEncode(EncodedWith(s, layers[1..]), layers[0]);
      PassesUndoLayers(s, layers[1..], passes - 1);
      assert layers[1..][passes - 1..] == layers[passes..];
    } else {
      assert layers[0..] == layers;
    }
  }

  /** The check decodes four layers of the URL. */
  lemma FourLayersAreUndone(s: string, layers: seq<char -> bool>)
    requires (forall i :: 0 <= i < |s| ==> s[i] as int < 256) && |layers| >= 4
    ensures Decoded(EncodedWith(s, layers), CHECK_DECODE_PASSES) == EncodedWith(s, layers[4..])
  {
    hide EncodedWith, Decoded;
    PassesUndoLayers(s, layers, 4);
  }

  /**
    * Whatever URL comes in: when the logged one is, under at most four layers of percent-encoding, a text with an
    * interaction prefix in it, then what follows the prefix may be shown.
    */
  lemma LoggedShowsNoId(names: seq<string>, url: string, before: string, prefix: string, rest: string, layers: seq<char -> bool>)
    requires AreNames(names) && IsPrefix(prefix, false) && |layers| <= 4
    requires var text := before + prefix + rest;
             '%' !in text && (forall i :: 0 <= i < |text| ==> text[i] as int < 256) && Logged(names, url) == EncodedWith(text, layers)
    ensures MayFollow(rest)
  {
    hide AreNames, IsPrefix, MayFollow, Logged, EncodedWith, Decoded, UnnamedAt;
    var text := before + prefix + rest;
    LayersAreUndone(text, layers, 4);
    LoggedPathsAreNamed(names, url, |before|);
    UnnamedMeans(text, |before|);
    assert text[|before|..] == prefix + rest;
  }

  /** Whatever URL comes in: the value of a listed parameter, however its name is spelled, is the censor. */
  lemma LoggedParameterIsCensored(names: seq<string>, url: string, before: string, separator: char, spelling: string, value: string, after: string)
    requires AreNames(names) && (separator == '?' || separator == '&') && DecodeOnce(spelling) in names
    requires '&' !in value && (after == "" || after[0] == '&')
    requires Logged(names, url) == before + [separator] + spelling + "=" + value + after
    ensures value == "[Redacted]"
  {
    hide AreNames, Logged, DecodeOnce;
    var logged := Logged(names, url);
    var i, j := |before|, |before| + 1 + |spelling|;
    var parameter := [separator] + spelling + "=" + value + after;
    assert logged[i..] == parameter && parameter[1..j - i] == spelling;
    assert logged[i..][j - i] == '=' && logged[i..][0] == separator;
    assert ParameterAt(names, logged[i..], j - i);
    LoggedParametersAreCensored(names, url, i, j);
    var s := logged[j + 1..];
    assert s == value + after;
    ValueIs(value, after);
    assert s[..|value|] == value;
  }

  lemma ValueIs(value: string, after: string)
    requires '&' !in value && (after == "" || after[0] == '&')
    ensures ValueLen(value + after) == |value|
  {
    var s := value + after;
    var n := ValueLen(s);
    assert forall i :: 0 <= i < n ==> s[..n][i] == s[i];
    assert forall i :: 0 <= i < |value| ==> s[i] == value[i];
    assert after != "" ==> s[|value|] == '&';
  }

  ghost predicate IsLetterOrMark(c: char)
  {
    c in "ABCDEFGHIJKLMNOPQRSTUVWXYZ" || c in "abcdefghijklmnopqrstuvwxyz" || c in "0123456789" || c in "-._~"
  }

  /** The names that can be listed: letters, digits and `-._~`. */
  lemma NamesAre(name: string)
    ensures TolerantPattern(name).Some? <==> name != "" && forall i :: 0 <= i < |name| ==> IsLetterOrMark(name[i])
  {
    hide IsUnreserved, IsLetterOrMark;
    forall i | 0 <= i < |name| ensures IsUnreserved(name[i]) <==> IsLetterOrMark(name[i]) { UnreservedAre(name[i]); }
    hide PatternOf;
  }

  lemma UnreservedAre(c: char)
    ensures IsUnreserved(c) <==> IsLetterOrMark(c)
  {
    InRange("ABCDEFGHIJKLMNOPQRSTUVWXYZ", 'A', c);
    InRange("abcdefghijklmnopqrstuvwxyz", 'a', c);
    InRange("0123456789", '0', c);
  }

  lemma InRange(chars: string, first: char, c: char)
    requires forall i :: 0 <= i < |chars| ==> chars[i] as int == first as int + i
    ensures c in chars <==> first as int <= c as int < first as int + |chars|
  {
    if first as int <= c as int < first as int + |chars| { assert chars[c as int - first as int] == c; }
  }
}
