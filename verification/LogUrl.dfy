/**
  * How a request URL is censored before it is logged: percent-decoding, query parameter names matched in every
  * percent-encoded spelling, the interaction id in a path, and a last check on the decoded URL. The regular
  * expressions are written out as scanners from the head of a text; a scanner that returns a length returns 0
  * when its pattern does not match there.
  */
module LogUrl {
  import opened Text

  const CENSOR: string := "[Redacted]"

  /** How many times the check decodes a URL at most. */
  const CHECK_DECODE_PASSES: nat := 4

  // ---------------------------------------------------------------- percent-decoding

  predicate IsHex(c: char) { '0' <= c <= '9' || 'A' <= c <= 'F' || 'a' <= c <= 'f' }

  function HexValue(c: char): (n: nat)
    requires IsHex(c)
    ensures n < 16
  {
    if c <= '9' then c as int - '0' as int
    else if c <= 'F' then c as int - 'A' as int + 10
    else c as int - 'a' as int + 10
  }

  /** The text starts with a `%XX` escape, in either hex case. */
  predicate Escaped(s: string) { |s| >= 3 && s[0] == '%' && IsHex(s[1]) && IsHex(s[2]) }

  function EscapedChar(s: string): (c: char)
    requires Escaped(s)
  {
    (16 * HexValue(s[1]) + HexValue(s[2])) as char
  }

  /** One pass: every escape decoded on its own, as one byte; what is not an escape stays. */
  function DecodeOnce(s: string): (r: string)
    ensures s != "" ==> r != ""
    decreases |s|
  {
    if s == "" then ""
    else if Escaped(s) then [EscapedChar(s)] + DecodeOnce(s[3..])
    else [s[0]] + DecodeOnce(s[1..])
  }

  function Decoded(s: string, passes: nat): (r: string)
    decreases passes
  {
    if passes == 0 then s else Decoded(DecodeOnce(s), passes - 1)
  }

  // ---------------------------------------------------------------- tolerant names

  predicate IsUnreserved(c: char)
  {
    'A' <= c <= 'Z' || 'a' <= c <= 'z' || '0' <= c <= '9' || c == '-' || c == '.' || c == '_' || c == '~'
  }

  predicate Unreserved(name: string) { forall i :: 0 <= i < |name| ==> IsUnreserved(name[i]) }

  predicate IsName(name: string) { name != "" && Unreserved(name) }

  predicate AreNames(names: seq<string>) { forall i :: 0 <= i < |names| ==> IsName(names[i]) }

  /** One character of a name: itself, or `%` and one digit of each class. */
  datatype CharPattern = CharPattern(literal: char, high: set<char>, low: set<char>)

  function HexDigit(n: nat): (c: char)
    requires n < 16
    ensures IsHex(c) && HexValue(c) == n
  {
    if n < 10 then '0' + n as char else 'A' + (n - 10) as char
  }

  /** A letter digit in either case, any other digit itself. */
  function DigitClass(digit: char): (r: set<char>)
  {
    if 'A' <= digit <= 'F' then {digit, 'a' + (digit - 'A')} else {digit}
  }

  function CharPatternOf(c: char): (p: CharPattern)
    requires IsUnreserved(c)
  {
    var code := c as int;
    CharPattern(c, DigitClass(HexDigit(code / 16)), DigitClass(HexDigit(code % 16)))
  }

  function PatternOf(name: string): (p: seq<CharPattern>)
    requires Unreserved(name)
    ensures |p| == |name|
  {
    if name == "" then [] else [CharPatternOf(name[0])] + PatternOf(name[1..])
  }

  /** The pattern of a name, or None (a TypeError) when it is empty or not spelled in unreserved characters. */
  function TolerantPattern(name: string): (r: Option<seq<CharPattern>>)
  {
    if IsName(name) then Some(PatternOf(name)) else None
  }

  /** What follows the pattern at the head of `s`, None when it does not match. */
  function AfterPattern(p: seq<CharPattern>, s: string): (rest: Option<string>)
    ensures rest.Some? ==> |rest.value| <= |s| && rest.value == s[|s| - |rest.value|..]
    decreases |p|
  {
    if p == [] then Some(s)
    else if s != "" && s[0] == p[0].literal then AfterPattern(p[1..], s[1..])
    else if |s| >= 3 && s[0] == '%' && s[1] in p[0].high && s[2] in p[0].low then AfterPattern(p[1..], s[3..])
    else None
  }

  /** The length of the first of the names, in any spelling, that a `=` follows; the `=` is counted. */
  function NameLen(names: seq<string>, s: string): (n: nat)
    requires AreNames(names)
    ensures n <= |s|
  {
    if names == [] then 0
    else
      var rest := AfterPattern(PatternOf(names[0]), s);
      if rest.Some? && rest.value != "" && rest.value[0] == '=' then |s| - |rest.value| + 1
      else NameLen(names[1..], s)
  }

  /** `[?&]`, a listed name and `=`. */
  function HeadLen(names: seq<string>, s: string): (n: nat)
    requires AreNames(names)
    ensures n <= |s|
  {
    if s == "" || (s[0] != '?' && s[0] != '&') then 0
    else
      var n := NameLen(names, s[1..]);
      if n == 0 then 0 else n + 1
  }

  /** `[^&]*` */
  function ValueLen(s: string): (n: nat)
    ensures n <= |s| && '&' !in s[..n] && (n < |s| ==> s[n] == '&')
  {
    var k := IndexOfChar(s, '&');
    if k == -1 then
      assert s[..|s|] == s;
      |s|
    else k
  }

  /** The query-value rewrite: the value of every listed parameter becomes the censor. */
  function CensorValues(names: seq<string>, s: string): (r: string)
    requires AreNames(names)
    decreases |s|
  {
    if s == "" then ""
    else
      var h := HeadLen(names, s);
      if h == 0 then [s[0]] + CensorValues(names, s[1..])
      else s[..h] + CENSOR + CensorValues(names, s[h + ValueLen(s[h..])..])
  }

  // ---------------------------------------------------------------- interaction paths

  /** A `/`, or when `encoded` is set also `%2F` in either case. */
  function SlashLen(s: string, encoded: bool): (n: nat)
    ensures n <= |s| && (n == 0 || n == 1 || n == 3)
  {
    if s != "" && s[0] == '/' then 1
    else if encoded && |s| >= 3 && s[0] == '%' && s[1] == '2' && (s[2] == 'F' || s[2] == 'f') then 3
    else 0
  }

  predicate IsDigit(c: char) { '0' <= c <= '9' }

  function DigitsLen(s: string): (n: nat)
    ensures n <= |s| && forall i :: 0 <= i < n ==> IsDigit(s[i])
    ensures n < |s| ==> !IsDigit(s[n])
  {
    if s == "" || !IsDigit(s[0]) then 0 else 1 + DigitsLen(s[1..])
  }

  predicate IsVersionChar(c: char) { IsDigit(c) || c == 'v' || c == '-' || c == 'r' || c == 'c' || c == '.' }

  /** `0|[1-9][0-9]*`, as far as it goes. */
  function NumberLen(s: string): (n: nat)
    ensures n <= |s| && forall i :: 0 <= i < n ==> IsDigit(s[i])
  {
    if s == "" || !IsDigit(s[0]) then 0
    else if s[0] == '0' then 1
    else 1 + DigitsLen(s[1..])
  }

  /** `-rc\.(?:0|[1-9][0-9]*)` */
  function CandidateLen(s: string): (n: nat)
    ensures n <= |s| && forall i :: 0 <= i < n ==> IsVersionChar(s[i])
  {
    if "-rc." <= s && NumberLen(s[4..]) > 0 then
      assert forall i :: 0 <= i < 4 ==> s[i] == "-rc."[i];
      assert forall i :: 4 <= i < |s| ==> s[i] == s[4..][i - 4];
      4 + NumberLen(s[4..])
    else 0
  }

  /** `v[1-9][0-9]*(?:-rc\.(?:0|[1-9][0-9]*))?`: no shorter match can be followed by a slash. */
  function VersionLen(s: string): (n: nat)
    ensures n <= |s| && forall i :: 0 <= i < n ==> IsVersionChar(s[i])
    ensures n > 0 ==> s[0] == 'v'
  {
    if !(|s| >= 2 && s[0] == 'v' && '1' <= s[1] <= '9') then 0
    else
      var n := 2 + DigitsLen(s[2..]);
      assert forall i :: 2 <= i < n ==> s[i] == s[2..][i - 2];
      assert forall i :: n <= i < |s| ==> s[i] == s[n..][i - n];
      n + CandidateLen(s[n..])
  }

  /** `interaction/<version>/` after the leading slash. */
  function ApiPrefixLen(s: string, encoded: bool): (n: nat)
    ensures n <= |s|
  {
    if !("interaction" <= s) then 0
    else
      var b := SlashLen(s[11..], encoded);
      if b == 0 then 0
      else
        var v := VersionLen(s[11 + b..]);
        if v == 0 then 0
        else
          var c := SlashLen(s[11 + b + v..], encoded);
          if c == 0 then 0 else 11 + b + v + c
  }

  /** `ui/interaction/` after the leading slash. */
  function PagePrefixLen(s: string, encoded: bool): (n: nat)
    ensures n <= |s|
  {
    if !("ui" <= s) then 0
    else
      var b := SlashLen(s[2..], encoded);
      if b == 0 || !("interaction" <= s[2 + b..]) then 0
      else
        var c := SlashLen(s[13 + b..], encoded);
        if c == 0 then 0 else 13 + b + c
  }

  /** The Interaction API or ceremony page prefix, from its leading to its trailing slash. */
  function PrefixLen(s: string, encoded: bool): (n: nat)
    ensures n <= |s|
  {
    var a := SlashLen(s, encoded);
    if a == 0 then 0
    else
      var api := ApiPrefixLen(s[a..], encoded);
      var n := if api > 0 then api else PagePrefixLen(s[a..], encoded);
      if n == 0 then 0 else a + n
  }

  /** `\.?` and a slash. */
  function DotSlashLen(s: string): (n: nat)
    ensures n <= |s|
  {
    if SlashLen(s, true) > 0 then SlashLen(s, true)
    else if s != "" && s[0] == '.' && SlashLen(s[1..], true) > 0 then 1 + SlashLen(s[1..], true)
    else 0
  }

  /** The document path or the wallet prefix, ended by a slash, `?`, `#`, `&` or the end. */
  predicate Reserved(s: string)
  {
    ("openapi.json" <= s && Ended(s[12..])) || ("wallet" <= s && Ended(s[6..]))
  }

  predicate Ended(s: string)
  {
    s == "" || SlashLen(s, true) > 0 || s[0] == '?' || s[0] == '#' || s[0] == '&'
  }

  /** `(?:(?!%2[Ff])[^/?#&])*` */
  function SegmentLen(s: string): (n: nat)
    ensures n <= |s|
  {
    if Ended(s) then 0 else 1 + SegmentLen(s[1..])
  }

  /**
    * How much of `(?:\.?/)*` the match takes before an id that is not reserved: greedy, giving back one round at a
    * time; None when no choice leaves an id.
    */
  function SkippedLen(s: string): (r: Option<nat>)
    ensures r.Some? ==> r.value <= |s|
    decreases |s|
  {
    var round := DotSlashLen(s);
    var more := if round > 0 then SkippedLen(s[round..]) else None;
    if more.Some? then Some(round + more.value)
    else if !Reserved(s) && SegmentLen(s) > 0 then Some(0)
    else None
  }

  /** The length of what precedes the interaction id when one starts a match here. */
  function IdStart(s: string): (r: Option<nat>)
    ensures r.Some? ==> 0 < r.value <= |s|
  {
    var p := PrefixLen(s, true);
    if p == 0 then None
    else
      match SkippedLen(s[p..])
      case None => None
      case Some(n) => Some(p + n)
  }

  /** The interaction-id rewrite. */
  function CensorIds(s: string): (r: string)
    decreases |s|
  {
    if s == "" then ""
    else
      match IdStart(s)
      case None => [s[0]] + CensorIds(s[1..])
      case Some(k) => s[..k] + CENSOR + CensorIds(s[k + SegmentLen(s[k..])..])
  }

  // ---------------------------------------------------------------- the last check

  const NAMED_SEGMENTS: set<string> := {"", ".", "..", CENSOR, "personal", "answer", "cancel"}

  /** Up to the first `?`, `#`, `&` or white space. */
  function PathLen(s: string): (n: nat)
    ensures n <= |s|
    ensures forall i :: 0 <= i < n ==> s[i] != '?' && s[i] != '#' && s[i] != '&' && !IsSpace(s[i])
    ensures n < |s| ==> s[n] == '?' || s[n] == '#' || s[n] == '&' || IsSpace(s[n])
  {
    if s == "" || s[0] == '?' || s[0] == '#' || s[0] == '&' || IsSpace(s[0]) then 0 else 1 + PathLen(s[1..])
  }

  /** The first segment that is neither empty nor a dot. */
  function FirstReal(segments: seq<string>): (r: Option<string>)
    ensures r.None? <==> forall i :: 0 <= i < |segments| ==> segments[i] == "" || segments[i] == "."
    ensures r.Some? ==> r.value in segments && r.value != "" && r.value != "."
  {
    if segments == [] then None
    else if segments[0] != "" && segments[0] != "." then Some(segments[0])
    else FirstReal(segments[1..])
  }

  /** What may follow an interaction prefix: named segments only, or the document path or the wallet prefix. */
  predicate NamedOnly(rest: string)
  {
    var segments := Split(rest[..PathLen(rest)], "/");
    var first := FirstReal(segments);
    first == Some("openapi.json") || first == Some("wallet") ||
    forall i :: 0 <= i < |segments| ==> segments[i] in NAMED_SEGMENTS
  }

  /** An interaction prefix starts at `i` and something else than named segments follows it. */
  ghost predicate UnnamedAt(decoded: string, i: nat)
    requires i <= |decoded|
  {
    var p := PrefixLen(decoded[i..], false);
    p > 0 && !NamedOnly(decoded[i + p..])
  }

  /** Some occurrence of an interaction prefix, wherever it starts, is followed by a segment it may not show. */
  ghost predicate AnyUnnamedIn(decoded: string) { exists i :: 0 <= i <= |decoded| && UnnamedAt(decoded, i) }

  /** Decodes until nothing changes, at most four times: the same as always decoding four times. */
  method PercentDecodedForCheck(url: string) returns (decoded: string)
    ensures decoded == Decoded(url, CHECK_DECODE_PASSES)
  {
    decoded := url;
    var pass := 0;
    while pass < CHECK_DECODE_PASSES
      invariant 0 <= pass <= CHECK_DECODE_PASSES
      invariant Decoded(url, CHECK_DECODE_PASSES) == Decoded(decoded, CHECK_DECODE_PASSES - pass)
    {
      var next := DecodeOnce(decoded);
      if next == decoded {
        FixedPoint(decoded, CHECK_DECODE_PASSES - pass);
        break;
      }
      decoded := next;
      pass := pass + 1;
    }
  }

  lemma {:induction false} FixedPoint(s: string, passes: nat)
    requires DecodeOnce(s) == s
    ensures Decoded(s, passes) == s
  {
    if passes > 0 { FixedPoint(s, passes - 1); }
  }

  /** The last check, on the decoded URL. */
  method KeepsAnInteractionSegment(url: string) returns (keeps: bool)
    ensures keeps <==> AnyUnnamedIn(Decoded(url, CHECK_DECODE_PASSES))
  {
    var decoded := PercentDecodedForCheck(url);
    keeps := AnyUnnamed(decoded);
  }

  method AnyUnnamed(decoded: string) returns (found: bool)
    ensures found <==> AnyUnnamedIn(decoded)
  {
    hide PrefixLen, NamedOnly;
    var at := 0;
    while at < |decoded|
      invariant 0 <= at <= |decoded|
      invariant forall i :: 0 <= i < at ==> !UnnamedAt(decoded, i)
    {
      var p := PrefixLen(decoded[at..], false);
      if p == 0 {
        at := at + 1;
      } else if !NamedOnly(decoded[at + p..]) {
        assert UnnamedAt(decoded, at);
        return true;
      } else {
        NoOverlap(decoded, at);
        at := at + p;
      }
    }
    found := false;
  }

  /** The URL as it is logged: the two rewrites, or the censor alone when the check still finds a segment. */
  ghost function Logged(names: seq<string>, url: string): (r: string)
    requires AreNames(names)
  {
    var redacted := CensorIds(CensorValues(names, url));
    if AnyUnnamedIn(Decoded(redacted, CHECK_DECODE_PASSES)) then CENSOR else redacted
  }

  method RedactLoggedUrl(names: seq<string>, url: string) returns (logged: string)
    requires AreNames(names)
    ensures logged == Logged(names, url)
  {
    hide AnyUnnamedIn, DecodeOnce, IdStart, HeadLen;
    var redacted := CensorIds(CensorValues(names, url));
    var keeps := KeepsAnInteractionSegment(redacted);
    logged := if keeps then CENSOR else redacted;
  }

  // ---------------------------------------------------------------- why skipping overlaps is safe

  /** A first segment that starts with `v`, `i` or `u` is not a named one. */
  lemma UnnamedFirst(word: string, tail: string)
    requires word != "" && (word[0] == 'v' || word[0] == 'i' || word[0] == 'u')
    requires forall i :: 0 <= i < |word| ==> word[i] != '/' && word[i] != '?' && word[i] != '#' && word[i] != '&' && !IsSpace(word[i])
    ensures !NamedOnly(word + "/" + tail)
  {
    var rest := word + "/" + tail;
    var n := PathLen(rest);
    assert forall i :: 0 <= i < |word| ==> rest[i] == word[i];
    assert rest[|word|] == '/';
    assert n > |word|;
    var path := rest[..n];
    assert path == word + "/" + path[|word| + 1..];
    FirstSeparator(word, "/", path[|word| + 1..]);
    assert path[..|word|] == word;
    var segments := Split(path, "/");
    assert segments[0] == word;
    assert FirstReal(segments) == Some(word);
    assert word !in NAMED_SEGMENTS;
  }

  lemma UnnamedAfter(s: string, n: nat)
    requires 0 < n < |s| && s[n] == '/' && (s[0] == 'v' || s[0] == 'i' || s[0] == 'u')
    requires forall i :: 0 <= i < n ==> s[i] != '/' && s[i] != '?' && s[i] != '#' && s[i] != '&' && !IsSpace(s[i])
    ensures !NamedOnly(s)
  {
    UnnamedFirst(s[..n], s[n + 1..]);
    assert s == s[..n] + "/" + s[n + 1..];
  }

  /** Text that starts like a prefix without its leading slash is not named segments only. */
  lemma PrefixWordIsUnnamed(s: string)
    requires "interaction/" <= s || "ui/" <= s
    ensures !NamedOnly(s)
  {
    if "interaction/" <= s {
      assert forall i :: 0 <= i < 12 ==> s[i] == "interaction/"[i];
      UnnamedAfter(s, 11);
    } else {
      assert forall i :: 0 <= i < 3 ==> s[i] == "ui/"[i];
      UnnamedAfter(s, 2);
    }
  }

  /** What a prefix in a decoded URL looks like, its last slash at `end`. */
  ghost predicate ApiShape(s: string, end: nat)
  {
    && 13 < end < |s| && s[0] == '/' && s[12] == '/' && s[13] == 'v' && s[end] == '/'
    && (forall i :: 0 < i < 12 ==> s[i] != '/')
    && (forall i :: 12 < i < end ==> IsVersionChar(s[i]))
  }

  ghost predicate PageShape(s: string)
  {
    && 15 < |s| && s[0] == '/' && s[3] == '/' && s[15] == '/'
    && (forall i :: 0 < i < 15 && i != 3 ==> s[i] != '/')
    && s[4] == 'i'
  }

  lemma ApiPrefixShape(s: string)
    requires "/" <= s && ApiPrefixLen(s[1..], false) > 0
    ensures ApiShape(s, ApiPrefixLen(s[1..], false)) && "interaction/" <= s[1..]
  {
    hide VersionLen;
    var u := s[1..];
    var v := VersionLen(u[12..]);
    assert forall i :: 0 <= i < 11 ==> s[1 + i] == "interaction"[i];
    assert s[12] == u[11..][0];
    assert s[13 + v] == u[12 + v..][0];
    assert forall i :: 0 <= i < v ==> s[13 + i] == u[12..][i];
    assert u[..12] == "interaction/";
  }

  lemma PagePrefixShape(s: string)
    requires "/" <= s && PagePrefixLen(s[1..], false) > 0
    ensures PageShape(s) && PagePrefixLen(s[1..], false) == 15 && "ui/" <= s[1..]
  {
    var u := s[1..];
    assert s[1] == 'u' && s[2] == 'i';
    assert s[3] == u[2..][0];
    assert forall i :: 0 <= i < 11 ==> s[4 + i] == u[3..][i] == "interaction"[i];
    assert s[15] == u[14..][0];
    assert u[..3] == "ui/";
  }

  lemma PrefixStarts(s: string)
    requires PrefixLen(s, false) > 0
    ensures s[0] == '/' && ("interaction/" <= s[1..] || "ui/" <= s[1..])
    ensures s[1] == 'i' || s[1] == 'u'
    ensures s[1] == 'i' ==> ApiPrefixLen(s[1..], false) > 0
  {
    if ApiPrefixLen(s[1..], false) > 0 {
      ApiPrefixShape(s);
    } else {
      PagePrefixShape(s);
    }
  }

  /** Another prefix inside the Interaction API prefix starts at its last slash. */
  lemma OverlapInApiPrefix(s: string, end: nat, j: nat)
    requires ApiShape(s, end) && 0 < j <= end && PrefixLen(s[j..], false) > 0
    ensures !NamedOnly(s[end + 1..])
  {
    hide PrefixLen, NamedOnly, ApiPrefixLen;
    PrefixStarts(s[j..]);
    assert s[j] == '/' && s[j + 1] == s[j..][1];
    assert s[j..][1..] == s[j + 1..];
    assert j == end;
    PrefixWordIsUnnamed(s[j + 1..]);
  }

  /** Another prefix inside the page prefix starts at its last slash, or a version follows the page prefix. */
  lemma OverlapInPagePrefix(s: string, j: nat)
    requires PageShape(s) && 0 < j <= 15 && PrefixLen(s[j..], false) > 0
    ensures !NamedOnly(s[16..])
  {
    PrefixStarts(s[j..]);
    assert s[j] == '/' && s[j + 1] == s[j..][1];
    assert s[j..][1..] == s[j + 1..];
    if j == 3 {
      VersionAfterPage(s);
    } else {
      assert j == 15;
      PrefixWordIsUnnamed(s[16..]);
    }
  }

  lemma VersionAfterPage(s: string)
    requires PageShape(s) && ApiPrefixLen(s[3..][1..], false) > 0
    ensures !NamedOnly(s[16..])
  {
    hide ApiPrefixLen, NamedOnly;
    var w := s[3..];
    ApiPrefixShape(w);
    var end := ApiPrefixLen(w[1..], false);
    assert forall i :: 12 < i <= end ==> s[3 + i] == w[i];
    UnnamedAfter(s[16..], end - 13);
  }

  /**
    * When only named segments follow a prefix, no other prefix overlaps it, so the occurrences a left-to-right
    * search skips hide nothing.
    */
  lemma NoOverlap(decoded: string, at: nat)
    requires at < |decoded| && PrefixLen(decoded[at..], false) > 0
    requires NamedOnly(decoded[at + PrefixLen(decoded[at..], false)..])
    ensures forall j :: at <= j < at + PrefixLen(decoded[at..], false) ==> !UnnamedAt(decoded, j)
  {
    hide PrefixLen, NamedOnly;
    var s := decoded[at..];
    var p := PrefixLen(s, false);
    assert decoded[at + p..] == s[p..];
    forall j | at < j < at + p ensures !UnnamedAt(decoded, j) {
      assert s[j - at..] == decoded[j..];
      if PrefixLen(decoded[j..], false) > 0 {
        OverlapUnnamed(s, j - at);
      }
    }
  }

  lemma OverlapUnnamed(s: string, j: nat)
    requires PrefixLen(s, false) > 0 && 0 < j < PrefixLen(s, false) && PrefixLen(s[j..], false) > 0
    ensures !NamedOnly(s[PrefixLen(s, false)..])
  {
    hide NamedOnly, ApiPrefixLen, PagePrefixLen;
    if ApiPrefixLen(s[1..], false) > 0 {
      ApiPrefixShape(s);
      OverlapInApiPrefix(s, ApiPrefixLen(s[1..], false), j);
    } else {
      PagePrefixShape(s);
      OverlapInPagePrefix(s, j);
    }
  }
}
