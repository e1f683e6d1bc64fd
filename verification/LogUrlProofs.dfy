/**
  * What the URL censor promises for every URL: a listed parameter is censored in every spelling its name has, the
  * rewrite touches nothing else and does it once, and no interaction path of the logged URL, read back through up
  * to four layers of percent-encoding, shows a segment it may not show.
  */
module LogUrlProofs {
  import opened Text
  import opened LogUrl

  // ---------------------------------------------------------------- decoding

  lemma {:induction false} NoEscapeNoChange(s: string)
    requires '%' !in s
    ensures DecodeOnce(s) == s
  {
    if s != "" {
      assert s[0] in s;
      NoEscapeNoChange(s[1..]);
    }
  }

  /** A percent-encoder: `%` always, and any other character it chooses. */
  function Encode(s: string, chosen: char -> bool): (r: string)
    requires forall i :: 0 <= i < |s| ==> s[i] as int < 256
  {
    if s == "" then ""
    else if s[0] == '%' || chosen(s[0]) then EncodeChar(s[0]) + Encode(s[1..], chosen)
    else [s[0]] + Encode(s[1..], chosen)
  }

  function EncodeChar(c: char): (r: string)
    requires c as int < 256
    ensures Escaped(r) && |r| == 3 && EscapedChar(r) == c
  {
    ['%', HexDigit(c as int / 16), HexDigit(c as int % 16)]
  }

  /** One pass undoes one layer of encoding, whatever the encoder chose to encode. */
  lemma {:induction false} DecodeUndoesEncode(s: string, chosen: char -> bool)
    requires forall i :: 0 <= i < |s| ==> s[i] as int < 256
    ensures DecodeOnce(Encode(s, chosen)) == s
    ensures forall i :: 0 <= i < |Encode(s, chosen)| ==> Encode(s, chosen)[i] as int < 256
  {
    if s != "" {
      DecodeUndoesEncode(s[1..], chosen);
      var rest := Encode(s[1..], chosen);
      if s[0] == '%' || chosen(s[0]) {
        var e := EncodeChar(s[0]);
        assert (e + rest)[3..] == rest;
        assert Escaped(e + rest) && EscapedChar(e + rest) == s[0];
      } else {
        assert ([s[0]] + rest)[1..] == rest;
      }
    }
  }

  /** `layers` of encoding, each with its own choice. */
  ghost function EncodedWith(s: string, layers: seq<char -> bool>): (r: string)
    requires forall i :: 0 <= i < |s| ==> s[i] as int < 256
    ensures forall i :: 0 <= i < |r| ==> r[i] as int < 256
    decreases |layers|
  {
    if layers == [] then s
    else
      DecodeUndoesEncode(EncodedWith(s, layers[1..]), layers[0]);
      Encode(EncodedWith(s, layers[1..]), layers[0])
  }

  /** Up to four layers of encoding over text with no `%` are undone. */
  lemma {:induction false} LayersAreUndone(s: string, layers: seq<char -> bool>, passes: nat)
    requires forall i :: 0 <= i < |s| ==> s[i] as int < 256
    requires '%' !in s && |layers| <= passes
    ensures Decoded(EncodedWith(s, layers), passes) == s
    decreases |layers|
  {
    hide Encode, DecodeOnce;
    if layers == [] {
      NoEscapeNoChange(s);
      FixedPoint(s, passes);
    } else {
      DecodeUndoesEncode(EncodedWith(s, layers[1..]), layers[0]);
      LayersAreUndone(s, layers[1..], passes - 1);
    }
  }

  // ---------------------------------------------------------------- tolerant names

  lemma DigitClassIsValue(n: nat, c: char)
    requires n < 16
    ensures c in DigitClass(HexDigit(n)) <==> IsHex(c) && HexValue(c) == n
  {
  }

  lemma EscapeMatchesChar(c: char, s: string)
    requires IsUnreserved(c) && |s| >= 3 && s[0] == '%'
    ensures s[1] in CharPatternOf(c).high && s[2] in CharPatternOf(c).low <==> Escaped(s) && EscapedChar(s) == c
  {
    var code := c as int;
    DigitClassIsValue(code / 16, s[1]);
    DigitClassIsValue(code % 16, s[2]);
  }

  lemma UnreservedIsLiteral(c: char)
    requires IsUnreserved(c)
    ensures CharPatternOf(c).literal == c && c != '%' && c != '=' && c != '?' && c != '&' && c != '/'
  {
  }

  lemma PatternHead(name: string)
    requires Unreserved(name) && name != ""
    ensures IsUnreserved(name[0]) && Unreserved(name[1..]) && name[0] != '%'
    ensures PatternOf(name)[0] == CharPatternOf(name[0]) && PatternOf(name)[1..] == PatternOf(name[1..])
    ensures CharPatternOf(name[0]).literal == name[0]
  {
    UnreservedIsLiteral(name[0]);
  }

  lemma DecodeHead(w: string)
    requires w != ""
    ensures Escaped(w) ==> |w| >= 3
    ensures DecodeOnce(w) == if Escaped(w) then [EscapedChar(w)] + DecodeOnce(w[3..]) else [w[0]] + DecodeOnce(w[1..])
  {
  }

  /** One step of the pattern: the character itself, or an escape that decodes to it. */
  lemma PatternStep(name: string, s: string)
    requires Unreserved(name) && name != ""
    ensures Unreserved(name[1..]) && (Escaped(s) ==> |s| >= 3)
    ensures AfterPattern(PatternOf(name), s) ==
            if s != "" && s[0] == name[0] then AfterPattern(PatternOf(name[1..]), s[1..])
            else if Escaped(s) && EscapedChar(s) == name[0] then AfterPattern(PatternOf(name[1..]), s[3..])
            else None
    ensures s != "" && s[0] == name[0] ==> !Escaped(s)
  {
    hide CharPatternOf, IsUnreserved, EscapedChar;
    PatternHead(name);
    if |s| >= 3 && s[0] == '%' {
      EscapeMatchesChar(name[0], s);
    }
  }

  /** What the pattern takes decodes to the name in one pass. */
  lemma {:induction false} TakenDecodesToName(name: string, s: string)
    requires Unreserved(name) && AfterPattern(PatternOf(name), s).Some?
    ensures DecodeOnce(s[..|s| - |AfterPattern(PatternOf(name), s).value|]) == name
    decreases |name|
  {
    hide AfterPattern, PatternOf, DecodeOnce, Unreserved, EscapedChar, Escaped;
    PatternBase(s);
    if name != "" {
      PatternStep(name, s);
      var rest := AfterPattern(PatternOf(name), s).value;
      var n := if s[0] == name[0] then 1 else 3;
      TakenDecodesToName(name[1..], s[n..]);
      var w := s[..|s| - |rest|];
      assert w[n..] == s[n..][..|s[n..]| - |rest|];
      assert w[0] == s[0] && (|w| >= 3 ==> w[1] == s[1] && w[2] == s[2]);
      DecodeHead(w);
      EscapedIsLocal(w, s);
      EscapedIsLocal(s, w);
      assert name == [name[0]] + name[1..];
    } else {
      assert name == [] && s[..0] == "";
    }
  }

  lemma PatternBase(s: string)
    ensures AfterPattern(PatternOf(""), s) == Some(s) && DecodeOnce("") == ""
  {
  }

  lemma EscapedIsLocal(w: string, s: string)
    ensures |w| >= 3 && |s| >= 3 && w[0] == s[0] && w[1] == s[1] && w[2] == s[2] && Escaped(s) ==>
            Escaped(w) && EscapedChar(w) == EscapedChar(s)
  {
  }

  lemma EscapeInConcat(w: string, rest: string)
    requires w != ""
    ensures Escaped(w) ==> Escaped(w + rest) && EscapedChar(w + rest) == EscapedChar(w) && (w + rest)[3..] == w[3..] + rest
    ensures (w + rest)[0] == w[0] && (w + rest)[1..] == w[1..] + rest
    ensures Escaped(w) ==> w[0] == '%'
  {
  }

  /** Every text that decodes to the name in one pass is taken, whatever follows it. */
  lemma {:induction false} DecodingIsTaken(name: string, w: string, rest: string)
    requires Unreserved(name) && DecodeOnce(w) == name
    ensures AfterPattern(PatternOf(name), w + rest) == Some(rest)
    decreases |w|
  {
    hide AfterPattern, PatternOf, DecodeOnce, Unreserved, EscapedChar, Escaped;
    PatternBase(rest);
    if w == "" {
      assert w + rest == rest && w == [];
    } else {
      DecodeHead(w);
      var s := w + rest;
      PatternStep(name, s);
      EscapeInConcat(w, rest);
      if Escaped(w) {
        assert name[1..] == DecodeOnce(w[3..]);
        DecodingIsTaken(name[1..], w[3..], rest);
      } else {
        assert name[1..] == DecodeOnce(w[1..]);
        DecodingIsTaken(name[1..], w[1..], rest);
      }
    }
  }

  /** The tolerant pattern accepts a spelling if and only if one pass of percent-decoding turns it into the name. */
  lemma TolerantMeansDecodes(name: string, spelling: string)
    requires TolerantPattern(name).Some?
    ensures AfterPattern(TolerantPattern(name).value, spelling) == Some("") <==> DecodeOnce(spelling) == name
  {
    if AfterPattern(PatternOf(name), spelling) == Some("") {
      TakenDecodesToName(name, spelling);
      assert spelling[..|spelling|] == spelling;
    }
    if DecodeOnce(spelling) == name {
      DecodingIsTaken(name, spelling, "");
      assert spelling + "" == spelling;
    }
  }

  /** A spelling of a name: it decodes to unreserved characters. */
  ghost predicate Spelling(w: string) { Unreserved(DecodeOnce(w)) }

  lemma SpellingTail(w: string)
    requires Spelling(w) && w != ""
    ensures IsUnreserved(DecodeOnce(w)[0])
    ensures Spelling(if Escaped(w) then w[3..] else w[1..])
  {
    hide IsUnreserved;
    var d := DecodeOnce(w);
    assert d[1..] == DecodeOnce(if Escaped(w) then w[3..] else w[1..]);
    assert forall i :: 0 <= i < |d[1..]| ==> d[1..][i] == d[i + 1];
  }

  predicate Plain(c: char) { c != '=' && c != '?' && c != '&' && c != '/' && c != '[' }

  lemma {:induction false} SpellingIsPlain(w: string)
    requires Spelling(w)
    ensures forall i :: 0 <= i < |w| ==> Plain(w[i])
    decreases |w|
  {
    if w != "" {
      SpellingTail(w);
      if Escaped(w) {
        SpellingIsPlain(w[3..]);
        assert forall i :: 3 <= i < |w| ==> w[i] == w[3..][i - 3];
      } else {
        SpellingIsPlain(w[1..]);
        assert forall i :: 1 <= i < |w| ==> w[i] == w[1..][i - 1];
      }
    }
  }

  /** No slash, plain or encoded, starts inside a spelling. */
  lemma {:induction false} NoSlashInSpelling(w: string, rest: string, i: nat)
    requires Spelling(w) && i < |w|
    ensures SlashLen((w + rest)[i..], true) == 0
    decreases |w|
  {
    hide DecodeOnce, Spelling, IsUnreserved, SlashLen, EscapedChar;
    SpellingTail(w);
    SpellingIsPlain(w);
    DecodeHead(w);
    var s := (w + rest)[i..];
    assert s[0] == w[i];
    SlashIsEscape(s);
    var n := if Escaped(w) then 3 else 1;
    if i >= n {
      NoSlashInSpelling(w[n..], rest, i - n);
      assert (w[n..] + rest)[i - n..] == s;
    } else if i == 0 {
      UnreservedIsLiteral(DecodeOnce(w)[0]);
      EscapedIsLocal(s, w);
    }
  }

  lemma SlashIsEscape(s: string)
    ensures SlashLen(s, true) > 0 ==> s[0] == '/' || (Escaped(s) && EscapedChar(s) == '/')
  {
  }

  // ---------------------------------------------------------------- the query-value rewrite

  lemma {:induction false} NameLenSound(names: seq<string>, s: string)
    requires AreNames(names) && NameLen(names, s) > 0
    ensures var n := NameLen(names, s); s[n - 1] == '=' && DecodeOnce(s[..n - 1]) in names && Spelling(s[..n - 1])
  {
    hide PatternOf, DecodeOnce, IsUnreserved;
    assert IsName(names[0]);
    var rest := AfterPattern(PatternOf(names[0]), s);
    if rest.Some? && rest.value != "" && rest.value[0] == '=' {
      TakenDecodesToName(names[0], s);
    } else {
      NameLenSound(names[1..], s);
    }
  }

  lemma {:induction false} NameLenComplete(names: seq<string>, s: string, k: nat)
    requires AreNames(names) && k < |s| && s[k] == '=' && DecodeOnce(s[..k]) in names
    ensures NameLen(names, s) == k + 1
  {
    hide PatternOf, DecodeOnce, IsUnreserved, IsName, Spelling;
    var w := s[..k];
    assert IsName(names[0]);
    NameIsUnreserved(names[0]);
    var rest := AfterPattern(PatternOf(names[0]), s);
    assert s == w + s[k..];
    if rest.Some? && rest.value != "" && rest.value[0] == '=' {
      NameLenSound(names, s);
      ListedIsSpelling(names, w);
      OneEquals(s, |s| - |rest.value|, k);
    } else {
      if DecodeOnce(w) == names[0] {
        DecodingIsTaken(names[0], w, s[k..]);
      }
      NameLenComplete(names[1..], s, k);
    }
  }

  lemma NameIsUnreserved(name: string)
    requires IsName(name)
    ensures Unreserved(name)
  {
  }

  lemma ListedIsSpelling(names: seq<string>, w: string)
    requires AreNames(names) && DecodeOnce(w) in names
    ensures Spelling(w)
  {
    var i :| 0 <= i < |names| && names[i] == DecodeOnce(w);
    assert IsName(names[i]);
  }

  /** A spelling followed by `=` ends at the first `=`. */
  lemma OneEquals(s: string, j: nat, k: nat)
    requires j < |s| && k < |s| && s[j] == '=' && s[k] == '='
    requires Spelling(s[..j]) && Spelling(s[..k])
    ensures j == k
  {
    hide Spelling;
    SpellingIsPlain(s[..j]);
    SpellingIsPlain(s[..k]);
    assert forall i :: 0 <= i < j ==> s[i] == s[..j][i];
    assert forall i :: 0 <= i < k ==> s[i] == s[..k][i];
  }

  /** A listed parameter starts at the head of `s` and its `=` is at `k`. */
  ghost predicate ParameterAt(names: seq<string>, s: string, k: nat)
  {
    && 0 < k < |s| && (s[0] == '?' || s[0] == '&') && s[k] == '=' && DecodeOnce(s[1..k]) in names
  }

  /** The scanner finds a head exactly where a listed parameter starts. */
  lemma HeadIsParameter(names: seq<string>, s: string, k: nat)
    requires AreNames(names)
    ensures k > 0 ==> (HeadLen(names, s) == k + 1 <==> ParameterAt(names, s, k))
    ensures HeadLen(names, s) != 1
  {
    hide DecodeOnce, NameLen, Spelling;
    if s != "" && (s[0] == '?' || s[0] == '&') {
      var u := s[1..];
      if NameLen(names, u) > 0 {
        NameLenSound(names, u);
        var n := NameLen(names, u);
        assert u[..n - 1] == s[1..n];
      }
      if ParameterAt(names, s, k) {
        assert u[..k - 1] == s[1..k];
        NameLenComplete(names, u, k - 1);
      }
    }
  }

  lemma HeadIsLocal(names: seq<string>, s: string, u: string)
    requires AreNames(names) && HeadLen(names, s) > 0
    requires s[..HeadLen(names, s)] <= u
    ensures HeadLen(names, u) == HeadLen(names, s)
  {
    hide DecodeOnce, HeadLen;
    var h := HeadLen(names, s);
    HeadIsParameter(names, s, h - 1);
    assert u[..h] == s[..h];
    assert u[1..h - 1] == s[..h][1..h - 1] == s[1..h - 1];
    assert u[h - 1] == u[..h][h - 1] && u[0] == u[..h][0];
    HeadIsParameter(names, u, h - 1);
  }

  /** A slash, plain or encoded, starts at `i`. */
  ghost predicate SlashAt(s: string, i: nat)
  {
    i <= |s| && SlashLen(s[i..], true) > 0
  }

  /** After its first character, a head holds no `?` and no `&`, and no slash starts in it. */
  lemma HeadIsPlain(names: seq<string>, s: string)
    requires AreNames(names) && HeadLen(names, s) > 0
    ensures s[0] == '?' || s[0] == '&'
    ensures forall i :: 0 < i < HeadLen(names, s) ==> s[i] != '?' && s[i] != '&'
    ensures forall i :: 0 < i < HeadLen(names, s) ==> !SlashAt(s, i)
  {
    hide DecodeOnce, HeadLen, Spelling, SlashLen;
    var h := HeadLen(names, s);
    HeadIsParameter(names, s, h - 1);
    var w := s[1..h - 1];
    ListedIsSpelling(names, w);
    SpellingIsPlain(w);
    forall i | 0 < i < h ensures s[i] != '?' && s[i] != '&' && !SlashAt(s, i) {
      if i < h - 1 {
        assert s[i] == w[i - 1];
        NoSlashInSpelling(w, s[h - 1..], i - 1);
        assert (w + s[h - 1..])[i - 1..] == s[i..];
      } else {
        SlashStarts(s[i..]);
      }
    }
  }

  lemma SlashStarts(s: string)
    ensures SlashLen(s, true) > 0 ==> s[0] == '/' || s[0] == '%'
  {
  }

  ghost predicate CensoredValue(s: string) { s[..ValueLen(s)] == CENSOR }

  /** Every listed parameter of `t` has the censor as its value. */
  ghost predicate ValuesCensored(names: seq<string>, t: string)
    requires AreNames(names)
  {
    t == "" || ((HeadLen(names, t) > 0 ==> CensoredValue(t[HeadLen(names, t)..])) && ValuesCensored(names, t[1..]))
  }

  lemma CensorIsValue(rest: string)
    requires rest == "" || rest[0] == '&'
    ensures CensoredValue(CENSOR + rest)
  {
    var s := CENSOR + rest;
    CensorIsPlain();
    assert s[..|CENSOR|] == CENSOR;
    assert rest != "" ==> s[|CENSOR|] == rest[0];
    ValueLenIs(s, |CENSOR|);
  }

  lemma ValueLenIs(s: string, n: nat)
    requires n <= |s| && '&' !in s[..n] && (n < |s| ==> s[n] == '&')
    ensures ValueLen(s) == n
  {
    var m := ValueLen(s);
    forall i | 0 <= i < m ensures s[i] != '&' { assert s[i] in s[..m]; }
    forall i | 0 <= i < n ensures s[i] != '&' { assert s[i] in s[..n]; }
  }

  lemma NoHead(names: seq<string>, s: string)
    requires AreNames(names) && (s == "" || (s[0] != '?' && s[0] != '&'))
    ensures HeadLen(names, s) == 0
  {
  }

  lemma {:induction false} PlainThenCensored(names: seq<string>, x: string, y: string)
    requires AreNames(names) && ValuesCensored(names, y)
    requires forall i :: 0 <= i < |x| ==> x[i] != '?' && x[i] != '&'
    ensures ValuesCensored(names, x + y)
  {
    hide HeadLen, CensoredValue;
    if x == "" {
      assert x + y == y;
    } else {
      NoHead(names, x + y);
      PlainThenCensored(names, x[1..], y);
      assert (x + y)[1..] == x[1..] + y;
    }
  }

  lemma SameHead(names: seq<string>, s: string)
    requires AreNames(names)
    ensures s == "" <==> CensorValues(names, s) == ""
    ensures s != "" ==> CensorValues(names, s)[0] == s[0]
  {
    hide HeadLen;
  }

  lemma RewriteStep(names: seq<string>, s: string)
    requires AreNames(names) && s != ""
    ensures var h := HeadLen(names, s);
            CensorValues(names, s) ==
            if h == 0 then [s[0]] + CensorValues(names, s[1..])
            else s[..h] + CENSOR + CensorValues(names, s[h..][ValueLen(s[h..])..])
  {
    hide HeadLen, ValueLen;
    var h := HeadLen(names, s);
    if h > 0 {
      assert s[h..][ValueLen(s[h..])..] == s[h + ValueLen(s[h..])..];
    }
  }

  /** The rewrite leaves text with no `?` and no `&` alone. */
  lemma {:induction false} RewriteAgrees(names: seq<string>, u: string, n: nat)
    requires AreNames(names) && n <= |u| && forall i :: 0 <= i < n ==> u[i] != '?' && u[i] != '&'
    ensures CensorValues(names, u) == u[..n] + CensorValues(names, u[n..])
  {
    hide HeadLen, ValueLen, CensorValues;
    if n == 0 {
      assert u[0..] == u;
    } else {
      NoHead(names, u);
      RewriteStep(names, u);
      RewriteAgrees(names, u[1..], n - 1);
      assert u[1..][n - 1..] == u[n..];
      assert u[..n] == [u[0]] + u[1..][..n - 1];
    }
  }

  /** The length of the text before the first `?` or `&`. */
  ghost function PlainLen(u: string): (n: nat)
    ensures n <= |u| && (forall i :: 0 <= i < n ==> u[i] != '?' && u[i] != '&')
    ensures n < |u| ==> u[n] == '?' || u[n] == '&'
  {
    if u == "" || u[0] == '?' || u[0] == '&' then 0 else 1 + PlainLen(u[1..])
  }

  /** A head in the rewritten text was a head before. */
  lemma HeadSurvives(names: seq<string>, s: string)
    requires AreNames(names) && s != ""
    requires HeadLen(names, [s[0]] + CensorValues(names, s[1..])) > 0
    ensures HeadLen(names, s) > 0
  {
    hide HeadLen, CensorValues;
    var u := s[1..];
    var c := CensorValues(names, u);
    var t := [s[0]] + c;
    var k := HeadLen(names, t);
    HeadIsPlain(names, t);
    var n := PlainLen(u);
    RewriteAgrees(names, u, n);
    SameHead(names, u[n..]);
    assert n < |u| ==> c[n] == u[n] && t[n + 1] == c[n];
    assert k - 1 <= n;
    assert t[..k] == s[..k];
    HeadIsLocal(names, t, s);
  }

  /** After the rewrite every listed parameter has the censor as its value. */
  lemma {:induction false} RewriteCensors(names: seq<string>, s: string)
    requires AreNames(names)
    ensures ValuesCensored(names, CensorValues(names, s))
    decreases |s|
  {
    hide HeadLen, CensoredValue, ValueLen, CensorValues;
    if s != "" {
      var h := HeadLen(names, s);
      RewriteStep(names, s);
      var t := CensorValues(names, s);
      if h == 0 {
        RewriteCensors(names, s[1..]);
        assert t[1..] == CensorValues(names, s[1..]);
        assert HeadLen(names, t) == 0 by {
          if HeadLen(names, t) > 0 { HeadSurvives(names, s); }
        }
      } else {
        var rest := s[h..][ValueLen(s[h..])..];
        RewriteCensors(names, rest);
        SameHead(names, rest);
        ValueRest(s[h..]);
        CensoredHead(names, s, CensorValues(names, rest));
      }
    } else {
      SameHead(names, s);
    }
  }

  /** A head, the censor and a censored rest are censored. */
  lemma CensoredHead(names: seq<string>, s: string, c: string)
    requires AreNames(names) && HeadLen(names, s) > 0 && ValuesCensored(names, c) && (c == "" || c[0] == '&')
    ensures ValuesCensored(names, s[..HeadLen(names, s)] + CENSOR + c)
  {
    hide HeadLen, CensoredValue, ValueLen;
    var h := HeadLen(names, s);
    var t := s[..h] + CENSOR + c;
    HeadIsPlain(names, s);
    HeadIsParameter(names, s, h - 1);
    var x := s[1..h] + CENSOR;
    CensorIsPlain();
    PlainThenCensored(names, x, c);
    assert t[1..] == x + c;
    assert s[..h] <= t;
    HeadIsLocal(names, s, t);
    assert t[h..] == CENSOR + c;
    CensorIsValue(c);
  }

  lemma CensorIsPlain()
    ensures forall i :: 0 <= i < |CENSOR| ==> CENSOR[i] != '?' && CENSOR[i] != '&' && CENSOR[i] != '/' && CENSOR[i] != '%'
    ensures '%' !in CENSOR
  {
  }

  lemma ValueRest(s: string)
    ensures var r := s[ValueLen(s)..]; r == "" || r[0] == '&'
  {
  }

  lemma {:induction false} CensoredIsFixed(names: seq<string>, t: string)
    requires AreNames(names) && ValuesCensored(names, t)
    ensures CensorValues(names, t) == t
    decreases |t|
  {
    hide HeadLen, ValueLen, CensorValues;
    if t == "" {
      SameHead(names, t);
    } else {
      RewriteStep(names, t);
      var h := HeadLen(names, t);
      if h == 0 {
        CensoredIsFixed(names, t[1..]);
        assert t == [t[0]] + t[1..];
      } else {
        var v := ValueLen(t[h..]);
        var rest := t[h..][v..];
        assert rest == t[h + v..];
        CensoredSuffix(names, t, h + v);
        CensoredIsFixed(names, rest);
        assert t == t[..h] + t[h..][..v] + rest;
      }
    }
  }

  lemma {:induction false} CensoredSuffix(names: seq<string>, t: string, k: nat)
    requires AreNames(names) && ValuesCensored(names, t) && k <= |t|
    ensures ValuesCensored(names, t[k..])
    decreases k
  {
    hide HeadLen, CensoredValue;
    if k == 0 {
      assert t[0..] == t;
    } else {
      CensoredSuffix(names, t[1..], k - 1);
      assert t[1..][k - 1..] == t[k..];
    }
  }

  /** Rewriting again changes nothing. */
  lemma RewriteIsIdempotent(names: seq<string>, s: string)
    requires AreNames(names)
    ensures CensorValues(names, CensorValues(names, s)) == CensorValues(names, s)
  {
    RewriteCensors(names, s);
    CensoredIsFixed(names, CensorValues(names, s));
  }

  /** A URL cut into what the rewrite keeps and the values it replaces. */
  datatype Piece = Kept(text: string) | Param(head: string, value: string)

  ghost function Source(pieces: seq<Piece>): (s: string)
  {
    if pieces == [] then ""
    else (if pieces[0].Kept? then pieces[0].text else pieces[0].head + pieces[0].value) + Source(pieces[1..])
  }

  ghost function WithCensor(pieces: seq<Piece>): (s: string)
  {
    if pieces == [] then ""
    else (if pieces[0].Kept? then pieces[0].text else pieces[0].head + CENSOR) + WithCensor(pieces[1..])
  }

  lemma NoPieces()
    ensures Source([]) == "" && WithCensor([]) == ""
  {
  }

  lemma OnePiece(p: Piece, rest: seq<Piece>)
    ensures Source([p] + rest) == (if p.Kept? then p.text else p.head + p.value) + Source(rest)
    ensures WithCensor([p] + rest) == (if p.Kept? then p.text else p.head + CENSOR) + WithCensor(rest)
  {
    assert ([p] + rest)[1..] == rest;
  }

  /** A parameter piece is a separator, a spelling of a listed name and `=`, with a value that ends before the next `&`. */
  ghost predicate ListedPiece(names: seq<string>, p: Piece)
  {
    p.Param? ==> p.head != "" && ParameterAt(names, p.head, |p.head| - 1) && '&' !in p.value
  }

  /** The rewrite changes nothing but the values of listed parameters. */
  lemma {:induction false} OnlyValuesChange(names: seq<string>, s: string) returns (pieces: seq<Piece>)
    requires AreNames(names)
    ensures Source(pieces) == s && WithCensor(pieces) == CensorValues(names, s)
    ensures forall i :: 0 <= i < |pieces| ==> ListedPiece(names, pieces[i])
    decreases |s|
  {
    hide HeadLen, ParameterAt, ValueLen, Source, WithCensor;
    if s == "" {
      pieces := [];
      NoPieces();
    } else {
      var h := HeadLen(names, s);
      if h == 0 {
        var rest := OnlyValuesChange(names, s[1..]);
        pieces := [Kept([s[0]])] + rest;
        OnePiece(pieces[0], rest);
        assert s == [s[0]] + s[1..];
      } else {
        var v := ValueLen(s[h..]);
        HeadIsParameter(names, s, h - 1);
        HeadIsLocal(names, s, s[..h]);
        HeadIsParameter(names, s[..h], h - 1);
        var rest := OnlyValuesChange(names, s[h + v..]);
        pieces := [Param(s[..h], s[h..][..v])] + rest;
        OnePiece(pieces[0], rest);
        assert s == s[..h] + s[h..][..v] + s[h + v..];
      }
    }
  }

  // ---------------------------------------------------------------- the id rewrite keeps censored values

  lemma IdStep(s: string)
    requires s != ""
    ensures IdStart(s).None? ==> CensorIds(s) == [s[0]] + CensorIds(s[1..])
    ensures IdStart(s).Some? ==>
              var k := IdStart(s).value;
              CensorIds(s) == s[..k] + CENSOR + CensorIds(s[k..][SegmentLen(s[k..])..])
  {
    hide IdStart, SegmentLen;
    if IdStart(s).Some? {
      var k := IdStart(s).value;
      assert s[k..][SegmentLen(s[k..])..] == s[k + SegmentLen(s[k..])..];
    }
  }

  lemma NoIdWithoutSlash(s: string)
    requires SlashLen(s, true) == 0
    ensures IdStart(s).None?
  {
  }

  lemma IdStartAfterSlash(s: string)
    requires IdStart(s).Some?
    ensures SlashLen(s, true) > 0 && IdStart(s).value >= SlashLen(s, true)
  {
    hide SlashLen, ApiPrefixLen, PagePrefixLen, SkippedLen;
  }

  lemma IdSameHead(s: string)
    ensures s == "" <==> CensorIds(s) == ""
    ensures s != "" ==> CensorIds(s)[0] == s[0]
  {
    hide IdStart, CensorIds;
    if s != "" { IdStep(s); } else { IdEmpty(); }
  }

  lemma IdEmpty()
    ensures CensorIds("") == ""
  {
  }

  /** The rewrite leaves text in which no slash starts alone. */
  lemma {:induction false} IdsAgree(u: string, n: nat)
    requires n <= |u| && forall i :: 0 <= i < n ==> !SlashAt(u, i)
    ensures CensorIds(u) == u[..n] + CensorIds(u[n..])
    decreases n
  {
    hide CensorIds, IdStart, SlashLen, SlashAt;
    if n == 0 {
      assert u[0..] == u;
    } else {
      assert !SlashAt(u, 0);
      SlashAtHead(u);
      NoIdWithoutSlash(u);
      IdStep(u);
      forall i | 0 <= i < n - 1 ensures !SlashAt(u[1..], i) {
        SlashAtTail(u, i);
      }
      IdsAgree(u[1..], n - 1);
      assert u[1..][n - 1..] == u[n..];
      assert u[..n] == [u[0]] + u[1..][..n - 1];
    }
  }

  lemma SlashAtHead(u: string)
    ensures SlashAt(u, 0) <==> SlashLen(u, true) > 0
  {
    assert u[0..] == u;
  }

  lemma SlashAtTail(u: string, i: nat)
    requires u != ""
    ensures SlashAt(u[1..], i) <==> SlashAt(u, i + 1)
  {
    hide SlashLen;
    if i < |u| {
      assert u[1..][i..] == u[i + 1..];
    }
  }

  lemma SlashIsLocal(s: string, t: string)
    requires SlashLen(s, true) > 0 && SlashLen(s, true) <= |t| && t[..SlashLen(s, true)] == s[..SlashLen(s, true)]
    ensures SlashLen(t, true) > 0
  {
    var n := SlashLen(s, true);
    assert t[0] == t[..n][0] && s[0] == s[..n][0];
    assert n == 3 ==> t[1] == t[..n][1] && t[2] == t[..n][2] && s[1] == s[..n][1] && s[2] == s[..n][2];
  }

  lemma InsideSlash(s: string)
    requires SlashLen(s, true) == 3
    ensures !SlashAt(s[1..], 0) && !SlashAt(s[1..], 1)
  {
    SlashAtHead(s[1..]);
  }

  /** A slash stays a slash. */
  lemma IdsKeepSlash(s: string)
    requires SlashLen(s, true) > 0
    ensures SlashLen(CensorIds(s), true) > 0
  {
    hide CensorIds, IdStart, SlashLen;
    var n := SlashLen(s, true);
    IdStep(s);
    if IdStart(s).Some? {
      IdStartAfterSlash(s);
      assert CensorIds(s)[..n] == s[..n];
    } else if n == 3 {
      InsideSlash(s);
      var u := s[1..];
      IdsAgree(u, 2);
      assert s[..3] == [s[0]] + u[..2];
      assert CensorIds(s)[..3] == s[..3];
    } else {
      assert n == 1;
      assert CensorIds(s)[..1] == s[..1];
    }
    SlashIsLocal(s, CensorIds(s));
  }

  /** The length of the text before the first slash. */
  ghost function SlashFreeLen(u: string): (n: nat)
    ensures n <= |u| && (forall i :: 0 <= i < n ==> !SlashAt(u, i))
    ensures n < |u| ==> SlashAt(u, n)
  {
    hide SlashLen, SlashAt;
    SlashAtHead(u);
    if u == "" || SlashLen(u, true) > 0 then 0
    else
      var n := SlashFreeLen(u[1..]);
      assert forall i :: 0 < i <= n ==> !SlashAt(u, i) by {
        forall i | 0 < i <= n ensures !SlashAt(u, i) { SlashAtTail(u, i - 1); }
      }
      SlashAtTail(u, n);
      n + 1
  }

  predicate NoSeparators(s: string, n: nat)
    requires n <= |s|
  {
    forall i :: 0 <= i < n ==> s[i] != '?' && s[i] != '&'
  }

  lemma SlashIsPlain(s: string)
    ensures NoSeparators(s, SlashLen(s, true))
  {
  }

  /** Two adjacent stretches without separators make one. */
  lemma AdjacentPlain(s: string, a: nat, b: nat)
    requires a <= |s| && b <= |s[a..]| && NoSeparators(s, a) && NoSeparators(s[a..], b)
    ensures NoSeparators(s, a + b)
  {
    assert forall i :: a <= i < a + b ==> s[i] == s[a..][i - a];
  }

  lemma VersionIsPlain(s: string)
    ensures NoSeparators(s, VersionLen(s))
  {
    hide VersionLen;
  }

  lemma WordIsPlain(s: string)
    ensures "interaction" <= s ==> NoSeparators(s, 11)
    ensures "ui" <= s ==> NoSeparators(s, 2)
  {
    assert "interaction" <= s ==> forall i :: 0 <= i < 11 ==> s[i] == "interaction"[i];
    assert "ui" <= s ==> forall i :: 0 <= i < 2 ==> s[i] == "ui"[i];
  }

  lemma ApiPrefixIsPlain(s: string)
    ensures NoSeparators(s, ApiPrefixLen(s, true))
  {
    hide VersionLen, SlashLen, NoSeparators;
    if ApiPrefixLen(s, true) > 0 {
      WordIsPlain(s);
      var b := SlashLen(s[11..], true);
      SlashIsPlain(s[11..]);
      AdjacentPlain(s, 11, b);
      var v := VersionLen(s[11 + b..]);
      VersionIsPlain(s[11 + b..]);
      AdjacentPlain(s, 11 + b, v);
      SlashIsPlain(s[11 + b + v..]);
      AdjacentPlain(s, 11 + b + v, SlashLen(s[11 + b + v..], true));
    } else {
      NothingIsPlain(s);
    }
  }

  lemma NothingIsPlain(s: string)
    ensures NoSeparators(s, 0)
  {
  }

  lemma PagePrefixIsPlain(s: string)
    ensures NoSeparators(s, PagePrefixLen(s, true))
  {
    hide SlashLen, NoSeparators;
    if PagePrefixLen(s, true) > 0 {
      WordIsPlain(s);
      var b := SlashLen(s[2..], true);
      SlashIsPlain(s[2..]);
      AdjacentPlain(s, 2, b);
      WordIsPlain(s[2 + b..]);
      AdjacentPlain(s, 2 + b, 11);
      SlashIsPlain(s[13 + b..]);
      AdjacentPlain(s, 13 + b, SlashLen(s[13 + b..], true));
    } else {
      NothingIsPlain(s);
    }
  }

  lemma PrefixIsPlain(s: string)
    ensures NoSeparators(s, PrefixLen(s, true))
  {
    hide SlashLen, ApiPrefixLen, PagePrefixLen, NoSeparators;
    NothingIsPlain(s);
    if PrefixLen(s, true) > 0 {
      var a := SlashLen(s, true);
      SlashIsPlain(s);
      ApiPrefixIsPlain(s[a..]);
      PagePrefixIsPlain(s[a..]);
      AdjacentPlain(s, a, PrefixLen(s, true) - a);
    }
  }

  lemma DotSlashIsPlain(s: string)
    ensures NoSeparators(s, DotSlashLen(s))
  {
    hide SlashLen, NoSeparators;
    NothingIsPlain(s);
    SlashIsPlain(s);
    if SlashLen(s, true) == 0 && DotSlashLen(s) > 0 {
      assert NoSeparators(s, 1) by { DotIsPlain(s); }
      SlashIsPlain(s[1..]);
      AdjacentPlain(s, 1, SlashLen(s[1..], true));
    }
  }

  lemma DotIsPlain(s: string)
    requires s != "" && s[0] == '.'
    ensures NoSeparators(s, 1)
  {
  }

  lemma {:induction false} SkippedIsPlain(s: string)
    ensures SkippedLen(s).Some? ==> NoSeparators(s, SkippedLen(s).value)
    decreases |s|
  {
    hide DotSlashLen, NoSeparators, Reserved, SegmentLen;
    NothingIsPlain(s);
    var round := DotSlashLen(s);
    if round > 0 && SkippedLen(s[round..]).Some? {
      DotSlashIsPlain(s);
      SkippedIsPlain(s[round..]);
      AdjacentPlain(s, round, SkippedLen(s[round..]).value);
    }
  }

  lemma IdStartIsPlain(s: string)
    ensures IdStart(s).Some? ==> NoSeparators(s, IdStart(s).value)
  {
    hide PrefixLen, SkippedLen, NoSeparators;
    var p := PrefixLen(s, true);
    PrefixIsPlain(s);
    SkippedIsPlain(s[p..]);
    if IdStart(s).Some? {
      AdjacentPlain(s, p, SkippedLen(s[p..]).value);
    }
  }

  /** A head after the id rewrite was a head before. */
  lemma HeadSurvivesIds(names: seq<string>, t: string)
    requires AreNames(names) && t != ""
    requires HeadLen(names, [t[0]] + CensorIds(t[1..])) > 0
    ensures HeadLen(names, t) == HeadLen(names, [t[0]] + CensorIds(t[1..]))
  {
    hide HeadLen, CensorIds, SlashLen;
    var u := t[1..];
    var d := CensorIds(u);
    var out := [t[0]] + d;
    var k := HeadLen(names, out);
    HeadIsPlain(names, out);
    var n := SlashFreeLen(u);
    IdsAgree(u, n);
    if n < |u| {
      IdsKeepSlash(u[n..]);
      assert d[n..] == CensorIds(u[n..]);
      assert out[n + 1..] == d[n..];
      assert SlashAt(out, n + 1);
    } else {
      assert u[n..] == "";
      IdEmpty();
    }
    assert k - 1 <= n;
    assert out[..k] == t[..k];
    HeadIsLocal(names, out, t);
  }

  /** A censored parameter holds no slash, so the id rewrite leaves its value. */
  lemma ValueSurvivesIds(names: seq<string>, t: string)
    requires AreNames(names) && HeadLen(names, t) > 0 && CensoredValue(t[HeadLen(names, t)..])
    ensures var h := HeadLen(names, t);
            h <= |[t[0]] + CensorIds(t[1..])| && CensoredValue(([t[0]] + CensorIds(t[1..]))[h..])
  {
    hide HeadLen, CensorIds, SlashLen, ValueLen;
    var h := HeadLen(names, t);
    var u := t[1..];
    HeadIsPlain(names, t);
    HeadIsParameter(names, t, h - 1);
    CensorIsPlain();
    var m := h - 1 + |CENSOR|;
    var z := t[h..][ValueLen(t[h..])..];
    ValueRest(t[h..]);
    assert t[h..] == CENSOR + z;
    assert u[m..] == z;
    forall i | 0 <= i < m ensures !SlashAt(u, i) {
      SlashAtTail(t, i);
      if i >= h - 1 {
        assert u[i] == t[h..][i - (h - 1)] == CENSOR[i - (h - 1)];
        SlashStarts(u[i..]);
      }
    }
    IdsAgree(u, m);
    IdSameHead(z);
    var out := [t[0]] + CensorIds(u);
    assert u[..m] == u[..h - 1] + CENSOR;
    assert out[h..] == CENSOR + CensorIds(z);
    CensorIsValue(CensorIds(z));
  }

  /** The interaction-id rewrite leaves every listed parameter censored. */
  lemma {:induction false} IdsKeepValues(names: seq<string>, t: string)
    requires AreNames(names) && ValuesCensored(names, t)
    ensures ValuesCensored(names, CensorIds(t))
    decreases |t|
  {
    hide HeadLen, CensorIds, CensoredValue, IdStart, SegmentLen, NoSeparators;
    if t == "" {
      IdEmpty();
    } else {
      IdStep(t);
      var out := CensorIds(t);
      if IdStart(t).None? {
        IdsKeepValues(names, t[1..]);
        assert out[1..] == CensorIds(t[1..]);
        if HeadLen(names, out) > 0 {
          HeadSurvivesIds(names, t);
          ValueSurvivesIds(names, t);
        }
      } else {
        var k := IdStart(t).value;
        var rest := t[k..][SegmentLen(t[k..])..];
        assert rest == t[k + SegmentLen(t[k..])..];
        CensoredSuffix(names, t, k + SegmentLen(t[k..]));
        IdsKeepValues(names, rest);
        IdStartIsPlain(t);
        PlainStart(t, k);
        PlainThenCensored(names, t[..k] + CENSOR, CensorIds(rest));
      }
    }
  }

  lemma PlainStart(t: string, k: nat)
    requires k <= |t| && NoSeparators(t, k)
    ensures forall i :: 0 <= i < |t[..k] + CENSOR| ==> (t[..k] + CENSOR)[i] != '?' && (t[..k] + CENSOR)[i] != '&'
  {
    CensorIsPlain();
  }

  // ---------------------------------------------------------------- the logged URL

  lemma {:induction false} CensoredEverywhere(names: seq<string>, t: string, i: nat, j: nat)
    requires AreNames(names) && ValuesCensored(names, t)
    requires i < j < |t| && ParameterAt(names, t[i..], j - i)
    ensures CensoredValue(t[j + 1..])
    decreases i
  {
    hide HeadLen, CensoredValue, ParameterAt;
    if i == 0 {
      assert t[0..] == t;
      HeadIsParameter(names, t, j);
    } else {
      assert t[1..][i - 1..] == t[i..] && t[1..][j..] == t[j + 1..];
      CensoredEverywhere(names, t[1..], i - 1, j - 1);
    }
  }

  /** In every logged URL each parameter whose decoded name is listed has the censor as its value. */
  lemma LoggedParametersAreCensored(names: seq<string>, url: string, i: nat, j: nat)
    requires AreNames(names) && i < j < |Logged(names, url)| && ParameterAt(names, Logged(names, url)[i..], j - i)
    ensures CensoredValue(Logged(names, url)[j + 1..])
  {
    hide CensoredValue, ParameterAt, CensorValues, CensorIds, UnnamedAt, Decoded;
    var logged := Logged(names, url);
    RewriteCensors(names, url);
    IdsKeepValues(names, CensorValues(names, url));
    if logged == CENSOR {
      CensorHasNoParameter(names, i, j);
    } else {
      CensoredEverywhere(names, logged, i, j);
    }
  }

  lemma CensorHasNoParameter(names: seq<string>, i: nat, j: nat)
    requires i < j < |CENSOR|
    ensures !ParameterAt(names, CENSOR[i..], j - i)
  {
    CensorIsPlain();
  }

  /**
    * In every logged URL, read back by the check's decoder, every occurrence of an interaction prefix is followed by
    * named segments only, or by the document path or the wallet prefix.
    */
  lemma LoggedPathsAreNamed(names: seq<string>, url: string, i: nat)
    requires AreNames(names)
    requires i <= |Decoded(Logged(names, url), CHECK_DECODE_PASSES)|
    ensures !UnnamedAt(Decoded(Logged(names, url), CHECK_DECODE_PASSES), i)
  {
    hide UnnamedAt, CensorValues, CensorIds, Decoded, DecodeOnce;
    var logged := Logged(names, url);
    if logged == CENSOR {
      CensorIsPlain();
      NoEscapeNoChange(CENSOR);
      FixedPoint(CENSOR, CHECK_DECODE_PASSES);
      CensorHasNoPrefix(i);
    }
  }

  lemma CensorHasNoPrefix(i: nat)
    requires i <= |CENSOR|
    ensures !UnnamedAt(CENSOR, i)
  {
    hide NamedOnly, ApiPrefixLen, PagePrefixLen;
    CensorIsPlain();
  }
}
