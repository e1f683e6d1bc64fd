/** String operations of the JavaScript runtime that several of the models use. */
module Text {

  datatype Option<+T> = None | Some(value: T)

  /** `pattern` occurs in `s` at index `i`. */
  predicate At(s: string, pattern: string, i: int)
  {
    0 <= i && i + |pattern| <= |s| && s[i..i + |pattern|] == pattern
  }

  /** The least index at or after `from` where `pattern` occurs in `s`, or -1 (`String.prototype.indexOf`). */
  function IndexFrom(s: string, pattern: string, from: nat): (r: int)
    ensures r == -1 || (from <= r && At(s, pattern, r))
    ensures forall i :: At(s, pattern, i) && from <= i ==> 0 <= r <= i
    decreases |s| - from
  {
    if from + |pattern| > |s| then -1
    else if At(s, pattern, from) then from
    else IndexFrom(s, pattern, from + 1)
  }

  function IndexOf(s: string, pattern: string): (r: int)
    ensures r == -1 || At(s, pattern, r)
    ensures forall i :: At(s, pattern, i) ==> 0 <= r <= i
  {
    IndexFrom(s, pattern, 0)
  }

  /** The index of the first `c` in `s`, or -1. */
  function IndexOfChar(s: string, c: char): (r: int)
    ensures -1 <= r < |s|
    ensures r == -1 ==> c !in s
    ensures r >= 0 ==> s[r] == c && c !in s[..r]
  {
    if s == "" then -1
    else if s[0] == c then 0
    else
      var k := IndexOfChar(s[1..], c);
      assert s == [s[0]] + s[1..];
      if k == -1 then -1 else
        assert s[..k + 1] == [s[0]] + s[1..][..k];
        k + 1
  }

  /** `String.prototype.split` with a non-empty separator. */
  function Split(s: string, separator: string): (parts: seq<string>)
    requires separator != ""
    ensures parts != []
    decreases |s|
  {
    var k := IndexOf(s, separator);
    if k < 0 then [s] else [s[..k]] + Split(s[k + |separator|..], separator)
  }

  /** The parts one after the other. */
  function Concat(parts: seq<string>): (s: string)
  {
    if parts == [] then "" else parts[0] + Concat(parts[1..])
  }

  /** `Array.prototype.join`. */
  function Join(parts: seq<string>, separator: string): (s: string)
  {
    if parts == [] then ""
    else if |parts| == 1 then parts[0]
    else parts[0] + separator + Join(parts[1..], separator)
  }

  lemma NotAt(s: string, pattern: string, i: nat)
    requires pattern != "" && i < |s| && s[i] != pattern[0]
    ensures !At(s, pattern, i)
  {
    if i + |pattern| <= |s| {
      assert s[i..i + |pattern|][0] == s[i];
    }
  }

  /** A separator whose first character the part before it lacks is found exactly where it was put. */
  lemma FirstSeparator(head: string, separator: string, rest: string)
    requires separator != "" && separator[0] !in head
    ensures IndexOf(head + separator + rest, separator) == |head|
  {
    var s := head + separator + rest;
    assert At(s, separator, |head|);
    forall i | 0 <= i < |head| ensures !At(s, separator, i) {
      assert s[i] == head[i];
      NotAt(s, separator, i);
    }
  }

  lemma NoSeparator(s: string, separator: string)
    requires separator != "" && separator[0] !in s
    ensures IndexOf(s, separator) == -1
  {
    forall i | 0 <= i < |s| ensures !At(s, separator, i) {
      NotAt(s, separator, i);
    }
  }

  /** Joining parts that lack the separator's first character is undone by splitting. */
  lemma {:induction false} SplitOfJoin(parts: seq<string>, separator: string)
    requires separator != "" && parts != []
    requires forall i :: 0 <= i < |parts| ==> separator[0] !in parts[i]
    ensures Split(Join(parts, separator), separator) == parts
  {
    if |parts| == 1 {
      NoSeparator(parts[0], separator);
    } else {
      var head, rest := parts[0], Join(parts[1..], separator);
      FirstSeparator(head, separator, rest);
      assert (head + separator + rest)[..|head|] == head;
      assert (head + separator + rest)[|head| + |separator|..] == rest;
      SplitOfJoin(parts[1..], separator);
    }
  }

  /** No part of a split on one character holds it. */
  lemma {:induction false} PartsLackSeparator(s: string, c: char)
    ensures forall i :: 0 <= i < |Split(s, [c])| ==> c !in Split(s, [c])[i]
    decreases |s|
  {
    var k := IndexOf(s, [c]);
    forall i | 0 <= i < |s| && (k < 0 || i < k) ensures s[i] != c {
      assert !At(s, [c], i);
    }
    if k >= 0 {
      PartsLackSeparator(s[k + 1..], c);
    }
  }

  /** Splitting loses nothing: joining the parts gives the text back. */
  lemma {:induction false} JoinOfSplit(s: string, separator: string)
    requires separator != ""
    ensures Join(Split(s, separator), separator) == s
    decreases |s|
  {
    var k := IndexOf(s, separator);
    if k >= 0 {
      var rest := s[k + |separator|..];
      JoinOfSplit(rest, separator);
      var parts := [s[..k]] + Split(rest, separator);
      assert parts[1..] == Split(rest, separator);
      assert s == s[..k] + separator + rest;
    }
  }

  /** One more part is put behind one more separator. */
  lemma {:induction false} JoinMore(parts: seq<string>, last: string, separator: string)
    requires parts != []
    ensures Join(parts + [last], separator) == Join(parts, separator) + separator + last
  {
    var all := parts + [last];
    if |parts| == 1 {
      assert all[1..] == [last];
    } else {
      JoinMore(parts[1..], last, separator);
      assert all[1..] == parts[1..] + [last];
    }
  }

  /** White space and line terminators, as `trim` and `\s` know them. */
  predicate IsSpace(c: char)
  {
    '\t' <= c <= '\r' || c == ' ' || c == '\U{00A0}' || c == '\U{1680}' || '\U{2000}' <= c <= '\U{200A}' ||
    c == '\U{2028}' || c == '\U{2029}' || c == '\U{202F}' || c == '\U{205F}' || c == '\U{3000}' || c == '\U{FEFF}'
  }

  /** `String.prototype.trim`: the text from its first to its last character that is not white space. */
  function Trim(s: string): (r: string)
    ensures forall c :: c in r ==> c in s
    ensures r != "" ==> !IsSpace(r[0]) && !IsSpace(r[|r| - 1])
    ensures forall c :: c in s && !IsSpace(c) ==> c in r
    decreases |s|
  {
    if s == "" then ""
    else if IsSpace(s[0]) then
      assert s == [s[0]] + s[1..];
      Trim(s[1..])
    else if IsSpace(s[|s| - 1]) then
      assert s == s[..|s| - 1] + [s[|s| - 1]];
      Trim(s[..|s| - 1])
    else s
  }

  /** Those are 25 characters. */
  lemma SpacesAre(c: char)
    ensures IsSpace(c) <==>
            c in "\t\n\U{000B}\U{000C}\r \U{00A0}\U{1680}\U{2000}\U{2001}\U{2002}\U{2003}\U{2004}\U{2005}\U{2006}\U{2007}\U{2008}\U{2009}\U{200A}\U{2028}\U{2029}\U{202F}\U{205F}\U{3000}\U{FEFF}"
  {
    var spaces :=
      "\t\n\U{000B}\U{000C}\r \U{00A0}\U{1680}\U{2000}\U{2001}\U{2002}\U{2003}\U{2004}\U{2005}\U{2006}\U{2007}\U{2008}\U{2009}\U{200A}\U{2028}\U{2029}\U{202F}\U{205F}\U{3000}\U{FEFF}";
    forall i | 0 <= i < |spaces| ensures IsSpace(spaces[i]) { }
  }

  ghost predicate AllSpace(s: string) { forall i :: 0 <= i < |s| ==> IsSpace(s[i]) }

  lemma TrimStep(s: string)
    requires s != ""
    ensures Trim(s) == if IsSpace(s[0]) then Trim(s[1..]) else if IsSpace(s[|s| - 1]) then Trim(s[..|s| - 1]) else s
  {
    hide IsSpace;
  }

  /** `r` lies in `s` between white space. */
  ghost predicate Padded(s: string, before: string, r: string, after: string)
  {
    s == before + r + after && AllSpace(before) && AllSpace(after)
  }

  lemma PaddedMore(c: char, s: string, before: string, r: string, after: string)
    requires IsSpace(c) && Padded(s, before, r, after)
    ensures Padded([c] + s, [c] + before, r, after) && Padded(s + [c], before, r, after + [c])
  {
    hide IsSpace;
    assert [c] + s == [c] + before + r + after;
    assert s + [c] == before + r + (after + [c]);
  }

  /** Trimming takes white space off both ends and nothing else. */
  lemma {:induction false} TrimMeans(s: string) returns (before: string, after: string)
    ensures Padded(s, before, Trim(s), after)
    decreases |s|
  {
    before, after := "", "";
    if s != "" {
      TrimStep(s);
      hide IsSpace, Trim, Padded;
      if IsSpace(s[0]) {
        var b, a := TrimMeans(s[1..]);
        before, after := [s[0]] + b, a;
        PaddedMore(s[0], s[1..], b, Trim(s), a);
        assert s == [s[0]] + s[1..];
      } else if IsSpace(s[|s| - 1]) {
        var b, a := TrimMeans(s[..|s| - 1]);
        before, after := b, a + [s[|s| - 1]];
        PaddedMore(s[|s| - 1], s[..|s| - 1], b, Trim(s), a);
        assert s == s[..|s| - 1] + [s[|s| - 1]];
      } else {
        NoneAround(s);
      }
    } else {
      NoneAround(s);
    }
  }

  lemma NoneAround(s: string)
    ensures Padded(s, "", s, "")
  {
  }

  /** So a text between white space comes back when it neither starts nor ends with any. */
  lemma TrimIsUnique(before: string, s: string, after: string)
    requires AllSpace(before) && AllSpace(after) && (s == "" || (!IsSpace(s[0]) && !IsSpace(s[|s| - 1])))
    ensures Trim(before + s + after) == s
  {
    var text := before + s + after;
    var b, a := TrimMeans(text);
    var r := Trim(text);
    hide IsSpace, Trim;
    if s != "" {
      assert text[|before|] == s[0];
      assert text[|before|] in r;
    }
    SamePadded(text, before, s, after, b, r, a);
  }

  lemma SamePadded(text: string, before: string, s: string, after: string, b: string, r: string, a: string)
    requires Padded(text, before, s, after) && Padded(text, b, r, a)
    requires s != "" ==> !IsSpace(s[0]) && !IsSpace(s[|s| - 1]) && r != ""
    requires r != "" ==> !IsSpace(r[0]) && !IsSpace(r[|r| - 1])
    ensures r == s
  {
    hide IsSpace;
    if r != "" {
      assert text[|b|] == r[0] && text[|b| + |r| - 1] == r[|r| - 1];
      if s != "" {
        assert text[|before|] == s[0] && text[|before| + |s| - 1] == s[|s| - 1];
        assert |b| == |before| && |b| + |r| == |before| + |s|;
        assert r == text[|b|..|b| + |r|] && s == text[|before|..|before| + |s|];
      }
    }
  }

  /** `Array.prototype.filter`. */
  function Filter<T(!new)>(xs: seq<T>, keep: T -> bool): (r: seq<T>)
    ensures forall x :: x in r <==> x in xs && keep(x)
  {
    if xs == [] then []
    else
      assert xs == [xs[0]] + xs[1..];
      if keep(xs[0]) then [xs[0]] + Filter(xs[1..], keep) else Filter(xs[1..], keep)
  }
}
