/**
  * How a status phrase in a documentation page is given the text it is judged against: paragraphs, segments (one per
  * bullet) and clauses, with offsets that stay exact under LF and CRLF. Which lines carry the status symbol and which
  * are list lines are parameters; a `match` is an index and a length in the page.
  */
module StatusClaims {
  import opened Text

  datatype Paragraph = Paragraph(text: string, start: nat)

  datatype Segment = Segment(text: string, start: nat, isList: bool)

  /** The line tests of the page scanner. */
  datatype LineTests = LineTests(isSymbol: string -> bool, isList: string -> bool)

  // ---------------------------------------------------------------- paragraphs

  function SpacesLen(s: string): (n: nat)
    ensures n <= |s| && forall i :: 0 <= i < n ==> s[i] == ' ' || s[i] == '\t'
  {
    if s == "" || (s[0] != ' ' && s[0] != '\t') then 0 else 1 + SpacesLen(s[1..])
  }

  function NewlinesLen(s: string): (n: nat)
    ensures n <= |s|
  {
    if s == "" || s[0] != '\n' then 0 else 1 + NewlinesLen(s[1..])
  }

  /** `\n[ \t]*\n+` at the head of `s`; 0 when it does not match. */
  function BlankLen(s: string): (n: nat)
    ensures n <= |s| && (n > 0 ==> n >= 2 && s[0] == '\n')
  {
    if s == "" || s[0] != '\n' then 0
    else
      var j := 1 + SpacesLen(s[1..]);
      if j < |s| && s[j] == '\n' then
        assert NewlinesLen(s[j..]) >= 1;
        j + NewlinesLen(s[j..])
      else 0
  }

  predicate BlankAt(content: string, i: nat) { i <= |content| && BlankLen(content[i..]) > 0 }

  function EndOf(p: Paragraph): (n: nat) { p.start + |p.text| }

  /** Each paragraph is the slice at its recorded start, and no blank line starts inside it. */
  ghost predicate IsParagraph(content: string, p: Paragraph)
  {
    && EndOf(p) <= |content| && content[p.start..EndOf(p)] == p.text
    && forall i :: p.start <= i < EndOf(p) ==> !BlankAt(content, i)
  }

  /** `q` starts where the blank line after `p` ends. */
  ghost predicate Follows(content: string, p: Paragraph, q: Paragraph)
  {
    BlankAt(content, EndOf(p)) && q.start == EndOf(p) + BlankLen(content[EndOf(p)..])
  }

  /** The paragraphs up to `end`, with exactly one blank line between neighbours. */
  ghost predicate AreParagraphs(content: string, ps: seq<Paragraph>)
  {
    && (forall i :: 0 <= i < |ps| ==> IsParagraph(content, ps[i]))
    && (forall i :: 0 < i < |ps| ==> Follows(content, ps[i - 1], ps[i]))
    && (ps != [] ==> ps[0].start == 0)
  }

  method SplitParagraphs(content: string) returns (ps: seq<Paragraph>)
    ensures ps != [] && AreParagraphs(content, ps) && EndOf(ps[|ps| - 1]) == |content|
  {
    hide BlankLen, AreParagraphs;
    NoParagraphs(content);
    ps := [];
    var start, at := 0, 0;
    while at < |content|
      invariant 0 <= start <= at <= |content|
      invariant AreParagraphs(content, ps)
      invariant if ps == [] then start == 0
                else BlankAt(content, EndOf(ps[|ps| - 1])) && start == EndOf(ps[|ps| - 1]) + BlankLen(content[EndOf(ps[|ps| - 1])..])
      invariant forall i :: start <= i < at ==> !BlankAt(content, i)
    {
      var n := BlankLen(content[at..]);
      if n > 0 {
        assert BlankAt(content, at);
        AppendParagraph(content, ps, Paragraph(content[start..at], start));
        ps := ps + [Paragraph(content[start..at], start)];
        start, at := at + n, at + n;
      } else {
        assert !BlankAt(content, at);
        at := at + 1;
      }
    }
    assert content[start..] == content[start..|content|];
    AppendParagraph(content, ps, Paragraph(content[start..], start));
    ps := ps + [Paragraph(content[start..], start)];
  }

  lemma NoParagraphs(content: string)
    ensures AreParagraphs(content, [])
  {
  }

  lemma AppendParagraph(content: string, ps: seq<Paragraph>, p: Paragraph)
    requires AreParagraphs(content, ps) && IsParagraph(content, p)
    requires if ps == [] then p.start == 0 else Follows(content, ps[|ps| - 1], p)
    ensures AreParagraphs(content, ps + [p])
  {
    hide IsParagraph, Follows;
  }

  // ---------------------------------------------------------------- lines

  predicate IsTerminator(s: string) { s == "\n" || s == "\r\n" }

  /** The first line, its terminator (empty at the end of the text) and what follows. */
  datatype Cut = Cut(line: string, terminator: string, rest: string)

  function CutLine(s: string): (c: Cut)
    ensures c.terminator != "" ==> |c.rest| < |s|
  {
    if s == "" then Cut("", "", "")
    else if s[0] == '\n' then Cut("", "\n", s[1..])
    else if s[0] == '\r' && |s| > 1 && s[1] == '\n' then Cut("", "\r\n", s[2..])
    else
      var c := CutLine(s[1..]);
      Cut([s[0]] + c.line, c.terminator, c.rest)
  }

  lemma {:induction false} CutLineText(s: string)
    ensures var c := CutLine(s);
            && c.line + c.terminator + c.rest == s && '\n' !in c.line
            && if c.terminator == "" then c.rest == "" else IsTerminator(c.terminator)
  {
    if s == "" {
    } else if s[0] == '\n' {
      assert "" + "\n" + s[1..] == s;
    } else if s[0] == '\r' && |s| > 1 && s[1] == '\n' {
      assert "" + "\r\n" + s[2..] == s;
    } else {
      CutLineText(s[1..]);
      var c := CutLine(s[1..]);
      assert CutLine(s) == Cut([s[0]] + c.line, c.terminator, c.rest);
      LongerLine(s[0], c);
      assert [s[0]] + s[1..] == s;
    }
  }

  lemma LongerLine(x: char, c: Cut)
    ensures [x] + c.line + c.terminator + c.rest == [x] + (c.line + c.terminator + c.rest)
    ensures x != '\n' && '\n' !in c.line ==> '\n' !in [x] + c.line
  {
  }

  /** `split(/(\r?\n)/)`: line, terminator, line, ..., line. */
  function Parts(s: string): (r: seq<string>)
    decreases |s|
  {
    var c := CutLine(s);
    if c.terminator == "" then [c.line] else [c.line, c.terminator] + Parts(c.rest)
  }

  /** The parts are the text; every other one is a line end, the rest hold none. */
  lemma {:induction false} PartsOfText(s: string)
    ensures Concat(Parts(s)) == s && |Parts(s)| % 2 == 1
    ensures forall i :: 0 <= i < |Parts(s)| && i % 2 == 1 ==> IsTerminator(Parts(s)[i])
    ensures forall i :: 0 <= i < |Parts(s)| && i % 2 == 0 ==> '\n' !in Parts(s)[i]
    decreases |s|
  {
    hide CutLine, Concat, IsTerminator;
    CutLineText(s);
    var c := CutLine(s);
    if c.terminator == "" {
      assert c.line + "" + "" == c.line;
      ConcatOne(c.line);
    } else {
      PartsOfText(c.rest);
      ConcatTwo(c.line, c.terminator, Parts(c.rest));
      assert forall i :: 2 <= i < |Parts(s)| ==> Parts(s)[i] == Parts(c.rest)[i - 2];
    }
  }

  lemma ConcatOne(s: string)
    ensures Concat([s]) == s
  {
    assert [s][1..] == [];
  }

  lemma ConcatTwo(a: string, b: string, rest: seq<string>)
    ensures Concat([a, b] + rest) == a + b + Concat(rest)
  {
    assert ([a, b] + rest)[1..] == [b] + rest && ([b] + rest)[1..] == rest;
  }

  // ---------------------------------------------------------------- segments

  /** The parts a segment is made of, from a line up to and including a line. */
  datatype Range = Range(from: nat, to: nat)

  ghost predicate IsSegment(tests: LineTests, parts: seq<string>, s: Segment, r: Range)
  {
    && r.from < r.to <= |parts| && r.from % 2 == 0 && r.to % 2 == 1
    && s.text == Concat(parts[r.from..r.to])
    && s.start == |Concat(parts[..r.from])|
    && (s.isList <==> !tests.isSymbol(parts[r.from]) && tests.isList(parts[r.from]))
    && (tests.isSymbol(parts[r.from]) ==> r.to == r.from + 1)
    && forall i :: r.from < i < r.to && i % 2 == 0 ==> !tests.isSymbol(parts[i]) && !tests.isList(parts[i])
  }

  /** The segments cover the lines before part `upTo`, each line in one segment, split only where a line says so. */
  ghost predicate AreSegments(tests: LineTests, parts: seq<string>, ss: seq<Segment>, rs: seq<Range>, upTo: nat)
  {
    && |ss| == |rs| && (forall k :: 0 <= k < |ss| ==> IsSegment(tests, parts, ss[k], rs[k]))
    && (if rs == [] then upTo == 0 else rs[0].from == 0 && rs[|rs| - 1].to == upTo)
    && (forall k :: 0 < k < |rs| ==> rs[k].from == rs[k - 1].to + 1)
    && (forall k :: 0 < k < |rs| ==> NewSegment(tests, parts, rs[k - 1], rs[k]))
  }

  /** A segment starts at a symbol or list line, or after a symbol line. */
  ghost predicate NewSegment(tests: LineTests, parts: seq<string>, before: Range, r: Range)
  {
    before.from < |parts| && r.from < |parts| &&
    (tests.isSymbol(parts[r.from]) || tests.isList(parts[r.from]) || tests.isSymbol(parts[before.from]))
  }

  lemma {:induction false} ConcatAppend(parts: seq<string>, p: string)
    ensures Concat(parts + [p]) == Concat(parts) + p
  {
    if parts == [] {
      assert [] + [p] == [p] && [p][1..] == [];
    } else {
      ConcatAppend(parts[1..], p);
      assert (parts + [p])[1..] == parts[1..] + [p];
    }
  }

  lemma OneLine(parts: seq<string>, i: nat)
    requires i < |parts|
    ensures Concat(parts[i..i + 1]) == parts[i]
  {
    assert parts[i..i + 1] == [parts[i]] && [parts[i]][1..] == [];
  }

  lemma TwoMore(parts: seq<string>, from: nat, i: nat)
    requires from <= i && i + 1 < |parts|
    ensures Concat(parts[from..i + 2]) == Concat(parts[from..i]) + parts[i] + parts[i + 1]
  {
    ConcatAppend(parts[from..i], parts[i]);
    ConcatAppend(parts[from..i + 1], parts[i + 1]);
    assert parts[from..i] + [parts[i]] == parts[from..i + 1];
    assert parts[from..i + 1] + [parts[i + 1]] == parts[from..i + 2];
  }

  lemma OpenSegment(tests: LineTests, parts: seq<string>, ss: seq<Segment>, rs: seq<Range>, i: nat, isList: bool)
    requires AreSegments(tests, parts, ss, rs, if i == 0 then 0 else i - 1) && i < |parts| && i % 2 == 0 && |parts| % 2 == 1
    requires isList <==> !tests.isSymbol(parts[i]) && tests.isList(parts[i])
    requires rs != [] ==> NewSegment(tests, parts, rs[|rs| - 1], Range(i, i + 1))
    requires rs == [] <==> i == 0
    ensures AreSegments(tests, parts, ss + [Segment(parts[i], |Concat(parts[..i])|, isList)], rs + [Range(i, i + 1)], i + 1)
  {
    hide IsSegment, NewSegment;
    var s, r := Segment(parts[i], |Concat(parts[..i])|, isList), Range(i, i + 1);
    NewLineSegment(tests, parts, i, isList);
    assert forall k :: 0 <= k < |ss| ==> (ss + [s])[k] == ss[k] && (rs + [r])[k] == rs[k];
  }

  lemma NewLineSegment(tests: LineTests, parts: seq<string>, i: nat, isList: bool)
    requires i < |parts| && i % 2 == 0
    requires isList <==> !tests.isSymbol(parts[i]) && tests.isList(parts[i])
    ensures IsSegment(tests, parts, Segment(parts[i], |Concat(parts[..i])|, isList), Range(i, i + 1))
  {
    hide Concat;
    OneLine(parts, i);
  }

  lemma ContinueSegment(tests: LineTests, parts: seq<string>, ss: seq<Segment>, rs: seq<Range>, i: nat)
    requires ss != [] && 0 < i < |parts| && i % 2 == 0 && AreSegments(tests, parts, ss, rs, i - 1)
    requires !tests.isSymbol(parts[i]) && !tests.isList(parts[i]) && !tests.isSymbol(parts[rs[|rs| - 1].from])
    ensures var last, r := ss[|ss| - 1], rs[|rs| - 1];
            AreSegments(tests, parts, ss[..|ss| - 1] + [last.(text := last.text + parts[i - 1] + parts[i])],
                        rs[..|rs| - 1] + [Range(r.from, i + 1)], i + 1)
  {
    hide NewSegment, IsSegment;
    var last, r := ss[|ss| - 1], rs[|rs| - 1];
    var longer, s := Range(r.from, i + 1), last.(text := last.text + parts[i - 1] + parts[i]);
    LongerSegment(tests, parts, last, r, i);
    if |rs| > 1 { SameStart(tests, parts, rs[|rs| - 2], r, longer); }
    var fronts, ends := ss[..|ss| - 1] + [s], rs[..|rs| - 1] + [longer];
    assert forall k :: 0 <= k < |ss| - 1 ==> fronts[k] == ss[k] && ends[k] == rs[k];
  }

  lemma LongerSegment(tests: LineTests, parts: seq<string>, s: Segment, r: Range, i: nat)
    requires IsSegment(tests, parts, s, r) && r.to == i - 1 && 0 < i < |parts| && i % 2 == 0
    requires !tests.isSymbol(parts[i]) && !tests.isList(parts[i]) && !tests.isSymbol(parts[r.from])
    ensures IsSegment(tests, parts, s.(text := s.text + parts[i - 1] + parts[i]), Range(r.from, i + 1))
  {
    hide Concat;
    TwoMore(parts, r.from, i - 1);
  }

  lemma SameStart(tests: LineTests, parts: seq<string>, before: Range, r: Range, longer: Range)
    requires NewSegment(tests, parts, before, r) && longer.from == r.from
    ensures NewSegment(tests, parts, before, longer)
  {
  }

  method SplitSegments(tests: LineTests, text: string) returns (ss: seq<Segment>, ghost rs: seq<Range>)
    ensures ss != [] && AreSegments(tests, Parts(text), ss, rs, |Parts(text)|)
  {
    hide AreSegments, Parts;
    var parts := Parts(text);
    PartsOfText(text);
    // `ss` with the current segment, if any, as its last entry.
    ss, rs := [], [];
    var current := false;
    var offset := 0;
    NoSegments(tests, parts);
    var i := 0;
    while i < |parts|
      invariant 0 <= i <= |parts| + 1 && i % 2 == 0 && offset == |Concat(if i <= |parts| then parts[..i] else parts)|
      invariant AreSegments(tests, parts, ss, rs, if i == 0 then 0 else i - 1)
      invariant ss == [] <==> i == 0
      invariant current ==> ss != []
      invariant |ss| == |rs|
      invariant ss != [] ==> rs[|rs| - 1].from < |parts| && (current <==> !tests.isSymbol(parts[rs[|rs| - 1].from]))
    {
      var line := parts[i];
      if tests.isSymbol(line) {
        assert rs != [] ==> NewSegment(tests, parts, rs[|rs| - 1], Range(i, i + 1));
        OpenSegment(tests, parts, ss, rs, i, false);
        ss, rs := ss + [Segment(line, offset, false)], rs + [Range(i, i + 1)];
        current := false;
      } else if tests.isList(line) || !current {
        assert rs != [] ==> NewSegment(tests, parts, rs[|rs| - 1], Range(i, i + 1));
        OpenSegment(tests, parts, ss, rs, i, tests.isList(line));
        ss, rs := ss + [Segment(line, offset, tests.isList(line))], rs + [Range(i, i + 1)];
        current := true;
      } else {
        ContinueSegment(tests, parts, ss, rs, i);
        var last := ss[|ss| - 1];
        ss := ss[..|ss| - 1] + [last.(text := last.text + parts[i - 1] + line)];
        rs := rs[..|rs| - 1] + [Range(rs[|rs| - 1].from, i + 1)];
      }
      offset := offset + |line| + (if i + 1 < |parts| then |parts[i + 1]| else 0);
      OffsetStep(parts, i);
      i := i + 2;
    }
  }

  lemma NoSegments(tests: LineTests, parts: seq<string>)
    ensures AreSegments(tests, parts, [], [], 0) && Concat(parts[..0]) == ""
  {
  }

  lemma OffsetStep(parts: seq<string>, i: nat)
    requires i < |parts|
    ensures i + 1 < |parts| ==> |Concat(parts[..i + 2])| == |Concat(parts[..i])| + |parts[i]| + |parts[i + 1]|
    ensures i + 1 == |parts| ==> |Concat(parts)| == |Concat(parts[..i])| + |parts[i]|
  {
    if i + 1 < |parts| {
      TwoMore(parts, 0, i);
      assert parts[0..i] == parts[..i] && parts[0..i + 2] == parts[..i + 2];
    } else {
      ConcatAppend(parts[..i], parts[i]);
      assert parts == parts[..i] + [parts[i]];
    }
  }
}
