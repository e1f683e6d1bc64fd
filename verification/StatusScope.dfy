/** The scope of a match: its clause within its segment, widened to the bullets a prose segment introduces. */
module StatusScope {
  import opened Text
  import opened StatusClaims

  // ---------------------------------------------------------------- clauses

  /** The last `;` at or before `pos`, or -1. */
  function LastSemicolon(text: string, pos: nat): (r: int)
    ensures -1 <= r < |text| && r <= pos
    ensures r >= 0 ==> text[r] == ';'
    ensures forall i :: r < i <= pos && i < |text| && 0 <= i ==> text[i] != ';'
    decreases pos
  {
    if pos < |text| && text[pos] == ';' then pos
    else if pos == 0 then -1
    else LastSemicolon(text, pos - 1)
  }

  /** The first `;` at or after `from`, or -1. */
  function NextSemicolon(text: string, from: nat): (r: int)
    ensures r == -1 || (from <= r < |text| && text[r] == ';')
    ensures forall i :: from <= i < |text| && (r == -1 || i < r) ==> text[i] != ';'
    decreases |text| - from
  {
    if from >= |text| then -1
    else if text[from] == ';' then from
    else NextSemicolon(text, from + 1)
  }

  function ClauseStart(text: string, localStart: nat): (n: nat)
    ensures n <= |text|
  {
    LastSemicolon(text, if localStart == 0 then 0 else localStart - 1) + 1
  }

  function ClauseEnd(text: string, localEnd: nat): (n: nat)
    ensures n <= |text|
  {
    var right := NextSemicolon(text, localEnd);
    if right == -1 then |text| else right
  }

  /** The text between the nearest `;` on each side; `slice` of crossed bounds is empty. */
  function ClauseWithin(text: string, localStart: nat, localEnd: nat): (r: string)
  {
    var from, to := ClauseStart(text, localStart), ClauseEnd(text, localEnd);
    if from <= to then text[from..to] else ""
  }

  // ---------------------------------------------------------------- the scope

  /** The first line that is not blank, among the lines of `parts` from index `i` on. */
  function FirstNonBlank(parts: seq<string>, i: nat): (r: Option<string>)
    decreases |parts| - i
  {
    if i >= |parts| then None
    else if Trim(parts[i]) != "" then Some(parts[i])
    else FirstNonBlank(parts, i + 2)
  }

  predicate IsListParagraph(tests: LineTests, text: string)
  {
    var first := FirstNonBlank(Parts(text), 0);
    first.Some? && tests.isList(first.value)
  }

  /** The bullets right after a segment, each on a line of its own. */
  function Bullets(ss: seq<Segment>, i: nat): (r: string)
    decreases |ss| - i
  {
    if i < |ss| && ss[i].isList then "\n" + ss[i].text + Bullets(ss, i + 1) else ""
  }

  function AfterBullets(ss: seq<Segment>, i: nat): (n: nat)
    decreases |ss| - i
  {
    if i < |ss| && ss[i].isList then AfterBullets(ss, i + 1) else i
  }

  function Scope(tests: LineTests, ps: seq<Paragraph>, pi: nat, ss: seq<Segment>, si: nat, localStart: nat, localEnd: nat): (r: string)
    requires pi < |ps| && si < |ss| && ss[si].start <= localStart <= localEnd
  {
    var clause := ClauseWithin(ss[si].text, localStart - ss[si].start, localEnd - ss[si].start);
    if ss[si].isList then clause
    else
      clause + Bullets(ss, si + 1) +
      (if AfterBullets(ss, si + 1) == |ss| && pi + 1 < |ps| && IsListParagraph(tests, ps[pi + 1].text) then "\n" + ps[pi + 1].text else "")
  }

  /** The paragraph a match is looked up in: the last that starts at or before it. */
  ghost predicate IsParagraphOf(ps: seq<Paragraph>, index: nat, pi: nat)
  {
    pi < |ps| && ps[pi].start <= index && (pi + 1 < |ps| ==> index < ps[pi + 1].start)
  }

  ghost predicate IsSegmentOf(ss: seq<Segment>, localStart: nat, si: nat)
  {
    si < |ss| && ss[si].start <= localStart && (si + 1 < |ss| ==> localStart < ss[si + 1].start)
  }

  method ComputeScope(tests: LineTests, content: string, index: nat, length: nat)
    returns (scope: string, ghost ps: seq<Paragraph>, ghost pi: nat, ghost ss: seq<Segment>, ghost rs: seq<Range>, ghost si: nat)
    ensures ps != [] && AreParagraphs(content, ps) && EndOf(ps[|ps| - 1]) == |content|
    ensures IsParagraphOf(ps, index, pi)
    ensures AreSegments(tests, Parts(ps[pi].text), ss, rs, |Parts(ps[pi].text)|)
    ensures IsSegmentOf(ss, index - ps[pi].start, si)
    ensures scope == Scope(tests, ps, pi, ss, si, index - ps[pi].start, index - ps[pi].start + length)
  {
    hide AreParagraphs, AreSegments, ClauseWithin, IsListParagraph;
    var paragraphs := SplitParagraphs(content);
    FirstStarts(content, paragraphs);
    var p := FindParagraph(paragraphs, index);
    var localStart := index - paragraphs[p].start;
    var localEnd := localStart + length;
    var segments, ranges := SplitSegments(tests, paragraphs[p].text);
    FirstSegmentStarts(tests, paragraphs[p].text, segments, ranges);
    var s := FindSegment(segments, localStart);
    ps, pi, ss, rs, si := paragraphs, p, segments, ranges, s;
    var segment := segments[s];
    scope := ClauseWithin(segment.text, localStart - segment.start, localEnd - segment.start);
    if segment.isList { return; }
    ghost var clause := scope;
    var i := s + 1;
    while i < |segments| && segments[i].isList
      invariant s + 1 <= i <= |segments|
      invariant clause + Bullets(segments, s + 1) == scope + Bullets(segments, i)
      invariant AfterBullets(segments, s + 1) == AfterBullets(segments, i)
    {
      scope := scope + ("\n" + segments[i].text);
      i := i + 1;
    }
    if i == |segments| && p + 1 < |paragraphs| && IsListParagraph(tests, paragraphs[p + 1].text) {
      scope := scope + ("\n" + paragraphs[p + 1].text);
    }
  }

  lemma FirstStarts(content: string, ps: seq<Paragraph>)
    requires ps != [] && AreParagraphs(content, ps)
    ensures ps[0].start == 0
  {
  }

  lemma FirstSegmentStarts(tests: LineTests, text: string, ss: seq<Segment>, rs: seq<Range>)
    requires ss != [] && AreSegments(tests, Parts(text), ss, rs, |Parts(text)|)
    ensures ss[0].start == 0
  {
    hide Parts;
    assert IsSegment(tests, Parts(text), ss[0], rs[0]);
    assert Parts(text)[..0] == [];
  }

  method FindParagraph(ps: seq<Paragraph>, index: nat) returns (pi: nat)
    requires ps != [] && ps[0].start == 0
    ensures IsParagraphOf(ps, index, pi)
  {
    pi := 0;
    while pi + 1 < |ps| && !(index < ps[pi + 1].start)
      invariant pi < |ps| && ps[pi].start <= index
    {
      pi := pi + 1;
    }
  }

  method FindSegment(ss: seq<Segment>, localStart: nat) returns (si: nat)
    requires ss != [] && ss[0].start == 0
    ensures IsSegmentOf(ss, localStart, si)
  {
    si := |ss| - 1;
    while si > 0 && ss[si].start > localStart
      invariant 0 <= si < |ss|
      invariant si + 1 < |ss| ==> localStart < ss[si + 1].start
    {
      si := si - 1;
    }
  }

  // ---------------------------------------------------------------- exact offsets

  lemma {:induction false} ConcatSplit(xs: seq<string>, ys: seq<string>)
    ensures Concat(xs + ys) == Concat(xs) + Concat(ys)
  {
    if xs == [] {
      assert xs + ys == ys;
    } else {
      ConcatSplit(xs[1..], ys);
      assert (xs + ys)[1..] == xs[1..] + ys;
      assert Concat(xs + ys) == xs[0] + Concat(xs[1..] + ys);
      assert xs[0] + (Concat(xs[1..]) + Concat(ys)) == xs[0] + Concat(xs[1..]) + Concat(ys);
    }
  }

  /** A stretch of parts is the slice at the length of what precedes it. */
  lemma StretchIsSlice(parts: seq<string>, a: nat, b: nat)
    requires a <= b <= |parts|
    ensures var from := |Concat(parts[..a])|; var to := from + |Concat(parts[a..b])|;
            && to == |Concat(parts[..b])| <= |Concat(parts)|
            && Concat(parts)[from..to] == Concat(parts[a..b])
  {
    hide Concat;
    ConcatSplit(parts[..a], parts[a..b]);
    assert parts[..a] + parts[a..b] == parts[..b];
    ConcatSplit(parts[..b], parts[b..]);
    assert parts[..b] + parts[b..] == parts;
  }

  function SegmentEnd(s: Segment): (n: nat) { s.start + |s.text| }

  /** Every segment is the slice at its recorded start; one line end lies between neighbours; the last ends the text. */
  lemma SegmentsAreSlices(tests: LineTests, text: string, ss: seq<Segment>, rs: seq<Range>, k: nat)
    requires AreSegments(tests, Parts(text), ss, rs, |Parts(text)|) && k < |ss|
    ensures SegmentEnd(ss[k]) <= |text| && text[ss[k].start..SegmentEnd(ss[k])] == ss[k].text
    ensures k + 1 < |ss| ==> SegmentEnd(ss[k]) < ss[k + 1].start <= |text| && IsTerminator(text[SegmentEnd(ss[k])..ss[k + 1].start])
    ensures k + 1 == |ss| ==> SegmentEnd(ss[k]) == |text|
  {
    hide Parts, Concat, IsTerminator, NewSegment;
    var parts := Parts(text);
    PartsOfText(text);
    var r := rs[k];
    assert IsSegment(tests, parts, ss[k], r);
    StretchIsSlice(parts, r.from, r.to);
    if k + 1 < |ss| {
      assert IsSegment(tests, parts, ss[k + 1], rs[k + 1]);
      assert rs[k + 1].from == r.to + 1;
      StretchIsSlice(parts, r.to, r.to + 1);
      OneLine(parts, r.to);
      assert IsTerminator(parts[r.to]);
      TerminatorIsNonEmpty(parts[r.to]);
    } else {
      assert parts[..|parts|] == parts;
    }
  }

  lemma TerminatorIsNonEmpty(s: string)
    requires IsTerminator(s)
    ensures s != "" && forall i :: 0 <= i < |s| ==> s[i] == '\r' || s[i] == '\n'
  {
  }

  /** A list segment is one bullet: its first line is the only list or symbol line in it. */
  lemma ListSegmentIsOneBullet(tests: LineTests, text: string, ss: seq<Segment>, rs: seq<Range>, k: nat)
    requires AreSegments(tests, Parts(text), ss, rs, |Parts(text)|) && k < |ss| && ss[k].isList
    ensures rs[k].from < rs[k].to <= |Parts(text)| && tests.isList(Parts(text)[rs[k].from])
    ensures forall i :: rs[k].from < i < rs[k].to && i % 2 == 0 ==> !tests.isList(Parts(text)[i]) && !tests.isSymbol(Parts(text)[i])
  {
    hide Parts, Concat;
    assert IsSegment(tests, Parts(text), ss[k], rs[k]);
  }

  // ---------------------------------------------------------------- the scope holds the match

  ghost predicate Contains(s: string, part: string) { exists i :: At(s, part, i) }

  /** A match with no `;` lies inside its clause. */
  lemma ClauseHoldsMatch(text: string, localStart: nat, localEnd: nat)
    requires localStart < localEnd <= |text| && ';' !in text[localStart..localEnd]
    ensures ClauseStart(text, localStart) <= localStart && localEnd <= ClauseEnd(text, localEnd)
    ensures Contains(ClauseWithin(text, localStart, localEnd), text[localStart..localEnd])
  {
    hide LastSemicolon, NextSemicolon, Contains;
    ClauseBounds(text, localStart, localEnd);
    SliceContains(text, ClauseStart(text, localStart), ClauseEnd(text, localEnd), localStart, localEnd);
  }

  lemma ClauseBounds(text: string, localStart: nat, localEnd: nat)
    requires localStart < localEnd <= |text| && ';' !in text[localStart..localEnd]
    ensures ClauseStart(text, localStart) <= localStart && localEnd <= ClauseEnd(text, localEnd)
  {
    hide LastSemicolon, NextSemicolon;
    assert text[localStart] == text[localStart..localEnd][0];
  }

  lemma SliceOfSlice(text: string, from: nat, to: nat, a: nat, b: nat)
    requires from <= a <= b <= to <= |text|
    ensures text[from..to][a - from..b - from] == text[a..b]
  {
    var outer := text[from..to];
    var inner := outer[a - from..b - from];
    forall i | 0 <= i < b - a ensures inner[i] == text[a..b][i] {
      assert inner[i] == outer[a - from + i] == text[a + i];
    }
  }

  lemma SliceContains(text: string, from: nat, to: nat, a: nat, b: nat)
    requires from <= a <= b <= to <= |text|
    ensures Contains(text[from..to], text[a..b])
  {
    SliceOfSlice(text, from, to, a, b);
    assert At(text[from..to], text[a..b], a - from);
  }

  /** A match with no line end that starts in a segment's part of the text ends in the segment. */
  lemma MatchStaysInSegment(tests: LineTests, text: string, ss: seq<Segment>, rs: seq<Range>, si: nat, localStart: nat, localEnd: nat)
    requires AreSegments(tests, Parts(text), ss, rs, |Parts(text)|) && IsSegmentOf(ss, localStart, si)
    requires localStart < localEnd <= |text|
    requires forall i :: localStart <= i < localEnd ==> text[i] != '\n' && text[i] != '\r'
    ensures localEnd <= SegmentEnd(ss[si])
    ensures ss[si].text[localStart - ss[si].start..localEnd - ss[si].start] == text[localStart..localEnd]
  {
    hide AreSegments, Parts, IsTerminator;
    SegmentsAreSlices(tests, text, ss, rs, si);
    var end := SegmentEnd(ss[si]);
    if si + 1 < |ss| {
      var gap := text[end..ss[si + 1].start];
      TerminatorIsNonEmpty(gap);
      assert forall i :: end <= i < ss[si + 1].start ==> text[i] == gap[i - end];
      var at := if localStart < end then end else localStart;
      assert text[at] == '\r' || text[at] == '\n';
    }
    SliceOfSlice(text, ss[si].start, end, localStart, localEnd);
  }

  lemma ContainsInLonger(a: string, b: string, part: string)
    requires Contains(a, part)
    ensures Contains(a + b, part)
  {
    var i :| At(a, part, i);
    assert (a + b)[i..i + |part|] == a[i..i + |part|];
    assert At(a + b, part, i);
  }

  /**
    * For every match with no line end and no `;` that lies in a paragraph, the scope contains the match; when the
    * match is in a bullet, the scope is a piece of that one bullet.
    */
  lemma ScopeContainsMatch(
    tests: LineTests, content: string, index: nat, length: nat,
    ps: seq<Paragraph>, pi: nat, ss: seq<Segment>, rs: seq<Range>, si: nat)
    requires AreParagraphs(content, ps) && IsParagraphOf(ps, index, pi)
    requires AreSegments(tests, Parts(ps[pi].text), ss, rs, |Parts(ps[pi].text)|) && IsSegmentOf(ss, index - ps[pi].start, si)
    requires length > 0 && index + length <= EndOf(ps[pi])
    requires forall i :: index <= i < index + length && i < |content| ==> content[i] != '\n' && content[i] != '\r' && content[i] != ';'
    ensures index + length <= |content|
    ensures var scope := Scope(tests, ps, pi, ss, si, index - ps[pi].start, index - ps[pi].start + length);
            && Contains(scope, content[index..index + length])
            && (ss[si].isList ==> Contains(ss[si].text, scope))
  {
    hide AreSegments, Parts, ClauseWithin, Bullets, AfterBullets, IsListParagraph, Contains;
    var p, segment := ps[pi], ss[si];
    assert IsParagraph(content, p);
    var localStart, localEnd := index - p.start, index - p.start + length;
    assert forall i :: localStart <= i < localEnd ==> p.text[i] == content[p.start + i];
    assert p.text[localStart..localEnd] == content[index..index + length];
    MatchStaysInSegment(tests, p.text, ss, rs, si, localStart, localEnd);
    var from, to := localStart - segment.start, localEnd - segment.start;
    var part := segment.text[from..to];
    assert forall i :: 0 <= i < |part| ==> part[i] == content[index + i];
    ClauseHoldsMatch(segment.text, from, to);
    var clause := ClauseWithin(segment.text, from, to);
    ClauseIsPiece(segment.text, from, to);
    var scope := Scope(tests, ps, pi, ss, si, localStart, localEnd);
    assert clause <= scope by { assert scope[..|clause|] == clause; }
    ContainsInLonger(clause, scope[|clause|..], part);
    assert clause + scope[|clause|..] == scope;
  }

  lemma ClauseIsPiece(text: string, localStart: nat, localEnd: nat)
    ensures Contains(text, ClauseWithin(text, localStart, localEnd))
  {
    var from, to := ClauseStart(text, localStart), ClauseEnd(text, localEnd);
    if from <= to {
      assert At(text, ClauseWithin(text, localStart, localEnd), from);
    } else {
      assert At(text, "", 0);
    }
  }

  // ---------------------------------------------------------------- paragraphs are determined

  /** There is only one way to cut a page into paragraphs like that. */
  lemma {:induction false} ParagraphsAreUnique(content: string, ps: seq<Paragraph>, qs: seq<Paragraph>, i: nat)
    requires AreParagraphs(content, ps) && AreParagraphs(content, qs) && i < |ps| && i < |qs|
    requires EndOf(ps[|ps| - 1]) == |content| && EndOf(qs[|qs| - 1]) == |content|
    ensures ps[i] == qs[i]
    ensures (i + 1 == |ps|) == (i + 1 == |qs|)
  {
    hide BlankLen;
    var p, q := ps[i], qs[i];
    if i > 0 {
      ParagraphsAreUnique(content, ps, qs, i - 1);
      assert Follows(content, ps[i - 1], p) && Follows(content, qs[i - 1], q);
    }
    assert p.start == q.start;
    assert IsParagraph(content, p) && IsParagraph(content, q);
    EndsAtBlank(content, ps, i);
    EndsAtBlank(content, qs, i);
    assert EndOf(p) == EndOf(q);
    NoBlankAtEnd(content);
    if i + 1 < |ps| { assert Follows(content, p, ps[i + 1]); }
    if i + 1 < |qs| { assert Follows(content, q, qs[i + 1]); }
  }

  /** A paragraph ends at a blank line or at the end of the page. */
  lemma EndsAtBlank(content: string, ps: seq<Paragraph>, i: nat)
    requires AreParagraphs(content, ps) && i < |ps| && EndOf(ps[|ps| - 1]) == |content|
    ensures EndOf(ps[i]) == |content| || BlankAt(content, EndOf(ps[i]))
  {
    hide BlankAt;
    if i + 1 < |ps| { assert Follows(content, ps[i], ps[i + 1]); }
  }

  lemma NoBlankAtEnd(content: string)
    ensures !BlankAt(content, |content|)
  {
  }

  /** Every line end is a CRLF. */
  predicate OnlyCrlf(content: string)
  {
    forall i :: 0 <= i < |content| && content[i] == '\n' ==> i > 0 && content[i - 1] == '\r'
  }

  /** The blank-line pattern knows LF only: a page with CRLF line ends is one paragraph, however many blank lines it has. */
  lemma CrlfPageIsOneParagraph(content: string, ps: seq<Paragraph>)
    requires OnlyCrlf(content) && ps != [] && AreParagraphs(content, ps)
    ensures |ps| == 1
  {
    if |ps| > 1 {
      assert Follows(content, ps[0], ps[1]);
      NoBlankLine(content, EndOf(ps[0]));
    }
  }

  lemma NoBlankLine(content: string, i: nat)
    requires OnlyCrlf(content) && i <= |content|
    ensures !BlankAt(content, i)
  {
    var s := content[i..];
    if s != "" && s[0] == '\n' {
      var j := 1 + SpacesLen(s[1..]);
      assert j < |s| ==> s[j - 1] == content[i + j - 1] && s[j] == content[i + j];
      assert forall k :: 0 <= k < j - 1 ==> s[1..][k] == s[k + 1];
    }
  }

  // ---------------------------------------------------------------- which line ends separate paragraphs

  predicate IsBlank(c: char) { c == ' ' || c == '\t' }

  /** Two newlines with nothing but spaces and tabs between them. */
  ghost predicate OnlyBlanksBetween(content: string, i: nat, j: nat)
  {
    i < j < |content| && content[i] == '\n' && content[j] == '\n' && forall k :: i < k < j ==> IsBlank(content[k])
  }

  lemma {:induction false} SpacesEnd(s: string)
    ensures var n := SpacesLen(s); n < |s| ==> !IsBlank(s[n])
  {
    if s != "" && IsBlank(s[0]) { SpacesEnd(s[1..]); }
  }

  /** Paragraphs are cut at a newline that only spaces and tabs separate from a later one: a `\r` between them prevents it. */
  lemma BlankAtMeans(content: string, i: nat)
    ensures BlankAt(content, i) <==> exists j :: OnlyBlanksBetween(content, i, j)
  {
    if i < |content| && content[i] == '\n' {
      var s := content[i..];
      var rest := s[1..];
      var n := SpacesLen(rest);
      SpacesEnd(rest);
      assert forall k :: 0 <= k < |rest| ==> rest[k] == content[i + 1 + k];
      if BlankAt(content, i) {
        assert s[n + 1] == content[i + 1 + n];
        assert OnlyBlanksBetween(content, i, i + 1 + n);
      }
      if j: nat :| OnlyBlanksBetween(content, i, j) {
        assert rest[j - i - 1] == '\n';
        assert n <= j - i - 1;
        assert n < |rest| && rest[n] == content[i + 1 + n];
        assert s[n + 1] == '\n';
      }
    }
  }

  ghost predicate Within(p: Paragraph, x: nat) { p.start <= x < EndOf(p) }

  lemma {:induction false} LaterStartsLater(content: string, ps: seq<Paragraph>, a: nat, b: nat)
    requires AreParagraphs(content, ps) && a < b < |ps|
    ensures EndOf(ps[a]) < ps[b].start
  {
    hide BlankLen;
    assert Follows(content, ps[b - 1], ps[b]);
    if a < b - 1 { LaterStartsLater(content, ps, a, b - 1); }
  }

  /**
    * For every page, whatever its line ends: two places in paragraphs are in the same one exactly when between them
    * there are no two newlines with only spaces and tabs between.
    */
  lemma SameParagraphMeans(content: string, ps: seq<Paragraph>, a: nat, x: nat, b: nat, y: nat)
    requires AreParagraphs(content, ps) && a < |ps| && b < |ps| && Within(ps[a], x) && Within(ps[b], y) && x <= y
    ensures a == b <==> !exists i, j :: x <= i < y && OnlyBlanksBetween(content, i, j)
  {
    hide BlankAt, OnlyBlanksBetween;
    forall i: nat ensures BlankAt(content, i) <==> exists j :: OnlyBlanksBetween(content, i, j) { BlankAtMeans(content, i); }
    if a == b {
      assert IsParagraph(content, ps[a]);
      forall i: nat, j: nat | x <= i < y ensures !OnlyBlanksBetween(content, i, j) { assert !BlankAt(content, i); }
    } else if a < b {
      assert Follows(content, ps[a], ps[a + 1]);
      LaterStartsLater(content, ps, a, b);
      var j :| OnlyBlanksBetween(content, EndOf(ps[a]), j);
      assert x <= EndOf(ps[a]) < y;
    } else {
      LaterStartsLater(content, ps, b, a);
      assert false;
    }
  }

  // ---------------------------------------------------------------- a page and its LF twin

  /** The page with each CRLF made an LF. */
  function Lf(s: string): (r: string)
    decreases |s|
  {
    if s == "" then ""
    else if s[0] == '\r' && |s| > 1 && s[1] == '\n' then "\n" + Lf(s[2..])
    else [s[0]] + Lf(s[1..])
  }

  /** A line of nothing but spaces and tabs, with its CRLF, comes first. */
  predicate BlankCrlfLine(s: string)
  {
    var n := SpacesLen(s);
    n + 1 < |s| && s[n] == '\r' && s[n + 1] == '\n'
  }

  predicate BlankCrlfAt(s: string, i: nat) { i < |s| && s[i] == '\n' && BlankCrlfLine(s[i + 1..]) }

  /** The page has a blank line between two of its line ends. */
  ghost predicate HasBlankCrlf(s: string) { exists i :: BlankCrlfAt(s, i) }

  ghost predicate HasBlank(s: string) { exists i :: BlankAt(s, i) }

  lemma BlankInFront(c: char, s: string)
    ensures HasBlank([c] + s) <==> BlankLen([c] + s) > 0 || HasBlank(s)
  {
    hide BlankLen;
    var whole := [c] + s;
    assert whole[0..] == whole;
    forall i: nat ensures i > 0 ==> (BlankAt(whole, i) <==> BlankAt(s, i - 1)) {
      if 0 < i <= |whole| { assert whole[i..] == s[i - 1..]; }
    }
    if BlankLen(whole) > 0 { assert BlankAt(whole, 0); }
    if HasBlank(s) {
      var i: nat :| BlankAt(s, i);
      assert BlankAt(whole, i + 1);
    }
  }

  lemma BlankCrlfInFront(c: char, s: string)
    ensures HasBlankCrlf([c] + s) <==> (c == '\n' && BlankCrlfLine(s)) || HasBlankCrlf(s)
  {
    hide BlankCrlfLine;
    var whole := [c] + s;
    assert whole[1..] == s;
    forall i: nat ensures i > 0 ==> (BlankCrlfAt(whole, i) <==> BlankCrlfAt(s, i - 1)) {
      if 0 < i < |whole| { assert whole[i + 1..] == s[i..]; }
    }
    if c == '\n' && BlankCrlfLine(s) { assert BlankCrlfAt(whole, 0); }
    if HasBlankCrlf(s) {
      var i: nat :| BlankCrlfAt(s, i);
      assert BlankCrlfAt(whole, i + 1);
    }
  }

  /** After a line end, the twin goes on with a blank line exactly when the page does. */
  lemma {:induction false} BlankAfterEnd(s: string)
    requires OnlyCrlf(s)
    ensures BlankLen("\n" + Lf(s)) > 0 <==> BlankCrlfLine(s)
    decreases |s|
  {
    var t := "\n" + Lf(s);
    assert t[1..] == Lf(s);
    if s != "" && IsBlank(s[0]) {
      BlankAfterEnd(s[1..]);
      var u := "\n" + Lf(s[1..]);
      assert u[1..] == Lf(s[1..]) && Lf(s)[1..] == Lf(s[1..]);
      var n := SpacesLen(Lf(s[1..]));
      assert SpacesLen(Lf(s)) == n + 1;
      assert forall k :: 1 <= k < |u| ==> u[k] == t[k + 1];
      BlankLenMeans(t);
      BlankLenMeans(u);
    } else {
      BlankLenMeans(t);
      assert SpacesLen(Lf(s)) == 0;
    }
  }

  lemma BlankLenMeans(s: string)
    requires s != "" && s[0] == '\n'
    ensures BlankLen(s) > 0 <==> var j := 1 + SpacesLen(s[1..]); j < |s| && s[j] == '\n'
  {
  }

  /** The twin has a blank line exactly when the page has one. */
  lemma {:induction false} TwinBlanks(s: string)
    requires OnlyCrlf(s)
    ensures HasBlank(Lf(s)) <==> HasBlankCrlf(s)
    decreases |s|
  {
    hide BlankLen, BlankCrlfLine, HasBlank, HasBlankCrlf;
    if s == "" {
      NothingBlank();
    } else if s[0] == '\r' && |s| > 1 && s[1] == '\n' {
      var rest := s[2..];
      assert OnlyCrlf(rest) by { assert forall i :: 0 <= i < |rest| ==> rest[i] == s[i + 2]; }
      TwinBlanks(rest);
      BlankAfterEnd(rest);
      BlankInFront('\n', Lf(rest));
      BlankCrlfInFront('\n', rest);
      BlankCrlfInFront('\r', "\n" + rest);
      assert s == ['\r'] + (['\n'] + rest);
    } else {
      var rest := s[1..];
      assert OnlyCrlf(rest) by { assert forall i :: 0 <= i < |rest| ==> rest[i] == s[i + 1]; }
      TwinBlanks(rest);
      BlankInFront(s[0], Lf(rest));
      BlankCrlfInFront(s[0], rest);
      NotNewline(s[0], Lf(rest));
      assert s == [s[0]] + rest;
    }
  }

  lemma NothingBlank()
    ensures !HasBlank("") && !HasBlankCrlf("")
  {
  }

  lemma NotNewline(c: char, s: string)
    requires c != '\n'
    ensures BlankLen([c] + s) == 0
  {
  }

  /** The paragraphs of the page and of its twin are the same but for the line ends. */
  ghost predicate CutAlike(ps: seq<Paragraph>, qs: seq<Paragraph>)
  {
    |ps| == |qs| && forall i :: 0 <= i < |ps| ==> Lf(ps[i].text) == qs[i].text
  }

  /** A page whose line ends are all CRLF is cut like its LF twin exactly when it has no blank line. */
  lemma CrlfPageIsCutAlike(content: string, ps: seq<Paragraph>, qs: seq<Paragraph>)
    requires OnlyCrlf(content)
    requires ps != [] && AreParagraphs(content, ps) && EndOf(ps[|ps| - 1]) == |content|
    requires qs != [] && AreParagraphs(Lf(content), qs) && EndOf(qs[|qs| - 1]) == |Lf(content)|
    ensures CutAlike(ps, qs) <==> !HasBlankCrlf(content)
  {
    hide BlankLen, Lf, HasBlankCrlf;
    CrlfPageIsOneParagraph(content, ps);
    OneParagraphMeans(content, ps);
    OneParagraphMeans(Lf(content), qs);
    TwinBlanks(content);
  }

  lemma OneParagraphMeans(content: string, ps: seq<Paragraph>)
    requires ps != [] && AreParagraphs(content, ps) && EndOf(ps[|ps| - 1]) == |content|
    ensures |ps| == 1 <==> !HasBlank(content)
    ensures |ps| == 1 ==> ps[0].text == content
  {
    hide BlankLen;
    assert IsParagraph(content, ps[0]);
    if |ps| == 1 {
      assert content[0..|content|] == content;
      NoBlankAtEnd(content);
    } else {
      assert Follows(content, ps[0], ps[1]);
    }
  }

  /** The page `a`, blank line, `b`: two paragraphs with LF, one with CRLF. */
  lemma CrlfInput()
    ensures Lf("a\r\n\r\nb") == "a\n\nb" && OnlyCrlf("a\r\n\r\nb")
    ensures AreParagraphs("a\r\n\r\nb", [Paragraph("a\r\n\r\nb", 0)])
    ensures AreParagraphs("a\n\nb", [Paragraph("a", 0), Paragraph("b", 3)])
  {
    hide BlankLen;
    var page := "a\r\n\r\nb";
    assert page[1..] == "\r\n\r\nb" && page[1..][2..] == "\r\nb" && page[1..][2..][2..] == "b" && "b"[1..] == "";
    assert Lf("\r\nb") == "\n" + "b";
    assert Lf("\r\n\r\nb") == "\n" + "\nb";
    forall i: nat ensures !BlankAt(page, i) { if i <= |page| { NoBlankLine(page, i); } }
    assert page[0..6] == page;
    LfInput();
  }

  lemma LfInput()
    ensures AreParagraphs("a\n\nb", [Paragraph("a", 0), Paragraph("b", 3)])
  {
    var twin := "a\n\nb";
    assert twin[0..1] == "a" && twin[3..4] == "b" && twin[0..] == twin && twin[1..] == "\n\nb" && twin[3..] == "b";
    assert "\n\nb"[1..] == "\nb" && "\nb"[1..] == "b";
    assert NewlinesLen("b") == 0 && NewlinesLen("\nb") == 1;
    assert BlankLen("\n\nb") == 2;
  }
}
