/**
  * The pieces a page is cut into, read off the text alone: blank lines, lines with their ends, the clause of a match and
  * the paragraphs that open with a list line.
  */
module StatusRules {
  import opened Text
  import opened StatusClaims
  import opened StatusScope

  // ---------------------------------------------------------------- blank lines

  ghost predicate AllBlank(s: string) { forall i :: 0 <= i < |s| ==> s[i] == ' ' || s[i] == '\t' }

  ghost predicate AllNewlines(s: string) { forall i :: 0 <= i < |s| ==> s[i] == '\n' }

  lemma {:induction false} SpacesAreTaken(blanks: string, rest: string)
    requires AllBlank(blanks) && (rest == "" || (rest[0] != ' ' && rest[0] != '\t'))
    ensures SpacesLen(blanks + rest) == |blanks|
  {
    if blanks == "" {
      assert blanks + rest == rest;
    } else {
      SpacesAreTaken(blanks[1..], rest);
      assert (blanks + rest)[1..] == blanks[1..] + rest;
    }
  }

  lemma {:induction false} NewlinesAreTaken(newlines: string, rest: string)
    requires AllNewlines(newlines) && (rest == "" || rest[0] != '\n')
    ensures NewlinesLen(newlines + rest) == |newlines|
  {
    if newlines == "" {
      assert newlines + rest == rest;
    } else {
      NewlinesAreTaken(newlines[1..], rest);
      assert (newlines + rest)[1..] == newlines[1..] + rest;
    }
  }

  /** A newline, any spaces and tabs, and all the newlines that follow, at least one, are one paragraph break. */
  lemma BreakIsTaken(blanks: string, newlines: string, rest: string)
    requires AllBlank(blanks) && AllNewlines(newlines) && newlines != "" && (rest == "" || rest[0] != '\n')
    ensures BlankLen("\n" + blanks + newlines + rest) == |"\n" + blanks + newlines|
  {
    hide SpacesLen, NewlinesLen;
    var s := "\n" + blanks + newlines + rest;
    assert s[1..] == blanks + (newlines + rest);
    SpacesAreTaken(blanks, newlines + rest);
    var j := 1 + |blanks|;
    assert s[j..] == newlines + rest && s[j] == newlines[0];
    NewlinesAreTaken(newlines, rest);
  }

  ghost predicate IsBreak(s: string, blanks: string, newlines: string, rest: string)
  {
    && AllBlank(blanks) && AllNewlines(newlines) && newlines != "" && (rest == "" || rest[0] != '\n')
    && s == "\n" + blanks + newlines + rest
  }

  /** Nothing else is one. */
  lemma BreakMeans(s: string)
    ensures BlankLen(s) > 0 <==> exists blanks, newlines, rest :: IsBreak(s, blanks, newlines, rest)
  {
    hide SpacesLen, NewlinesLen, AllBlank, AllNewlines;
    if BlankLen(s) > 0 {
      var after := s[1..];
      var j := SpacesLen(after);
      var tail := after[j..];
      var blanks, newlines, rest := after[..j], tail[..NewlinesLen(tail)], tail[NewlinesLen(tail)..];
      assert s[1 + j..] == tail && tail[0] == '\n';
      NewlinesEnd(tail);
      assert AllBlank(blanks) by { BlanksBefore(after); }
      assert tail == newlines + rest && s == "\n" + blanks + newlines + rest;
      assert IsBreak(s, blanks, newlines, rest);
    }
    if blanks, newlines, rest :| IsBreak(s, blanks, newlines, rest) { BreakIsTaken(blanks, newlines, rest); }
  }

  lemma BlanksBefore(s: string)
    ensures AllBlank(s[..SpacesLen(s)])
  {
    hide SpacesLen;
  }

  lemma {:induction false} NewlinesEnd(s: string)
    ensures var n := NewlinesLen(s);
            AllNewlines(s[..n]) && (n == |s| || s[n] != '\n') && (s != "" && s[0] == '\n' ==> n > 0)
  {
    if s != "" && s[0] == '\n' {
      NewlinesEnd(s[1..]);
      var n := NewlinesLen(s);
      assert forall i :: 1 <= i < n ==> s[i] == s[1..][..n - 1][i - 1];
    }
  }

  // ---------------------------------------------------------------- lines

  /** Lines and line ends in turn: no line holds a newline, and a `\r` before a newline belongs to the line end. */
  ghost predicate AreLinesAndEnds(parts: seq<string>)
  {
    && |parts| % 2 == 1
    && (forall i :: 0 <= i < |parts| && i % 2 == 0 ==> '\n' !in parts[i])
    && (forall i :: 0 <= i < |parts| && i % 2 == 1 ==> parts[i] == "\r\n" || (parts[i] == "\n" && !EndsInCr(parts[i - 1])))
  }

  ghost predicate EndsInCr(line: string) { line != "" && line[|line| - 1] == '\r' }

  lemma CutStep(s: string)
    requires s != "" && s[0] != '\n' && !(s[0] == '\r' && |s| > 1 && s[1] == '\n')
    ensures var c := CutLine(s[1..]); CutLine(s) == Cut([s[0]] + c.line, c.terminator, c.rest)
  {
  }

  lemma EndIsCut(end: string, rest: string)
    requires end == "\r\n" || end == "\n"
    ensures CutLine(end + rest) == Cut("", end, rest)
  {
    var s := end + rest;
    assert s[|end|..] == rest;
  }

  lemma {:induction false} LineIsCut(line: string, end: string, rest: string)
    requires '\n' !in line && (end == "\r\n" || (end == "\n" && !EndsInCr(line)))
    ensures CutLine(line + end + rest) == Cut(line, end, rest)
  {
    hide CutLine;
    var s := line + end + rest;
    if line == "" {
      EndIsCut(end, rest);
      assert s == end + rest;
    } else {
      var tail := line[1..];
      assert EndsInCr(tail) ==> EndsInCr(line);
      LineIsCut(tail, end, rest);
      assert s[1..] == tail + end + rest && s[0] == line[0] && line[0] in line;
      assert s[1] == if |line| == 1 then end[0] else line[1];
      CutStep(s);
      assert [line[0]] + tail == line;
    }
  }

  lemma {:induction false} LastLineIsCut(line: string)
    requires '\n' !in line
    ensures CutLine(line) == Cut(line, "", "")
  {
    if line != "" {
      LastLineIsCut(line[1..]);
      assert line[0] in line && (|line| > 1 ==> line[1] in line);
      assert [line[0]] + line[1..] == line;
    }
  }

  /** There is one way to cut a text into lines and line ends. */
  lemma {:induction false} PartsAreUnique(parts: seq<string>)
    requires AreLinesAndEnds(parts)
    ensures Parts(Concat(parts)) == parts
    decreases |parts|
  {
    hide CutLine, Concat, EndsInCr;
    if |parts| == 1 {
      assert parts == [parts[0]];
      ConcatOne(parts[0]);
      LastLineIsCut(parts[0]);
    } else {
      var rest := parts[2..];
      forall i | 0 <= i < |rest| ensures rest[i] == parts[i + 2] { }
      assert AreLinesAndEnds(rest) by {
        forall i | 0 <= i < |rest| && i % 2 == 1
          ensures rest[i] == "\r\n" || (rest[i] == "\n" && !EndsInCr(rest[i - 1]))
        {
          assert rest[i] == parts[i + 2] && rest[i - 1] == parts[i + 1];
          assert (i + 2) % 2 == 1;
        }
      }
      PartsAreUnique(rest);
      assert parts == [parts[0], parts[1]] + rest;
      ConcatTwo(parts[0], parts[1], rest);
      assert !EndsInCr(parts[1 - 1]) || parts[1] == "\r\n";
      LineIsCut(parts[0], parts[1], Concat(rest));
    }
  }

  /** And it is that one. */
  lemma {:induction false} PartsAreLinesAndEnds(s: string)
    ensures AreLinesAndEnds(Parts(s)) && Concat(Parts(s)) == s
    decreases |s|
  {
    hide CutLine, Concat, EndsInCr;
    PartsOfText(s);
    var c := CutLine(s);
    CutEnds(s);
    if c.terminator != "" {
      CutLineText(s);
      PartsAreLinesAndEnds(c.rest);
      var parts, rest := Parts(s), Parts(c.rest);
      assert parts == [c.line, c.terminator] + rest;
      forall i | 0 <= i < |parts| && i % 2 == 1
        ensures parts[i] == "\r\n" || (parts[i] == "\n" && !EndsInCr(parts[i - 1]))
      {
        if i > 1 { assert parts[i] == rest[i - 2] && parts[i - 1] == rest[i - 3] && (i - 2) % 2 == 1; }
      }
    }
  }

  lemma {:induction false} CutEnds(s: string)
    ensures var c := CutLine(s); c.terminator == "\n" ==> !EndsInCr(c.line)
    ensures CutLine(s).terminator in {"", "\n", "\r\n"}
  {
    if s != "" && s[0] != '\n' && !(s[0] == '\r' && |s| > 1 && s[1] == '\n') {
      CutEnds(s[1..]);
      var c := CutLine(s[1..]);
      assert CutLine(s) == Cut([s[0]] + c.line, c.terminator, c.rest);
      if c.line == "" && c.terminator == "\n" { NewlineFirst(s[1..]); }
    }
  }

  lemma NewlineFirst(s: string)
    requires CutLine(s).line == "" && CutLine(s).terminator == "\n"
    ensures s != "" && s[0] == '\n'
  {
  }

  // ---------------------------------------------------------------- the clause of a match

  /** From the last `;` before the match, or the start, to the first one behind it, or the end. */
  lemma ClauseIs(left: string, before: string, m: string, behind: string, right: string)
    requires ';' !in before && ';' !in behind && m != ""
    requires (left == "" || left[|left| - 1] == ';') && (right == "" || right[0] == ';')
    requires left + before == "" ==> m[0] != ';'
    ensures var start := |left + before|;
            ClauseWithin(left + before + m + behind + right, start, start + |m|) == before + m + behind
  {
    var text := left + before + m + behind + right;
    InFive(left, before, m, behind, right);
    ClauseStarts(left, before, m + (behind + right));
    ClauseEnds(left + before + m, behind, right);
    hide ClauseStart, ClauseEnd;
    assert ClauseStart(text, |left + before|) == |left| && ClauseEnd(text, |left + before| + |m|) == |left + before + m + behind|;
  }

  lemma InFive(left: string, before: string, m: string, behind: string, right: string)
    ensures var text := left + before + m + behind + right;
            && text == left + before + (m + (behind + right)) && text == left + before + m + (behind + right)
            && |text| >= |left + before + m + behind| && text[|left|..|left + before + m + behind|] == before + m + behind
  {
    var text := left + before + m + behind + right;
    assert text == left + before + m + (behind + right);
    assert m + (behind + right) == m + behind + right;
    assert text == left + (before + m + behind) + right;
  }

  lemma ClauseStarts(left: string, before: string, rest: string)
    requires ';' !in before && (left == "" || left[|left| - 1] == ';') && rest != "" && (left + before == "" ==> rest[0] != ';')
    ensures ClauseStart(left + before + rest, |left + before|) == |left|
  {
    var text := left + before + rest;
    var start := |left + before|;
    var pos := if start == 0 then 0 else start - 1;
    assert forall i :: |left| <= i < start ==> text[i] == before[i - |left|];
    assert left != "" ==> text[|left| - 1] == ';';
    assert start == 0 ==> text[0] == rest[0];
    assert LastSemicolon(text, pos) == |left| - 1;
  }

  lemma ClauseEnds(front: string, behind: string, right: string)
    requires ';' !in behind && (right == "" || right[0] == ';')
    ensures ClauseEnd(front + (behind + right), |front|) == |front| + |behind|
  {
    var text := front + (behind + right);
    assert forall i :: |front| <= i < |front| + |behind| ==> text[i] == behind[i - |front|];
    assert right != "" ==> text[|front| + |behind|] == ';';
    var r := NextSemicolon(text, |front|);
    assert r == if right == "" then -1 else |front| + |behind|;
  }

  /** A match that is a `;` at the very start loses it: the search for the clause's start looks at the match itself. */
  lemma ClauseOfFirst(m: string, behind: string, right: string)
    requires m != "" && m[0] == ';' && ';' !in behind && (right == "" || right[0] == ';')
    ensures ClauseWithin(m + (behind + right), 0, |m|) == m[1..] + behind
  {
    var text := m + (behind + right);
    ClauseEnds(m, behind, right);
    assert text[0] == ';' && ClauseStart(text, 0) == 1;
    hide ClauseStart, ClauseEnd;
    assert text[1..|m| + |behind|] == m[1..] + behind;
  }

  // ---------------------------------------------------------------- list paragraphs

  /** The line found from part `from` on is the first there that is not white space. */
  ghost predicate IsFirstFrom(parts: seq<string>, from: nat, k: nat)
  {
    from <= k < |parts| && k % 2 == 0 && Trim(parts[k]) != "" && forall i :: from <= i < k && i % 2 == 0 ==> Trim(parts[i]) == ""
  }

  lemma {:induction false} FirstNonBlankMeans(parts: seq<string>, from: nat, k: nat)
    requires from % 2 == 0
    ensures IsFirstFrom(parts, from, k) ==> FirstNonBlank(parts, from) == Some(parts[k])
    decreases |parts| - from
  {
    hide Trim;
    if from < |parts| && Trim(parts[from]) == "" { FirstNonBlankMeans(parts, from + 2, k); }
  }

  lemma {:induction false} FirstNonBlankIs(parts: seq<string>, from: nat) returns (k: nat)
    requires from % 2 == 0 && FirstNonBlank(parts, from).Some?
    ensures IsFirstFrom(parts, from, k) && FirstNonBlank(parts, from) == Some(parts[k])
    decreases |parts| - from
  {
    hide Trim;
    k := from;
    if Trim(parts[from]) == "" { k := FirstNonBlankIs(parts, from + 2); }
  }

  /** The first line that is not white space is the list line at part `k`. */
  ghost predicate OpensWithList(tests: LineTests, parts: seq<string>, k: nat) { IsFirstFrom(parts, 0, k) && tests.isList(parts[k]) }

  lemma ListParagraphMeans(tests: LineTests, text: string)
    ensures IsListParagraph(tests, text) <==> exists k: nat :: OpensWithList(tests, Parts(text), k)
  {
    var parts := Parts(text);
    if IsListParagraph(tests, text) {
      var k := FirstNonBlankIs(parts, 0);
      assert OpensWithList(tests, parts, k);
    }
    if k: nat :| OpensWithList(tests, parts, k) {
      FirstNonBlankMeans(parts, 0, k);
      assert OpensWithList(tests, Parts(text), k);
    }
  }
}
