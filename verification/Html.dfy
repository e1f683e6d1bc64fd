/** HTML escaping of a page's text, and the five ordered global replaces that read it back. */
module Html {

  predicate IsSpecial(c: char) { c == '&' || c == '<' || c == '>' || c == '"' || c == '\'' }

  function Entity(c: char): (e: string)
    requires IsSpecial(c)
  {
    if c == '&' then "&amp;" else if c == '<' then "&lt;" else if c == '>' then "&gt;"
    else if c == '"' then "&quot;" else "&#39;"
  }

  /** Every special character of `chars` as its entity. */
  function EscapeOnly(text: string, chars: set<char>): (r: string)
  {
    if text == "" then ""
    else (if IsSpecial(text[0]) && text[0] in chars then Entity(text[0]) else [text[0]]) + EscapeOnly(text[1..], chars)
  }

  const SPECIAL: set<char> := {'&', '<', '>', '"', '\''}

  function EscapeHtml(text: string): (r: string) { EscapeOnly(text, SPECIAL) }

  /** `replace(/pattern/g, replacement)` of a fixed text. */
  function ReplaceAll(s: string, pattern: string, replacement: string): (r: string)
    requires pattern != ""
    decreases |s|
  {
    if s == "" then ""
    else if pattern <= s then replacement + ReplaceAll(s[|pattern|..], pattern, replacement)
    else [s[0]] + ReplaceAll(s[1..], pattern, replacement)
  }

  function Undo(s: string, c: char): (r: string)
    requires IsSpecial(c)
  {
    EntityShape(c);
    ReplaceAll(s, Entity(c), [c])
  }

  function DecodeHtmlEntities(value: string): (r: string)
  {
    Undo(Undo(Undo(Undo(Undo(value, '<'), '>'), '"'), '\''), '&')
  }

  // ---------------------------------------------------------------- reading back

  /** An entity starts with the only `&` it holds, and its second character tells which one it is. */
  lemma EntityShape(c: char)
    requires IsSpecial(c)
    ensures |Entity(c)| >= 4 && Entity(c)[0] == '&' && forall i :: 0 < i < |Entity(c)| ==> Entity(c)[i] != '&'
  {
  }

  lemma EntitiesDiffer(c: char, d: char)
    requires IsSpecial(c) && IsSpecial(d) && c != d
    ensures Entity(c)[1] != Entity(d)[1]
  {
  }

  /** Text with no `&` is passed over. */
  lemma {:induction false} PassOver(x: string, t: string, pattern: string, replacement: string)
    requires pattern != "" && pattern[0] == '&' && forall i :: 0 <= i < |x| ==> x[i] != '&'
    ensures ReplaceAll(x + t, pattern, replacement) == x + ReplaceAll(t, pattern, replacement)
    decreases |x|
  {
    if x == "" {
      assert x + t == t;
    } else {
      assert (x + t)[0] == x[0];
      assert (x + t)[1..] == x[1..] + t;
      PassOver(x[1..], t, pattern, replacement);
    }
  }

  /** Another character's entity is passed over too. */
  lemma PassOverEntity(c: char, d: char, t: string)
    requires IsSpecial(c) && IsSpecial(d) && c != d
    ensures Undo(Entity(d) + t, c) == Entity(d) + Undo(t, c)
  {
    hide Entity;
    EntityShape(c);
    EntityShape(d);
    EntitiesDiffer(c, d);
    var s := Entity(d) + t;
    assert s[0] == Entity(d)[0] && s[1] == Entity(d)[1];
    assert s[1..] == Entity(d)[1..] + t;
    PassOver(Entity(d)[1..], t, Entity(c), [c]);
    assert Entity(d) == [Entity(d)[0]] + Entity(d)[1..];
  }

  lemma UndoEntity(c: char, t: string)
    requires IsSpecial(c)
    ensures Undo(Entity(c) + t, c) == [c] + Undo(t, c)
  {
    hide Entity;
    EntityShape(c);
    assert (Entity(c) + t)[|Entity(c)|..] == t;
  }

  lemma UndoPlain(c: char, x: char, t: string)
    requires IsSpecial(c) && x != '&'
    ensures Undo([x] + t, c) == [x] + Undo(t, c)
  {
    hide Entity;
    EntityShape(c);
    PassOver([x], t, Entity(c), [c]);
  }

  /**
    * On text where `&` is escaped, one replace undoes exactly one kind of entity. The replace of `&amp;` is the only
    * one that leaves a bare `&`, so it comes last.
    */
  lemma {:induction false} UndoOne(text: string, chars: set<char>, c: char)
    requires IsSpecial(c) && c in chars && '&' in chars
    ensures Undo(EscapeOnly(text, chars), c) == EscapeOnly(text, chars - {c})
  {
    hide Entity, Undo;
    if text == "" {
      UndoNothing(c);
    } else {
      var x, rest := text[0], EscapeOnly(text[1..], chars);
      UndoOne(text[1..], chars, c);
      if IsSpecial(x) && x in chars {
        if x == c { UndoEntity(c, rest); } else { PassOverEntity(c, x, rest); }
      } else {
        UndoPlain(c, x, rest);
      }
    }
  }

  lemma UndoNothing(c: char)
    requires IsSpecial(c)
    ensures Undo("", c) == ""
  {
  }

  lemma {:induction false} EscapeNothing(text: string)
    ensures EscapeOnly(text, {}) == text
  {
    if text != "" { EscapeNothing(text[1..]); }
  }

  /** The five replaces undo the escaping of every text. */
  lemma DecodeUndoesEscape(text: string)
    ensures DecodeHtmlEntities(EscapeHtml(text)) == text
  {
    hide Undo, EscapeOnly;
    var a := SPECIAL - {'<'};
    var b := a - {'>'};
    var c := b - {'"'};
    var d := c - {'\''};
    UndoOne(text, SPECIAL, '<');
    UndoOne(text, a, '>');
    UndoOne(text, b, '"');
    UndoOne(text, c, '\'');
    UndoOne(text, d, '&');
    assert d - {'&'} == {};
    EscapeNothing(text);
  }

  /** Escaped text holds no markup character, and every `&` in it starts an entity. */
  lemma {:induction false} EscapedIsInert(text: string, i: nat)
    requires i < |EscapeHtml(text)|
    ensures var c := EscapeHtml(text)[i];
            c != '<' && c != '>' && c != '"' && c != '\'' &&
            (c == '&' ==> exists s :: IsSpecial(s) && Entity(s) <= EscapeHtml(text)[i..])
    decreases |text|
  {
    var head := if IsSpecial(text[0]) then Entity(text[0]) else [text[0]];
    var rest := EscapeHtml(text[1..]);
    assert EscapeHtml(text) == head + rest;
    if i >= |head| {
      EscapedIsInert(text[1..], i - |head|);
      assert EscapeHtml(text)[i..] == rest[i - |head|..];
    } else if i == 0 {
      assert EscapeHtml(text)[0..] == head + rest;
      assert IsSpecial(text[0]) ==> Entity(text[0]) <= head + rest;
    } else {
      EntityShape(text[0]);
    }
  }

  /** With `&amp;` first, an escaped `&lt;` would turn into `<`. */
  lemma AmpersandFirstIsWrong()
    ensures Undo(Undo(EscapeHtml("&lt;"), '&'), '<') == "<"
  {
    var text := "&lt;";
    var tail := "lt;";
    assert text == "&" + tail && text[1..] == tail && tail[1..] == "t;" && tail[1..][1..] == ";" && tail[1..][1..][1..] == "";
    assert EscapeOnly("", SPECIAL) == "";
    assert EscapeOnly(";", SPECIAL) == ";";
    assert EscapeOnly("t;", SPECIAL) == "t;";
    assert EscapeOnly(tail, SPECIAL) == tail;
    assert EscapeHtml(text) == Entity('&') + tail;
    UndoEntity('&', tail);
    EntityShape('&');
    PassOver(tail, "", Entity('&'), "&");
    assert tail + "" == tail;
    assert Undo(EscapeHtml(text), '&') == text;
    UndoEntity('<', "");
    assert Entity('<') + "" == text;
  }

  /** Escaping goes character by character: the five markup characters to these entities, any other to itself. */
  lemma EscapeMeans(a: string, c: char, b: string)
    ensures EscapeHtml(a + [c] + b) ==
            EscapeHtml(a) +
            (match c case '&' => "&amp;" case '<' => "&lt;" case '>' => "&gt;" case '"' => "&quot;" case '\'' => "&#39;" case _ => [c]) +
            EscapeHtml(b)
  {
    EscapeInTwo(a + [c], b);
    EscapeInTwo(a, [c]);
    EscapeOne(c);
    hide EscapeHtml;
  }

  lemma {:induction false} EscapeInTwo(a: string, b: string)
    ensures EscapeHtml(a + b) == EscapeHtml(a) + EscapeHtml(b)
  {
    hide Entity;
    if a == "" {
      assert a + b == b;
    } else {
      EscapeInTwo(a[1..], b);
      assert (a + b)[1..] == a[1..] + b;
    }
  }

  lemma EscapeOne(c: char)
    ensures EscapeHtml([c]) ==
            match c case '&' => "&amp;" case '<' => "&lt;" case '>' => "&gt;" case '"' => "&quot;" case '\'' => "&#39;" case _ => [c]
  {
    assert [c][1..] == "" && EscapeOnly("", SPECIAL) == "";
  }
}
