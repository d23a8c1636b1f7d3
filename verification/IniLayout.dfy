/** Ini files as people write them: what every kind of line is read as, in any spacing, and that a file laid out from
    such lines is parsed as what it says. White space and the characters of the format are spelled out here. */
module IniLayout {
  import opened IniText

  // ----- white space and names

  predicate BlankChar(c: char) {
    c == ' ' || c == '\t' || c == '\r' || c == '\U{000B}' || c == '\U{000C}'
  }

  predicate Blanks(s: string) {
    forall i :: 0 <= i < |s| ==> BlankChar(s[i])
  }

  /** A word that can stand before '='. */
  predicate WordText(s: string) {
    forall i :: 0 <= i < |s| ==> !BlankChar(s[i]) && s[i] != '\n' && s[i] != '='
  }

  /** Text up to the end of its line that does not begin with white space. */
  predicate LineText(s: string) {
    OneLine(s) && (s != "" ==> !BlankChar(s[0]))
  }

  /** What ends a line: a line break, or nothing at the end of the file. */
  predicate LineEnd(e: string) {
    e == "" || e == "\n"
  }

  lemma SpaceIs(c: char)
    ensures IsSpace(c) <==> BlankChar(c) || c == '\n'
  {
  }

  lemma BlanksAreSpace(s: string)
    ensures Blanks(s) ==> AllSpace(s) && OneLine(s)
    ensures WordText(s) <==> forall i :: 0 <= i < |s| ==> KeyChar(s[i])
    ensures LineText(s) && s != "" ==> !IsSpace(s[0])
  {
  }

  lemma BlankEnd(b: string, e: string)
    requires Blanks(b) && LineEnd(e)
    ensures AllSpace(b + e) && AllSpace(e)
  {
    BlanksAreSpace(b);
  }

  lemma {:induction false} TrimStartBlanks(a: string, b: string)
    requires AllSpace(a)
    ensures TrimStart(a + b) == TrimStart(b)
  {
    if a == "" {
      assert a + b == b;
    } else {
      assert (a + b)[1..] == a[1..] + b;
      TrimStartBlanks(a[1..], b);
    }
  }

  lemma TrimStartNone(s: string)
    requires AllSpace(s)
    ensures TrimStart(s) == ""
  {
    assert s + "" == s;
    TrimStartOver(s, "");
  }

  /** The line begins, behind white space, with this character. */
  lemma TrimTo(lead: string, c: char, rest: string)
    requires Blanks(lead) && !BlankChar(c) && c != '\n'
    ensures TrimStart(lead + ([c] + rest)) == [c] + rest
  {
    BlanksAreSpace(lead);
    TrimStartOver(lead, [c] + rest);
  }

  // ----- lines of every kind

  /** A blank line. */
  lemma BlankLine(b: string, e: string, cmt: char)
    requires Blanks(b) && LineEnd(e)
    ensures SubLineOf(b + e, cmt) == SubBlank(b) && SecLineOf(b + e, cmt) == SecBlank && TopLineOf(b + e) == TopBlank
  {
    BlankEnd(b, e);
    BlanksAreSpace(b);
    TrimStartNone(b + e);
    TakeLineOver(b, e);
  }

  /** A closing brace ends a group, whatever follows it. */
  lemma ClosingLine(lead: string, rest: string, cmt: char)
    requires Blanks(lead)
    ensures SubLineOf(lead + ("}" + rest), cmt) == CloseBrace
  {
    TrimTo(lead, '}', rest);
  }

  /** A header: at the top level the name goes from the first character that is no white space to the bracket. */
  lemma HeadLine(lead: string, b: string, name: string, rest: string, cmt: char)
    requires Blanks(lead) && Blanks(b) && (forall i :: 0 <= i < |name| ==> name[i] != ']')
    requires name != "" ==> !BlankChar(name[0]) && name[0] != '\n'
    requires rest == "" || rest[0] == ']'
    requires name == "" ==> rest != ""
    ensures SecLineOf(lead + ("[" + (b + (name + rest))), cmt) == Header
    ensures TopLineOf(lead + ("[" + (b + (name + rest)))) == TopHeader(name)
  {
    BlanksAreSpace(b);
    TrimTo(lead, '[', b + (name + rest));
    assert ("[" + (b + (name + rest)))[1..] == b + (name + rest);
    TrimStartOver(b, name + rest);
    TakeHeaderOver(name, rest);
  }

  /** A comment. */
  lemma CommentLine(lead: string, text: string, e: string, cmt: char)
    requires Blanks(lead) && OneLine(text) && LineEnd(e) && !BlankChar(cmt) && cmt != '\n'
    ensures var line := lead + ([cmt] + text);
            && (cmt != '}' ==> SubLineOf(line + e, cmt) == SubComment(line))
            && (cmt != '[' ==> SecLineOf(line + e, cmt) == SecComment(line))
  {
    var line := lead + ([cmt] + text);
    LineOver(lead, [cmt] + text, e);
    assert [cmt] + text + e == [cmt] + (text + e);
    TrimTo(lead, cmt, text + e);
  }

  /** At the top level everything else is kept as a comment. */
  lemma TopTextLine(lead: string, text: string, e: string)
    requires Blanks(lead) && LineText(text) && text != "" && text[0] != '[' && LineEnd(e)
    ensures TopLineOf(lead + text + e) == TopComment(lead + text)
  {
    BlanksAreSpace(text);
    BlanksAreSpace(lead);
    LineOver(lead, text, e);
    TrimStartOver(lead, text + e);
  }

  lemma LineOver(lead: string, text: string, e: string)
    requires Blanks(lead) && OneLine(text) && LineEnd(e)
    ensures TakeLine(lead + text + e) == lead + text
    ensures lead + text + e == lead + (text + e)
  {
    BlanksAreSpace(lead);
    TakeLineOver(lead + text, e);
    assert lead + text + e == lead + (text + e);
  }

  /** A line with a word, white space and more. */
  function Worded(lead: string, word: string, b1: string, rest: string): string {
    lead + (word + (b1 + rest))
  }

  lemma WordFound(lead: string, word: string, b1: string, rest: string)
    requires Blanks(lead) && WordText(word) && Blanks(b1) && (word == "" ==> b1 == "")
    requires rest != "" && !BlankChar(rest[0]) && rest[0] != '\n'
    requires b1 == "" ==> rest[0] == '='
    ensures var p := TrimStart(Worded(lead, word, b1, rest));
            && p == word + (b1 + rest) && p != "" && p[0] == (if word == "" then rest[0] else word[0])
            && TakeKey(p) == word && TrimStart(DropKey(p)) == rest
  {
    BlanksAreSpace(lead);
    BlanksAreSpace(word);
    BlanksAreSpace(b1);
    TrimStartOver(lead, word + (b1 + rest));
    KeyOver(word, b1 + rest);
    TrimStartOver(b1, rest);
  }

  /** "name = tail". */
  function Assigning(lead: string, name: string, b1: string, b2: string, tail: string): string {
    Worded(lead, name, b1, "=" + (b2 + tail))
  }

  /** The first character of the line is no comment character and does not begin anything else. */
  predicate Plain(name: string, cmt: char, other: char) {
    if name == "" then cmt != '=' else name[0] != cmt && name[0] != other
  }

  lemma AssignFound(lead: string, name: string, b1: string, b2: string, tail: string)
    requires Blanks(lead) && WordText(name) && Blanks(b1) && Blanks(b2) && (name == "" ==> b1 == "")
    ensures var p := TrimStart(Assigning(lead, name, b1, b2, tail));
            && p != "" && p[0] == (if name == "" then '=' else name[0]) && TakeKey(p) == name
            && TrimStart(DropKey(p)) == "=" + (b2 + tail)
            && TrimStart(TrimStart(DropKey(p))[1..]) == TrimStart(tail)
  {
    WordFound(lead, name, b1, "=" + (b2 + tail));
    BlanksAreSpace(b2);
    assert ("=" + (b2 + tail))[1..] == b2 + tail;
    TrimStartBlanks(b2, tail);
  }

  /** A value, without the white space around it. */
  predicate ValueText(v: string) {
    LineText(v) && (v != "" ==> v[0] != '{')
  }

  /** "name=value" in a section: in any spacing the name and the value, up to the end of the line. */
  lemma SecValueLine(lead: string, name: string, b1: string, b2: string, value: string, e: string, cmt: char)
    requires Blanks(lead) && WordText(name) && Blanks(b1) && Blanks(b2) && (name == "" ==> b1 == "")
    requires Plain(name, cmt, '[') && ValueText(value) && LineEnd(e)
    ensures SecLineOf(Assigning(lead, name, b1, b2, value + e), cmt) == SecLeaf(name, value)
  {
    AssignFound(lead, name, b1, b2, value + e);
    ValueFound(value, e);
    TakeLineOver(value, e);
  }

  lemma ValueFound(value: string, e: string)
    requires ValueText(value) && LineEnd(e)
    ensures TrimStart(value + e) == if value == "" then "" else value + e
    ensures TakeLine(TrimStart(value + e)) == value
  {
    BlanksAreSpace(value);
    if value == "" {
      assert value + e == e;
      TrimStartNone(e);
    } else {
      assert "" + (value + e) == value + e;
      TrimStartOver("", value + e);
      TakeLineOver(value, e);
    }
  }

  /** "name=value" inside a group: white space behind the value does not belong to it. */
  lemma SubValueLine(lead: string, name: string, b1: string, b2: string, value: string, b3: string, e: string,
                     cmt: char)
    requires Blanks(lead) && WordText(name) && Blanks(b1) && Blanks(b2) && (name == "" ==> b1 == "")
    requires Plain(name, cmt, '}') && ValueText(value) && LineEnd(e) && Blanks(b3)
    requires value != "" ==> !BlankChar(value[|value| - 1])
    ensures SubLineOf(Assigning(lead, name, b1, b2, value + (b3 + e)), cmt) == SubLeaf(name, value)
  {
    AssignFound(lead, name, b1, b2, value + (b3 + e));
    TrimmedValue(value, b3, e);
  }

  lemma NotTrimmed(s: string)
    requires s != "" && !IsSpace(s[0])
    ensures TrimStart(s) == s
  {
  }

  lemma TrimmedValue(value: string, b3: string, e: string)
    requires ValueText(value) && LineEnd(e) && Blanks(b3)
    requires value != "" ==> !BlankChar(value[|value| - 1])
    ensures var v := TrimStart(value + (b3 + e)); (v == "" || v[0] != '{') && TrimEnd(v) == value
  {
    BlanksAreSpace(value);
    BlankEnd(b3, e);
    if value == "" {
      assert value + (b3 + e) == b3 + e;
      TrimStartNone(b3 + e);
    } else {
      NotTrimmed(value + (b3 + e));
      TrimEndOver(value, b3 + e);
    }
  }

  /** "name={": a group, which is open unless the first thing behind the brace is a closing one. In a section a comment
      character there makes the line a stray one. */
  lemma BraceLine(lead: string, name: string, b1: string, b2: string, b3: string, text: string, e: string, cmt: char)
    requires Blanks(lead) && WordText(name) && Blanks(b1) && Blanks(b2) && (name == "" ==> b1 == "")
    requires Blanks(b3) && LineText(text) && LineEnd(e)
    ensures var line, open := Assigning(lead, name, b1, b2, "{" + (b3 + (text + e))), text == "" || text[0] != '}';
            && (Plain(name, cmt, '}') ==> SubLineOf(line, cmt) == SubGroup(name, open))
            && (Plain(name, cmt, '[') ==> SecLineOf(line, cmt) == SecGroup(name, open, text != "" && text[0] == cmt))
  {
    var tail := "{" + (b3 + (text + e));
    AssignFound(lead, name, b1, b2, tail);
    assert "" + tail == tail;
    TrimStartOver("", tail);
    BehindBrace(b3, text, e);
  }

  lemma BehindBrace(b3: string, text: string, e: string)
    requires Blanks(b3) && LineText(text) && LineEnd(e)
    ensures ("{" + (b3 + (text + e)))[1..] == b3 + (text + e)
    ensures TrimStart(b3 + (text + e)) == if text == "" then "" else text + e
  {
    BlanksAreSpace(b3);
    BlanksAreSpace(text);
    if text == "" {
      assert text + e == e;
      BlankEnd(b3, e);
      TrimStartNone(b3 + e);
    } else {
      TrimStartOver(b3, text + e);
    }
  }

  /** A word that no '=' follows: the line is kept as it is. */
  lemma JunkLine(lead: string, word: string, b1: string, rest: string, e: string, cmt: char)
    requires Blanks(lead) && word != "" && WordText(word) && Blanks(b1) && LineEnd(e)
    requires LineText(rest) && (rest != "" ==> b1 != "" && rest[0] != '=')
    ensures var line := Worded(lead, word, b1, rest);
            && (Plain(word, cmt, '}') ==> SubLineOf(line + e, cmt) == SubJunk(line))
            && (Plain(word, cmt, '[') ==> SecLineOf(line + e, cmt) == SecJunk(line))
  {
    var line := Worded(lead, word, b1, rest);
    JunkText(word, b1, rest);
    LineOver(lead, word + (b1 + rest), e);
    assert word + (b1 + rest) + e == word + (b1 + (rest + e));
    BlanksAreSpace(lead);
    BlanksAreSpace(word);
    TrimStartOver(lead, word + (b1 + (rest + e)));
    NoAssign(word, b1, rest, e);
  }

  lemma JunkText(word: string, b1: string, rest: string)
    requires WordText(word) && Blanks(b1) && LineText(rest)
    ensures OneLine(word + (b1 + rest))
  {
    BlanksAreSpace(b1);
  }

  lemma NoAssign(word: string, b1: string, rest: string, e: string)
    requires WordText(word) && Blanks(b1) && LineEnd(e)
    requires LineText(rest) && (rest != "" ==> b1 != "" && rest[0] != '=')
    ensures var q := TrimStart(DropKey(word + (b1 + (rest + e)))); q == "" || q[0] != '='
  {
    BlanksAreSpace(word);
    BlanksAreSpace(b1);
    BlanksAreSpace(rest);
    KeyOver(word, b1 + (rest + e));
    if rest == "" {
      assert rest + e == e;
      BlankEnd(b1, e);
      TrimStartNone(b1 + e);
    } else {
      TrimStartOver(b1, rest + e);
    }
  }

  // ----- these are all

  lemma TrimParts(s: string) returns (lead: string)
    requires OneLine(s)
    ensures s == lead + TrimStart(s) && Blanks(lead) && OneLine(TrimStart(s)) && LineText(TrimStart(s))
  {
    TrimStartIs(s);
    var n := |s| - |TrimStart(s)|;
    lead := s[..n];
    assert s == lead + s[n..];
    OneLineParts(lead, TrimStart(s));
    forall k | 0 <= k < |lead| ensures BlankChar(lead[k]) { SpaceIs(lead[k]); }
  }

  lemma OneLineParts(a: string, b: string)
    requires OneLine(a + b)
    ensures OneLine(a) && OneLine(b)
  {
    assert forall k :: 0 <= k < |a| ==> a[k] == (a + b)[k];
    assert forall k :: 0 <= k < |b| ==> b[k] == (a + b)[|a| + k];
  }

  /** Every text without a line break is white space, a word, white space, and something that begins with '=' if it
      stands right behind the word. */
  lemma TextShape(line: string) returns (lead: string, word: string, b1: string, rest: string)
    requires OneLine(line)
    ensures line == Worded(lead, word, b1, rest) && Blanks(lead) && WordText(word) && Blanks(b1) && LineText(rest)
    ensures (word == "" ==> b1 == "") && (rest != "" && b1 == "" ==> rest[0] == '=')
  {
    lead := TrimParts(line);
    var p := TrimStart(line);
    word, b1, rest := WordShape(p);
  }

  lemma WordShape(p: string) returns (word: string, b1: string, rest: string)
    requires LineText(p)
    ensures p == word + (b1 + rest) && WordText(word) && Blanks(b1) && LineText(rest)
    ensures (word == "" ==> b1 == "") && (rest != "" && b1 == "" ==> rest[0] == '=')
  {
    KeyIs(p);
    word := TakeKey(p);
    var d := DropKey(p);
    OneLineParts(word, d);
    b1 := TrimParts(d);
    rest := TrimStart(d);
    BlanksAreSpace(word);
    if word == "" {
      assert p == b1 + rest;
      NoLead(b1, rest);
    }
  }

  lemma NoLead(b1: string, rest: string)
    requires LineText(b1 + rest) && Blanks(b1)
    ensures b1 == ""
  {
    assert b1 == (b1 + rest)[..|b1|];
  }
}
