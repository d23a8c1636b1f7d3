/** The text side of llconf/ini.c: what one line of an ini file means, where it stands in the file. */
module IniText {
  /** The comment character: ASCII and not NUL. With a NUL, as an empty option gives, the source takes the end of every
      line for a comment, and others depend on whether char is signed. */
  type Comment = c: char | 0 < c as int < 128 witness '#'

  /** isspace in the C locale */
  predicate IsSpace(c: char) {
    c == ' ' || 9 <= c as int <= 13
  }

  predicate AllSpace(s: string) {
    forall i :: 0 <= i < |s| ==> IsSpace(s[i])
  }

  /** No line break inside. */
  predicate OneLine(s: string) {
    forall i :: 0 <= i < |s| ==> s[i] != '\n'
  }

  /** A line as it comes from fgets: a line break, if any, ends it. */
  predicate IsLine(line: string) {
    line != "" && OneLine(line[..|line| - 1])
  }

  // ----- scanning

  function TrimStart(s: string): string {
    if s != "" && IsSpace(s[0]) then TrimStart(s[1..]) else s
  }

  function TrimEnd(s: string): string {
    if s != "" && IsSpace(s[|s| - 1]) then TrimEnd(s[..|s| - 1]) else s
  }

  predicate KeyChar(c: char) {
    !IsSpace(c) && c != '='
  }

  function TakeKey(s: string): string {
    if s != "" && KeyChar(s[0]) then [s[0]] + TakeKey(s[1..]) else ""
  }

  function DropKey(s: string): string {
    if s != "" && KeyChar(s[0]) then DropKey(s[1..]) else s
  }

  /** dup_next_line_b: up to the line break. */
  function TakeLine(s: string): string {
    if s != "" && s[0] != '\n' then [s[0]] + TakeLine(s[1..]) else ""
  }

  function TakeHeader(s: string): string {
    if s != "" && s[0] != ']' then [s[0]] + TakeHeader(s[1..]) else ""
  }

  /** fgets until the end of the file */
  function SplitLines(text: string): seq<string> {
    if text == "" then []
    else
      var line := TakeLine(text);
      if |line| < |text| then [text[..|line| + 1]] + SplitLines(text[|line| + 1..]) else [text]
  }

  function Join(lines: seq<string>): string {
    if lines == [] then "" else lines[0] + Join(lines[1..])
  }

  // ----- what a line means

  datatype SubLine =
    | CloseBrace
    | SubBlank(text: string)
    | SubComment(text: string)
    | SubLeaf(name: string, value: string)
    | SubGroup(name: string, open: bool)
    | SubJunk(text: string)

  predicate Opening(line: SubLine) {
    line.SubGroup? && line.open
  }

  /** A line inside a `{ }` subsection. */
  function SubLineOf(line: string, cmt: char): SubLine {
    var p := TrimStart(line);
    if p != "" && p[0] == '}' then CloseBrace
    else if p == "" then SubBlank(TakeLine(line))
    else if p[0] == cmt then SubComment(TakeLine(line))
    else
      var q := TrimStart(DropKey(p));
      if q != "" && q[0] == '=' then
        var v := TrimStart(q[1..]);
        if v == "" || v[0] != '{' then SubLeaf(TakeKey(p), TrimEnd(v))
        else
          var w := TrimStart(v[1..]);
          SubGroup(TakeKey(p), w == "" || w[0] != '}')
      else SubJunk(TakeLine(line))
  }

  datatype SecLine =
    | Header
    | SecBlank
    | SecComment(text: string)
    | SecLeaf(name: string, value: string)
    | SecGroup(name: string, open: bool, stray: bool)
    | SecJunk(text: string)

  /** A line inside a section. `stray` says that a comment follows the brace on the same line. */
  function SecLineOf(line: string, cmt: char): SecLine {
    var p := TrimStart(line);
    if p == "" then SecBlank
    else if p[0] == '[' then Header
    else if p[0] == cmt then SecComment(TakeLine(line))
    else
      var q := TrimStart(DropKey(p));
      if q != "" && q[0] == '=' then
        var v := TrimStart(q[1..]);
        if v == "" || v[0] != '{' then SecLeaf(TakeKey(p), TakeLine(v))
        else
          var w := TrimStart(v[1..]);
          SecGroup(TakeKey(p), w == "" || w[0] != '}', w != "" && w[0] == cmt)
      else SecJunk(TakeLine(line))
  }

  datatype TopLine = TopBlank | TopHeader(name: string) | TopComment(text: string)

  /** A line before the first section, or a section header. */
  function TopLineOf(line: string): TopLine {
    var p := TrimStart(line);
    if p == "" then TopBlank
    else if p[0] == '[' then TopHeader(TakeHeader(TrimStart(p[1..])))
    else TopComment(TakeLine(line))
  }

  // ----- scanning what was printed

  lemma {:induction false} TrimStartOver(a: string, b: string)
    requires AllSpace(a) && (b == "" || !IsSpace(b[0]))
    ensures TrimStart(a + b) == b
  {
    if a == "" {
      assert a + b == b;
    } else {
      assert (a + b)[1..] == a[1..] + b;
      TrimStartOver(a[1..], b);
    }
  }

  lemma {:induction false} TrimStartIs(s: string)
    ensures |TrimStart(s)| <= |s| && s[|s| - |TrimStart(s)|..] == TrimStart(s)
    ensures AllSpace(s[..|s| - |TrimStart(s)|])
    ensures TrimStart(s) != "" ==> !IsSpace(TrimStart(s)[0])
  {
    if s != "" && IsSpace(s[0]) {
      TrimStartIs(s[1..]);
      var n := |s[1..]| - |TrimStart(s)|;
      assert s[..n + 1] == [s[0]] + s[1..][..n];
    }
  }

  lemma {:induction false} KeyOver(a: string, b: string)
    requires (forall i :: 0 <= i < |a| ==> KeyChar(a[i])) && (b == "" || !KeyChar(b[0]))
    ensures TakeKey(a + b) == a && DropKey(a + b) == b
  {
    if a == "" {
      assert a + b == b;
    } else {
      assert (a + b)[1..] == a[1..] + b;
      KeyOver(a[1..], b);
    }
  }

  lemma {:induction false} KeyIs(s: string)
    ensures s == TakeKey(s) + DropKey(s)
    ensures forall i :: 0 <= i < |TakeKey(s)| ==> KeyChar(TakeKey(s)[i])
    ensures DropKey(s) != "" ==> !KeyChar(DropKey(s)[0])
  {
    if s != "" && KeyChar(s[0]) { KeyIs(s[1..]); }
  }

  lemma {:induction false} TakeLineOver(a: string, b: string)
    requires OneLine(a) && (b == "" || b[0] == '\n')
    ensures TakeLine(a + b) == a
  {
    if a == "" {
      assert a + b == b;
    } else {
      assert (a + b)[1..] == a[1..] + b;
      TakeLineOver(a[1..], b);
    }
  }

  lemma {:induction false} TakeLineIs(s: string)
    ensures |TakeLine(s)| <= |s| && TakeLine(s) == s[..|TakeLine(s)|] && OneLine(TakeLine(s))
    ensures |TakeLine(s)| < |s| ==> s[|TakeLine(s)|] == '\n'
  {
    if s != "" && s[0] != '\n' { TakeLineIs(s[1..]); }
  }

  lemma {:induction false} TakeHeaderOver(a: string, b: string)
    requires (forall i :: 0 <= i < |a| ==> a[i] != ']') && (b == "" || b[0] == ']')
    ensures TakeHeader(a + b) == a
  {
    if a == "" {
      assert a + b == b;
    } else {
      assert (a + b)[1..] == a[1..] + b;
      TakeHeaderOver(a[1..], b);
    }
  }

  lemma {:induction false} TrimEndOver(a: string, b: string)
    requires AllSpace(b) && (a == "" || !IsSpace(a[|a| - 1]))
    ensures TrimEnd(a + b) == a
  {
    if b == "" {
      assert a + b == a;
    } else {
      assert (a + b)[..|a + b| - 1] == a + b[..|b| - 1];
      TrimEndOver(a, b[..|b| - 1]);
    }
  }

  lemma {:induction false} TrimEndIs(s: string)
    ensures |TrimEnd(s)| <= |s| && TrimEnd(s) == s[..|TrimEnd(s)|] && AllSpace(s[|TrimEnd(s)|..])
    ensures TrimEnd(s) != "" ==> !IsSpace(TrimEnd(s)[|TrimEnd(s)| - 1])
  {
    if s != "" && IsSpace(s[|s| - 1]) {
      TrimEndIs(s[..|s| - 1]);
      var n := |TrimEnd(s)|;
      assert s[n..] == s[..|s| - 1][n..] + [s[|s| - 1]];
    }
  }

  /** Reading a file of proper lines back splits it into these lines. */
  lemma {:induction false} SplitJoin(lines: seq<string>)
    requires forall i :: 0 <= i < |lines| ==> ProperLine(lines[i])
    ensures SplitLines(Join(lines)) == lines
  {
    if lines != [] {
      var text, rest := Join(lines), Join(lines[1..]);
      var body := lines[0][..|lines[0]| - 1];
      assert lines[0] == body + "\n";
      assert text == body + ("\n" + rest);
      TakeLineOver(body, "\n" + rest);
      assert text[..|body| + 1] == lines[0] && text[|body| + 1..] == rest;
      SplitJoin(lines[1..]);
    }
  }

  ghost predicate ProperLine(line: string) {
    line != "" && line[|line| - 1] == '\n' && OneLine(line[..|line| - 1])
  }

  lemma {:induction false} SplitLinesAreLines(text: string)
    ensures forall i :: 0 <= i < |SplitLines(text)| ==> IsLine(SplitLines(text)[i])
  {
    if text != "" {
      TakeLineIs(text);
      var n := |TakeLine(text)|;
      if n < |text| {
        assert text[..n + 1][..n] == TakeLine(text);
        SplitLinesAreLines(text[n + 1..]);
      } else {
        assert text == TakeLine(text);
      }
    }
  }
}
