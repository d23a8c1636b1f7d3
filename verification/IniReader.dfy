/** Reading one line of an ini file: the cursor loops of llconf/ini.c and llconf/strutils.c. */
module IniReader {
  import opened IniText

  /** while(*p && isspace(*p)) p++ */
  method SkipSpaces(line: string, p: nat) returns (q: nat)
    requires p <= |line|
    ensures p <= q <= |line| && line[q..] == TrimStart(line[p..])
  {
    q := p;
    while q < |line| && IsSpace(line[q])
      invariant p <= q <= |line| && TrimStart(line[q..]) == TrimStart(line[p..])
    {
      assert line[q..][1..] == line[q + 1..];
      q := q + 1;
    }
  }

  /** Copies the key into a buffer. */
  method ReadKey(line: string, p: nat) returns (buf: string, q: nat)
    requires p <= |line|
    ensures p <= q <= |line| && buf == TakeKey(line[p..]) && line[q..] == DropKey(line[p..])
  {
    buf, q := "", p;
    while q < |line| && !IsSpace(line[q]) && line[q] != '='
      invariant p <= q <= |line|
      invariant TakeKey(line[p..]) == buf + TakeKey(line[q..]) && DropKey(line[p..]) == DropKey(line[q..])
    {
      assert line[q..][1..] == line[q + 1..];
      buf := buf + [line[q]];
      q := q + 1;
    }
  }

  /** dup_next_line_b */
  method ReadLine(line: string, p: nat) returns (buf: string)
    requires p <= |line|
    ensures buf == TakeLine(line[p..])
  {
    buf := "";
    var q := p;
    while q < |line| && line[q] != '\n'
      invariant p <= q <= |line| && TakeLine(line[p..]) == buf + TakeLine(line[q..])
    {
      assert line[q..][1..] == line[q + 1..];
      buf := buf + [line[q]];
      q := q + 1;
    }
  }

  method ReadHeader(line: string, p: nat) returns (buf: string)
    requires p <= |line|
    ensures buf == TakeHeader(line[p..])
  {
    buf := "";
    var q := p;
    while q < |line| && line[q] != ']'
      invariant p <= q <= |line| && TakeHeader(line[p..]) == buf + TakeHeader(line[q..])
    {
      assert line[q..][1..] == line[q + 1..];
      buf := buf + [line[q]];
      q := q + 1;
    }
  }

  /** Copies the rest of the line, then cuts trailing white space off. */
  method ReadTrimmed(line: string, p: nat) returns (buf: string)
    requires p <= |line|
    ensures buf == TrimEnd(line[p..])
  {
    buf := line[p..];
    while buf != "" && IsSpace(buf[|buf| - 1])
      invariant TrimEnd(buf) == TrimEnd(line[p..])
      decreases |buf|
    {
      buf := buf[..|buf| - 1];
    }
  }

  /** The key, the '=' if there is one, and the cursor at the value. */
  method ReadAssignment(line: string, p: nat) returns (name: string, found: bool, v: nat)
    requires p <= |line|
    ensures name == TakeKey(line[p..]) && v <= |line|
    ensures var q := TrimStart(DropKey(line[p..]));
            && (found <==> q != "" && q[0] == '=')
            && (found ==> line[v..] == TrimStart(q[1..]))
  {
    name, v := ReadKey(line, p);
    v := SkipSpaces(line, v);
    found := v < |line| && line[v] == '=';
    if found {
      assert line[v..][1..] == line[v + 1..];
      v := SkipSpaces(line, v + 1);
    }
  }

  /** After an opening brace: the next character that is not white space. */
  method ReadBrace(line: string, v: nat) returns (w: nat)
    requires v < |line|
    ensures w <= |line| && line[w..] == TrimStart(line[v..][1..])
  {
    assert line[v..][1..] == line[v + 1..];
    w := SkipSpaces(line, v + 1);
  }

  /** The branches of parse_ini_subsection for one line. */
  method ReadSubLine(line: string, cmt: Comment) returns (r: SubLine)
    ensures r == SubLineOf(line, cmt)
  {
    var p := SkipSpaces(line, 0);
    assert line[0..] == line;
    if p < |line| && line[p] == '}' { return CloseBrace; }
    var text := ReadLine(line, 0);
    if p == |line| { return SubBlank(text); }
    if line[p] == cmt { return SubComment(text); }
    var name, found, v := ReadAssignment(line, p);
    if !found { return SubJunk(text); }
    if v == |line| || line[v] != '{' {
      var value := ReadTrimmed(line, v);
      return SubLeaf(name, value);
    }
    var w := ReadBrace(line, v);
    return SubGroup(name, w == |line| || line[w] != '}');
  }

  /** The branches of parse_ini_section for one line. */
  method ReadSecLine(line: string, cmt: Comment) returns (r: SecLine)
    ensures r == SecLineOf(line, cmt)
  {
    var p := SkipSpaces(line, 0);
    assert line[0..] == line;
    if p == |line| { return SecBlank; }
    if line[p] == '[' { return Header; }
    var text := ReadLine(line, 0);
    if line[p] == cmt { return SecComment(text); }
    var name, found, v := ReadAssignment(line, p);
    if !found { return SecJunk(text); }
    if v == |line| || line[v] != '{' {
      var value := ReadLine(line, v);
      return SecLeaf(name, value);
    }
    var w := ReadBrace(line, v);
    return SecGroup(name, w == |line| || line[w] != '}', w < |line| && line[w] == cmt);
  }

  /** The branches of parse_ini for one line. */
  method ReadTopLine(line: string) returns (r: TopLine)
    ensures r == TopLineOf(line)
  {
    var p := SkipSpaces(line, 0);
    assert line[0..] == line;
    if p == |line| { return TopBlank; }
    if line[p] == '[' {
      assert line[p..][1..] == line[p + 1..];
      p := SkipSpaces(line, p + 1);
      var name := ReadHeader(line, p);
      return TopHeader(name);
    }
    var text := ReadLine(line, 0);
    return TopComment(text);
  }

  /** read_conflines: fgets until the end of the file. */
  method ReadConfLines(text: string) returns (lines: seq<string>)
    ensures lines == SplitLines(text)
  {
    lines := [];
    var p := 0;
    SplitBegins(text);
    while p < |text|
      invariant SplitTo(text, p, lines)
    {
      var body := ReadLine(text, p);
      var n := if p + |body| < |text| then |body| + 1 else |body|;
      SplitStep(text, p, n, lines);
      lines := lines + [text[p..p + n]];
      p := p + n;
    }
  }

  /** `lines` are the lines of the text up to `p`. */
  ghost predicate SplitTo(text: string, p: nat, lines: seq<string>) {
    p <= |text| && SplitLines(text) == lines + SplitLines(text[p..])
  }

  lemma SplitBegins(text: string)
    ensures SplitTo(text, 0, [])
  {
    assert text[0..] == text && [] + SplitLines(text) == SplitLines(text);
  }

  lemma SplitStep(text: string, p: nat, n: nat, lines: seq<string>)
    requires p < |text| && SplitTo(text, p, lines)
    requires var body := TakeLine(text[p..]); n == if p + |body| < |text| then |body| + 1 else |body|
    ensures 0 < n && p + n <= |text| && SplitTo(text, p + n, lines + [text[p..p + n]])
  {
    SplitLine(text, p, n);
    var line, more := text[p..p + n], SplitLines(text[p + n..]);
    assert lines + ([line] + more) == lines + [line] + more;
  }

  lemma SplitLine(text: string, p: nat, n: nat)
    requires p < |text|
    requires var body := TakeLine(text[p..]); n == if p + |body| < |text| then |body| + 1 else |body|
    ensures 0 < n && p + n <= |text|
    ensures SplitLines(text[p..]) == [text[p..p + n]] + SplitLines(text[p + n..])
  {
    TakeLineIs(text[p..]);
    assert text[p..][..n] == text[p..p + n] && text[p..][n..] == text[p + n..];
    if p + |TakeLine(text[p..])| == |text| {
      assert text[p..p + n] == text[p..] && text[p + n..] == "";
      assert [text[p..]] + [] == [text[p..]];
    }
  }
}
