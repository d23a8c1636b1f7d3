/** Only well-formed trees come back: what parsing gives for a printed tree decides whether the tree was in the
    printable form. */
module IniExact {
  import opened Wrappers
  import opened CnfTree
  import opened IniText
  import opened IniFormat
  import opened IniReparse

  // ----- what is read has no line breaks in it

  lemma SubTextsOneLine(line: string, cmt: char)
    requires IsLine(line)
    ensures match SubLineOf(line, cmt)
            case CloseBrace => true
            case SubBlank(text) => OneLine(text)
            case SubComment(text) => OneLine(text)
            case SubJunk(text) => OneLine(text)
            case SubLeaf(name, v) => OneLine(name) && OneLine(v)
            case SubGroup(name, _) => OneLine(name)
  {
    SubLineGivesOk(line, cmt);
    LineParts(line);
  }

  lemma SecTextsOneLine(line: string, cmt: char)
    requires IsLine(line)
    ensures match SecLineOf(line, cmt)
            case Header => true
            case SecBlank => true
            case SecComment(text) => OneLine(text)
            case SecJunk(text) => OneLine(text)
            case SecLeaf(name, v) => OneLine(name) && OneLine(v)
            case SecGroup(name, _, _) => OneLine(name)
  {
    SecLineGivesOk(line, cmt);
    LineParts(line);
  }

  lemma {:induction false} SubNodesOneLine(lines: seq<string>, cmt: char)
    requires AllLines(lines) && ParseSub(lines, cmt).Some?
    ensures AllOneLine(ParseSub(lines, cmt).value.nodes)
    decreases |lines|
  {
    if lines != [] && SubLineOf(lines[0], cmt) != CloseBrace {
      if Opening(SubLineOf(lines[0], cmt)) {
        var inner := ParseSub(lines[1..], cmt).value;
        SubTextsOneLine(lines[0], cmt);
        SubRest(lines[1..], cmt);
        SubNodesOneLine(lines[1..], cmt);
        SubNodesOneLine(inner.rest[1..], cmt);
        OneLineCons(Node(SubLineOf(lines[0], cmt).name, None, inner.nodes),
                    ParseSub(inner.rest[1..], cmt).value.nodes);
      } else {
        SubLeafRead(lines, cmt);
        SubLeafOneLine(lines[0], cmt);
        SubNodesOneLine(lines[1..], cmt);
      }
    }
  }

  /** The node of a line that neither begins nor ends a group. */
  function SubLeafOf(line: SubLine): Node
    requires !line.CloseBrace? && !Opening(line)
  {
    match line
    case SubBlank(text) => Raw(EMPTY, text)
    case SubComment(text) => Raw(COMMENT, text)
    case SubLeaf(name, value) => Node(name, Some(value), [])
    case SubGroup(name, _) => Node(name, None, [])
    case SubJunk(text) => Raw(UNPARSED, text)
  }

  lemma SubLeafRead(lines: seq<string>, cmt: char)
    requires lines != [] && !SubLineOf(lines[0], cmt).CloseBrace? && !Opening(SubLineOf(lines[0], cmt))
    ensures ParseSub(lines, cmt) == Cons(SubLeafOf(SubLineOf(lines[0], cmt)), ParseSub(lines[1..], cmt))
  {
  }

  lemma SubLeafOneLine(line: string, cmt: char)
    requires IsLine(line) && !SubLineOf(line, cmt).CloseBrace? && !Opening(SubLineOf(line, cmt))
    ensures OneLineNode(SubLeafOf(SubLineOf(line, cmt)))
  {
    SubTextsOneLine(line, cmt);
  }

  lemma OneLineCons(n: Node, more: seq<Node>)
    requires OneLine(n.name) && n.value == None && AllOneLine(n.children) && AllOneLine(more)
    ensures AllOneLine([n] + more)
  {
  }

  lemma {:induction false} SectionNodesOneLine(lines: seq<string>, cmt: char)
    requires AllLines(lines) && ParseSection(lines, cmt).Some?
    ensures AllOneLine(ParseSection(lines, cmt).value.nodes) && Tail(ParseSection(lines, cmt).value.rest, lines)
    decreases |lines|
  {
    if lines != [] && SecLineOf(lines[0], cmt) != Header {
      if SecLineOf(lines[0], cmt).SecGroup? {
        SectionGroupOneLine(lines, cmt);
      } else {
        LeafRead(lines, cmt);
        LeafOneLine(lines[0], cmt);
        SectionNodesOneLine(lines[1..], cmt);
      }
    }
  }

  lemma LeafOneLine(line: string, cmt: char)
    requires IsLine(line) && !SecLineOf(line, cmt).Header? && !SecLineOf(line, cmt).SecGroup?
    ensures OneLineNode(LeafOf(SecLineOf(line, cmt)))
  {
    SecTextsOneLine(line, cmt);
  }

  lemma {:induction false} SectionGroupOneLine(lines: seq<string>, cmt: char)
    requires lines != [] && SecLineOf(lines[0], cmt).SecGroup?
    requires AllLines(lines) && ParseSection(lines, cmt).Some?
    ensures AllOneLine(ParseSection(lines, cmt).value.nodes) && Tail(ParseSection(lines, cmt).value.rest, lines)
    decreases |lines|, 0
  {
    var n, stays, rest := GroupNode(lines, cmt), GroupStays(lines, cmt), GroupOf(lines, cmt).rest;
    var all := ParseSection(lines, cmt).value;
    SectionGroupParts(lines, cmt);
    GroupHeadOneLine(lines, cmt);
    if rest != [] {
      SectionNodesOneLine(rest[1..], cmt);
      PartsOneLine(n, stays, ParseSection(rest[1..], cmt).value, all, rest, lines);
    } else {
      assert all == Parsed([n], []);
    }
  }

  lemma PartsOneLine(n: Node, stays: seq<Node>, more: Parsed, all: Parsed, rest: seq<string>, lines: seq<string>)
    requires OneLineNode(n) && AllOneLine(stays) && AllOneLine(more.nodes)
    requires rest != [] && Tail(rest, lines) && Tail(more.rest, rest[1..])
    requires all == Parsed([n] + stays + more.nodes, more.rest)
    ensures AllOneLine(all.nodes) && Tail(all.rest, lines)
  {
    InConcat([n], stays, more.nodes);
  }

  lemma GroupHeadOneLine(lines: seq<string>, cmt: char)
    requires lines != [] && SecLineOf(lines[0], cmt).SecGroup?
    requires AllLines(lines) && ParseSection(lines, cmt).Some?
    ensures OneLineNode(GroupNode(lines, cmt)) && AllOneLine(GroupStays(lines, cmt))
    ensures Tail(GroupOf(lines, cmt).rest, lines) && AllLines(GroupOf(lines, cmt).rest)
  {
    SecTextsOneLine(lines[0], cmt);
    if SecLineOf(lines[0], cmt).open {
      SubRest(lines[1..], cmt);
      SubNodesOneLine(lines[1..], cmt);
    }
    var rest := GroupOf(lines, cmt).rest;
    if rest != [] { LineParts(rest[0]); }
  }

  // ----- a raw line is not read as the leaf whose value it shows

  /** Behind the '=' of a line there is less than the line. */
  lemma TailIsShorter(v: string)
    requires OneLine(v)
    requires var q := TrimStart(DropKey(TrimStart(v + "\n"))); q != "" && q[0] == '='
    ensures var tail := TrimStart(TrimStart(DropKey(TrimStart(v + "\n")))[1..]);
            |tail| <= |v| && v != "" && (tail != "" ==> tail[|tail| - 1] == '\n')
  {
    var line := v + "\n";
    var p := TrimStart(line);
    var q := TrimStart(DropKey(p));
    LineOfOneLine(v);
    assert IsLine(line);
    TailOfLine(line);
    TrimStartIs(line);
    KeyIs(p);
    TrimStartIs(DropKey(p));
    TrimStartIs(q[1..]);
    assert |q| <= |line|;
  }

  lemma SubLeafShorter(v: string, cmt: char)
    requires OneLine(v) && SubLineOf(v + "\n", cmt).SubLeaf?
    ensures SubLineOf(v + "\n", cmt).value != v
  {
    TailIsShorter(v);
    var tail := TrimStart(TrimStart(DropKey(TrimStart(v + "\n")))[1..]);
    TrimEndIs(tail);
  }

  lemma SecLeafShorter(v: string, cmt: char)
    requires OneLine(v) && SecLineOf(v + "\n", cmt).SecLeaf?
    ensures SecLineOf(v + "\n", cmt).value != v
  {
    TailIsShorter(v);
    var tail := TrimStart(TrimStart(DropKey(TrimStart(v + "\n")))[1..]);
    TakeLineIs(tail);
  }

  /** A reserved node without a value prints a line that is no node without a value. */
  lemma NullLine(cmt: char)
    ensures var line := SecLineOf("(null)\n", cmt); line.SecComment? || line.SecJunk?
  {
    var line := "(null)\n";
    assert "" + line == line;
    TrimStartOver("", line);
    assert "(null)" + "\n" == line;
    KeyOver("(null)", "\n");
    assert "\n" + "" == "\n";
    TrimStartOver("\n", "");
  }

  // ----- groups

  /** What ParseSub gives begins with `nodes`. */
  ghost predicate BeginsWith(p: Option<Parsed>, nodes: seq<Node>) {
    p.Some? && nodes <= p.value.nodes
  }

  /** If the first node read is the one that was printed, it is in the printable form. */
  lemma {:induction false} MemberExact(n: Node, level: nat, rest: seq<string>, cmt: char)
    requires OneLineNode(n) && BeginsWith(ParseSub(NodeLines(n, level) + rest, cmt), [n])
    ensures MemberOk(n, cmt)
    decreases n, 2
  {
    var lines := NodeLines(n, level) + rest;
    NodeLinesProper(n, level);
    NodeLinesBegin(n, level, rest);
    SubLineGivesOk(lines[0], cmt);
    var first := ParseSub(lines, cmt).value.nodes[0];
    assert first == n;
    if n.value == None {
      GroupExact(n, level + 1, rest, cmt);
    } else if Reserved(n.name) && SubLineOf(lines[0], cmt).SubLeaf? {
      SubLeafShorter(n.value.value, cmt);
    }
  }

  lemma NodeLinesBegin(n: Node, level: nat, rest: seq<string>)
    ensures NodeLines(n, level) != [] && (NodeLines(n, level) + rest)[0] == NodeLines(n, level)[0]
  {
  }

  lemma {:induction false} GroupExact(n: Node, level: nat, rest: seq<string>, cmt: char)
    requires OneLineNode(n) && n.value == None && BeginsWith(ParseSub(GroupLines(n, level) + rest, cmt), [n])
    ensures MemberKey(n.name, cmt) && AllMembersOk(n.children, cmt)
    decreases n, 1
  {
    var lines := GroupLines(n, level) + rest;
    var close := [Indent(level) + "}\n"] + rest;
    GroupLinesProper(n, level);
    GroupLinesBegin(n, level, rest);
    FirstIsGroup(lines, n, cmt);
    SubGroupLine(Indent(level), n.name, cmt);
    InsideGroup(lines, n, cmt);
    CloseLine(Indent(level), cmt);
    MembersExact(n.children, level, close, cmt);
  }

  lemma GroupLinesBegin(n: Node, level: nat, rest: seq<string>)
    ensures var lines := GroupLines(n, level) + rest;
            && lines[0] == GroupLines(n, level)[0] == Indent(level) + n.name + " = {\n"
            && lines[1..] == MemberLines(n.children, level) + ([Indent(level) + "}\n"] + rest)
  {
  }

  /** A node without a value is read from a line that begins a group. */
  lemma FirstIsGroup(lines: seq<string>, n: Node, cmt: char)
    requires n.value == None && BeginsWith(ParseSub(lines, cmt), [n])
    requires lines != [] && IsLine(lines[0])
    ensures SubLineOf(lines[0], cmt).SubGroup? && MemberKey(n.name, cmt)
  {
    SubLineGivesOk(lines[0], cmt);
    assert ParseSub(lines, cmt).value.nodes[0] == n;
  }

  lemma InsideGroup(lines: seq<string>, n: Node, cmt: char)
    requires BeginsWith(ParseSub(lines, cmt), [n]) && lines != []
    requires SubLineOf(lines[0], cmt).SubGroup? && SubLineOf(lines[0], cmt).open
    ensures BeginsWith(ParseSub(lines[1..], cmt), n.children)
  {
    assert ParseSub(lines, cmt).value.nodes[0] == n;
  }

  lemma {:induction false} MembersExact(nodes: seq<Node>, level: nat, tail: seq<string>, cmt: char)
    requires AllOneLine(nodes) && BeginsWith(ParseSub(MemberLines(nodes, level) + tail, cmt), nodes)
    ensures AllMembersOk(nodes, cmt)
    decreases nodes, 1
  {
    if nodes != [] {
      var n, more := nodes[0], nodes[1..];
      var rest := MemberLines(more, level) + tail;
      FirstMember(nodes, level, tail);
      BeginsOne(ParseSub(NodeLines(n, level) + rest, cmt), nodes);
      MemberExact(n, level, rest, cmt);
      NodeRoundTrip(n, level, rest, cmt);
      BeginsBehind(n, more, ParseSub(rest, cmt));
      MembersExact(more, level, tail, cmt);
      MembersCons(n, more, cmt);
    }
  }

  lemma FirstMember(nodes: seq<Node>, level: nat, tail: seq<string>)
    requires nodes != []
    ensures nodes == [nodes[0]] + nodes[1..]
    ensures MemberLines(nodes, level) + tail == NodeLines(nodes[0], level) + (MemberLines(nodes[1..], level) + tail)
  {
  }

  lemma BeginsOne(p: Option<Parsed>, nodes: seq<Node>)
    requires nodes != [] && BeginsWith(p, nodes)
    ensures BeginsWith(p, [nodes[0]])
  {
  }

  lemma MembersCons(n: Node, more: seq<Node>, cmt: char)
    requires MemberOk(n, cmt) && AllMembersOk(more, cmt)
    ensures AllMembersOk([n] + more, cmt)
  {
  }

  lemma BeginsBehind(n: Node, nodes: seq<Node>, p: Option<Parsed>)
    ensures BeginsWith(Cons(n, p), [n] + nodes) <==> BeginsWith(p, nodes)
  {
    if p.Some? {
      var all := Cons(n, p).value.nodes;
      assert all[1..] == p.value.nodes && ([n] + nodes)[1..] == nodes;
      if nodes <= p.value.nodes { assert p.value.nodes == nodes + p.value.nodes[|nodes|..]; }
      if [n] + nodes <= all { assert all[..|nodes| + 1][1..] == p.value.nodes[..|nodes|]; }
    }
  }

  // ----- sections

  /** If the first node read in a section is the one that was printed, it is in the printable form. */
  lemma EntryExact(n: Node, rest: seq<string>, cmt: char)
    requires OneLineNode(n) && BeginsWith(ParseSection(EntryLines(n) + rest, cmt), [n])
    ensures EntryOk(n, cmt)
  {
    var lines := EntryLines(n) + rest;
    EntryLinesProper(n);
    assert lines[0] == EntryLines(n)[0];
    SecLineGivesOk(lines[0], cmt);
    var first := ParseSection(lines, cmt).value.nodes[0];
    assert first == n;
    if Reserved(n.name) {
      ReservedExact(n, lines[0], cmt);
    } else if n.value == None {
      EntryGroupExact(n, rest, cmt);
    }
  }

  /** A reserved node can only have been read as a raw line. */
  lemma ReservedExact(n: Node, line: string, cmt: char)
    requires OneLineNode(n) && Reserved(n.name) && line == Show(n.value) + "\n"
    ensures SecLineOf(line, cmt).SecLeaf? ==> n.value != Some(SecLineOf(line, cmt).value)
    ensures SecLineOf(line, cmt).SecGroup? ==> n.value != None
  {
    match n.value {
      case Some(v) => if SecLineOf(line, cmt).SecLeaf? { SecLeafShorter(v, cmt); }
      case None =>
        assert "(null)" + "\n" == "(null)\n";
        NullLine(cmt);
    }
  }

  lemma EntryGroupExact(n: Node, rest: seq<string>, cmt: char)
    requires OneLineNode(n) && n.value == None && !Reserved(n.name)
    requires BeginsWith(ParseSection(GroupLines(n, 1) + rest, cmt), [n])
    ensures EntryOk(n, cmt)
  {
    var lines := GroupLines(n, 1) + rest;
    var close := [Indent(1) + "}\n"] + rest;
    GroupLinesProper(n, 1);
    GroupLinesBegin(n, 1, rest);
    FirstEntryIsGroup(lines, n, cmt);
    SecGroupLine(Indent(1), n.name, cmt);
    InsideEntry(lines, n, cmt);
    MembersExact(n.children, 1, close, cmt);
  }

  lemma FirstEntryIsGroup(lines: seq<string>, n: Node, cmt: char)
    requires n.value == None && BeginsWith(ParseSection(lines, cmt), [n])
    requires lines != [] && IsLine(lines[0])
    ensures SecLineOf(lines[0], cmt).SecGroup? && IsKey(n.name, cmt) && (n.name != "" ==> n.name[0] != '[')
  {
    SecLineGivesOk(lines[0], cmt);
    assert ParseSection(lines, cmt).value.nodes[0] == n;
  }

  lemma InsideEntry(lines: seq<string>, n: Node, cmt: char)
    requires BeginsWith(ParseSection(lines, cmt), [n]) && lines != []
    requires SecLineOf(lines[0], cmt).SecGroup? && SecLineOf(lines[0], cmt).open
    ensures BeginsWith(ParseSub(lines[1..], cmt), n.children)
  {
    assert ParseSection(lines, cmt).value.nodes[0] == n;
  }

  lemma {:induction false} EntriesExact(nodes: seq<Node>, tail: seq<string>, cmt: char)
    requires AllOneLine(nodes) && BeginsWith(ParseSection(SectionLines(nodes) + tail, cmt), nodes)
    ensures AllEntriesOk(nodes, cmt)
    ensures ParseSection(SectionLines(nodes) + tail, cmt) == PrependAll(nodes, ParseSection(tail, cmt))
  {
    if nodes == [] {
      assert SectionLines(nodes) + tail == tail;
      PrependNone(ParseSection(tail, cmt));
    } else {
      var n, more := nodes[0], nodes[1..];
      var rest := SectionLines(more) + tail;
      FirstEntry(nodes, tail);
      BeginsOne(ParseSection(EntryLines(n) + rest, cmt), nodes);
      EntryExact(n, rest, cmt);
      EntryRoundTrip(n, rest, cmt);
      BeginsBehind(n, more, ParseSection(rest, cmt));
      EntriesExact(more, tail, cmt);
      PrependOne(n, more, ParseSection(tail, cmt));
      EntriesCons(n, more, cmt);
    }
  }

  lemma FirstEntry(nodes: seq<Node>, tail: seq<string>)
    requires nodes != []
    ensures nodes == [nodes[0]] + nodes[1..]
    ensures SectionLines(nodes) + tail == EntryLines(nodes[0]) + (SectionLines(nodes[1..]) + tail)
  {
  }

  lemma PrependNone(p: Option<Parsed>)
    ensures PrependAll([], p) == p
  {
    if p.Some? { assert [] + p.value.nodes == p.value.nodes; }
  }

  lemma PrependOne(n: Node, nodes: seq<Node>, p: Option<Parsed>)
    ensures Cons(n, PrependAll(nodes, p)) == PrependAll([n] + nodes, p)
  {
    if p.Some? { assert [n] + (nodes + p.value.nodes) == [n] + nodes + p.value.nodes; }
  }

  // ----- headers that are not closed

  /** The line "]". */
  function Bracket(cmt: char): Node {
    Raw(if cmt == ']' then COMMENT else UNPARSED, "]")
  }

  lemma BracketLine(rest: seq<string>, cmt: char)
    ensures ParseSection(["]\n"] + rest, cmt) == Cons(Bracket(cmt), ParseSection(rest, cmt))
  {
    var line := "]\n";
    assert "" + line == line;
    TrimStartOver("", line);
    assert "]" + "\n" == line;
    TakeLineOver("]", "\n");
    KeyOver("]", "\n");
    assert "\n" + "" == "\n";
    TrimStartOver("\n", "");
    assert (["]\n"] + rest)[0] == line && (["]\n"] + rest)[1..] == rest;
  }

  /** A header whose name ends in a line break leaves a bracket on a line of its own. Every time it is read again
      there is one bracket more, so the section never comes back. */
  lemma {:induction false} UnclosedNever(nodes: seq<Node>, tail: seq<string>, cmt: char)
    ensures var p := ParseSection(SectionLines(nodes) + tail, cmt);
            p.Some? ==> nodes != [Bracket(cmt)] + p.value.nodes
  {
    if nodes != [] && nodes[0] == Bracket(cmt) {
      var rest := SectionLines(nodes[1..]) + tail;
      BracketPrinted(nodes, tail, cmt);
      BracketLine(rest, cmt);
      UnclosedNever(nodes[1..], tail, cmt);
      if ParseSection(rest, cmt).Some? {
        StripOne(Bracket(cmt), nodes, [Bracket(cmt)] + ParseSection(rest, cmt).value.nodes);
      }
    }
  }

  lemma BracketPrinted(nodes: seq<Node>, tail: seq<string>, cmt: char)
    requires nodes != [] && nodes[0] == Bracket(cmt)
    ensures SectionLines(nodes) + tail == ["]\n"] + (SectionLines(nodes[1..]) + tail)
  {
    assert "]" + "\n" == "]\n";
    assert EntryLines(nodes[0]) == ["]\n"];
  }

  lemma StripOne(n: Node, a: seq<Node>, b: seq<Node>)
    ensures a == [n] + b ==> a[1..] == b
  {
  }

  // ----- texts piece by piece

  lemma {:induction false} JoinConcat(a: seq<string>, b: seq<string>)
    ensures Join(a + b) == Join(a) + Join(b)
  {
    if a == [] {
      assert a + b == b;
    } else {
      assert (a + b)[1..] == a[1..] + b;
      JoinConcat(a[1..], b);
    }
  }

  /** Proper lines are read as themselves, whatever text follows. */
  lemma {:induction false} SplitProper(lines: seq<string>, text: string)
    requires AllProper(lines)
    ensures SplitLines(Join(lines) + text) == lines + SplitLines(text)
  {
    if lines == [] {
      assert "" + text == text;
      assert [] + SplitLines(text) == SplitLines(text);
    } else {
      SplitProper(lines[1..], text);
      Associates(lines[0], Join(lines[1..]), text);
      SplitOne(lines[0], Join(lines[1..]) + text);
      FirstAndRest(lines, SplitLines(text));
    }
  }

  lemma Associates(a: string, b: string, c: string)
    ensures a + b + c == a + (b + c)
  {
  }

  lemma FirstAndRest(lines: seq<string>, more: seq<string>)
    requires lines != []
    ensures [lines[0]] + (lines[1..] + more) == lines + more
  {
  }

  lemma SplitOne(line: string, more: string)
    requires ProperLine(line)
    ensures SplitLines(line + more) == [line] + SplitLines(more)
  {
    var body := line[..|line| - 1];
    var text := line + more;
    assert text == body + ("\n" + more);
    TakeLineOver(body, "\n" + more);
    assert text[..|body| + 1] == line && text[|body| + 1..] == more;
  }

  /** What is read of a printed tree. */
  function Reread(nodes: seq<Node>): seq<string> {
    SplitLines(Join(TopLines(nodes)))
  }

  lemma RereadStep(head: seq<string>, nodes: seq<Node>, lines: seq<string>)
    requires nodes != [] && TopLines(nodes) == head + TopLines(nodes[1..])
    requires AllProper(lines) && Join(head) == Join(lines)
    ensures Reread(nodes) == lines + Reread(nodes[1..])
  {
    JoinConcat(head, TopLines(nodes[1..]));
    SplitProper(lines, Join(TopLines(nodes[1..])));
  }

  // ----- top level

  /** A node as parse_ini makes it. */
  predicate ReadNode(n: Node) {
    match n.value
    case Some(_) => PreambleOk(n)
    case None =>
      && (n.name != "" ==> !IsSpace(n.name[0])) && (forall i :: 0 <= i < |n.name| ==> n.name[i] != ']')
      && (OneLine(n.name) || (n.name != "" && n.name[|n.name| - 1] == '\n' && OneLine(n.name[..|n.name| - 1])))
      && forall c :: c in n.children ==> OneLineNode(c)
  }

  lemma HeaderIsReadNode(line: string, nodes: seq<Node>)
    requires IsLine(line) && TopLineOf(line).TopHeader? && AllOneLine(nodes)
    ensures ReadNode(Node(TopLineOf(line).name, None, nodes))
  {
    var tail := TrimStart(line)[1..];
    var name := TopLineOf(line).name;
    HeaderGivesOk(line);
    TrimStartIs(line);
    TrimStartIs(tail);
    HeaderChars(TrimStart(tail));
    SuffixDrop(TrimStart(tail), tail, line);
    if name != "" {
      SuffixLine(TrimStart(tail), line);
      HeaderOneLine(TrimStart(tail), name);
    }
  }

  lemma HeaderOneLine(s: string, name: string)
    requires IsLine(s) && name != "" && name <= s
    ensures OneLine(name) || (name[|name| - 1] == '\n' && OneLine(name[..|name| - 1]))
  {
    assert forall i :: 0 <= i < |name| - 1 ==> name[i] == s[..|s| - 1][i];
  }

  lemma {:induction false} TopNodesRead(lines: seq<string>, cmt: char)
    requires AllLines(lines) && ParseTop(lines, cmt).Some?
    ensures forall n :: n in ParseTop(lines, cmt).value ==> ReadNode(n)
    decreases |lines|
  {
    if lines != [] {
      if TopLineOf(lines[0]).TopHeader? {
        SectionNodesOneLine(lines[1..], cmt);
        HeaderIsReadNode(lines[0], ParseSection(lines[1..], cmt).value.nodes);
        TopNodesRead(ParseSection(lines[1..], cmt).value.rest, cmt);
      } else {
        PreambleGivesOk(lines[0]);
        TopNodesRead(lines[1..], cmt);
      }
    }
  }

  lemma NothingRead(lines: seq<string>, cmt: char)
    requires ParseSection(lines, cmt).Some? && ParseSection(lines, cmt).value.nodes == []
    ensures ParseSection(lines, cmt).value.rest == lines
  {
  }

  /** What the first node of a printed tree is read as, and what is left to be read. */
  ghost predicate ComesBack(nodes: seq<Node>, cmt: char) {
    ParseTop(Reread(nodes), cmt) == Some(nodes)
  }

  lemma BeforeIs(n: Node, m: Node, nodes: seq<Node>, more: Option<seq<Node>>)
    requires nodes != [] && Before(m, more) == Some(nodes)
    ensures m == nodes[0] && more == Some(nodes[1..])
  {
    assert nodes == [m] + more.value;
  }

  lemma PreambleBack(nodes: seq<Node>, cmt: char)
    requires nodes != [] && PreambleOk(nodes[0]) && ComesBack(nodes, cmt)
    ensures ComesBack(nodes[1..], cmt)
  {
    var n := nodes[0];
    var head := [n.value.value + "\n"];
    LineOfOneLine(n.value.value);
    RereadStep(head, nodes, head);
    PreambleLine(n);
    assert (head + Reread(nodes[1..]))[1..] == Reread(nodes[1..]);
    BeforeIs(n, n, nodes, ParseTop(Reread(nodes[1..]), cmt));
  }

  /** A section whose name begins with a dot is printed as a raw line. */
  lemma DottedNever(nodes: seq<Node>, cmt: char)
    requires nodes != [] && nodes[0].value == None && nodes[0].name != "" && nodes[0].name[0] == '.'
    ensures !ComesBack(nodes, cmt)
  {
    var head := ["(null)\n"];
    assert Show(nodes[0].value) + "\n" == "(null)\n";
    LineOfOneLine("(null)");
    RereadStep(head, nodes, head);
    NullAtTop(Reread(nodes[1..]), cmt);
  }

  lemma NullAtTop(lines: seq<string>, cmt: char)
    ensures var p := ParseTop(["(null)\n"] + lines, cmt);
            p.Some? ==> p.value != [] && p.value[0].value.Some?
  {
    assert "" + "(null)\n" == "(null)\n";
    TrimStartOver("", "(null)\n");
    assert (["(null)\n"] + lines)[0] == "(null)\n";
  }

  /** The lines of a section whose header is closed. */
  lemma SectionReread(nodes: seq<Node>, cmt: char)
    requires nodes != [] && nodes[0].value == None && ReadNode(nodes[0]) && OneLine(nodes[0].name)
    requires !(nodes[0].name != "" && nodes[0].name[0] == '.')
    ensures var n, header := nodes[0], "[" + nodes[0].name + "]\n";
            && TopLineOf(header) == TopHeader(n.name)
            && Reread(nodes) == [header] + (SectionLines(n.children) + Reread(nodes[1..]))
  {
    var n := nodes[0];
    var header, lines := "[" + n.name + "]\n", SectionLines(n.children);
    ClosedLines(n, cmt);
    SectionPrinted(nodes);
    RereadStep([header] + lines, nodes, [header] + lines);
    ConsConcat(header, lines, Reread(nodes[1..]));
  }

  lemma SectionPrinted(nodes: seq<Node>)
    requires nodes != [] && !(nodes[0].name != "" && nodes[0].name[0] == '.')
    ensures TopLines(nodes) == ["[" + nodes[0].name + "]\n"] + SectionLines(nodes[0].children) + TopLines(nodes[1..])
  {
  }

  lemma ClosedLines(n: Node, cmt: char)
    requires n.value == None && ReadNode(n) && OneLine(n.name)
    ensures AllProper(["[" + n.name + "]\n"] + SectionLines(n.children))
    ensures TopLineOf("[" + n.name + "]\n") == TopHeader(n.name)
  {
    LineOfOneLine("[" + n.name + "]");
    assert "[" + n.name + "]\n" == "[" + n.name + "]" + "\n";
    SectionLinesProper(n.children);
    HeaderLine(n.name, cmt);
  }

  lemma SectionBack(nodes: seq<Node>, cmt: char)
    requires nodes != [] && nodes[0].value == None && ReadNode(nodes[0]) && OneLine(nodes[0].name)
    requires !(nodes[0].name != "" && nodes[0].name[0] == '.')
    requires ComesBack(nodes, cmt)
    ensures TidySection(nodes[0], cmt) && ComesBack(nodes[1..], cmt)
  {
    var n, rest := nodes[0], Reread(nodes[1..]);
    var body := SectionLines(n.children) + rest;
    SectionReread(nodes, cmt);
    HeaderFirst("[" + n.name + "]\n", body, cmt);
    var section := ParseSection(body, cmt).value;
    BeforeIs(n, Node(n.name, None, section.nodes), nodes, ParseTop(section.rest, cmt));
    ChildrenBack(n.children, rest, cmt);
  }

  /** If a section is read as its own children, these are tidy, and the section ends where it was printed to end. */
  lemma ChildrenBack(children: seq<Node>, rest: seq<string>, cmt: char)
    requires AllOneLine(children)
    requires var p := ParseSection(SectionLines(children) + rest, cmt); p.Some? && p.value.nodes == children
    ensures ParseSection(SectionLines(children) + rest, cmt).value.rest == rest
    ensures forall c :: c in children ==> TidyEntry(c, cmt)
  {
    EntriesExact(children, rest, cmt);
    var more := ParseSection(rest, cmt).value.nodes;
    assert |children + more| == |children| + |more|;
    NothingRead(rest, cmt);
    forall c | c in children ensures TidyEntry(c, cmt) {
      assert EntryOk(c, cmt);
      EntryIsTidy(c, cmt);
    }
  }

  /** The lines of a section whose header is not closed: the bracket comes on the next line. */
  lemma UnclosedReread(nodes: seq<Node>)
    requires nodes != [] && nodes[0].value == None && ReadNode(nodes[0]) && !OneLine(nodes[0].name)
    requires nodes[0].name[0] != '.'
    ensures var n, header := nodes[0], "[" + nodes[0].name;
            && TopLineOf(header).TopHeader?
            && Reread(nodes) == [header] + (["]\n"] + (SectionLines(n.children) + Reread(nodes[1..])))
  {
    var n, rest := nodes[0], Reread(nodes[1..]);
    var header, lines := "[" + n.name, SectionLines(n.children);
    UnclosedLines(n);
    SectionPrinted(nodes);
    RereadStep(["[" + n.name + "]\n"] + lines, nodes, [header] + (["]\n"] + lines));
    ConsConcat(header, ["]\n"] + lines, rest);
    ConsConcat("]\n", lines, rest);
    UnclosedHeader(header);
  }

  lemma UnclosedHeader(header: string)
    requires header != "" && header[0] == '['
    ensures TopLineOf(header).TopHeader?
  {
    assert "" + header == header;
    TrimStartOver("", header);
  }

  lemma UnclosedBack(nodes: seq<Node>, cmt: char)
    requires nodes != [] && nodes[0].value == None && ReadNode(nodes[0]) && !OneLine(nodes[0].name)
    requires nodes[0].name[0] != '.'
    ensures !ComesBack(nodes, cmt)
  {
    var n, rest := nodes[0], Reread(nodes[1..]);
    var body := SectionLines(n.children) + rest;
    UnclosedReread(nodes);
    HeaderFirst("[" + n.name, ["]\n"] + body, cmt);
    BracketLine(body, cmt);
    UnclosedNever(n.children, rest, cmt);
    if ComesBack(nodes, cmt) {
      var section := ParseSection(["]\n"] + body, cmt).value;
      BeforeIs(n, Node(TopLineOf("[" + n.name).name, None, section.nodes), nodes, ParseTop(section.rest, cmt));
      assert false;
    }
  }

  lemma UnclosedLines(n: Node)
    requires n.value == None && ReadNode(n) && !OneLine(n.name)
    ensures var lines := ["[" + n.name] + (["]\n"] + SectionLines(n.children));
            AllProper(lines) && Join(["[" + n.name + "]\n"] + SectionLines(n.children)) == Join(lines)
  {
    var body := "[" + n.name[..|n.name| - 1];
    LineOfOneLine(body);
    assert "[" + n.name == body + "\n";
    LineOfOneLine("]");
    assert "]" + "\n" == "]\n";
    SectionLinesProper(n.children);
    var more := ["]\n"] + SectionLines(n.children);
    var lines := ["[" + n.name] + more;
    assert lines[1..] == more && more[1..] == SectionLines(n.children);
    assert (["[" + n.name + "]\n"] + SectionLines(n.children))[1..] == SectionLines(n.children);
    assert "[" + n.name + ("]\n" + Join(SectionLines(n.children)))
        == "[" + n.name + "]\n" + Join(SectionLines(n.children));
  }

  lemma {:induction false} TopExact(nodes: seq<Node>, cmt: char)
    requires (forall n :: n in nodes ==> ReadNode(n)) && ComesBack(nodes, cmt)
    ensures forall n :: n in nodes && n.value == None ==> TidySection(n, cmt)
  {
    if nodes != [] {
      var n := nodes[0];
      assert nodes == [n] + nodes[1..] && ReadNode(n);
      if n.value.Some? {
        PreambleBack(nodes, cmt);
      } else if n.name != "" && n.name[0] == '.' {
        DottedNever(nodes, cmt);
      } else if OneLine(n.name) {
        SectionBack(nodes, cmt);
      } else {
        UnclosedBack(nodes, cmt);
      }
      TopExact(nodes[1..], cmt);
    }
  }

  // ----- both directions

  /** A tree comes back from being printed and parsed exactly if it is in the printable form. */
  lemma RoundTripExact(root: Node, cmt: char)
    ensures Parse(Unparse(root), cmt) == Some(root) <==> TreeOk(root, cmt)
  {
    if TreeOk(root, cmt) { RoundTrip(root, cmt); }
    if Parse(Unparse(root), cmt) == Some(root) {
      SplitLinesAreLines(Unparse(root));
      TopNodesRead(Reread(root.children), cmt);
      TopExact(root.children, cmt);
      ParsedIsOkIffTidy(Unparse(root), cmt);
    }
  }

  /** Parsing, printing and parsing again gives what parsing gave exactly if the tree is tidy. */
  lemma ReparseExact(text: string, cmt: char)
    requires Parse(text, cmt).Some?
    ensures Parse(Unparse(Parse(text, cmt).value), cmt) == Parse(text, cmt) <==> Tidy(Parse(text, cmt).value, cmt)
  {
    ParsedIsOkIffTidy(text, cmt);
    RoundTripExact(Parse(text, cmt).value, cmt);
  }
}
