/** What parse_ini produces from an arbitrary file, and when unparsing and parsing it again gives the same. */
module IniReparse {
  import opened Wrappers
  import opened CnfTree
  import opened IniText
  import opened IniFormat

  // ----- the parts of a line

  ghost predicate IsSuffix(a: string, b: string) {
    |a| <= |b| && a == b[|b| - |a|..]
  }

  lemma LineParts(line: string)
    requires IsLine(line)
    ensures OneLine(TakeLine(line)) && (line == TakeLine(line) || line == TakeLine(line) + "\n")
  {
    TakeLineIs(line);
    var n := |TakeLine(line)|;
    assert forall i :: 0 <= i < |line| - 1 ==> line[i] == line[..|line| - 1][i];
  }

  /** A line without its line break trims to the same word, up to that line break. */
  lemma TrimmedLine(line: string)
    requires IsLine(line)
    ensures TrimStart(line) == "" <==> AllSpace(TakeLine(line))
    ensures TrimStart(line) != "" ==> TrimStart(line)[0] == FirstChar(TakeLine(line)) && !IsSpace(TrimStart(line)[0])
    ensures TrimStart(line) != "" ==>
              TrimStart(line) == TrimStart(TakeLine(line)) || TrimStart(line) == TrimStart(TakeLine(line)) + "\n"
  {
    LineParts(line);
    RawLine(TakeLine(line));
    FirstCharAt(TakeLine(line));
    TrimStartIs(line);
    TrimStartIs(TakeLine(line));
  }

  lemma KeyOfLine(p: string, cmt: char)
    requires p != "" && !IsSpace(p[0]) && p[0] != cmt
    requires var q := TrimStart(DropKey(p)); q != "" && q[0] == '='
    ensures IsKey(TakeKey(p), cmt) && (TakeKey(p) != "" ==> TakeKey(p)[0] == p[0])
  {
    KeyIs(p);
    if TakeKey(p) == "" { assert p == DropKey(p); }
  }

  lemma JunkLine(line: string)
    requires IsLine(line) && TrimStart(line) != ""
    requires var q := TrimStart(DropKey(TrimStart(line))); q == "" || q[0] != '='
    ensures NoAssignment(TakeLine(line))
  {
    TrimmedLine(line);
    LineParts(line);
    var t := TrimStart(TakeLine(line));
    TrimStartIs(TakeLine(line));
    KeyIs(t);
    var d := DropKey(t);
    FirstCharAt(d);
    if TrimStart(line) == t + "\n" {
      OneLineTail(TakeLine(line), t);
      OneLineTail(t, d);
      assert t + "\n" == TakeKey(t) + (d + "\n");
      KeyOver(TakeKey(t), d + "\n");
      RawLine(d);
    }
  }

  lemma OneLineTail(s: string, t: string)
    requires OneLine(s) && |t| <= |s| && t == s[|s| - |t|..]
    ensures OneLine(t)
  {
    assert forall i :: 0 <= i < |t| ==> t[i] == s[|s| - |t| + i];
  }

  /** What stands behind '=' in a line. */
  lemma TailOfLine(line: string)
    requires IsLine(line)
    requires var q := TrimStart(DropKey(TrimStart(line))); q != "" && q[0] == '='
    ensures var v := TrimStart(TrimStart(DropKey(TrimStart(line)))[1..]);
            IsSuffix(v, line) && (v != "" ==> !IsSpace(v[0]))
  {
    var p := TrimStart(line);
    var q := TrimStart(DropKey(p));
    TrimmedSuffix(line);
    KeyIs(p);
    SuffixTail(p, line, TakeKey(p), DropKey(p));
    TrimmedSuffix(DropKey(p));
    SuffixDrop(q, DropKey(p), line);
    SuffixDrop(q[1..], q, line);
    TrimmedSuffix(q[1..]);
    SuffixDrop(TrimStart(q[1..]), q[1..], line);
  }

  lemma TrimmedSuffix(s: string)
    ensures IsSuffix(TrimStart(s), s) && (TrimStart(s) != "" ==> !IsSpace(TrimStart(s)[0]))
  {
    TrimStartIs(s);
  }

  lemma SuffixTail(p: string, line: string, key: string, d: string)
    requires IsSuffix(p, line) && p == key + d
    ensures IsSuffix(d, line)
  {
    assert d == p[|key|..];
  }

  lemma SuffixDrop(a: string, b: string, c: string)
    requires IsSuffix(a, b) && IsSuffix(b, c)
    ensures IsSuffix(a, c)
  {
  }

  lemma SuffixLine(v: string, line: string)
    requires IsLine(line) && IsSuffix(v, line) && v != ""
    ensures IsLine(v)
  {
    assert forall i :: 0 <= i < |v| - 1 ==> v[i] == line[..|line| - 1][|line| - |v| + i];
  }

  /** A value inside a section ends with its line. */
  lemma SectionValue(v: string, line: string)
    requires IsLine(line) && IsSuffix(v, line) && (v != "" ==> !IsSpace(v[0]) && v[0] != '{')
    ensures IsValue(TakeLine(v))
  {
    if v != "" {
      SuffixLine(v, line);
      LineParts(v);
    }
  }

  /** A value inside a group loses its trailing white space, and with it the line break. */
  lemma GroupValue(v: string, line: string)
    requires IsLine(line) && IsSuffix(v, line) && (v != "" ==> !IsSpace(v[0]) && v[0] != '{')
    ensures IsValue(TrimEnd(v)) && (TrimEnd(v) != "" ==> !IsSpace(TrimEnd(v)[|TrimEnd(v)| - 1]))
  {
    TrimEndIs(v);
    if v != "" {
      SuffixLine(v, line);
      var t := TrimEnd(v);
      forall i | 0 <= i < |t| ensures t[i] != '\n' {
        if i < |v| - 1 { assert v[..|v| - 1][i] == t[i]; }
      }
    }
  }

  // ----- nodes read from lines

  /** Inside a group: a line read as a reserved node is a raw line of that kind, and keys and values are such that
      they can be printed. Only a key that is itself a reserved name can be trouble. */
  lemma SubLineGivesOk(line: string, cmt: char)
    requires IsLine(line)
    ensures match SubLineOf(line, cmt)
            case CloseBrace => true
            case SubBlank(text) => LeafOk(EMPTY, text, cmt)
            case SubComment(text) => LeafOk(COMMENT, text, cmt)
            case SubJunk(text) => LeafOk(UNPARSED, text, cmt)
            case SubLeaf(name, v) =>
              MemberKey(name, cmt) && IsValue(v) && (v != "" ==> !IsSpace(v[|v| - 1]))
            case SubGroup(name, _) => MemberKey(name, cmt)
  {
    TrimmedLine(line);
    LineParts(line);
    if SubLineOf(line, cmt).SubJunk? { JunkLine(line); }
    if SubLineOf(line, cmt).SubGroup? { KeyOfLine(TrimStart(line), cmt); }
    if SubLineOf(line, cmt).SubLeaf? { SubLeafGivesOk(line, cmt); }
  }

  lemma SubLeafGivesOk(line: string, cmt: char)
    requires IsLine(line) && SubLineOf(line, cmt).SubLeaf?
    ensures var SubLeaf(name, v) := SubLineOf(line, cmt);
            MemberKey(name, cmt) && IsValue(v) && (v != "" ==> !IsSpace(v[|v| - 1]))
  {
    var p := TrimStart(line);
    TrimStartIs(line);
    KeyOfLine(p, cmt);
    TailOfLine(line);
    GroupValue(TrimStart(TrimStart(DropKey(p))[1..]), line);
  }

  lemma SecLineGivesOk(line: string, cmt: char)
    requires IsLine(line)
    ensures match SecLineOf(line, cmt)
            case Header => true
            case SecBlank => true
            case SecComment(text) => EntryOk(Raw(COMMENT, text), cmt)
            case SecJunk(text) => EntryOk(Raw(UNPARSED, text), cmt)
            case SecLeaf(name, v) => IsKey(name, cmt) && (name != "" ==> name[0] != '[') && IsValue(v)
            case SecGroup(name, _, _) => IsKey(name, cmt) && (name != "" ==> name[0] != '[')
  {
    TrimmedLine(line);
    LineParts(line);
    var p := TrimStart(line);
    match SecLineOf(line, cmt) {
      case Header =>
      case SecBlank =>
      case SecComment(text) =>
      case SecJunk(text) => JunkLine(line);
      case SecLeaf(name, v) =>
        KeyOfLine(p, cmt);
        TailOfLine(line);
        SectionValue(TrimStart(TrimStart(DropKey(p))[1..]), line);
      case SecGroup(name, _, _) => KeyOfLine(p, cmt);
    }
  }

  // ----- tidy trees

  /** A leaf with a reserved name holds a raw line of its kind. */
  predicate TidyMember(n: Node, cmt: char) {
    && (n.value.Some? && Reserved(n.name) ==> LeafOk(n.name, n.value.value, cmt))
    && forall c :: c in n.children ==> TidyMember(c, cmt)
  }

  predicate TidyEntry(n: Node, cmt: char) {
    if Reserved(n.name) then EntryOk(n, cmt) else forall c :: c in n.children ==> TidyMember(c, cmt)
  }

  /** The headers were closed, section names do not begin with a dot, and entries are tidy. */
  predicate TidySection(n: Node, cmt: char) {
    && OneLine(n.name) && (n.name != "" ==> n.name[0] != '.')
    && forall c :: c in n.children ==> TidyEntry(c, cmt)
  }

  predicate Tidy(root: Node, cmt: char) {
    forall n :: n in root.children && n.value == None ==> TidySection(n, cmt)
  }

  ghost predicate AllTidyMembers(nodes: seq<Node>, cmt: char) {
    forall c :: c in nodes ==> TidyMember(c, cmt)
  }

  ghost predicate AllLines(lines: seq<string>) {
    forall i :: 0 <= i < |lines| ==> IsLine(lines[i])
  }

  ghost predicate Tail(rest: seq<string>, lines: seq<string>) {
    |rest| <= |lines| && rest == lines[|lines| - |rest|..]
  }

  lemma LaterTail(rest: seq<string>, mid: seq<string>, lines: seq<string>)
    requires mid != [] && Tail(mid, lines) && Tail(rest, mid[1..])
    ensures Tail(rest, lines)
  {
  }

  lemma {:induction false} SubRest(lines: seq<string>, cmt: char)
    ensures var p := ParseSub(lines, cmt); p.Some? ==> Tail(p.value.rest, lines)
    decreases |lines|
  {
    if lines != [] && ParseSub(lines, cmt).Some? && SubLineOf(lines[0], cmt) != CloseBrace {
      var rest := ParseSub(lines, cmt).value.rest;
      SubRest(lines[1..], cmt);
      if Opening(SubLineOf(lines[0], cmt)) {
        var mid := ParseSub(lines[1..], cmt).value.rest;
        SubRest(mid[1..], cmt);
        LaterTail(mid, lines, lines);
        LaterTail(rest, mid, lines);
      } else {
        LaterTail(rest, lines, lines);
      }
    }
  }

  /** What is read inside a group can be printed and read again, if it is tidy. */
  lemma {:induction false} SubNodesOk(lines: seq<string>, cmt: char)
    requires AllLines(lines) && ParseSub(lines, cmt).Some?
    requires AllTidyMembers(ParseSub(lines, cmt).value.nodes, cmt)
    ensures AllMembersOk(ParseSub(lines, cmt).value.nodes, cmt)
    decreases |lines|
  {
    if lines != [] && SubLineOf(lines[0], cmt) != CloseBrace {
      SubLineGivesOk(lines[0], cmt);
      var nodes := ParseSub(lines, cmt).value.nodes;
      assert TidyMember(nodes[0], cmt);
      if SubLineOf(lines[0], cmt).SubGroup? && SubLineOf(lines[0], cmt).open {
        SubRest(lines[1..], cmt);
        var inner := ParseSub(lines[1..], cmt).value;
        SubNodesOk(lines[1..], cmt);
        assert nodes[1..] == ParseSub(inner.rest[1..], cmt).value.nodes;
        SubNodesOk(inner.rest[1..], cmt);
      } else {
        assert nodes[1..] == ParseSub(lines[1..], cmt).value.nodes;
        SubNodesOk(lines[1..], cmt);
      }
      assert MemberOk(nodes[0], cmt);
      assert nodes == [nodes[0]] + nodes[1..];
    }
  }

  /** The node of a line that is neither a header nor begins a group. */
  function LeafOf(line: SecLine): Node
    requires !line.Header? && !line.SecGroup?
  {
    match line
    case SecBlank => Raw(EMPTY, "")
    case SecComment(text) => Raw(COMMENT, text)
    case SecLeaf(name, value) => Node(name, Some(value), [])
    case SecJunk(text) => Raw(UNPARSED, text)
  }

  lemma LeafRead(lines: seq<string>, cmt: char)
    requires lines != [] && !SecLineOf(lines[0], cmt).Header? && !SecLineOf(lines[0], cmt).SecGroup?
    ensures ParseSection(lines, cmt) == Cons(LeafOf(SecLineOf(lines[0], cmt)), ParseSection(lines[1..], cmt))
  {
  }

  lemma EntriesCons(n: Node, more: seq<Node>, cmt: char)
    requires EntryOk(n, cmt) && AllEntriesOk(more, cmt)
    ensures AllEntriesOk([n] + more, cmt)
  {
  }

  lemma LeafIsOk(line: string, cmt: char)
    requires IsLine(line) && !SecLineOf(line, cmt).Header? && !SecLineOf(line, cmt).SecGroup?
    requires TidyEntry(LeafOf(SecLineOf(line, cmt)), cmt)
    ensures EntryOk(LeafOf(SecLineOf(line, cmt)), cmt)
  {
    SecLineGivesOk(line, cmt);
  }

  lemma {:induction false} SectionNodesOk(lines: seq<string>, cmt: char)
    requires AllLines(lines) && ParseSection(lines, cmt).Some?
    requires forall c :: c in ParseSection(lines, cmt).value.nodes ==> TidyEntry(c, cmt)
    ensures AllEntriesOk(ParseSection(lines, cmt).value.nodes, cmt)
    ensures Tail(ParseSection(lines, cmt).value.rest, lines)
    decreases |lines|
  {
    if lines != [] && SecLineOf(lines[0], cmt) != Header {
      if SecLineOf(lines[0], cmt).SecGroup? {
        SectionGroupOk(lines, cmt);
      } else {
        LeafRead(lines, cmt);
        LeafIsOk(lines[0], cmt);
        SectionNodesOk(lines[1..], cmt);
        EntriesCons(LeafOf(SecLineOf(lines[0], cmt)), ParseSection(lines[1..], cmt).value.nodes, cmt);
      }
    }
  }

  lemma {:induction false} SectionGroupOk(lines: seq<string>, cmt: char)
    requires lines != [] && SecLineOf(lines[0], cmt).SecGroup?
    requires AllLines(lines) && ParseSection(lines, cmt).Some?
    requires forall c :: c in ParseSection(lines, cmt).value.nodes ==> TidyEntry(c, cmt)
    ensures AllEntriesOk(ParseSection(lines, cmt).value.nodes, cmt)
    ensures Tail(ParseSection(lines, cmt).value.rest, lines)
    decreases |lines|, 0
  {
    var n, stays, rest := GroupNode(lines, cmt), GroupStays(lines, cmt), GroupOf(lines, cmt).rest;
    var all := ParseSection(lines, cmt).value;
    SectionGroupParts(lines, cmt);
    GroupHeadOk(lines, cmt);
    if rest != [] {
      var more := ParseSection(rest[1..], cmt).value;
      SectionNodesOk(rest[1..], cmt);
      PartsOk(n, stays, more, all, rest, lines, cmt);
    } else {
      assert all == Parsed([n], []);
    }
  }

  lemma PartsOk(n: Node, stays: seq<Node>, more: Parsed, all: Parsed, rest: seq<string>, lines: seq<string>, cmt: char)
    requires AllEntriesOk([n], cmt) && AllEntriesOk(stays, cmt) && AllEntriesOk(more.nodes, cmt)
    requires rest != [] && Tail(rest, lines) && Tail(more.rest, rest[1..])
    requires all == Parsed([n] + stays + more.nodes, more.rest)
    ensures AllEntriesOk(all.nodes, cmt) && Tail(all.rest, lines)
  {
    EntriesConcat([n], stays, more.nodes, cmt);
  }

  /** The group's own nodes, and what is known of the lines behind it. */
  lemma GroupHeadOk(lines: seq<string>, cmt: char)
    requires lines != [] && SecLineOf(lines[0], cmt).SecGroup?
    requires AllLines(lines) && ParseSection(lines, cmt).Some?
    requires forall c :: c in ParseSection(lines, cmt).value.nodes ==> TidyEntry(c, cmt)
    ensures AllEntriesOk([GroupNode(lines, cmt)], cmt) && AllEntriesOk(GroupStays(lines, cmt), cmt)
    ensures var rest := GroupOf(lines, cmt).rest;
            && Tail(rest, lines)
            && (rest != [] ==> AllLines(rest[1..]) && ParseSection(rest[1..], cmt).Some?
                               && forall c :: c in ParseSection(rest[1..], cmt).value.nodes ==> TidyEntry(c, cmt))
  {
    var n, stays, group := GroupNode(lines, cmt), GroupStays(lines, cmt), GroupOf(lines, cmt);
    var nodes := ParseSection(lines, cmt).value.nodes;
    SectionGroupParts(lines, cmt);
    assert n in nodes && TidyEntry(n, cmt);
    GroupEntryOk(lines, cmt);
    if group.rest != [] {
      SubRest(lines[1..], cmt);
      InConcat([n], stays, ParseSection(group.rest[1..], cmt).value.nodes);
    }
  }

  lemma InConcat(a: seq<Node>, b: seq<Node>, c: seq<Node>)
    ensures forall n :: n in a + b + c <==> n in a || n in b || n in c
  {
  }

  lemma EntriesConcat(a: seq<Node>, b: seq<Node>, c: seq<Node>, cmt: char)
    requires AllEntriesOk(a, cmt) && AllEntriesOk(b, cmt) && AllEntriesOk(c, cmt)
    ensures AllEntriesOk(a + b + c, cmt)
  {
  }

  /** A group contributes its node, perhaps a stray comment, and then the section goes on. */
  lemma SectionGroupParts(lines: seq<string>, cmt: char)
    requires lines != [] && SecLineOf(lines[0], cmt).SecGroup? && ParseSection(lines, cmt).Some?
    ensures var group, all := GroupOf(lines, cmt), ParseSection(lines, cmt).value;
            if group.rest == [] then GroupStays(lines, cmt) == [] && all == Parsed([GroupNode(lines, cmt)], [])
            else
              var more := ParseSection(group.rest[1..], cmt);
              && more.Some? && all.rest == more.value.rest
              && all.nodes == [GroupNode(lines, cmt)] + GroupStays(lines, cmt) + more.value.nodes
  {
  }

  function GroupNode(lines: seq<string>, cmt: char): Node
    requires lines != [] && SecLineOf(lines[0], cmt).SecGroup? && ParseSection(lines, cmt).Some?
  {
    Node(SecLineOf(lines[0], cmt).name, None, GroupOf(lines, cmt).nodes)
  }

  function GroupStays(lines: seq<string>, cmt: char): seq<Node>
    requires lines != [] && SecLineOf(lines[0], cmt).SecGroup? && ParseSection(lines, cmt).Some?
  {
    var rest := GroupOf(lines, cmt).rest;
    if SecLineOf(lines[0], cmt).stray && rest != [] then [Raw(COMMENT, TakeLine(rest[0]))] else []
  }

  /** The group that begins with the first line, as far as it was read. */
  function GroupOf(lines: seq<string>, cmt: char): Parsed
    requires lines != [] && SecLineOf(lines[0], cmt).SecGroup? && ParseSection(lines, cmt).Some?
  {
    if SecLineOf(lines[0], cmt).open then ParseSub(lines[1..], cmt).value else Parsed([], lines)
  }

  lemma GroupEntryOk(lines: seq<string>, cmt: char)
    requires lines != [] && SecLineOf(lines[0], cmt).SecGroup? && ParseSection(lines, cmt).Some?
    requires AllLines(lines) && TidyEntry(GroupNode(lines, cmt), cmt)
    ensures EntryOk(GroupNode(lines, cmt), cmt)
  {
    SecLineGivesOk(lines[0], cmt);
    if !Reserved(GroupNode(lines, cmt).name) && SecLineOf(lines[0], cmt).open { SubNodesOk(lines[1..], cmt); }
  }

  // ----- the top level

  /** Before the first header there are preamble lines, after it only sections. */
  lemma {:induction false} TopNodesOk(lines: seq<string>, cmt: char)
    requires AllLines(lines) && ParseTop(lines, cmt).Some?
    requires forall n :: n in ParseTop(lines, cmt).value && n.value == None ==> TidySection(n, cmt)
    ensures TopOk(ParseTop(lines, cmt).value, cmt)
    ensures lines != [] && TopLineOf(lines[0]).TopHeader? ==>
              forall n :: n in ParseTop(lines, cmt).value ==> SectionOk(n, cmt)
    decreases |lines|
  {
    var nodes := ParseTop(lines, cmt).value;
    if lines == [] {
      assert nodes[..0] == [];
    } else if TopLineOf(lines[0]).TopHeader? {
      var section := ParseSection(lines[1..], cmt).value;
      var more := ParseTop(section.rest, cmt).value;
      assert nodes == [nodes[0]] + more && TidySection(nodes[0], cmt);
      HeaderSectionOk(lines, cmt);
      if section.rest != [] { HeaderAgain(section.rest[0], cmt); }
      TopNodesOk(section.rest, cmt);
      SectionFirst(nodes[0], more, cmt);
    } else {
      var more := ParseTop(lines[1..], cmt).value;
      assert nodes == [nodes[0]] + more;
      TopNodesOk(lines[1..], cmt);
      PreambleGivesOk(lines[0]);
      PreambleFirst(nodes[0], more, cmt);
    }
  }

  /** A header and the lines up to the next one give a section that can be printed and read again. */
  lemma HeaderSectionOk(lines: seq<string>, cmt: char)
    requires lines != [] && AllLines(lines) && TopLineOf(lines[0]).TopHeader? && ParseSection(lines[1..], cmt).Some?
    requires TidySection(Node(TopLineOf(lines[0]).name, None, ParseSection(lines[1..], cmt).value.nodes), cmt)
    ensures SectionOk(Node(TopLineOf(lines[0]).name, None, ParseSection(lines[1..], cmt).value.nodes), cmt)
    ensures AllLines(ParseSection(lines[1..], cmt).value.rest)
  {
    HeaderGivesOk(lines[0]);
    SectionNodesOk(lines[1..], cmt);
  }

  lemma SectionFirst(n: Node, more: seq<Node>, cmt: char)
    requires SectionOk(n, cmt) && forall m :: m in more ==> SectionOk(m, cmt)
    ensures TopOk([n] + more, cmt) && forall m :: m in [n] + more ==> SectionOk(m, cmt)
  {
    assert ([n] + more)[..0] == [];
  }

  lemma PreambleFirst(n: Node, more: seq<Node>, cmt: char)
    requires PreambleOk(n) && TopOk(more, cmt)
    ensures TopOk([n] + more, cmt)
  {
    var k :| 0 <= k <= |more|
      && (forall i :: 0 <= i < k ==> PreambleOk(more[i])) && (forall i :: k <= i < |more| ==> SectionOk(more[i], cmt));
    assert ([n] + more)[..k + 1] == [n] + more[..k];
  }

  lemma HeaderAgain(line: string, cmt: char)
    requires SecLineOf(line, cmt) == Header
    ensures TopLineOf(line).TopHeader?
  {
  }

  lemma HeaderGivesOk(line: string)
    requires TopLineOf(line).TopHeader?
    ensures var name := TopLineOf(line).name;
            (name != "" ==> !IsSpace(name[0])) && forall i :: 0 <= i < |name| ==> name[i] != ']'
  {
    var s := TrimStart(TrimStart(line)[1..]);
    TrimStartIs(TrimStart(line)[1..]);
    HeaderChars(s);
  }

  lemma {:induction false} HeaderChars(s: string)
    ensures TakeHeader(s) <= s && forall i :: 0 <= i < |TakeHeader(s)| ==> TakeHeader(s)[i] != ']'
  {
    if s != "" && s[0] != ']' { HeaderChars(s[1..]); }
  }

  lemma PreambleGivesOk(line: string)
    requires IsLine(line) && !TopLineOf(line).TopHeader?
    ensures TopLineOf(line).TopComment? ==> PreambleOk(Raw(COMMENT, TopLineOf(line).text))
  {
    TrimmedLine(line);
    LineParts(line);
  }

  // ----- parse, unparse, parse

  /** Of what parse_ini reads, exactly the tidy trees are in the printable form. */
  lemma ParsedIsOkIffTidy(text: string, cmt: char)
    requires Parse(text, cmt).Some?
    ensures TreeOk(Parse(text, cmt).value, cmt) <==> Tidy(Parse(text, cmt).value, cmt)
  {
    var root := Parse(text, cmt).value;
    if Tidy(root, cmt) {
      SplitLinesAreLines(text);
      TopNodesOk(SplitLines(text), cmt);
    }
    if TreeOk(root, cmt) { OkIsTidy(root, cmt); }
  }

  lemma OkIsTidy(root: Node, cmt: char)
    requires TreeOk(root, cmt)
    ensures Tidy(root, cmt)
  {
    var nodes := root.children;
    var k :| 0 <= k <= |nodes|
      && (forall i :: 0 <= i < k ==> PreambleOk(nodes[i]))
      && (forall i :: k <= i < |nodes| ==> SectionOk(nodes[i], cmt));
    forall n | n in nodes && n.value == None ensures TidySection(n, cmt) {
      var i :| 0 <= i < |nodes| && nodes[i] == n;
      assert i < k ==> PreambleOk(n);
      assert SectionOk(n, cmt);
      forall c | c in n.children ensures TidyEntry(c, cmt) {
        assert EntryOk(c, cmt);
        EntryIsTidy(c, cmt);
      }
    }
  }

  lemma EntryIsTidy(n: Node, cmt: char)
    requires EntryOk(n, cmt)
    ensures TidyEntry(n, cmt)
  {
    if !Reserved(n.name) && n.value == None {
      forall c | c in n.children ensures TidyMember(c, cmt) {
        assert MemberOk(c, cmt);
        MemberIsTidy(c, cmt);
      }
    }
  }

  lemma {:induction false} MemberIsTidy(n: Node, cmt: char)
    requires MemberOk(n, cmt)
    ensures TidyMember(n, cmt)
    decreases n
  {
    forall c | c in n.children ensures TidyMember(c, cmt) {
      assert MemberOk(c, cmt);
      MemberIsTidy(c, cmt);
    }
  }

  /** Why tidiness is asked for: a comment behind an opening brace is read as a comment node that holds the
      closing line, and that node does not come back. */
  lemma StrayCommentExample()
    ensures Parse(Join(StrayLines()), '#') == Some(StrayTree())
    ensures Parse(Unparse(StrayTree()), '#') != Some(StrayTree())
  {
    SplitJoin(StrayLines());
    StrayTop();
    StrayCommentIsLost();
  }

  function StrayLines(): seq<string> {
    ["[s]\n", "a = { #\n", "}\n"]
  }

  function StrayTree(): Node {
    Node("(root)", None, [Node("s", None, [Node("a", None, []), Raw(COMMENT, "}")])])
  }

  lemma StrayTop()
    ensures ParseTop(StrayLines(), '#') == Some(StrayTree().children)
  {
    var lines, s := StrayLines(), StrayTree().children[0];
    assert "[" + "s" + "]\n" == lines[0];
    HeaderLine("s", '#');
    assert lines[1..] == ["a = { #\n", "}\n"];
    StrayGroup();
    assert ParseTop(lines, '#') == Before(s, ParseTop([], '#'));
    assert [s] + [] == [s];
  }

  lemma StrayGroup()
    ensures ParseSection(["a = { #\n", "}\n"], '#') == Some(Parsed([Node("a", None, []), Raw(COMMENT, "}")], []))
  {
    var lines := ["a = { #\n", "}\n"];
    StrayGroupLine();
    ClosingLine();
    assert lines[1..] == ["}\n"];
    assert ParseSub(lines[1..], '#') == Some(Parsed([], lines[1..]));
    assert lines[1..][1..] == [];
    assert ParseSection([], '#') == Some(Parsed([], []));
    assert [Raw(COMMENT, "}")] + [] == [Raw(COMMENT, "}")];
    assert [Node("a", None, [])] + [Raw(COMMENT, "}")] == [Node("a", None, []), Raw(COMMENT, "}")];
  }

  lemma StrayGroupLine()
    ensures SecLineOf("a = { #\n", '#') == SecGroup("a", true, true)
  {
    AssignmentLine("", "a", "{ #\n");
    assert "" + "a" + " = " + "{ #\n" == "a = { #\n";
    assert "" + "{ #\n" == "{ #\n";
    TrimStartOver("", "{ #\n");
    assert ("{ #\n")[1..] == " " + "#\n";
    TrimStartOver(" ", "#\n");
  }

  lemma ClosingLine()
    ensures SubLineOf("}\n", '#') == CloseBrace && TakeLine("}\n") == "}"
    ensures FirstChar("}") == '}' && NoAssignment("}")
  {
    assert "" + "}\n" == "}\n";
    CloseLine("", '#');
    TakeLineOver("}", "\n");
    assert "}" + "\n" == "}\n";
    assert "" + "}" == "}";
    TrimStartOver("", "}");
    assert "}" + "" == "}";
    KeyOver("}", "");
    FirstCharAt("");
  }

  /** The same text is printed for a tree in the printable form, so that tree is what comes back. */
  lemma StrayCommentIsLost()
    ensures Parse(Unparse(StrayTree()), '#') != Some(StrayTree())
  {
    var a, comment, junk := Node("a", None, []), Raw(COMMENT, "}"), Raw(UNPARSED, "}");
    var s, s' := Node("s", None, [a, comment]), Node("s", None, [a, junk]);
    var read, back := Node("(root)", None, [s]), Node("(root)", None, [s']);
    ClosingLine();
    assert EntryOk(a, '#') && EntryOk(junk, '#');
    assert SectionOk(s', '#');
    assert back.children[..0] == [];
    assert TreeOk(back, '#');
    RoundTrip(back, '#');
    assert EntryLines(comment) == EntryLines(junk);
    assert [a, comment][1..] == [comment] && [a, junk][1..] == [junk];
    assert SectionLines([comment]) == EntryLines(comment) + SectionLines([]);
    assert SectionLines([junk]) == EntryLines(junk) + SectionLines([]);
    assert SectionLines(s.children) == SectionLines(s'.children);
    assert TopLines([s]) == TopLines([s']);
    assert read != back by { assert s.children[1] != s'.children[1]; }
  }
}
