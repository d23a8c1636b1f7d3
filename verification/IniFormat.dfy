/** What parse_ini and unparse_ini compute, and that they undo each other. */
module IniFormat {
  import opened Wrappers
  import opened CnfTree
  import opened IniText

  const EMPTY := ".empty"
  const COMMENT := ".comment"
  const UNPARSED := ".unparsed"

  predicate Reserved(name: string) {
    name == EMPTY || name == COMMENT || name == UNPARSED
  }

  function Raw(name: string, text: string): Node {
    Node(name, Some(text), [])
  }

  // ----- parsing

  /** Nodes read, and the lines that are left: none at the end of the file, otherwise beginning with the line
      that ended the group. */
  datatype Parsed = Parsed(nodes: seq<Node>, rest: seq<string>)

  function Cons(node: Node, p: Option<Parsed>): (r: Option<Parsed>)
    ensures r.Some? <==> p.Some?
    ensures p.Some? ==> r.value == Parsed([node] + p.value.nodes, p.value.rest)
  {
    match p
    case None => None
    case Some(q) => Some(Parsed([node] + q.nodes, q.rest))
  }

  function PrependAll(nodes: seq<Node>, p: Option<Parsed>): Option<Parsed> {
    match p
    case None => None
    case Some(q) => Some(Parsed(nodes + q.nodes, q.rest))
  }

  /** parse_ini_subsection from the line after the opening brace. None where the source dereferences the missing
      line after an unclosed inner group. */
  function ParseSub(lines: seq<string>, cmt: char): (r: Option<Parsed>)
    ensures r.Some? ==> |r.value.rest| <= |lines|
    decreases |lines|
  {
    if lines == [] then Some(Parsed([], []))
    else
      match SubLineOf(lines[0], cmt)
      case CloseBrace => Some(Parsed([], lines))
      case SubBlank(text) => Cons(Raw(EMPTY, text), ParseSub(lines[1..], cmt))
      case SubComment(text) => Cons(Raw(COMMENT, text), ParseSub(lines[1..], cmt))
      case SubLeaf(name, value) => Cons(Node(name, Some(value), []), ParseSub(lines[1..], cmt))
      case SubJunk(text) => Cons(Raw(UNPARSED, text), ParseSub(lines[1..], cmt))
      case SubGroup(name, open) =>
        if !open then Cons(Node(name, None, []), ParseSub(lines[1..], cmt))
        else
          match ParseSub(lines[1..], cmt)
          case None => None
          case Some(inner) =>
            if inner.rest == [] then None
            else Cons(Node(name, None, inner.nodes), ParseSub(inner.rest[1..], cmt))
  }

  /** parse_ini_section from the line after the header. A comment behind an opening brace makes the source store
      the line at which it has arrived as a comment. */
  function ParseSection(lines: seq<string>, cmt: char): (r: Option<Parsed>)
    ensures r.Some? ==> |r.value.rest| <= |lines|
    ensures r.Some? && r.value.rest != [] ==> SecLineOf(r.value.rest[0], cmt) == Header
    decreases |lines|
  {
    if lines == [] then Some(Parsed([], []))
    else
      match SecLineOf(lines[0], cmt)
      case Header => Some(Parsed([], lines))
      case SecBlank => Cons(Raw(EMPTY, ""), ParseSection(lines[1..], cmt))
      case SecComment(text) => Cons(Raw(COMMENT, text), ParseSection(lines[1..], cmt))
      case SecLeaf(name, value) => Cons(Node(name, Some(value), []), ParseSection(lines[1..], cmt))
      case SecJunk(text) => Cons(Raw(UNPARSED, text), ParseSection(lines[1..], cmt))
      case SecGroup(name, open, stray) =>
        var inner := if open then ParseSub(lines[1..], cmt) else Some(Parsed([], lines));
        match inner
        case None => None
        case Some(group) =>
          var node := Node(name, None, group.nodes);
          if stray then
            if group.rest == [] then None
            else Cons(node, Cons(Raw(COMMENT, TakeLine(group.rest[0])), ParseSection(group.rest[1..], cmt)))
          else if group.rest == [] then Some(Parsed([node], []))
          else Cons(node, ParseSection(group.rest[1..], cmt))
  }

  function ParseTop(lines: seq<string>, cmt: char): Option<seq<Node>>
    decreases |lines|
  {
    if lines == [] then Some([])
    else
      match TopLineOf(lines[0])
      case TopBlank => Before(Raw(EMPTY, ""), ParseTop(lines[1..], cmt))
      case TopComment(text) => Before(Raw(COMMENT, text), ParseTop(lines[1..], cmt))
      case TopHeader(name) =>
        match ParseSection(lines[1..], cmt)
        case None => None
        case Some(section) => Before(Node(name, None, section.nodes), ParseTop(section.rest, cmt))
  }

  function Before(node: Node, nodes: Option<seq<Node>>): Option<seq<Node>> {
    match nodes
    case None => None
    case Some(ns) => Some([node] + ns)
  }

  /** parse_ini on the text of a file */
  function Parse(text: string, cmt: char): Option<Node> {
    match ParseTop(SplitLines(text), cmt)
    case None => None
    case Some(nodes) => Some(Node("(root)", None, nodes))
  }

  // ----- unparsing

  function Spaces(n: nat): (s: string)
    ensures |s| == n && AllSpace(s)
  {
    seq(n, _ => ' ')
  }

  /** The indentation buffer holds at most 255 characters. */
  function Indent(level: nat): string {
    Spaces(if level * 8 < 255 then level * 8 else 255)
  }

  /** "%s" of a value; no value prints as in the C library of GNU. */
  function Show(value: Option<string>): string {
    match value
    case Some(v) => v
    case None => "(null)"
  }

  /** unparse_ini_subsection */
  function GroupLines(node: Node, level: nat): seq<string>
    decreases node, 1
  {
    [Indent(level) + node.name + " = {\n"] + MemberLines(node.children, level) + [Indent(level) + "}\n"]
  }

  function MemberLines(nodes: seq<Node>, level: nat): seq<string>
    decreases nodes, 1
  {
    if nodes == [] then [] else NodeLines(nodes[0], level) + MemberLines(nodes[1..], level)
  }

  function NodeLines(n: Node, level: nat): seq<string>
    decreases n, 2
  {
    match n.value
    case Some(v) =>
      [if Reserved(n.name) then v + "\n" else Spaces(8) + Indent(level) + n.name + " = " + v + "\n"]
    case None => GroupLines(n, level + 1)
  }

  function EntryLines(n: Node): seq<string> {
    if Reserved(n.name) then [Show(n.value) + "\n"]
    else match n.value
      case Some(v) => [n.name + " = " + v + "\n"]
      case None => GroupLines(n, 1)
  }

  function SectionLines(nodes: seq<Node>): seq<string> {
    if nodes == [] then [] else EntryLines(nodes[0]) + SectionLines(nodes[1..])
  }

  function TopLines(nodes: seq<Node>): seq<string> {
    if nodes == [] then []
    else
      var n := nodes[0];
      (if n.name != "" && n.name[0] == '.' then [Show(n.value) + "\n"]
       else ["[" + n.name + "]\n"] + SectionLines(n.children))
      + TopLines(nodes[1..])
  }

  /** unparse_ini as text */
  function Unparse(root: Node): string {
    Join(TopLines(root.children))
  }

  // ----- trees that survive

  /** The first character that is not white space; '\n' if there is none. */
  function FirstChar(s: string): char {
    var t := TrimStart(s);
    if t == "" then '\n' else t[0]
  }

  /** After the first word there is no '='. */
  predicate NoAssignment(s: string) {
    FirstChar(DropKey(TrimStart(s))) != '='
  }

  predicate IsKey(name: string, cmt: char) {
    && (forall i :: 0 <= i < |name| ==> KeyChar(name[i]))
    && (if name == "" then cmt != '=' else name[0] != cmt)
  }

  predicate IsValue(v: string) {
    OneLine(v) && (v != "" ==> !IsSpace(v[0]) && v[0] != '{')
  }

  /** The name of a key or of a group inside a subsection. */
  predicate MemberKey(name: string, cmt: char) {
    IsKey(name, cmt) && (name != "" ==> name[0] != '}')
  }

  predicate LeafOk(name: string, v: string, cmt: char) {
    if name == EMPTY then AllSpace(v) && OneLine(v)
    else if name == COMMENT then OneLine(v) && FirstChar(v) == cmt && cmt != '}' && !IsSpace(cmt)
    else if name == UNPARSED then
      OneLine(v) && !AllSpace(v) && FirstChar(v) != '}' && FirstChar(v) != cmt && NoAssignment(v)
    else MemberKey(name, cmt) && IsValue(v) && (v != "" ==> !IsSpace(v[|v| - 1]))
  }

  /** A child inside a subsection. */
  predicate MemberOk(n: Node, cmt: char) {
    match n.value
    case None => MemberKey(n.name, cmt) && forall c :: c in n.children ==> MemberOk(c, cmt)
    case Some(v) => n.children == [] && LeafOk(n.name, v, cmt)
  }

  /** A child of a section. */
  predicate EntryOk(n: Node, cmt: char) {
    if Reserved(n.name) then
      && n.children == [] && n.value.Some?
      && var v := n.value.value;
         if n.name == EMPTY then v == ""
         else if n.name == COMMENT then OneLine(v) && FirstChar(v) == cmt && cmt != '[' && !IsSpace(cmt)
         else OneLine(v) && !AllSpace(v) && FirstChar(v) != '[' && FirstChar(v) != cmt && NoAssignment(v)
    else
      && IsKey(n.name, cmt) && (n.name != "" ==> n.name[0] != '[')
      && match n.value
         case Some(v) => n.children == [] && IsValue(v)
         case None => forall c :: c in n.children ==> MemberOk(c, cmt)
  }

  /** A line before the first section. */
  predicate PreambleOk(n: Node) {
    && n.children == [] && n.value.Some?
    && if n.name == EMPTY then n.value.value == ""
       else n.name == COMMENT && OneLine(n.value.value) && !AllSpace(n.value.value) && FirstChar(n.value.value) != '['
  }

  predicate SectionOk(n: Node, cmt: char) {
    && n.value == None
    && (n.name != "" ==> n.name[0] != '.' && !IsSpace(n.name[0]))
    && OneLine(n.name) && (forall i :: 0 <= i < |n.name| ==> n.name[i] != ']')
    && forall c :: c in n.children ==> EntryOk(c, cmt)
  }

  /** Preamble lines, then sections. */
  predicate TopOk(nodes: seq<Node>, cmt: char) {
    exists k {:trigger nodes[..k]} :: 0 <= k <= |nodes|
      && (forall i :: 0 <= i < k ==> PreambleOk(nodes[i]))
      && (forall i :: k <= i < |nodes| ==> SectionOk(nodes[i], cmt))
  }

  predicate TreeOk(root: Node, cmt: char) {
    root.name == "(root)" && root.value == None && TopOk(root.children, cmt)
  }

  // ----- printed lines are read as what they were printed for

  lemma FirstCharAt(s: string)
    ensures FirstChar(s) == '\n' <==> AllSpace(s)
    ensures forall c :: !IsSpace(c) ==> (FirstChar(s) == c <==> TrimStart(s) != "" && TrimStart(s)[0] == c)
  {
    TrimStartIs(s);
    if AllSpace(s) {
      assert s + "" == s;
      TrimStartOver(s, "");
    }
  }

  /** A raw line with a line break appended starts as it did. */
  lemma RawLine(v: string)
    requires OneLine(v)
    ensures TakeLine(v + "\n") == v
    ensures AllSpace(v) ==> TrimStart(v + "\n") == ""
    ensures !AllSpace(v) ==> TrimStart(v + "\n") == TrimStart(v) + "\n" && TrimStart(v) != ""
  {
    TakeLineOver(v, "\n");
    TrimStartIs(v);
    var n := |v| - |TrimStart(v)|;
    if AllSpace(v) {
      TrimStartOver(v + "\n", "");
      assert (v + "\n") + "" == v + "\n";
    } else {
      assert v[..n] == v ==> AllSpace(v);
      assert v == v[..n] + TrimStart(v);
      assert v + "\n" == v[..n] + (TrimStart(v) + "\n");
      TrimStartOver(v[..n], TrimStart(v) + "\n");
    }
  }

  lemma NoAssignmentLine(v: string)
    requires OneLine(v) && !AllSpace(v) && NoAssignment(v)
    ensures var q := TrimStart(DropKey(TrimStart(v) + "\n")); q == "" || q[0] != '='
  {
    var p := TrimStart(v);
    TrimStartIs(v);
    KeyIs(p);
    var d := DropKey(p);
    assert OneLine(p) by { assert forall i :: 0 <= i < |p| ==> p[i] == v[|v| - |p| + i]; }
    assert OneLine(d) by { assert forall i :: 0 <= i < |d| ==> d[i] == p[|p| - |d| + i]; }
    assert p + "\n" == TakeKey(p) + (d + "\n");
    KeyOver(TakeKey(p), d + "\n");
    RawLine(d);
  }

  ghost predicate Assigns(line: string, name: string, tail: string) {
    var p := TrimStart(line);
    && p != "" && p[0] == (if name == "" then '=' else name[0])
    && TakeKey(p) == name
    && TrimStart(DropKey(p)) == "= " + tail
    && TrimStart(("= " + tail)[1..]) == TrimStart(tail)
  }

  /** "<spaces><name> = <tail>" is taken apart again. */
  lemma AssignmentLine(indent: string, name: string, tail: string)
    requires AllSpace(indent) && (forall i :: 0 <= i < |name| ==> KeyChar(name[i]))
    ensures Assigns(indent + name + " = " + tail, name, tail)
  {
    AssignmentStart(indent, name, "= " + tail);
    assert indent + name + " = " + tail == indent + name + " " + ("= " + tail);
    assert ("= " + tail)[1..] == " " + tail;
    assert (" " + tail)[1..] == tail;
  }

  lemma AssignmentStart(indent: string, name: string, rest: string)
    requires AllSpace(indent) && (forall i :: 0 <= i < |name| ==> KeyChar(name[i]))
    requires rest != "" && rest[0] == '='
    ensures var p := TrimStart(indent + name + " " + rest);
            && p != "" && p[0] == (if name == "" then '=' else name[0])
            && TakeKey(p) == name && TrimStart(DropKey(p)) == rest
  {
    assert "" + rest == rest;
    TrimStartOver("", rest);
    if name == "" {
      assert indent + name + " " + rest == (indent + " ") + rest;
      TrimStartOver(indent + " ", rest);
    } else {
      var p := name + (" " + rest);
      assert indent + name + " " + rest == indent + p;
      TrimStartOver(indent, p);
      KeyOver(name, " " + rest);
      assert (" " + rest)[1..] == rest;
    }
  }

  lemma ValueLine(v: string)
    requires IsValue(v)
    ensures TrimStart(v + "\n") == if v == "" then "" else v + "\n"
    ensures TakeLine(TrimStart(v + "\n")) == v
    ensures (v != "" ==> !IsSpace(v[|v| - 1])) ==> TrimEnd(TrimStart(v + "\n")) == v
  {
    TakeLineOver(v, "\n");
    if v == "" {
      assert v + "\n" == "\n" + "";
      TrimStartOver("\n", "");
    } else {
      assert "" + (v + "\n") == v + "\n";
      TrimStartOver("", v + "\n");
      if !IsSpace(v[|v| - 1]) { TrimEndOver(v, "\n"); }
    }
  }

  lemma OpenBrace()
    ensures TrimStart("{\n") == "{\n" && TrimStart(("{\n")[1..]) == ""
  {
    assert "" + "{\n" == "{\n";
    TrimStartOver("", "{\n");
    assert ("{\n")[1..] == "\n";
    assert "\n" + "" == "\n";
    TrimStartOver("\n", "");
  }

  lemma CloseLine(indent: string, cmt: char)
    requires AllSpace(indent)
    ensures SubLineOf(indent + "}\n", cmt) == CloseBrace
  {
    TrimStartOver(indent, "}\n");
  }

  lemma SubGroupLine(indent: string, name: string, cmt: char)
    requires AllSpace(indent) && MemberKey(name, cmt)
    ensures SubLineOf(indent + name + " = {\n", cmt) == SubGroup(name, true)
  {
    AssignmentLine(indent, name, "{\n");
    assert indent + name + " = {\n" == indent + name + " = " + "{\n";
    OpenBrace();
  }

  lemma SecGroupLine(indent: string, name: string, cmt: char)
    requires AllSpace(indent) && IsKey(name, cmt) && (name != "" ==> name[0] != '[')
    ensures SecLineOf(indent + name + " = {\n", cmt) == SecGroup(name, true, false)
  {
    AssignmentLine(indent, name, "{\n");
    assert indent + name + " = {\n" == indent + name + " = " + "{\n";
    OpenBrace();
  }

  lemma SubLeafLine(indent: string, name: string, v: string, cmt: char)
    requires AllSpace(indent) && MemberKey(name, cmt)
    requires IsValue(v) && (v != "" ==> !IsSpace(v[|v| - 1]))
    ensures SubLineOf(indent + name + " = " + v + "\n", cmt) == SubLeaf(name, v)
  {
    AssignmentLine(indent, name, v + "\n");
    assert indent + name + " = " + v + "\n" == indent + name + " = " + (v + "\n");
    ValueLine(v);
  }

  lemma SecLeafLine(name: string, v: string, cmt: char)
    requires IsKey(name, cmt) && (name != "" ==> name[0] != '[') && IsValue(v)
    ensures SecLineOf(name + " = " + v + "\n", cmt) == SecLeaf(name, v)
  {
    AssignmentLine("", name, v + "\n");
    assert name + " = " + v + "\n" == "" + name + " = " + (v + "\n");
    ValueLine(v);
  }

  lemma SubRawLine(n: Node, cmt: char)
    requires Reserved(n.name) && n.value.Some? && LeafOk(n.name, n.value.value, cmt)
    ensures SubLineOf(n.value.value + "\n", cmt)
         == if n.name == EMPTY then SubBlank(n.value.value)
            else if n.name == COMMENT then SubComment(n.value.value) else SubJunk(n.value.value)
  {
    var v := n.value.value;
    RawLine(v);
    FirstCharAt(v);
    if n.name == UNPARSED { NoAssignmentLine(v); JunkTail(v); }
  }

  lemma SecRawLine(n: Node, cmt: char)
    requires EntryOk(n, cmt) && Reserved(n.name)
    ensures SecLineOf(n.value.value + "\n", cmt)
         == if n.name == EMPTY then SecBlank
            else if n.name == COMMENT then SecComment(n.value.value) else SecJunk(n.value.value)
  {
    var v := n.value.value;
    RawLine(v);
    FirstCharAt(v);
    if n.name == UNPARSED { NoAssignmentLine(v); JunkTail(v); }
  }

  /** The first character of the trimmed line is the first one of the trimmed text. */
  lemma JunkTail(v: string)
    requires OneLine(v) && !AllSpace(v)
    ensures (TrimStart(v) + "\n")[0] == FirstChar(v) && !IsSpace(FirstChar(v))
  {
    RawLine(v);
    TrimStartIs(v);
  }

  lemma HeaderLine(name: string, cmt: char)
    requires OneLine(name) && (forall i :: 0 <= i < |name| ==> name[i] != ']') && (name != "" ==> !IsSpace(name[0]))
    ensures TopLineOf("[" + name + "]\n") == TopHeader(name)
    ensures SecLineOf("[" + name + "]\n", cmt) == Header
  {
    var line := "[" + name + "]\n";
    assert "" + line == line;
    TrimStartOver("", line);
    assert line[1..] == name + "]\n";
    assert "" + (name + "]\n") == name + "]\n";
    TrimStartOver("", name + "]\n");
    TakeHeaderOver(name, "]\n");
  }

  lemma PreambleLine(n: Node)
    requires PreambleOk(n)
    ensures TopLineOf(n.value.value + "\n")
         == if n.name == EMPTY then TopBlank else TopComment(n.value.value)
  {
    RawLine(n.value.value);
    FirstCharAt(n.value.value);
  }

  // ----- round trip

  ghost predicate AllMembersOk(nodes: seq<Node>, cmt: char) {
    forall c :: c in nodes ==> MemberOk(c, cmt)
  }

  ghost predicate AllEntriesOk(nodes: seq<Node>, cmt: char) {
    forall c :: c in nodes ==> EntryOk(c, cmt)
  }

  /** The members of a group, followed by a closing line, are read back up to that line. */
  lemma {:induction false} MembersRoundTrip(nodes: seq<Node>, level: nat, tail: seq<string>, cmt: char)
    requires AllMembersOk(nodes, cmt)
    requires tail != [] && SubLineOf(tail[0], cmt) == CloseBrace
    ensures ParseSub(MemberLines(nodes, level) + tail, cmt) == Some(Parsed(nodes, tail))
    decreases nodes, 1
  {
    if nodes == [] {
      assert MemberLines(nodes, level) + tail == tail;
    } else {
      var n, rest := nodes[0], MemberLines(nodes[1..], level) + tail;
      assert nodes == [n] + nodes[1..];
      assert MemberOk(n, cmt);
      MembersRoundTrip(nodes[1..], level, tail, cmt);
      assert MemberLines(nodes, level) + tail == NodeLines(n, level) + rest;
      NodeRoundTrip(n, level, rest, cmt);
    }
  }

  lemma {:induction false} NodeRoundTrip(n: Node, level: nat, rest: seq<string>, cmt: char)
    requires MemberOk(n, cmt)
    ensures ParseSub(NodeLines(n, level) + rest, cmt) == Cons(n, ParseSub(rest, cmt))
    decreases n, 2
  {
    match n.value {
      case Some(v) =>
        assert (NodeLines(n, level) + rest)[1..] == rest;
        if Reserved(n.name) {
          SubRawLine(n, cmt);
        } else {
          SubLeafLine(Spaces(8) + Indent(level), n.name, v, cmt);
        }
      case None =>
        var close := [Indent(level + 1) + "}\n"] + rest;
        GroupRoundTrip(n, level + 1, rest, cmt);
        SubGroupLine(Indent(level + 1), n.name, cmt);
        assert close[1..] == rest;
    }
  }

  /** A whole group: its members are read from the line after the opening one up to its closing line. */
  lemma {:induction false} GroupRoundTrip(n: Node, level: nat, rest: seq<string>, cmt: char)
    requires AllMembersOk(n.children, cmt)
    ensures var lines := GroupLines(n, level) + rest;
            && lines[0] == Indent(level) + n.name + " = {\n"
            && ParseSub(lines[1..], cmt) == Some(Parsed(n.children, [Indent(level) + "}\n"] + rest))
    decreases n, 1
  {
    var close := [Indent(level) + "}\n"] + rest;
    assert (GroupLines(n, level) + rest)[1..] == MemberLines(n.children, level) + close;
    CloseLine(Indent(level), cmt);
    MembersRoundTrip(n.children, level, close, cmt);
  }

  /** The entries of a section are read back up to the next header or the end of the file. */
  lemma {:induction false} EntriesRoundTrip(nodes: seq<Node>, tail: seq<string>, cmt: char)
    requires AllEntriesOk(nodes, cmt)
    requires tail != [] ==> SecLineOf(tail[0], cmt) == Header
    ensures ParseSection(SectionLines(nodes) + tail, cmt) == Some(Parsed(nodes, tail))
  {
    if nodes == [] {
      assert SectionLines(nodes) + tail == tail;
    } else {
      var n, rest := nodes[0], SectionLines(nodes[1..]) + tail;
      assert nodes == [n] + nodes[1..];
      EntriesRoundTrip(nodes[1..], tail, cmt);
      assert SectionLines(nodes) + tail == EntryLines(n) + rest;
      EntryRoundTrip(n, rest, cmt);
    }
  }

  lemma EntryRoundTrip(n: Node, rest: seq<string>, cmt: char)
    requires EntryOk(n, cmt)
    ensures ParseSection(EntryLines(n) + rest, cmt) == Cons(n, ParseSection(rest, cmt))
  {
    if !Reserved(n.name) && n.value == None {
      GroupRoundTrip(n, 1, rest, cmt);
      SecGroupLine(Indent(1), n.name, cmt);
      assert ([Indent(1) + "}\n"] + rest)[1..] == rest;
    } else {
      assert (EntryLines(n) + rest)[1..] == rest;
      if Reserved(n.name) { SecRawLine(n, cmt); } else { SecLeafLine(n.name, n.value.value, cmt); }
    }
  }

  lemma {:induction false} SectionsRoundTrip(nodes: seq<Node>, cmt: char)
    requires forall n :: n in nodes ==> SectionOk(n, cmt)
    ensures ParseTop(TopLines(nodes), cmt) == Some(nodes)
    ensures nodes == [] ==> TopLines(nodes) == []
    ensures nodes != [] ==> TopLines(nodes) != [] && SecLineOf(TopLines(nodes)[0], cmt) == Header
  {
    if nodes != [] {
      var n, rest := nodes[0], TopLines(nodes[1..]);
      assert nodes == [n] + nodes[1..];
      SectionsRoundTrip(nodes[1..], cmt);
      SectionRoundTrip(n, rest, cmt);
      assert TopLines(nodes) == ["[" + n.name + "]\n"] + SectionLines(n.children) + rest;
      HeaderLine(n.name, cmt);
    }
  }

  lemma SectionRoundTrip(n: Node, rest: seq<string>, cmt: char)
    requires SectionOk(n, cmt) && (rest != [] ==> SecLineOf(rest[0], cmt) == Header)
    ensures ParseTop(["[" + n.name + "]\n"] + SectionLines(n.children) + rest, cmt) == Before(n, ParseTop(rest, cmt))
  {
    var header, body := "[" + n.name + "]\n", SectionLines(n.children) + rest;
    HeaderLine(n.name, cmt);
    EntriesRoundTrip(n.children, rest, cmt);
    HeaderFirst(header, body, cmt);
    ConsConcat(header, SectionLines(n.children), rest);
  }

  lemma ConsConcat(line: string, a: seq<string>, b: seq<string>)
    ensures [line] + a + b == [line] + (a + b)
  {
  }

  /** What is read behind a header: the section and then the rest of the file. */
  ghost function BehindHeader(name: string, body: seq<string>, cmt: char): Option<seq<Node>> {
    match ParseSection(body, cmt)
    case None => None
    case Some(p) => Before(Node(name, None, p.nodes), ParseTop(p.rest, cmt))
  }

  lemma HeaderFirst(header: string, body: seq<string>, cmt: char)
    requires TopLineOf(header).TopHeader?
    ensures ParseTop([header] + body, cmt) == BehindHeader(TopLineOf(header).name, body, cmt)
  {
    assert ([header] + body)[1..] == body;
  }

  lemma {:induction false} TopRoundTrip(nodes: seq<Node>, k: nat, cmt: char)
    requires k <= |nodes|
    requires forall i :: 0 <= i < k ==> PreambleOk(nodes[i])
    requires forall i :: k <= i < |nodes| ==> SectionOk(nodes[i], cmt)
    ensures ParseTop(TopLines(nodes), cmt) == Some(nodes)
    decreases nodes
  {
    if k == 0 {
      SectionsRoundTrip(nodes, cmt);
    } else {
      var n := nodes[0];
      assert nodes == [n] + nodes[1..];
      TopRoundTrip(nodes[1..], k - 1, cmt);
      PreambleLine(n);
      assert TopLines(nodes)[1..] == TopLines(nodes[1..]);
    }
  }

  // ----- printed lines are proper lines

  /** No name and no value has a line break in it. */
  predicate OneLineNode(n: Node)
    decreases n
  {
    && OneLine(n.name) && (n.value.Some? ==> OneLine(n.value.value))
    && forall c :: c in n.children ==> OneLineNode(c)
  }

  ghost predicate AllOneLine(nodes: seq<Node>) {
    forall c :: c in nodes ==> OneLineNode(c)
  }

  lemma {:induction false} MemberIsOneLine(n: Node, cmt: char)
    requires MemberOk(n, cmt)
    ensures OneLineNode(n)
    decreases n
  {
    forall c | c in n.children ensures OneLineNode(c) {
      assert MemberOk(c, cmt);
      MemberIsOneLine(c, cmt);
    }
  }

  lemma EntryIsOneLine(n: Node, cmt: char)
    requires EntryOk(n, cmt)
    ensures OneLineNode(n)
  {
    forall c | c in n.children ensures OneLineNode(c) {
      assert MemberOk(c, cmt);
      MemberIsOneLine(c, cmt);
    }
  }

  ghost predicate AllProper(lines: seq<string>) {
    forall i :: 0 <= i < |lines| ==> ProperLine(lines[i])
  }

  lemma LineOfOneLine(body: string)
    requires OneLine(body)
    ensures ProperLine(body + "\n")
  {
    assert (body + "\n")[..|body|] == body;
  }

  lemma {:induction false} MemberLinesProper(nodes: seq<Node>, level: nat)
    requires AllOneLine(nodes)
    ensures AllProper(MemberLines(nodes, level))
    decreases nodes, 1
  {
    if nodes != [] {
      assert nodes == [nodes[0]] + nodes[1..];
      MemberLinesProper(nodes[1..], level);
      NodeLinesProper(nodes[0], level);
    }
  }

  lemma {:induction false} NodeLinesProper(n: Node, level: nat)
    requires OneLineNode(n)
    ensures AllProper(NodeLines(n, level))
    decreases n, 2
  {
    match n.value {
      case Some(v) => LineOfOneLine(if Reserved(n.name) then v else Spaces(8) + Indent(level) + n.name + " = " + v);
      case None => GroupLinesProper(n, level + 1);
    }
  }

  lemma {:induction false} GroupLinesProper(n: Node, level: nat)
    requires OneLineNode(n)
    ensures AllProper(GroupLines(n, level))
    decreases n, 1
  {
    MemberLinesProper(n.children, level);
    LineOfOneLine(Indent(level) + n.name + " = {");
    assert Indent(level) + n.name + " = {\n" == Indent(level) + n.name + " = {" + "\n";
    LineOfOneLine(Indent(level) + "}");
    assert Indent(level) + "}\n" == Indent(level) + "}" + "\n";
  }

  lemma EntryLinesProper(n: Node)
    requires OneLineNode(n)
    ensures AllProper(EntryLines(n))
  {
    if !Reserved(n.name) && n.value == None {
      GroupLinesProper(n, 1);
    } else {
      LineOfOneLine(if Reserved(n.name) then Show(n.value) else n.name + " = " + n.value.value);
    }
  }

  lemma {:induction false} SectionLinesProper(nodes: seq<Node>)
    requires AllOneLine(nodes)
    ensures AllProper(SectionLines(nodes))
  {
    if nodes != [] {
      assert nodes == [nodes[0]] + nodes[1..];
      SectionLinesProper(nodes[1..]);
      EntryLinesProper(nodes[0]);
    }
  }

  lemma {:induction false} TopLinesProper(nodes: seq<Node>, cmt: char)
    requires forall n :: n in nodes ==> PreambleOk(n) || SectionOk(n, cmt)
    ensures AllProper(TopLines(nodes))
  {
    if nodes != [] {
      var n := nodes[0];
      assert nodes == [n] + nodes[1..];
      assert PreambleOk(n) || SectionOk(n, cmt);
      TopLinesProper(nodes[1..], cmt);
      if n.name != "" && n.name[0] == '.' {
        LineOfOneLine(n.value.value);
      } else {
        forall c | c in n.children ensures OneLineNode(c) {
          assert EntryOk(c, cmt);
          EntryIsOneLine(c, cmt);
        }
        SectionLinesProper(n.children);
        LineOfOneLine("[" + n.name + "]");
        assert "[" + n.name + "]\n" == "[" + n.name + "]" + "\n";
      }
    }
  }

  /** Parsing what was unparsed gives back the tree, to any depth of nesting. */
  lemma RoundTrip(root: Node, cmt: char)
    requires TreeOk(root, cmt)
    ensures Parse(Unparse(root), cmt) == Some(root)
  {
    var nodes := root.children;
    var k :| 0 <= k <= |nodes|
      && (forall i :: 0 <= i < k ==> PreambleOk(nodes[i]))
      && (forall i :: k <= i < |nodes| ==> SectionOk(nodes[i], cmt));
    TopRoundTrip(nodes, k, cmt);
    TopLinesProper(nodes, cmt);
    SplitJoin(TopLines(nodes));
  }
}
