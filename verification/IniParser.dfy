/** parse_ini, parse_ini_section and parse_ini_subsection: building the tree of nodes while a cursor moves
    through the lines of the file. */
module IniParser {
  import opened Wrappers
  import opened CnfTree
  import opened CnfNodes
  import opened CnfBuild
  import opened IniText
  import opened IniFormat
  import opened IniReader

  /** The tree `t` with more children. */
  function WithChildren(t: Node, nodes: seq<Node>): Node {
    t.(children := t.children + nodes)
  }

  /** `nodes` are what was read from line `i` up to line `j`, and reading on from there gives the rest. */
  ghost predicate SubRead(lines: seq<string>, i: nat, j: nat, nodes: seq<Node>, cmt: char) {
    i <= j <= |lines| && ParseSub(lines[i..], cmt) == PrependAll(nodes, ParseSub(lines[j..], cmt))
  }

  lemma SubReadOne(lines: seq<string>, i: nat, j: nat, j': nat, nodes: seq<Node>, n: Node, cmt: char)
    requires SubRead(lines, i, j, nodes, cmt) && j < j' <= |lines|
    requires ParseSub(lines[j..], cmt) == Cons(n, ParseSub(lines[j'..], cmt))
    ensures SubRead(lines, i, j', nodes + [n], cmt)
  {
    var p := ParseSub(lines[j'..], cmt);
    if p.Some? { assert nodes + ([n] + p.value.nodes) == nodes + [n] + p.value.nodes; }
  }

  lemma SubReadNothing(lines: seq<string>, i: nat, cmt: char)
    requires i <= |lines|
    ensures SubRead(lines, i, i, [], cmt)
  {
    var p := ParseSub(lines[i..], cmt);
    if p.Some? { assert [] + p.value.nodes == p.value.nodes; }
  }

  lemma SubReadDone(lines: seq<string>, i: nat, j: nat, nodes: seq<Node>, cmt: char)
    requires SubRead(lines, i, j, nodes, cmt)
    requires j == |lines| || SubLineOf(lines[j], cmt) == CloseBrace
    ensures ParseSub(lines[i..], cmt) == Some(Parsed(nodes, lines[j..]))
  {
    assert nodes + [] == nodes;
  }

  /** `cn` is the root of a tree that holds `t` with `nodes` as further children. */
  ghost predicate Extended(cn: CnfNode, s: Shape, f: set<CnfNode>, t: Node, nodes: seq<Node>)
    reads f
  {
    s.node == cn && TreeOn(s, f, WithChildren(t, nodes))
  }

  lemma NoMoreChildren(t: Node)
    ensures WithChildren(t, []) == t
  {
    assert t.children + [] == t.children;
  }

  lemma OneMoreChild(t: Node, nodes: seq<Node>, n: Node)
    ensures WithChild(WithChildren(t, nodes), n) == WithChildren(t, nodes + [n])
  {
  }

  /** parse_ini_subsection: `i` is the line after the opening one. The result is the index of the closing line, or
      the number of lines at the end of the file; ok is false where the source would go on from a missing line. */
  method ParseSubsection(lines: seq<string>, i: nat, cn: CnfNode, cmt: Comment,
                         ghost s: Shape, ghost f: set<CnfNode>, ghost t: Node)
    returns (ok: bool, j: nat, ghost s': Shape, ghost f': set<CnfNode>)
    requires i <= |lines| && s.node == cn && TreeOn(s, f, t)
    modifies f
    ensures ok <==> ParseSub(lines[i..], cmt).Some?
    ensures f <= f' && fresh(f' - f) && cn.parent == old(cn.parent) && cn.next == old(cn.next)
    ensures ok ==> i <= j <= |lines| && lines[j..] == ParseSub(lines[i..], cmt).value.rest
                   && Extended(cn, s', f', t, ParseSub(lines[i..], cmt).value.nodes)
    decreases |lines| - i, 3
  {
    ok, j, s', f' := true, i, s, f;
    ghost var nodes: seq<Node> := [];
    NoMoreChildren(t);
    SubReadNothing(lines, i, cmt);
    while j < |lines|
      invariant ok && i <= j && SubRead(lines, i, j, nodes, cmt) && Extended(cn, s', f', t, nodes)
      invariant f <= f' && fresh(f' - f) && cn.parent == old(cn.parent) && cn.next == old(cn.next)
      decreases |lines| - j
    {
      var line := ReadSubLine(lines[j], cmt);
      if line.CloseBrace? {
        SubReadDone(lines, i, j, nodes, cmt);
        return;
      }
      ghost var n;
      ghost var before := j;
      ok, j, s', f', n := ReadMember(lines, j, line, cn, cmt, s', f', WithChildren(t, nodes));
      if !ok { return; }
      SubReadOne(lines, i, before, j, nodes, n, cmt);
      OneMoreChild(t, nodes, n);
      nodes := nodes + [n];
    }
    SubReadDone(lines, i, j, nodes, cmt);
  }

  /** One turn of the loop of parse_ini_subsection: a line that is not a closing brace gives one more child. */
  method ReadMember(lines: seq<string>, i: nat, line: SubLine, cn: CnfNode, cmt: Comment,
                    ghost s: Shape, ghost f: set<CnfNode>, ghost t: Node)
    returns (ok: bool, j: nat, ghost s': Shape, ghost f': set<CnfNode>, ghost n: Node)
    requires i < |lines| && line == SubLineOf(lines[i], cmt) && !line.CloseBrace?
    requires s.node == cn && TreeOn(s, f, t)
    modifies f
    ensures f <= f' && fresh(f' - f) && cn.parent == old(cn.parent) && cn.next == old(cn.next)
    ensures !ok ==> ParseSub(lines[i..], cmt) == None
    ensures ok ==> i < j <= |lines| && ParseSub(lines[i..], cmt) == Cons(n, ParseSub(lines[j..], cmt))
                   && s'.node == cn && TreeOn(s', f', WithChild(t, n))
    decreases |lines| - i, 2
  {
    assert lines[i..][1..] == lines[i + 1..];
    match line {
      case SubBlank(text) =>
        n := Raw(EMPTY, text);
        s', f' := AppendLeaf(cn, EMPTY, Some(text), s, f, t);
      case SubComment(text) =>
        n := Raw(COMMENT, text);
        s', f' := AppendLeaf(cn, COMMENT, Some(text), s, f, t);
      case SubLeaf(name, value) =>
        n := Node(name, Some(value), []);
        s', f' := AppendLeaf(cn, name, Some(value), s, f, t);
      case SubJunk(text) =>
        n := Raw(UNPARSED, text);
        s', f' := AppendLeaf(cn, UNPARSED, Some(text), s, f, t);
      case SubGroup(name, open) =>
        if open {
          ok, j, s', f', n := ReadGroup(lines, i, name, cn, cmt, s, f, t);
          return;
        }
        n := Node(name, None, []);
        s', f' := AppendLeaf(cn, name, None, s, f, t);
    }
    ok, j := true, i + 1;
  }

  /** The recursive branch: the group is read into a new node, which is then appended. */
  method ReadGroup(lines: seq<string>, i: nat, name: string, cn: CnfNode, cmt: Comment,
                   ghost s: Shape, ghost f: set<CnfNode>, ghost t: Node)
    returns (ok: bool, j: nat, ghost s': Shape, ghost f': set<CnfNode>, ghost n: Node)
    requires i < |lines| && SubLineOf(lines[i], cmt) == SubGroup(name, true)
    requires s.node == cn && TreeOn(s, f, t)
    modifies f
    ensures f <= f' && fresh(f' - f) && cn.parent == old(cn.parent) && cn.next == old(cn.next)
    ensures !ok ==> ParseSub(lines[i..], cmt) == None
    ensures ok ==> i < j <= |lines| && ParseSub(lines[i..], cmt) == Cons(n, ParseSub(lines[j..], cmt))
                   && s'.node == cn && TreeOn(s', f', WithChild(t, n))
    decreases |lines| - i, 1
  {
    s', f' := s, f;
    ghost var c, g;
    var sub;
    ok, j, sub, c, g, n := ReadNewGroup(lines, i, name, cmt);
    GroupMeans(lines, i, name, cmt);
    if !ok { return; }
    if j == |lines| { return false, j, s', f', n; }
    AppendTree(cn, sub, s, f, t, c, g, n);
    s', f' := WithKid(s, c), f + g;
    assert lines[j..][1..] == lines[j + 1..];
    j := j + 1;
  }

  /** create_cnfnode and the recursion. */
  method ReadNewGroup(lines: seq<string>, i: nat, name: string, cmt: Comment)
    returns (ok: bool, j: nat, sub: CnfNode, ghost c: Shape, ghost g: set<CnfNode>, ghost n: Node)
    requires i < |lines|
    ensures fresh(g) && (ok <==> ParseSub(lines[i + 1..], cmt).Some?)
    ensures ok ==> i < j <= |lines| && lines[j..] == ParseSub(lines[i + 1..], cmt).value.rest
                   && n == Node(name, None, ParseSub(lines[i + 1..], cmt).value.nodes)
                   && c.node == sub && TreeOn(c, g, n)
    decreases |lines| - i, 0
  {
    n := Node(name, None, []);
    sub, c, g := NewLeaf(name, None);
    ok, j, c, g := ParseSubsection(lines, i + 1, sub, cmt, c, g, n);
    if ok {
      var nodes := ParseSub(lines[i + 1..], cmt).value.nodes;
      assert [] + nodes == nodes;
      n := Node(name, None, nodes);
    }
  }

  lemma GroupMeans(lines: seq<string>, i: nat, name: string, cmt: char)
    requires i < |lines| && SubLineOf(lines[i], cmt) == SubGroup(name, true)
    ensures ParseSub(lines[i..], cmt) == AfterGroup(name, ParseSub(lines[i + 1..], cmt), cmt)
  {
    assert lines[i..][1..] == lines[i + 1..];
  }

  /** Closing a group: on from the line behind the closing one. */
  ghost function AfterGroup(name: string, inner: Option<Parsed>, cmt: char): Option<Parsed> {
    if inner == None || inner.value.rest == [] then None
    else Cons(Node(name, None, inner.value.nodes), ParseSub(inner.value.rest[1..], cmt))
  }

  // ----- sections

  /** `nodes` are what was read from line `i` up to line `j`, and reading on from there gives the rest. */
  ghost predicate SecRead(lines: seq<string>, i: nat, j: nat, nodes: seq<Node>, cmt: char) {
    i <= j <= |lines| && ParseSection(lines[i..], cmt) == PrependAll(nodes, ParseSection(lines[j..], cmt))
  }

  lemma SecReadNothing(lines: seq<string>, i: nat, cmt: char)
    requires i <= |lines|
    ensures SecRead(lines, i, i, [], cmt)
  {
    var p := ParseSection(lines[i..], cmt);
    if p.Some? { assert [] + p.value.nodes == p.value.nodes; }
  }

  lemma SecReadDone(lines: seq<string>, i: nat, j: nat, nodes: seq<Node>, cmt: char)
    requires SecRead(lines, i, j, nodes, cmt)
    requires j == |lines| || SecLineOf(lines[j], cmt) == Header
    ensures ParseSection(lines[i..], cmt) == Some(Parsed(nodes, lines[j..]))
  {
    assert nodes + [] == nodes;
  }

  lemma SecReadMore(lines: seq<string>, i: nat, j: nat, k: nat, nodes: seq<Node>, more: seq<Node>, cmt: char)
    requires SecRead(lines, i, j, nodes, cmt) && SecRead(lines, j, k, more, cmt)
    ensures SecRead(lines, i, k, nodes + more, cmt)
  {
    var p := ParseSection(lines[k..], cmt);
    if p.Some? { assert nodes + (more + p.value.nodes) == nodes + more + p.value.nodes; }
  }

  lemma MoreChildren(t: Node, nodes: seq<Node>, more: seq<Node>)
    ensures WithChildren(WithChildren(t, nodes), more) == WithChildren(t, nodes + more)
  {
    assert t.children + nodes + more == t.children + (nodes + more);
  }

  /** parse_ini_section: `i` is the line after the header, the result the next header or the end of the file. */
  method ParseSectionLines(lines: seq<string>, i: nat, cn: CnfNode, cmt: Comment,
                           ghost s: Shape, ghost f: set<CnfNode>, ghost t: Node)
    returns (ok: bool, j: nat, ghost s': Shape, ghost f': set<CnfNode>)
    requires i <= |lines| && s.node == cn && TreeOn(s, f, t)
    modifies f
    ensures ok <==> ParseSection(lines[i..], cmt).Some?
    ensures f <= f' && fresh(f' - f) && cn.parent == old(cn.parent) && cn.next == old(cn.next)
    ensures ok ==> i <= j <= |lines| && lines[j..] == ParseSection(lines[i..], cmt).value.rest
                   && Extended(cn, s', f', t, ParseSection(lines[i..], cmt).value.nodes)
  {
    ok, j, s', f' := true, i, s, f;
    ghost var nodes: seq<Node> := [];
    NoMoreChildren(t);
    SecReadNothing(lines, i, cmt);
    while j < |lines|
      invariant ok && i <= j && SecRead(lines, i, j, nodes, cmt) && Extended(cn, s', f', t, nodes)
      invariant f <= f' && fresh(f' - f) && cn.parent == old(cn.parent) && cn.next == old(cn.next)
      decreases |lines| - j
    {
      var line := ReadSecLine(lines[j], cmt);
      if line.Header? {
        SecReadDone(lines, i, j, nodes, cmt);
        return;
      }
      ghost var more;
      ghost var before := j;
      ok, j, s', f', more := ReadEntry(lines, j, line, cn, cmt, s', f', WithChildren(t, nodes));
      if !ok { return; }
      SecReadMore(lines, i, before, j, nodes, more, cmt);
      MoreChildren(t, nodes, more);
      nodes := nodes + more;
    }
    SecReadDone(lines, i, j, nodes, cmt);
  }

  lemma SecReadLeaf(lines: seq<string>, i: nat, n: Node, cmt: char)
    requires i < |lines| && ParseSection(lines[i..], cmt) == Cons(n, ParseSection(lines[i + 1..], cmt))
    ensures SecRead(lines, i, i + 1, [n], cmt)
  {
  }

  /** One turn of the loop of parse_ini_section. */
  method ReadEntry(lines: seq<string>, i: nat, line: SecLine, cn: CnfNode, cmt: Comment,
                   ghost s: Shape, ghost f: set<CnfNode>, ghost t: Node)
    returns (ok: bool, j: nat, ghost s': Shape, ghost f': set<CnfNode>, ghost nodes: seq<Node>)
    requires i < |lines| && line == SecLineOf(lines[i], cmt) && !line.Header?
    requires s.node == cn && TreeOn(s, f, t)
    modifies f
    ensures f <= f' && fresh(f' - f) && cn.parent == old(cn.parent) && cn.next == old(cn.next)
    ensures !ok ==> ParseSection(lines[i..], cmt) == None
    ensures ok ==> i < j <= |lines| && SecRead(lines, i, j, nodes, cmt) && Extended(cn, s', f', t, nodes)
  {
    assert lines[i..][1..] == lines[i + 1..];
    ghost var n;
    match line {
      case SecBlank =>
        n := Raw(EMPTY, "");
        s', f' := AppendLeaf(cn, EMPTY, Some(""), s, f, t);
      case SecComment(text) =>
        n := Raw(COMMENT, text);
        s', f' := AppendLeaf(cn, COMMENT, Some(text), s, f, t);
      case SecLeaf(name, value) =>
        n := Node(name, Some(value), []);
        s', f' := AppendLeaf(cn, name, Some(value), s, f, t);
      case SecJunk(text) =>
        n := Raw(UNPARSED, text);
        s', f' := AppendLeaf(cn, UNPARSED, Some(text), s, f, t);
      case SecGroup(name, open, stray) =>
        ok, j, s', f', nodes := ReadSectionGroup(lines, i, name, open, stray, cn, cmt, s, f, t);
        return;
    }
    ok, j, nodes := true, i + 1, [n];
    SecReadLeaf(lines, i, n, cmt);
  }

  ghost function InnerOf(lines: seq<string>, i: nat, open: bool, cmt: char): Option<Parsed>
    requires i < |lines|
  {
    if open then ParseSub(lines[i + 1..], cmt) else Some(Parsed([], lines[i..]))
  }

  /** The group that begins at line `i` is read and appended; `j` is the line at which the cursor has arrived. */
  method AppendGroup(lines: seq<string>, i: nat, name: string, open: bool, cn: CnfNode, cmt: Comment,
                     ghost s: Shape, ghost f: set<CnfNode>, ghost t: Node)
    returns (ok: bool, j: nat, ghost s': Shape, ghost f': set<CnfNode>)
    requires i < |lines| && s.node == cn && TreeOn(s, f, t)
    modifies f
    ensures f <= f' && fresh(f' - f) && cn.parent == old(cn.parent) && cn.next == old(cn.next)
    ensures ok <==> InnerOf(lines, i, open, cmt).Some?
    ensures ok ==> i <= j <= |lines| && (open ==> i < j) && lines[j..] == InnerOf(lines, i, open, cmt).value.rest
                   && Extended(cn, s', f', t, [Node(name, None, InnerOf(lines, i, open, cmt).value.nodes)])
  {
    s', f' := s, f;
    if open {
      ghost var c, g, n;
      var sub;
      ok, j, sub, c, g, n := ReadNewGroup(lines, i, name, cmt);
      if !ok { return; }
      AppendTree(cn, sub, s, f, t, c, g, n);
      s', f' := WithKid(s, c), f + g;
    } else {
      s', f' := AppendLeaf(cn, name, None, s, f, t);
      ok, j := true, i;
    }
  }

  /** A group inside a section, and the comment that may come of what follows its brace. */
  method ReadSectionGroup(lines: seq<string>, i: nat, name: string, open: bool, stray: bool, cn: CnfNode, cmt: Comment,
                          ghost s: Shape, ghost f: set<CnfNode>, ghost t: Node)
    returns (ok: bool, j: nat, ghost s': Shape, ghost f': set<CnfNode>, ghost nodes: seq<Node>)
    requires i < |lines| && SecLineOf(lines[i], cmt) == SecGroup(name, open, stray)
    requires s.node == cn && TreeOn(s, f, t)
    modifies f
    ensures f <= f' && fresh(f' - f) && cn.parent == old(cn.parent) && cn.next == old(cn.next)
    ensures !ok ==> ParseSection(lines[i..], cmt) == None
    ensures ok ==> i < j <= |lines| && SecRead(lines, i, j, nodes, cmt) && Extended(cn, s', f', t, nodes)
  {
    nodes := [];
    ok, j, s', f' := AppendGroup(lines, i, name, open, cn, cmt, s, f, t);
    if !ok {
      SectionGroupFails(lines, i, name, open, stray, cmt);
      return;
    }
    ghost var inner := InnerOf(lines, i, open, cmt).value.nodes;
    ok, j, s', f', nodes := FinishGroup(lines, i, j, name, open, stray, inner, cn, cmt, s', f', t);
  }

  /** After the group: on to the next line, with the comment if there was one behind the brace. */
  method FinishGroup(lines: seq<string>, i: nat, j: nat, name: string, open: bool, stray: bool, ghost inner: seq<Node>,
                     cn: CnfNode, cmt: Comment, ghost s: Shape, ghost f: set<CnfNode>, ghost t: Node)
    returns (ok: bool, k: nat, ghost s': Shape, ghost f': set<CnfNode>, ghost nodes: seq<Node>)
    requires i <= j <= |lines| && i < |lines| && SecLineOf(lines[i], cmt) == SecGroup(name, open, stray)
    requires InnerOf(lines, i, open, cmt) == Some(Parsed(inner, lines[j..]))
    requires Extended(cn, s, f, t, [Node(name, None, inner)])
    modifies f
    ensures f <= f' && fresh(f' - f) && cn.parent == old(cn.parent) && cn.next == old(cn.next)
    ensures !ok ==> ParseSection(lines[i..], cmt) == None
    ensures ok ==> i < k <= |lines| && SecRead(lines, i, k, nodes, cmt) && Extended(cn, s', f', t, nodes)
  {
    s', f', nodes := s, f, [Node(name, None, inner)];
    if j == |lines| {
      SectionGroupEnds(lines, i, name, open, stray, inner, cmt);
      ok, k := !stray, j;
    } else {
      SectionGroupGoesOn(lines, i, j, name, open, stray, inner, cmt);
      if stray { s', f', nodes := AppendStray(lines[j], cn, s, f, t, nodes); }
      ok, k := true, j + 1;
    }
  }

  method AppendStray(line: string, cn: CnfNode, ghost s: Shape, ghost f: set<CnfNode>, ghost t: Node,
                     ghost nodes: seq<Node>)
    returns (ghost s': Shape, ghost f': set<CnfNode>, ghost nodes': seq<Node>)
    requires Extended(cn, s, f, t, nodes)
    modifies f
    ensures f <= f' && fresh(f' - f) && cn.parent == old(cn.parent) && cn.next == old(cn.next)
    ensures nodes' == nodes + [Raw(COMMENT, TakeLine(line))] && Extended(cn, s', f', t, nodes')
  {
    var text := ReadLine(line, 0);
    assert line[0..] == line;
    s', f' := AppendLeaf(cn, COMMENT, Some(text), s, f, WithChildren(t, nodes));
    OneMoreChild(t, nodes, Raw(COMMENT, text));
    nodes' := nodes + [Raw(COMMENT, text)];
  }

  lemma SectionGroupFails(lines: seq<string>, i: nat, name: string, open: bool, stray: bool, cmt: char)
    requires i < |lines| && SecLineOf(lines[i], cmt) == SecGroup(name, open, stray)
    requires InnerOf(lines, i, open, cmt) == None
    ensures ParseSection(lines[i..], cmt) == None
  {
    assert lines[i..][1..] == lines[i + 1..];
  }

  lemma SectionGroupEnds(lines: seq<string>, i: nat, name: string, open: bool, stray: bool, nodes: seq<Node>, cmt: char)
    requires i < |lines| && SecLineOf(lines[i], cmt) == SecGroup(name, open, stray)
    requires InnerOf(lines, i, open, cmt) == Some(Parsed(nodes, []))
    ensures if stray then ParseSection(lines[i..], cmt) == None
            else SecRead(lines, i, |lines|, [Node(name, None, nodes)], cmt)
  {
    assert lines[i..][1..] == lines[i + 1..] && lines[|lines|..] == [];
    var n := Node(name, None, nodes);
    assert [n] + [] == [n];
  }

  lemma SectionGroupGoesOn(lines: seq<string>, i: nat, j: nat, name: string, open: bool, stray: bool,
                           nodes: seq<Node>, cmt: char)
    requires i <= j < |lines| && SecLineOf(lines[i], cmt) == SecGroup(name, open, stray)
    requires InnerOf(lines, i, open, cmt) == Some(Parsed(nodes, lines[j..]))
    ensures var n := Node(name, None, nodes);
            SecRead(lines, i, j + 1, if stray then [n] + [Raw(COMMENT, TakeLine(lines[j]))] else [n], cmt)
  {
    assert lines[i..][1..] == lines[i + 1..] && lines[j..][1..] == lines[j + 1..];
    var n, comment, p := Node(name, None, nodes), Raw(COMMENT, TakeLine(lines[j])), ParseSection(lines[j + 1..], cmt);
    if p.Some? { assert [n] + ([comment] + p.value.nodes) == [n] + [comment] + p.value.nodes; }
  }

  // ----- the whole file

  /** `nodes` are what was read before line `i`. */
  ghost predicate TopRead(lines: seq<string>, i: nat, nodes: seq<Node>, cmt: char) {
    i <= |lines| && ParseTop(lines, cmt) == Behind(nodes, ParseTop(lines[i..], cmt))
  }

  ghost function Behind(nodes: seq<Node>, more: Option<seq<Node>>): Option<seq<Node>> {
    match more
    case None => None
    case Some(ns) => Some(nodes + ns)
  }

  lemma TopReadOne(lines: seq<string>, i: nat, j: nat, nodes: seq<Node>, n: Node, cmt: char)
    requires TopRead(lines, i, nodes, cmt) && i < j <= |lines|
    requires ParseTop(lines[i..], cmt) == Before(n, ParseTop(lines[j..], cmt))
    ensures TopRead(lines, j, nodes + [n], cmt)
  {
    var more := ParseTop(lines[j..], cmt);
    if more.Some? { assert nodes + ([n] + more.value) == nodes + [n] + more.value; }
  }

  lemma TopReadNothing(lines: seq<string>, cmt: char)
    ensures TopRead(lines, 0, [], cmt)
  {
    assert lines[0..] == lines;
    var more := ParseTop(lines, cmt);
    if more.Some? { assert [] + more.value == more.value; }
  }

  lemma TopReadDone(lines: seq<string>, nodes: seq<Node>, cmt: char)
    requires TopRead(lines, |lines|, nodes, cmt)
    ensures ParseTop(lines, cmt) == Some(nodes)
  {
    assert nodes + [] == nodes;
  }

  /** Filling a child that is already attached fills it inside the tree. */
  lemma FilledInPlace(m: Heap, m': Heap, s: Shape, t: Node, c: Shape, u: Node, c': Shape, u': Node)
    requires Holds(m, WithKid(s, c), WithChild(t, u)) && Apart(WithKid(s, c))
    requires Rebuilt(m, m', c, c') && Apart(c') && Holds(m', c', u')
    requires (Footprint(c') - Footprint(c)) !! (Footprint(s) + Footprint(c))
    requires Footprint(WithKid(s, c)) == Footprint(s) + Footprint(c) && Footprint(s) !! Footprint(c)
    ensures Holds(m', WithKid(s, c'), WithChild(t, u')) && Apart(WithKid(s, c'))
    ensures Footprint(WithKid(s, c')) == Footprint(s) + Footprint(c')
  {
    var k := |s.kids|;
    ReplaceKid(m, m', WithKid(s, c), WithChild(t, u), k, c', u');
    ReplaceApart(WithKid(s, c), k, c');
    assert (s.kids + [c])[k := c'] == s.kids + [c'];
    assert (t.children + [u])[k := u'] == t.children + [u'];
  }

  /** A header: the section's node is appended to the root first, then filled where it stands. */
  method ReadSection(lines: seq<string>, i: nat, name: string, root: CnfNode, cmt: Comment,
                     ghost s: Shape, ghost f: set<CnfNode>, ghost t: Node)
    returns (ok: bool, j: nat, ghost s': Shape, ghost f': set<CnfNode>, ghost n: Node)
    requires i < |lines| && TopLineOf(lines[i]) == TopHeader(name) && s.node == root && TreeOn(s, f, t)
    modifies f
    ensures f <= f' && fresh(f' - f) && root.parent == old(root.parent) && root.next == old(root.next)
    ensures !ok ==> ParseTop(lines[i..], cmt) == None
    ensures ok ==> i < j <= |lines| && ParseTop(lines[i..], cmt) == Before(n, ParseTop(lines[j..], cmt))
                   && s'.node == root && TreeOn(s', f', WithChild(t, n))
  {
    assert lines[i..][1..] == lines[i + 1..];
    n := Node(name, None, []);
    s', f' := s, f;
    ghost var c, g;
    var cn;
    cn, c, g := NewLeaf(name, None);
    AppendTree(root, cn, s, f, t, c, g, n);
    ok, j, s', f', n := FillSection(lines, i + 1, cn, cmt, s, f, t, c, g, n);
  }

  method FillSection(lines: seq<string>, i: nat, cn: CnfNode, cmt: Comment, ghost s: Shape, ghost f: set<CnfNode>,
                     ghost t: Node, ghost c: Shape, ghost g: set<CnfNode>, ghost u: Node)
    returns (ok: bool, j: nat, ghost s': Shape, ghost f': set<CnfNode>, ghost n: Node)
    requires i <= |lines| && c.node == cn && TreeOn(c, g, u) && f == Footprint(s) && f !! g && u.children == []
    requires TreeOn(WithKid(s, c), f + g, WithChild(t, u))
    modifies g
    ensures f + g <= f' && fresh(f' - f - g)
    ensures ok <==> ParseSection(lines[i..], cmt).Some?
    ensures ok ==> i <= j <= |lines| && lines[j..] == ParseSection(lines[i..], cmt).value.rest
                   && n == Node(u.name, u.value, ParseSection(lines[i..], cmt).value.nodes)
                   && s'.node == s.node && TreeOn(s', f', WithChild(t, n))
  {
    ghost var m := Links(f + g);
    ghost var c', g';
    ok, j, c', g' := ParseSectionLines(lines, i, cn, cmt, c, g, u);
    s', f', n := s, f + g', u;
    if ok {
      n := WithChildren(u, ParseSection(lines[i..], cmt).value.nodes);
      assert n.children == ParseSection(lines[i..], cmt).value.nodes;
      ghost var m' := Links(f + g');
      HoldsWider(Links(g'), m', c', n);
      assert Rebuilt(m, m', c, c');
      FilledInPlace(m, m', s, t, c, u, c', n);
      s' := WithKid(s, c');
    }
  }

  /** parse_ini */
  method ParseIni(text: string, cmt: Comment) returns (ok: bool, root: CnfNode, ghost s: Shape, ghost f: set<CnfNode>)
    ensures ok <==> Parse(text, cmt).Some?
    ensures ok ==> fresh(f) && s.node == root && TreeOn(s, f, Parse(text, cmt).value)
                   && root.parent == null && root.next == null
  {
    var lines := ReadConfLines(text);
    ghost var nodes: seq<Node> := [];
    root, s, f := NewLeaf("(root)", None);
    var i := 0;
    ok := true;
    TopReadNothing(lines, cmt);
    while i < |lines|
      invariant ok && i <= |lines| && TopRead(lines, i, nodes, cmt)
      invariant fresh(f) && s.node == root && TreeOn(s, f, Node("(root)", None, nodes))
      invariant root.parent == null && root.next == null
    {
      ghost var n;
      ghost var before := i;
      ok, i, s, f, n := ReadTop(lines, i, root, cmt, s, f, Node("(root)", None, nodes));
      if !ok { return; }
      TopReadOne(lines, before, i, nodes, n, cmt);
      nodes := nodes + [n];
    }
    TopReadDone(lines, nodes, cmt);
  }

  /** One turn of its loop. */
  method ReadTop(lines: seq<string>, i: nat, root: CnfNode, cmt: Comment,
                 ghost s: Shape, ghost f: set<CnfNode>, ghost t: Node)
    returns (ok: bool, j: nat, ghost s': Shape, ghost f': set<CnfNode>, ghost n: Node)
    requires i < |lines| && s.node == root && TreeOn(s, f, t)
    modifies f
    ensures f <= f' && fresh(f' - f) && root.parent == old(root.parent) && root.next == old(root.next)
    ensures !ok ==> ParseTop(lines[i..], cmt) == None
    ensures ok ==> i < j <= |lines| && ParseTop(lines[i..], cmt) == Before(n, ParseTop(lines[j..], cmt))
                   && s'.node == root && TreeOn(s', f', WithChild(t, n))
  {
    assert lines[i..][1..] == lines[i + 1..];
    var line := ReadTopLine(lines[i]);
    match line {
      case TopBlank =>
        n := Raw(EMPTY, "");
        s', f' := AppendLeaf(root, EMPTY, Some(""), s, f, t);
      case TopComment(text) =>
        n := Raw(COMMENT, text);
        s', f' := AppendLeaf(root, COMMENT, Some(text), s, f, t);
      case TopHeader(name) =>
        ok, j, s', f', n := ReadSection(lines, i, name, root, cmt, s, f, t);
        return;
    }
    ok, j := true, i + 1;
  }
}
