/** unparse_ini and unparse_ini_subsection: walking the nodes on the heap and appending to a list of lines. */
module IniPrinter {
  import opened Wrappers
  import opened CnfTree
  import opened CnfNodes
  import opened CnfCompare
  import opened ConfLines
  import opened IniFormat

  /** The loop that fills the indentation buffer of 256 characters. */
  method MakeIndent(level: nat) returns (ident: string)
    ensures ident == Indent(level)
  {
    ident := "";
    var i := 0;
    while i < level * 8 && i < 255
      invariant i <= level * 8 && i <= 255 && ident == Spaces(i)
    {
      ident := ident + [' '];
      i := i + 1;
    }
  }

  lemma MemberLinesStep(nodes: seq<Node>, i: nat, level: nat, lines: seq<string>)
    requires i < |nodes|
    ensures lines + MemberLines(nodes[i..], level)
         == lines + NodeLines(nodes[i], level) + MemberLines(nodes[i + 1..], level)
  {
    assert nodes[i..][1..] == nodes[i + 1..];
    assert lines + (NodeLines(nodes[i], level) + MemberLines(nodes[i + 1..], level))
        == lines + NodeLines(nodes[i], level) + MemberLines(nodes[i + 1..], level);
  }

  lemma GroupLinesParts(t: Node, level: nat, lines: seq<string>)
    ensures lines + [Indent(level) + t.name + " = {\n"] + MemberLines(t.children, level) + [Indent(level) + "}\n"]
         == lines + GroupLines(t, level)
  {
  }

  /** unparse_ini_subsection */
  method UnparseSubsection(cn: CnfNode, list: ConfLine?, level: nat, ghost all: set<CnfNode>, ghost s: Shape,
                           ghost t: Node, ghost cells: seq<ConfLine>, ghost f: set<ConfLine>, ghost lines: seq<string>)
    returns (r: ConfLine, ghost cells': seq<ConfLine>, ghost f': set<ConfLine>, ghost lines': seq<string>)
    requires s.node == cn && Holds(Links(all), s, t) && Chain(list, cells, f, lines)
    modifies f
    ensures f <= f' && fresh(f' - f) && Chain(r, cells', f', lines') && lines' == lines + GroupLines(t, level)
    decreases Height(s), 1
  {
    var ident := MakeIndent(level);
    r, cells', f', lines' := AppendText(list, ident + cn.name + " = {\n", cells, f, lines);
    r, cells', f', lines' := UnparseMembers(cn, r, ident, level, all, s, t, cells', f', lines');
    r, cells', f', lines' := AppendText(r, ident + "}\n", cells', f', lines');
    GroupLinesParts(t, level, lines);
  }

  /** Its loop. */
  method UnparseMembers(cn: CnfNode, list: ConfLine, ident: string, level: nat, ghost all: set<CnfNode>, ghost s: Shape,
                        ghost t: Node, ghost cells: seq<ConfLine>, ghost f: set<ConfLine>, ghost lines: seq<string>)
    returns (r: ConfLine, ghost cells': seq<ConfLine>, ghost f': set<ConfLine>, ghost lines': seq<string>)
    requires s.node == cn && Holds(Links(all), s, t) && Chain(list, cells, f, lines) && ident == Indent(level)
    modifies f
    ensures f <= f' && fresh(f' - f) && Chain(r, cells', f', lines') && lines' == lines + MemberLines(t.children, level)
    decreases Height(s), 0
  {
    ghost var m := Links(all);
    r, cells', f', lines' := list, cells, f, lines;
    var line := cn.firstChild;
    ghost var i := 0;
    KidPoints(m, s, t, 0);
    assert t.children[0..] == t.children;
    while line != null
      invariant i <= |s.kids| && line == NodeAt(s.kids, i) && Links(all) == m
      invariant f <= f' && fresh(f' - f) && Chain(r, cells', f', lines')
      invariant lines' + MemberLines(t.children[i..], level) == lines + MemberLines(t.children, level)
      decreases |s.kids| - i
    {
      KidPoints(m, s, t, i);
      KidIn(m, s, t, i);
      MemberLinesStep(t.children, i, level, lines');
      r, cells', f', lines' :=
        UnparseMember(line, r, ident, level, all, s.kids[i], t.children[i], cells', f', lines');
      line := line.next;
      i := i + 1;
    }
  }

  /** One turn of its loop. */
  method UnparseMember(line: CnfNode, list: ConfLine, ident: string, level: nat, ghost all: set<CnfNode>,
                       ghost s: Shape, ghost t: Node,
                       ghost cells: seq<ConfLine>, ghost f: set<ConfLine>, ghost lines: seq<string>)
    returns (r: ConfLine, ghost cells': seq<ConfLine>, ghost f': set<ConfLine>, ghost lines': seq<string>)
    requires s.node == line && Holds(Links(all), s, t) && Chain(list, cells, f, lines) && ident == Indent(level)
    modifies f
    ensures f <= f' && fresh(f' - f) && Chain(r, cells', f', lines') && lines' == lines + NodeLines(t, level)
    decreases Height(s), 2
  {
    if line.value.Some? {
      var text := if line.name == ".empty" || line.name == ".comment" || line.name == ".unparsed"
                  then line.value.value + "\n"
                  else "        " + ident + line.name + " = " + line.value.value + "\n";
      assert "        " == Spaces(8);
      r, cells', f', lines' := AppendText(list, text, cells, f, lines);
    } else {
      r, cells', f', lines' := UnparseSubsection(line, list, level + 1, all, s, t, cells, f, lines);
    }
  }

  // ----- sections and the whole file

  lemma SectionLinesStep(nodes: seq<Node>, i: nat, lines: seq<string>)
    requires i < |nodes|
    ensures lines + SectionLines(nodes[i..]) == lines + EntryLines(nodes[i]) + SectionLines(nodes[i + 1..])
  {
    assert nodes[i..][1..] == nodes[i + 1..];
    assert lines + (EntryLines(nodes[i]) + SectionLines(nodes[i + 1..]))
        == lines + EntryLines(nodes[i]) + SectionLines(nodes[i + 1..]);
  }

  /** One turn of the inner loop of unparse_ini. A reserved line always prints a value, "(null)" if there is none. */
  method UnparseEntry(line: CnfNode, list: ConfLine, ghost all: set<CnfNode>, ghost s: Shape, ghost t: Node,
                      ghost cells: seq<ConfLine>, ghost f: set<ConfLine>, ghost lines: seq<string>)
    returns (r: ConfLine, ghost cells': seq<ConfLine>, ghost f': set<ConfLine>, ghost lines': seq<string>)
    requires s.node == line && Holds(Links(all), s, t) && Chain(list, cells, f, lines)
    modifies f
    ensures f <= f' && fresh(f' - f) && Chain(r, cells', f', lines') && lines' == lines + EntryLines(t)
  {
    if line.name == ".comment" || line.name == ".empty" || line.name == ".unparsed" {
      r, cells', f', lines' := AppendText(list, Show(line.value) + "\n", cells, f, lines);
    } else if line.value.Some? {
      r, cells', f', lines' := AppendText(list, line.name + " = " + line.value.value + "\n", cells, f, lines);
    } else {
      r, cells', f', lines' := UnparseSubsection(line, list, 1, all, s, t, cells, f, lines);
    }
  }

  /** The inner loop of unparse_ini. */
  method UnparseEntries(cn: CnfNode, list: ConfLine, ghost all: set<CnfNode>, ghost s: Shape, ghost t: Node,
                        ghost cells: seq<ConfLine>, ghost f: set<ConfLine>, ghost lines: seq<string>)
    returns (r: ConfLine, ghost cells': seq<ConfLine>, ghost f': set<ConfLine>, ghost lines': seq<string>)
    requires s.node == cn && Holds(Links(all), s, t) && Chain(list, cells, f, lines)
    modifies f
    ensures f <= f' && fresh(f' - f) && Chain(r, cells', f', lines') && lines' == lines + SectionLines(t.children)
  {
    ghost var m := Links(all);
    r, cells', f', lines' := list, cells, f, lines;
    var line := cn.firstChild;
    ghost var i := 0;
    KidPoints(m, s, t, 0);
    assert t.children[0..] == t.children;
    while line != null
      invariant i <= |s.kids| && line == NodeAt(s.kids, i) && Links(all) == m
      invariant f <= f' && fresh(f' - f) && Chain(r, cells', f', lines')
      invariant lines' + SectionLines(t.children[i..]) == lines + SectionLines(t.children)
      decreases |s.kids| - i
    {
      KidPoints(m, s, t, i);
      KidIn(m, s, t, i);
      SectionLinesStep(t.children, i, lines');
      r, cells', f', lines' := UnparseEntry(line, r, all, s.kids[i], t.children[i], cells', f', lines');
      line := line.next;
      i := i + 1;
    }
  }

  function SectionText(n: Node): seq<string> {
    if n.name != "" && n.name[0] == '.' then [Show(n.value) + "\n"]
    else ["[" + n.name + "]\n"] + SectionLines(n.children)
  }

  /** The lines of the first `i` sections. */
  ghost predicate TopPrinted(nodes: seq<Node>, i: nat, lines: seq<string>) {
    i <= |nodes| && lines + TopLines(nodes[i..]) == TopLines(nodes)
  }

  lemma TopPrintedNone(nodes: seq<Node>)
    ensures TopPrinted(nodes, 0, [])
  {
    assert nodes[0..] == nodes && [] + TopLines(nodes) == TopLines(nodes);
  }

  lemma TopPrintedStep(nodes: seq<Node>, i: nat, lines: seq<string>)
    requires TopPrinted(nodes, i, lines) && i < |nodes|
    ensures TopPrinted(nodes, i + 1, lines + SectionText(nodes[i]))
  {
    assert nodes[i..][1..] == nodes[i + 1..];
    assert lines + (SectionText(nodes[i]) + TopLines(nodes[i + 1..]))
        == lines + SectionText(nodes[i]) + TopLines(nodes[i + 1..]);
  }

  lemma TopPrintedAll(nodes: seq<Node>, lines: seq<string>)
    requires TopPrinted(nodes, |nodes|, lines)
    ensures lines == TopLines(nodes)
  {
    assert lines + [] == lines;
  }

  lemma SectionTextParts(t: Node, lines: seq<string>)
    requires !(t.name != "" && t.name[0] == '.')
    ensures lines + ["[" + t.name + "]\n"] + SectionLines(t.children) == lines + SectionText(t)
  {
  }

  /** One turn of the outer loop of unparse_ini. */
  method UnparseSection(cn: CnfNode, list: ConfLine?, ghost all: set<CnfNode>, ghost s: Shape, ghost t: Node,
                        ghost cells: seq<ConfLine>, ghost f: set<ConfLine>, ghost lines: seq<string>)
    returns (r: ConfLine, ghost cells': seq<ConfLine>, ghost f': set<ConfLine>, ghost lines': seq<string>)
    requires s.node == cn && Holds(Links(all), s, t) && Chain(list, cells, f, lines)
    modifies f
    ensures f <= f' && fresh(f' - f) && Chain(r, cells', f', lines') && lines' == lines + SectionText(t)
  {
    if cn.name != "" && cn.name[0] == '.' {
      r, cells', f', lines' := AppendText(list, Show(cn.value) + "\n", cells, f, lines);
    } else {
      r, cells', f', lines' := AppendText(list, "[" + cn.name + "]\n", cells, f, lines);
      r, cells', f', lines' := UnparseEntries(cn, r, all, s, t, cells', f', lines');
      SectionTextParts(t, lines);
    }
  }

  /** The outer loop of unparse_ini. */
  method UnparseSections(root: CnfNode, ghost all: set<CnfNode>, ghost s: Shape, ghost t: Node)
    returns (list: ConfLine?, ghost cells: seq<ConfLine>, ghost f: set<ConfLine>)
    requires s.node == root && Holds(Links(all), s, t)
    ensures Chain(list, cells, f, TopLines(t.children))
  {
    ghost var m := Links(all);
    list := null;
    ghost var lines: seq<string> := [];
    cells, f := [], {};
    var cn := root.firstChild;
    ghost var i := 0;
    KidPoints(m, s, t, 0);
    TopPrintedNone(t.children);
    while cn != null
      invariant i <= |s.kids| && cn == NodeAt(s.kids, i) && Links(all) == m
      invariant fresh(f) && Chain(list, cells, f, lines) && TopPrinted(t.children, i, lines)
      decreases |s.kids| - i
    {
      KidPoints(m, s, t, i);
      KidIn(m, s, t, i);
      TopPrintedStep(t.children, i, lines);
      list, cells, f, lines := UnparseSection(cn, list, all, s.kids[i], t.children[i], cells, f, lines);
      cn := cn.next;
      i := i + 1;
    }
    TopPrintedAll(t.children, lines);
  }

  /** unparse_ini */
  method UnparseIni(root: CnfNode, ghost all: set<CnfNode>, ghost s: Shape, ghost t: Node) returns (out: string)
    requires s.node == root && Holds(Links(all), s, t)
    ensures out == Unparse(t)
  {
    ghost var cells, f;
    var list;
    list, cells, f := UnparseSections(root, all, s, t);
    out := PrintLines(list, cells, f, TopLines(t.children));
  }
}
