/** What printing an ini file looks like. */
module IniPrinted {
  import opened Wrappers
  import opened CnfTree
  import opened IniFormat

  /** Eight blanks a level, but never more than 255. */
  lemma IndentIs(level: nat)
    ensures |Indent(level)| == if level < 32 then 8 * level else 255
    ensures forall i :: 0 <= i < |Indent(level)| ==> Indent(level)[i] == ' '
  {
  }

  function Inner(): Node {
    Node("h", None, [Node("z", Some("1"), [])])
  }

  function Outer(): Node {
    Node("g", None, [Node(".comment", Some("  # c"), []), Node("x", Some("y"), []), Inner()])
  }

  function Top(): Node {
    Node("s", None, [Node("a", Some("b"), []), Node(".empty", Some(""), []), Outer()])
  }

  /** How a tree with comments, a blank line, entries and nested groups is printed. */
  lemma PrintedExample()
    ensures TopLines([Node(".comment", Some("# top"), []), Top()])
         == ["# top\n", "[s]\n", "a = b\n", "\n", "        g = {\n", "  # c\n", "                x = y\n",
             "                h = {\n", "                        z = 1\n", "                }\n", "        }\n"]
  {
    var c := Node(".comment", Some("# top"), []);
    InnerPrinted();
    OuterPrinted();
    SectionPrinted();
    assert [c, Top()][1..] == [Top()] && [Top()][1..] == [];
    assert "[" + "s" + "]\n" == "[s]\n" && "# top" + "\n" == "# top\n";
    assert TopLines([Top()]) == ["[s]\n"] + SectionLines(Top().children) + [];
    assert TopLines([c, Top()]) == ["# top\n"] + TopLines([Top()]);
  }

  /** What is printed for a reserved node that has no value, and for a node of the top level whose name begins with a
      dot. */
  lemma NullPrinted(name: string, nodes: seq<Node>)
    requires name == ".empty" || name == ".comment" || name == ".unparsed"
    ensures EntryLines(Node(name, None, nodes)) == ["(null)\n"]
    ensures TopLines([Node("." + name, None, nodes)]) == ["(null)\n"]
  {
    assert "(null)" + "\n" == "(null)\n";
    assert [Node("." + name, None, nodes)][1..] == [];
    assert TopLines([Node("." + name, None, nodes)]) == ["(null)\n"] + TopLines([]);
  }

  lemma SectionPrinted()
    ensures SectionLines(Top().children) == ["a = b\n", "\n"] + GroupLines(Outer(), 1)
  {
    var a, e, group := Node("a", Some("b"), []), Node(".empty", Some(""), []), Outer();
    assert [a, e, group][1..] == [e, group] && [e, group][1..] == [group] && [group][1..] == [];
    assert EntryLines(a) == ["a = b\n"] by { assert "a" + " = " + "b" + "\n" == "a = b\n"; }
    assert EntryLines(e) == ["\n"] by { assert "" + "\n" == "\n"; }
    assert SectionLines([group]) == EntryLines(group) + [] == GroupLines(group, 1);
    assert SectionLines([e, group]) == ["\n"] + GroupLines(group, 1);
    assert SectionLines([a, e, group]) == ["a = b\n"] + (["\n"] + GroupLines(group, 1));
  }

  lemma InnerPrinted()
    ensures GroupLines(Inner(), 2)
         == ["                h = {\n", "                        z = 1\n", "                }\n"]
  {
    var z := Node("z", Some("1"), []);
    assert [z][1..] == [];
    assert Indent(2) == "                ";
    assert Spaces(8) + Indent(2) == "                        ";
    assert "                        " + "z" + " = " + "1" + "\n" == "                        z = 1\n";
    assert "                " + "h" + " = {\n" == "                h = {\n";
    assert "                " + "}\n" == "                }\n";
    assert MemberLines([z], 2) == NodeLines(z, 2) + [] == ["                        z = 1\n"];
  }

  lemma OuterPrinted()
    ensures GroupLines(Outer(), 1)
         == ["        g = {\n", "  # c\n", "                x = y\n"] + GroupLines(Inner(), 2) + ["        }\n"]
  {
    var c, x, inner := Node(".comment", Some("  # c"), []), Node("x", Some("y"), []), Inner();
    assert [c, x, inner][1..] == [x, inner] && [x, inner][1..] == [inner] && [inner][1..] == [];
    assert Indent(1) == "        ";
    assert Spaces(8) + Indent(1) == "                ";
    assert "                " + "x" + " = " + "y" + "\n" == "                x = y\n";
    assert "        " + "g" + " = {\n" == "        g = {\n" && "  # c" + "\n" == "  # c\n";
    assert "        " + "}\n" == "        }\n";
    assert MemberLines([inner], 1) == NodeLines(inner, 1) + [] == GroupLines(inner, 2);
    assert MemberLines([x, inner], 1) == ["                x = y\n"] + GroupLines(inner, 2);
    assert MemberLines([c, x, inner], 1) == ["  # c\n"] + (["                x = y\n"] + GroupLines(inner, 2));
  }
}
