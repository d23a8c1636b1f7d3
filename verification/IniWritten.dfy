/** Files laid out by hand: from lines of every kind, in any spacing and with groups nested to any depth, parse_ini
    makes the tree of what they say. */
module IniWritten {
  import opened Wrappers
  import opened CnfTree
  import opened IniText
  import opened IniFormat
  import opened IniLayout

  // ----- what can be written

  datatype Item =
    | Empty(b: string)
    | Comment(lead: string, text: string)
    | Setting(lead: string, name: string, b1: string, b2: string, value: string, b3: string)
    | Group(lead: string, name: string, b1: string, b2: string, b3: string, text: string, items: seq<Item>,
            closeLead: string, closeRest: string)
    | Closed(lead: string, name: string, b1: string, b2: string, b3: string, text: string)
    | Junk(lead: string, word: string, b1: string, rest: string)

  /** The lines of an item. */
  function Written(i: Item, cmt: char): seq<string>
    decreases i, 1
  {
    match i
    case Empty(b) => [b + "\n"]
    case Comment(lead, text) => [lead + ([cmt] + text) + "\n"]
    case Setting(lead, name, b1, b2, value, b3) => [Assigning(lead, name, b1, b2, value + (b3 + "\n"))]
    case Group(_, _, _, _, _, _, items, _, _) => [OpeningLine(i)] + (AllWritten(items, cmt) + [EndLine(i)])
    case Closed(_, _, _, _, _, _) => [OpeningLine(i)]
    case Junk(lead, word, b1, rest) => [Worded(lead, word, b1, rest) + "\n"]
  }

  function AllWritten(items: seq<Item>, cmt: char): seq<string>
    decreases items, 0
  {
    if items == [] then [] else Written(items[0], cmt) + AllWritten(items[1..], cmt)
  }

  function OpeningLine(i: Item): string
    requires i.Group? || i.Closed?
  {
    Assigning(i.lead, i.name, i.b1, i.b2, "{" + (i.b3 + (i.text + "\n")))
  }

  function EndLine(i: Item): string
    requires i.Group?
  {
    i.closeLead + ("}" + (i.closeRest + "\n"))
  }

  /** White space where white space is written, and words where names are. `other` is the character that would begin
      something else in this place. */
  predicate Fits(i: Item, cmt: char, other: char) {
    match i
    case Empty(b) => Blanks(b)
    case Comment(lead, text) => Blanks(lead) && OneLine(text) && !BlankChar(cmt) && cmt != '\n' && cmt != other
    case Setting(lead, name, b1, b2, value, b3) =>
      && Named(lead, name, b1, b2) && Plain(name, cmt, other) && ValueText(value) && Blanks(b3)
      && (if value == "" then b3 == "" else !BlankChar(value[|value| - 1]))
    case Group(lead, name, b1, b2, b3, text, items, closeLead, closeRest) =>
      && Named(lead, name, b1, b2) && Plain(name, cmt, other) && Blanks(b3) && LineText(text)
      && (text != "" ==> text[0] != '}') && (text != "" && other == '[' ==> text[0] != cmt)
      && Blanks(closeLead) && OneLine(closeRest)
      && forall m :: m in items ==> Fits(m, cmt, '}')
    case Closed(lead, name, b1, b2, b3, text) =>
      && Named(lead, name, b1, b2) && Plain(name, cmt, other) && Blanks(b3) && LineText(text)
      && text != "" && text[0] == '}' && cmt != '}'
    case Junk(lead, word, b1, rest) =>
      && Blanks(lead) && word != "" && WordText(word) && Blanks(b1) && Plain(word, cmt, other)
      && LineText(rest) && (rest != "" ==> b1 != "" && rest[0] != '=')
  }

  predicate Named(lead: string, name: string, b1: string, b2: string) {
    Blanks(lead) && WordText(name) && Blanks(b1) && Blanks(b2) && (name == "" ==> b1 == "")
  }

  ghost predicate AllFit(items: seq<Item>, cmt: char, other: char) {
    forall i :: i in items ==> Fits(i, cmt, other)
  }

  /** What an item says inside a group, ... */
  function Member(i: Item, cmt: char): Node
    decreases i, 1
  {
    match i
    case Empty(b) => Node(".empty", Some(b), [])
    case Comment(lead, text) => Node(".comment", Some(lead + ([cmt] + text)), [])
    case Setting(_, name, _, _, value, _) => Node(name, Some(value), [])
    case Group(_, name, _, _, _, _, items, _, _) => Node(name, None, Members(items, cmt))
    case Closed(_, name, _, _, _, _) => Node(name, None, [])
    case Junk(lead, word, b1, rest) => Node(".unparsed", Some(Worded(lead, word, b1, rest)), [])
  }

  function Members(items: seq<Item>, cmt: char): seq<Node>
    decreases items, 0
  {
    if items == [] then [] else [Member(items[0], cmt)] + Members(items[1..], cmt)
  }

  /** ... and directly in a section: a blank line is not kept, and white space behind a value is. */
  function Entry(i: Item, cmt: char): Node {
    match i
    case Empty(_) => Node(".empty", Some(""), [])
    case Setting(_, name, _, _, value, b3) => Node(name, Some(value + b3), [])
    case _ => Member(i, cmt)
  }

  function Entries(items: seq<Item>, cmt: char): seq<Node> {
    if items == [] then [] else [Entry(items[0], cmt)] + Entries(items[1..], cmt)
  }

  // ----- inside groups

  lemma {:induction false} MembersRead(items: seq<Item>, tail: seq<string>, cmt: char)
    requires AllFit(items, cmt, '}')
    ensures ParseSub(AllWritten(items, cmt) + tail, cmt) == PrependAll(Members(items, cmt), ParseSub(tail, cmt))
    decreases items, 0
  {
    if items == [] {
      assert AllWritten(items, cmt) + tail == tail;
      NonePrepended(ParseSub(tail, cmt));
    } else {
      var rest := AllWritten(items[1..], cmt) + tail;
      assert AllWritten(items, cmt) + tail == Written(items[0], cmt) + rest;
      MemberRead(items[0], rest, cmt);
      MembersRead(items[1..], tail, cmt);
      OnePrepended(Member(items[0], cmt), Members(items[1..], cmt), ParseSub(tail, cmt));
    }
  }

  lemma NonePrepended(p: Option<Parsed>)
    ensures PrependAll([], p) == p
  {
    if p.Some? { assert [] + p.value.nodes == p.value.nodes; }
  }

  lemma OnePrepended(n: Node, nodes: seq<Node>, p: Option<Parsed>)
    ensures Cons(n, PrependAll(nodes, p)) == PrependAll([n] + nodes, p)
  {
    if p.Some? { assert [n] + (nodes + p.value.nodes) == [n] + nodes + p.value.nodes; }
  }

  lemma {:induction false} MemberRead(i: Item, rest: seq<string>, cmt: char)
    requires Fits(i, cmt, '}')
    ensures ParseSub(Written(i, cmt) + rest, cmt) == Cons(Member(i, cmt), ParseSub(rest, cmt))
    decreases i, 1
  {
    if i.Group? {
      GroupRead(i, rest, cmt);
    } else {
      assert (Written(i, cmt) + rest)[1..] == rest;
      MemberLine(i, cmt);
    }
  }

  /** What the one line of an item without lines inside means. */
  function MeantInGroup(i: Item, cmt: char): SubLine
    requires !i.Group?
  {
    match i
    case Empty(b) => SubBlank(b)
    case Comment(lead, text) => SubComment(lead + ([cmt] + text))
    case Setting(_, name, _, _, value, _) => SubLeaf(name, value)
    case Closed(_, name, _, _, _, _) => SubGroup(name, false)
    case Junk(lead, word, b1, rest) => SubJunk(Worded(lead, word, b1, rest))
  }

  lemma MemberLine(i: Item, cmt: char)
    requires Fits(i, cmt, '}') && !i.Group?
    ensures |Written(i, cmt)| == 1 && SubLineOf(Written(i, cmt)[0], cmt) == MeantInGroup(i, cmt)
  {
    match i {
      case Empty(b) => BlankLine(b, "\n", cmt);
      case Comment(lead, text) => CommentLine(lead, text, "\n", cmt);
      case Setting(lead, name, b1, b2, value, b3) => SubValueLine(lead, name, b1, b2, value, b3, "\n", cmt);
      case Closed(lead, name, b1, b2, b3, text) => BraceLine(lead, name, b1, b2, b3, text, "\n", cmt);
      case Junk(lead, word, b1, rest) => IniLayout.JunkLine(lead, word, b1, rest, "\n", cmt);
    }
  }

  lemma {:induction false} GroupRead(i: Item, rest: seq<string>, cmt: char)
    requires i.Group? && Fits(i, cmt, '}')
    ensures ParseSub(Written(i, cmt) + rest, cmt) == Cons(Member(i, cmt), ParseSub(rest, cmt))
    decreases i, 0
  {
    BraceLine(i.lead, i.name, i.b1, i.b2, i.b3, i.text, "\n", cmt);
    InsideRead(i, rest, cmt);
    GroupWritten(i, rest, cmt);
    assert ([EndLine(i)] + rest)[1..] == rest;
  }

  lemma GroupWritten(i: Item, rest: seq<string>, cmt: char)
    requires i.Group?
    ensures var lines := Written(i, cmt) + rest;
            lines[0] == OpeningLine(i) && lines[1..] == AllWritten(i.items, cmt) + ([EndLine(i)] + rest)
  {
  }

  lemma {:induction false} InsideRead(i: Item, rest: seq<string>, cmt: char)
    requires i.Group? && Blanks(i.closeLead) && forall m :: m in i.items ==> Fits(m, cmt, '}')
    ensures ParseSub(AllWritten(i.items, cmt) + ([EndLine(i)] + rest), cmt)
         == Some(Parsed(Members(i.items, cmt), [EndLine(i)] + rest))
    decreases i.items, 1
  {
    MembersRead(i.items, [EndLine(i)] + rest, cmt);
    IniLayout.ClosingLine(i.closeLead, i.closeRest + "\n", cmt);
    assert Members(i.items, cmt) + [] == Members(i.items, cmt);
  }

  // ----- in a section

  lemma {:induction false} EntriesRead(items: seq<Item>, tail: seq<string>, cmt: char)
    requires AllFit(items, cmt, '[')
    ensures ParseSection(AllWritten(items, cmt) + tail, cmt) == PrependAll(Entries(items, cmt), ParseSection(tail, cmt))
  {
    if items == [] {
      assert AllWritten(items, cmt) + tail == tail;
      NonePrepended(ParseSection(tail, cmt));
    } else {
      var rest := AllWritten(items[1..], cmt) + tail;
      assert AllWritten(items, cmt) + tail == Written(items[0], cmt) + rest;
      EntryRead(items[0], rest, cmt);
      EntriesRead(items[1..], tail, cmt);
      OnePrepended(Entry(items[0], cmt), Entries(items[1..], cmt), ParseSection(tail, cmt));
    }
  }

  lemma EntryRead(i: Item, rest: seq<string>, cmt: char)
    requires Fits(i, cmt, '[')
    ensures ParseSection(Written(i, cmt) + rest, cmt) == Cons(Entry(i, cmt), ParseSection(rest, cmt))
  {
    if i.Group? {
      BraceLine(i.lead, i.name, i.b1, i.b2, i.b3, i.text, "\n", cmt);
      InsideRead(i, rest, cmt);
      GroupWritten(i, rest, cmt);
      assert ([EndLine(i)] + rest)[1..] == rest;
    } else {
      assert (Written(i, cmt) + rest)[1..] == rest;
      EntryLine(i, cmt);
    }
  }

  function MeantInSection(i: Item, cmt: char): SecLine
    requires !i.Group?
  {
    match i
    case Empty(_) => SecBlank
    case Comment(lead, text) => SecComment(lead + ([cmt] + text))
    case Setting(_, name, _, _, value, b3) => SecLeaf(name, value + b3)
    case Closed(_, name, _, _, _, _) => SecGroup(name, false, false)
    case Junk(lead, word, b1, rest) => SecJunk(Worded(lead, word, b1, rest))
  }

  lemma EntryLine(i: Item, cmt: char)
    requires Fits(i, cmt, '[') && !i.Group?
    ensures |Written(i, cmt)| == 1 && SecLineOf(Written(i, cmt)[0], cmt) == MeantInSection(i, cmt)
  {
    match i {
      case Empty(b) => BlankLine(b, "\n", cmt);
      case Comment(lead, text) => CommentLine(lead, text, "\n", cmt);
      case Setting(lead, name, b1, b2, value, b3) =>
        ValueAndBlanks(value, b3);
        SecValueLine(lead, name, b1, b2, value + b3, "\n", cmt);
      case Closed(lead, name, b1, b2, b3, text) => BraceLine(lead, name, b1, b2, b3, text, "\n", cmt);
      case Junk(lead, word, b1, rest) => IniLayout.JunkLine(lead, word, b1, rest, "\n", cmt);
    }
  }

  lemma ValueAndBlanks(value: string, b3: string)
    requires ValueText(value) && Blanks(b3) && (value == "" ==> b3 == "")
    ensures ValueText(value + b3) && value + b3 + "\n" == value + (b3 + "\n")
  {
    BlanksAreSpace(b3);
  }

  // ----- whole files

  /** What stands before the first section: blank lines, and text that is kept. */
  datatype Remark = NoRemark(b: string) | Remark(lead: string, text: string)

  datatype Section = Section(lead: string, b: string, name: string, rest: string, items: seq<Item>)

  function RemarkLine(r: Remark): string {
    match r
    case NoRemark(b) => b + "\n"
    case Remark(lead, text) => lead + text + "\n"
  }

  function HeaderOf(s: Section): string {
    s.lead + ("[" + (s.b + (s.name + ("]" + (s.rest + "\n")))))
  }

  function RemarkLines(remarks: seq<Remark>): seq<string> {
    if remarks == [] then [] else [RemarkLine(remarks[0])] + RemarkLines(remarks[1..])
  }

  function SectionsWritten(sections: seq<Section>, cmt: char): seq<string> {
    if sections == [] then []
    else [HeaderOf(sections[0])] + (AllWritten(sections[0].items, cmt) + SectionsWritten(sections[1..], cmt))
  }

  predicate RemarkFits(r: Remark) {
    match r
    case NoRemark(b) => Blanks(b)
    case Remark(lead, text) => Blanks(lead) && LineText(text) && text != "" && text[0] != '['
  }

  ghost predicate SectionFits(s: Section, cmt: char) {
    && Blanks(s.lead) && Blanks(s.b) && OneLine(s.rest) && LineText(s.name)
    && (forall i :: 0 <= i < |s.name| ==> s.name[i] != ']')
    && AllFit(s.items, cmt, '[')
  }

  function RemarkNodes(remarks: seq<Remark>): seq<Node> {
    if remarks == [] then [] else [RemarkNode(remarks[0])] + RemarkNodes(remarks[1..])
  }

  function RemarkNode(r: Remark): Node {
    match r
    case NoRemark(_) => Node(".empty", Some(""), [])
    case Remark(lead, text) => Node(".comment", Some(lead + text), [])
  }

  function SectionNodes(sections: seq<Section>, cmt: char): seq<Node> {
    if sections == [] then []
    else [Node(sections[0].name, None, Entries(sections[0].items, cmt))] + SectionNodes(sections[1..], cmt)
  }

  lemma HeaderMeans(s: Section, cmt: char)
    requires SectionFits(s, cmt)
    ensures TopLineOf(HeaderOf(s)) == TopHeader(s.name) && SecLineOf(HeaderOf(s), cmt) == Header
  {
    HeadLine(s.lead, s.b, s.name, "]" + (s.rest + "\n"), cmt);
  }

  lemma {:induction false} SectionsRead(sections: seq<Section>, cmt: char)
    requires forall s :: s in sections ==> SectionFits(s, cmt)
    ensures ParseTop(SectionsWritten(sections, cmt), cmt) == Some(SectionNodes(sections, cmt))
    ensures sections != [] ==>
              SectionsWritten(sections, cmt) != [] && SecLineOf(SectionsWritten(sections, cmt)[0], cmt) == Header
  {
    if sections != [] {
      var s, rest := sections[0], SectionsWritten(sections[1..], cmt);
      SectionsRead(sections[1..], cmt);
      HeaderMeans(s, cmt);
      BodyRead(s, rest, cmt);
      HeaderFirst(HeaderOf(s), AllWritten(s.items, cmt) + rest, cmt);
    }
  }

  lemma BodyRead(s: Section, rest: seq<string>, cmt: char)
    requires SectionFits(s, cmt) && (rest == [] || SecLineOf(rest[0], cmt) == Header)
    ensures ParseSection(AllWritten(s.items, cmt) + rest, cmt) == Some(Parsed(Entries(s.items, cmt), rest))
  {
    EntriesRead(s.items, rest, cmt);
    assert Entries(s.items, cmt) + [] == Entries(s.items, cmt);
  }

  lemma {:induction false} RemarksRead(remarks: seq<Remark>, lines: seq<string>, nodes: seq<Node>, cmt: char)
    requires (forall r :: r in remarks ==> RemarkFits(r)) && ParseTop(lines, cmt) == Some(nodes)
    ensures ParseTop(RemarkLines(remarks) + lines, cmt) == Some(RemarkNodes(remarks) + nodes)
  {
    if remarks == [] {
      assert RemarkLines(remarks) + lines == lines && [] + nodes == nodes;
    } else {
      var rest := RemarkLines(remarks[1..]) + lines;
      FirstRemark(remarks, lines, nodes);
      RemarksRead(remarks[1..], lines, nodes, cmt);
      RemarkRead(remarks[0], rest, cmt);
    }
  }

  lemma FirstRemark(remarks: seq<Remark>, lines: seq<string>, nodes: seq<Node>)
    requires remarks != []
    ensures RemarkLines(remarks) + lines == [RemarkLine(remarks[0])] + (RemarkLines(remarks[1..]) + lines)
    ensures RemarkNodes(remarks) + nodes == [RemarkNode(remarks[0])] + (RemarkNodes(remarks[1..]) + nodes)
  {
  }

  lemma RemarkRead(r: Remark, rest: seq<string>, cmt: char)
    requires RemarkFits(r)
    ensures ParseTop([RemarkLine(r)] + rest, cmt) == Before(RemarkNode(r), ParseTop(rest, cmt))
  {
    RemarkMeans(r, cmt);
    assert ([RemarkLine(r)] + rest)[1..] == rest;
  }

  lemma RemarkMeans(r: Remark, cmt: char)
    requires RemarkFits(r)
    ensures TopLineOf(RemarkLine(r)) == if r.NoRemark? then TopBlank else TopComment(r.lead + r.text)
  {
    match r {
      case NoRemark(b) => BlankLine(b, "\n", cmt);
      case Remark(lead, text) => TopTextLine(lead, text, "\n");
    }
  }

  // ----- the lines of the text

  lemma ProperText(text: string)
    requires OneLine(text)
    ensures ProperLine(text + "\n")
  {
    assert (text + "\n")[..|text|] == text;
  }

  lemma ProperAssigning(lead: string, name: string, b1: string, b2: string, tail: string)
    requires Named(lead, name, b1, b2) && OneLine(tail)
    ensures ProperLine(Assigning(lead, name, b1, b2, tail + "\n"))
  {
    BlanksAreSpace(lead);
    BlanksAreSpace(b1);
    BlanksAreSpace(b2);
    ProperText(Assigning(lead, name, b1, b2, tail));
    assert Assigning(lead, name, b1, b2, tail + "\n") == Assigning(lead, name, b1, b2, tail) + "\n";
  }

  lemma {:induction false} WrittenProper(i: Item, cmt: char, other: char)
    requires Fits(i, cmt, other)
    ensures AllProper(Written(i, cmt))
    decreases i, 1
  {
    if i.Group? {
      OpeningProper(i);
      EndProper(i);
      AllWrittenProper(i.items, cmt, '}');
      Enclosed(OpeningLine(i), AllWritten(i.items, cmt), EndLine(i));
    } else {
      OneProper(i, cmt, other);
    }
  }

  lemma OneProper(i: Item, cmt: char, other: char)
    requires Fits(i, cmt, other) && !i.Group?
    ensures |Written(i, cmt)| == 1 && ProperLine(Written(i, cmt)[0])
  {
    match i {
      case Empty(b) => EmptyProper(b);
      case Comment(lead, text) => CommentProper(lead, text, cmt);
      case Setting(lead, name, b1, b2, value, b3) => SettingProper(lead, name, b1, b2, value, b3);
      case Closed(_, _, _, _, _, _) => OpeningProper(i);
      case Junk(lead, word, b1, rest) => JunkProper(lead, word, b1, rest);
    }
  }

  lemma EmptyProper(b: string)
    requires Blanks(b)
    ensures ProperLine(b + "\n")
  {
    BlanksAreSpace(b);
    ProperText(b);
  }

  lemma CommentProper(lead: string, text: string, cmt: char)
    requires Blanks(lead) && OneLine(text) && cmt != '\n'
    ensures ProperLine(lead + ([cmt] + text) + "\n")
  {
    BlanksAreSpace(lead);
    ProperText(lead + ([cmt] + text));
  }

  lemma JunkProper(lead: string, word: string, b1: string, rest: string)
    requires Blanks(lead) && WordText(word) && Blanks(b1) && LineText(rest)
    ensures ProperLine(Worded(lead, word, b1, rest) + "\n")
  {
    BlanksAreSpace(lead);
    JunkText(word, b1, rest);
    ProperText(Worded(lead, word, b1, rest));
  }

  lemma Enclosed(first: string, lines: seq<string>, last: string)
    requires ProperLine(first) && AllProper(lines) && ProperLine(last)
    ensures AllProper([first] + (lines + [last]))
  {
  }

  lemma SettingProper(lead: string, name: string, b1: string, b2: string, value: string, b3: string)
    requires Named(lead, name, b1, b2) && OneLine(value) && Blanks(b3)
    ensures ProperLine(Assigning(lead, name, b1, b2, value + (b3 + "\n")))
  {
    BlanksAreSpace(b3);
    ProperAssigning(lead, name, b1, b2, value + b3);
    assert value + (b3 + "\n") == value + b3 + "\n";
  }

  lemma OpeningProper(i: Item)
    requires i.Group? || i.Closed?
    requires Named(i.lead, i.name, i.b1, i.b2) && Blanks(i.b3) && OneLine(i.text)
    ensures ProperLine(OpeningLine(i))
  {
    BlanksAreSpace(i.b3);
    ProperAssigning(i.lead, i.name, i.b1, i.b2, "{" + (i.b3 + i.text));
    assert "{" + (i.b3 + (i.text + "\n")) == "{" + (i.b3 + i.text) + "\n";
  }

  lemma EndProper(i: Item)
    requires i.Group? && Blanks(i.closeLead) && OneLine(i.closeRest)
    ensures ProperLine(EndLine(i))
  {
    BlanksAreSpace(i.closeLead);
    ProperText(i.closeLead + ("}" + i.closeRest));
    assert EndLine(i) == i.closeLead + ("}" + i.closeRest) + "\n";
  }

  lemma {:induction false} AllWrittenProper(items: seq<Item>, cmt: char, other: char)
    requires AllFit(items, cmt, other)
    ensures AllProper(AllWritten(items, cmt))
    decreases items, 0
  {
    if items != [] {
      WrittenProper(items[0], cmt, other);
      AllWrittenProper(items[1..], cmt, other);
    }
  }

  lemma HeaderProper(s: Section, cmt: char)
    requires SectionFits(s, cmt)
    ensures ProperLine(HeaderOf(s))
  {
    BlanksAreSpace(s.lead);
    BlanksAreSpace(s.b);
    var text := s.lead + ("[" + (s.b + (s.name + ("]" + s.rest))));
    ProperText(text);
    assert HeaderOf(s) == text + "\n";
  }

  lemma {:induction false} SectionsProper(sections: seq<Section>, cmt: char)
    requires forall s :: s in sections ==> SectionFits(s, cmt)
    ensures AllProper(SectionsWritten(sections, cmt))
  {
    if sections != [] {
      HeaderProper(sections[0], cmt);
      AllWrittenProper(sections[0].items, cmt, '[');
      SectionsProper(sections[1..], cmt);
    }
  }

  lemma {:induction false} RemarksProper(remarks: seq<Remark>)
    requires forall r :: r in remarks ==> RemarkFits(r)
    ensures AllProper(RemarkLines(remarks))
  {
    if remarks != [] {
      RemarkProper(remarks[0]);
      RemarksProper(remarks[1..]);
    }
  }

  lemma RemarkProper(r: Remark)
    requires RemarkFits(r)
    ensures ProperLine(RemarkLine(r))
  {
    match r {
      case NoRemark(b) => BlanksAreSpace(b); ProperText(b);
      case Remark(lead, text) => BlanksAreSpace(lead); ProperText(lead + text);
    }
  }

  /** The text of a file: remarks, then sections. */
  function FileText(remarks: seq<Remark>, sections: seq<Section>, cmt: char): string {
    Join(RemarkLines(remarks) + SectionsWritten(sections, cmt))
  }

  /** Such a file is parsed as what it says. */
  lemma FileRead(remarks: seq<Remark>, sections: seq<Section>, cmt: char)
    requires (forall r :: r in remarks ==> RemarkFits(r)) && (forall s :: s in sections ==> SectionFits(s, cmt))
    ensures Parse(FileText(remarks, sections, cmt), cmt)
         == Some(Node("(root)", None, RemarkNodes(remarks) + SectionNodes(sections, cmt)))
  {
    RemarksProper(remarks);
    SectionsProper(sections, cmt);
    SplitJoin(RemarkLines(remarks) + SectionsWritten(sections, cmt));
    SectionsRead(sections, cmt);
    RemarksRead(remarks, SectionsWritten(sections, cmt), SectionNodes(sections, cmt), cmt);
  }

  /** The file etc/tdnf/pluginconf.d/tdnfmetalink.conf. */
  lemma EnabledExample()
    ensures Parse("[main]\nenabled=1\n", '#')
         == Some(Node("(root)", None, [Node("main", None, [Node("enabled", Some("1"), [])])]))
  {
    var enabled := Setting("", "enabled", "", "", "1", "");
    var main := Section("", "", "main", "", [enabled]);
    FileRead([], [main], '#');
    EnabledText(enabled, main);
  }

  lemma EnabledText(enabled: Item, main: Section)
    requires enabled == Setting("", "enabled", "", "", "1", "") && main == Section("", "", "main", "", [enabled])
    ensures FileText([], [main], '#') == "[main]\nenabled=1\n"
    ensures RemarkNodes([]) + SectionNodes([main], '#') == [Node("main", None, [Node("enabled", Some("1"), [])])]
  {
    EnabledLines();
    assert AllWritten([enabled], '#') == Written(enabled, '#') + AllWritten([], '#') == ["enabled=1\n"];
    var lines := ["[main]\n"] + (["enabled=1\n"] + []);
    assert RemarkLines([]) + SectionsWritten([main], '#') == lines;
    TwoLines("[main]\n", "enabled=1\n");
    assert "[main]\n" + "enabled=1\n" == "[main]\nenabled=1\n";
    EnabledNodes(enabled, main);
  }

  lemma TwoLines(a: string, b: string)
    ensures Join([a] + ([b] + [])) == a + b
  {
    assert ([a] + ([b] + []))[1..] == [b] && [b][1..] == [];
    assert Join([b]) == b + Join([]) == b;
  }

  lemma EnabledNodes(enabled: Item, main: Section)
    requires enabled == Setting("", "enabled", "", "", "1", "") && main == Section("", "", "main", "", [enabled])
    ensures RemarkNodes([]) + SectionNodes([main], '#') == [Node("main", None, [Node("enabled", Some("1"), [])])]
  {
    assert "1" + "" == "1";
    assert [enabled][1..] == [] && [main][1..] == [];
    assert Entries([enabled], '#') == [Entry(enabled, '#')] + Entries([], '#') == [Node("enabled", Some("1"), [])];
    assert SectionNodes([main], '#') == [Node("main", None, Entries(main.items, '#'))] + SectionNodes([], '#');
  }

  lemma EnabledLines()
    ensures Assigning("", "enabled", "", "", "1" + ("" + "\n")) == "enabled=1\n"
    ensures HeaderOf(Section("", "", "main", "", [Setting("", "enabled", "", "", "1", "")])) == "[main]\n"
  {
    assert "" + "\n" == "\n" && "1" + "\n" == "1\n" && "" + "1\n" == "1\n" && "=" + "1\n" == "=1\n";
    assert "" + "=1\n" == "=1\n" && "enabled" + "=1\n" == "enabled=1\n" && "" + "enabled=1\n" == "enabled=1\n";
    assert "]" + "\n" == "]\n" && "main" + "]\n" == "main]\n" && "" + "main]\n" == "main]\n";
    assert "[" + "main]\n" == "[main]\n" && "" + "[main]\n" == "[main]\n";
  }
}
