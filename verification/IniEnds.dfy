/** Where parse_ini goes wrong: it dereferences a missing line exactly if the file ends at certain places, which a
    count of opening and closing lines tells. */
module IniEnds {
  import opened Wrappers
  import opened IniText
  import opened IniFormat

  // ----- counting inside a group

  predicate Opens(line: string, cmt: char) {
    Opening(SubLineOf(line, cmt))
  }

  /** `d` groups inside the outermost one are open; how many are at the end of the file, if no line closes the
      outermost one before. */
  function LeftOpen(lines: seq<string>, d: nat, cmt: char): nat {
    if lines == [] then d
    else if SubLineOf(lines[0], cmt).CloseBrace? then if d == 0 then 0 else LeftOpen(lines[1..], d - 1, cmt)
    else LeftOpen(lines[1..], if Opens(lines[0], cmt) then d + 1 else d, cmt)
  }

  /** The lines from the one on that closes the outermost group; none if there is none. */
  function FromClosing(lines: seq<string>, d: nat, cmt: char): (rest: seq<string>)
    ensures |rest| <= |lines| && (rest != [] ==> SubLineOf(rest[0], cmt).CloseBrace?)
    ensures rest != [] ==> LeftOpen(lines, d, cmt) == 0
  {
    if lines == [] then []
    else if SubLineOf(lines[0], cmt).CloseBrace? then if d == 0 then lines else FromClosing(lines[1..], d - 1, cmt)
    else FromClosing(lines[1..], if Opens(lines[0], cmt) then d + 1 else d, cmt)
  }

  /** Reading on until `d` further groups and then the outermost one are closed. */
  function Unwind(lines: seq<string>, d: nat, cmt: char): Option<seq<string>>
    decreases d
  {
    match ParseSub(lines, cmt)
    case None => None
    case Some(p) =>
      if d == 0 then Some(p.rest) else if p.rest == [] then None else Unwind(p.rest[1..], d - 1, cmt)
  }

  /** An opening line makes it one group more to be closed, a closing line one less. */
  lemma UnwindOpen(lines: seq<string>, d: nat, cmt: char)
    requires lines != [] && Opens(lines[0], cmt)
    ensures Unwind(lines, d, cmt) == Unwind(lines[1..], d + 1, cmt)
  {
    var inner := ParseSub(lines[1..], cmt);
    if inner.Some? && inner.value.rest != [] {
      var more := ParseSub(inner.value.rest[1..], cmt);
      assert ParseSub(lines, cmt).Some? <==> more.Some?;
      assert more.Some? ==> ParseSub(lines, cmt).value.rest == more.value.rest;
    }
  }

  lemma UnwindOther(lines: seq<string>, d: nat, cmt: char)
    requires lines != [] && !Opens(lines[0], cmt) && !SubLineOf(lines[0], cmt).CloseBrace?
    ensures Unwind(lines, d, cmt) == Unwind(lines[1..], d, cmt)
  {
    var more := ParseSub(lines[1..], cmt);
    assert ParseSub(lines, cmt).Some? <==> more.Some?;
    assert more.Some? ==> ParseSub(lines, cmt).value.rest == more.value.rest;
  }

  lemma {:induction false} UnwindCounts(lines: seq<string>, d: nat, cmt: char)
    ensures Unwind(lines, d, cmt) == if LeftOpen(lines, d, cmt) > 0 then None else Some(FromClosing(lines, d, cmt))
    decreases |lines|
  {
    if lines != [] {
      if SubLineOf(lines[0], cmt).CloseBrace? {
        if d > 0 { UnwindCounts(lines[1..], d - 1, cmt); }
      } else if Opens(lines[0], cmt) {
        UnwindOpen(lines, d, cmt);
        UnwindCounts(lines[1..], d + 1, cmt);
      } else {
        UnwindOther(lines, d, cmt);
        UnwindCounts(lines[1..], d, cmt);
      }
    }
  }

  /** parse_ini_subsection fails exactly if the file ends inside a nested group. Otherwise it stops at its closing
      line, or at the end of the file. */
  lemma SubEnds(lines: seq<string>, cmt: char)
    ensures ParseSub(lines, cmt) == None <==> LeftOpen(lines, 0, cmt) > 0
    ensures ParseSub(lines, cmt).Some? ==> ParseSub(lines, cmt).value.rest == FromClosing(lines, 0, cmt)
    ensures ParseSub(lines, cmt).Some? && ParseSub(lines, cmt).value.rest != [] ==>
              SubLineOf(ParseSub(lines, cmt).value.rest[0], cmt) == CloseBrace
  {
    UnwindCounts(lines, 0, cmt);
  }

  // ----- the whole file

  /** Where in a file a line is: before the first section, in a section, or in a group with `depth` open groups
      between it and the line. `stray` says that a comment stands behind the brace of the outermost group. */
  datatype Spot = Preamble | InSection | InGroup(depth: nat, stray: bool)

  /** Going through the lines once, looking at nothing but headers and braces: whether they end where the source
      goes on from a missing line. The lines of one section end at the next header, those of a file do not. */
  function Breaks(lines: seq<string>, spot: Spot, file: bool, cmt: char): bool {
    if lines == [] then spot.InGroup? && (spot.depth > 0 || spot.stray)
    else if spot.InSection? && SecLineOf(lines[0], cmt).Header? && !file then false
    else Breaks(lines[1..], After(spot, lines[0], cmt), file, cmt)
  }

  function After(spot: Spot, line: string, cmt: char): Spot {
    match spot
    case Preamble => if TopLineOf(line).TopHeader? then InSection else Preamble
    case InSection =>
      var l := SecLineOf(line, cmt);
      if l.SecGroup? && l.open then InGroup(0, l.stray) else InSection
    case InGroup(d, stray) =>
      if SubLineOf(line, cmt).CloseBrace? then if d == 0 then InSection else InGroup(d - 1, stray)
      else InGroup(if Opens(line, cmt) then d + 1 else d, stray)
  }

  /** What a group leaves is broken off inside, or by its end if a comment is to be stored, or later. */
  ghost predicate GroupFollows(lines: seq<string>, d: nat, stray: bool, file: bool, cmt: char) {
    var rest := FromClosing(lines, d, cmt);
    if LeftOpen(lines, d, cmt) > 0 then Breaks(lines, InGroup(d, stray), file, cmt)
    else if rest == [] then Breaks(lines, InGroup(d, stray), file, cmt) == stray
    else Breaks(lines, InGroup(d, stray), file, cmt) == Breaks(rest[1..], InSection, file, cmt)
  }

  lemma {:induction false} GroupBreaks(lines: seq<string>, d: nat, stray: bool, file: bool, cmt: char)
    ensures GroupFollows(lines, d, stray, file, cmt)
  {
    if lines != [] {
      if SubLineOf(lines[0], cmt).CloseBrace? {
        if d > 0 { GroupBreaks(lines[1..], d - 1, stray, file, cmt); }
      } else {
        GroupBreaks(lines[1..], if Opens(lines[0], cmt) then d + 1 else d, stray, file, cmt);
      }
    }
  }

  /** Lines are broken off by the section they begin in, or by what follows it in a file. */
  ghost predicate SectionFollows(lines: seq<string>, file: bool, cmt: char) {
    var p := ParseSection(lines, cmt);
    Breaks(lines, InSection, file, cmt) ==
    (p == None || (file && Breaks(p.value.rest, InSection, file, cmt)))
  }

  lemma {:induction false} SectionBreaks(lines: seq<string>, file: bool, cmt: char)
    ensures SectionFollows(lines, file, cmt)
    decreases |lines|
  {
    if lines != [] {
      match SecLineOf(lines[0], cmt) {
        case Header =>
        case SecGroup(name, open, stray) => SectionGroupBreaks(lines, open, stray, file, cmt);
        case _ => SectionBreaks(lines[1..], file, cmt);
      }
    }
  }

  lemma {:induction false} SectionGroupBreaks(lines: seq<string>, open: bool, stray: bool, file: bool, cmt: char)
    requires lines != [] && SecLineOf(lines[0], cmt).SecGroup?
    requires open == SecLineOf(lines[0], cmt).open && stray == SecLineOf(lines[0], cmt).stray
    ensures SectionFollows(lines, file, cmt)
    decreases |lines|, 0
  {
    if open {
      SubEnds(lines[1..], cmt);
      GroupBreaks(lines[1..], 0, stray, file, cmt);
      var rest := FromClosing(lines[1..], 0, cmt);
      if LeftOpen(lines[1..], 0, cmt) == 0 && rest != [] { SectionBreaks(rest[1..], file, cmt); }
    } else {
      SectionBreaks(lines[1..], file, cmt);
    }
  }

  /** parse_ini_section fails exactly if the file ends inside a group that is in another one, or inside any group
      whose brace is followed by a comment. Otherwise it stops at the next header, or at the end of the file. */
  lemma SectionEnds(lines: seq<string>, cmt: char)
    ensures ParseSection(lines, cmt) == None <==> Breaks(lines, InSection, false, cmt)
    ensures ParseSection(lines, cmt).Some? && ParseSection(lines, cmt).value.rest != [] ==>
              SecLineOf(ParseSection(lines, cmt).value.rest[0], cmt) == Header
  {
    SectionBreaks(lines, false, cmt);
  }

  lemma {:induction false} TopBreaks(lines: seq<string>, cmt: char)
    ensures ParseTop(lines, cmt) == None <==> Breaks(lines, Preamble, true, cmt)
    decreases |lines|
  {
    if lines != [] {
      if TopLineOf(lines[0]).TopHeader? {
        SectionBreaks(lines[1..], true, cmt);
        var p := ParseSection(lines[1..], cmt);
        if p.Some? {
          TopBreaks(p.value.rest, cmt);
          if p.value.rest != [] { HeaderAlike(p.value.rest[0], cmt); }
        }
      } else {
        TopBreaks(lines[1..], cmt);
      }
    }
  }

  /** A line that ends a section is a header at the top level. */
  lemma HeaderAlike(line: string, cmt: char)
    ensures SecLineOf(line, cmt).Header? <==> TopLineOf(line).TopHeader?
  {
  }

  /** parse_ini goes on from a missing line exactly on these texts. */
  lemma ParseFails(text: string, cmt: char)
    ensures Parse(text, cmt) == None <==> Breaks(SplitLines(text), Preamble, true, cmt)
  {
    TopBreaks(SplitLines(text), cmt);
  }

  // ----- such a text

  function Unclosed(): string {
    "[s]\na = {\nb = {\n"
  }

  function UnclosedLines(): seq<string> {
    ["[s]\n", "a = {\n", "b = {\n"]
  }

  /** The inner group is not closed, and the source goes on from a missing line. */
  lemma UnclosedExample()
    ensures Parse(Unclosed(), '#') == None
  {
    UnclosedText();
    UnclosedBreaks();
    FailsOn(Unclosed(), UnclosedLines(), '#');
  }

  lemma FailsOn(text: string, lines: seq<string>, cmt: char)
    requires text == Join(lines) && (forall i :: 0 <= i < |lines| ==> ProperLine(lines[i]))
    requires Breaks(lines, Preamble, true, cmt)
    ensures Parse(text, cmt) == None
  {
    SplitJoin(lines);
    ParseFails(text, cmt);
  }

  lemma UnclosedText()
    ensures Join(UnclosedLines()) == Unclosed()
  {
    var lines := UnclosedLines();
    assert Join(lines) == lines[0] + (lines[1] + (lines[2] + ""));
  }

  lemma UnclosedBreaks()
    ensures Breaks(UnclosedLines(), Preamble, true, '#')
  {
    var lines := UnclosedLines();
    assert "[" + "s" + "]\n" == lines[0];
    HeaderLine("s", '#');
    OpeningLine("a");
    OpeningLine("b");
    assert After(Preamble, lines[0], '#') == InSection;
    assert After(InSection, lines[1], '#') == InGroup(0, false);
    assert After(InGroup(0, false), lines[2], '#') == InGroup(1, false);
    assert lines[1..][1..][1..] == [];
    assert Breaks(lines[1..][1..][1..], InGroup(1, false), true, '#');
    assert Breaks(lines[1..][1..], InGroup(0, false), true, '#');
    assert Breaks(lines[1..], InSection, true, '#');
  }

  lemma OpeningLine(name: string)
    requires name == "a" || name == "b"
    ensures SecLineOf(name + " = {\n", '#') == SecGroup(name, true, false)
    ensures SubLineOf(name + " = {\n", '#') == SubGroup(name, true)
    ensures "a" + " = {\n" == "a = {\n" && "b" + " = {\n" == "b = {\n"
  {
    AssignmentLine("", name, "{\n");
    assert "" + name + " = " + "{\n" == name + " = {\n";
    assert "" + "{\n" == "{\n";
    TrimStartOver("", "{\n");
    assert ("{\n")[1..] == "\n" + "";
    TrimStartOver("\n", "");
  }
}
