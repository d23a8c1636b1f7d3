/** llconf/lines.c: the singly linked list of lines. */
module ConfLines {
  import opened IniText

  class ConfLine {
    var line: string
    var next: ConfLine?

    /** create_confline */
    constructor (line: string)
      ensures this.line == line && next == null
    {
      this.line, next := line, null;
    }
  }

  ghost function CellAt(cells: seq<ConfLine>, i: nat): ConfLine? {
    if i < |cells| then cells[i] else null
  }

  /** The list that begins with `list` is made of `cells`, all of them in `f`, which hold `lines`. */
  ghost predicate Chain(list: ConfLine?, cells: seq<ConfLine>, f: set<ConfLine>, lines: seq<string>)
    reads f
  {
    && |cells| == |lines| && list == CellAt(cells, 0) && (forall i :: 0 <= i < |cells| ==> cells[i] in f)
    && (forall i, j :: 0 <= i < j < |cells| ==> cells[i] != cells[j])
    && forall i :: 0 <= i < |cells| ==> cells[i].line == lines[i] && cells[i].next == CellAt(cells, i + 1)
  }

  /** append_confline: walks along the next links and changes the one that is null. */
  method AppendConfLine(list: ConfLine?, cl: ConfLine, ghost cells: seq<ConfLine>, ghost f: set<ConfLine>,
                        ghost lines: seq<string>)
    returns (r: ConfLine)
    requires Chain(list, cells, f, lines) && cl !in f && cl.next == null
    modifies f
    ensures Chain(r, cells + [cl], f + {cl}, lines + [cl.line]) && (list != null ==> r == list)
  {
    if list == null { return cl; }
    var last: ConfLine := list;
    ghost var i := 0;
    while last.next != null
      invariant 0 <= i < |cells| && last == cells[i]
      decreases |cells| - i
    {
      last := last.next;
      i := i + 1;
    }
    last.next := cl;
    return list;
  }

  /** append_confline of a new line. */
  method AppendText(list: ConfLine?, text: string, ghost cells: seq<ConfLine>, ghost f: set<ConfLine>,
                    ghost lines: seq<string>)
    returns (r: ConfLine, ghost cells': seq<ConfLine>, ghost f': set<ConfLine>, ghost lines': seq<string>)
    requires Chain(list, cells, f, lines)
    modifies f
    ensures f <= f' && fresh(f' - f) && Chain(r, cells', f', lines') && lines' == lines + [text]
  {
    var cl := new ConfLine(text);
    r := AppendConfLine(list, cl, cells, f, lines);
    cells', f', lines' := cells + [cl], f + {cl}, lines + [text];
  }

  /** The loop that prints the list to the file. */
  method PrintLines(list: ConfLine?, ghost cells: seq<ConfLine>, ghost f: set<ConfLine>,
                    ghost lines: seq<string>)
    returns (out: string)
    requires Chain(list, cells, f, lines)
    ensures out == Join(lines)
  {
    var cl := list;
    ghost var i := 0;
    out := "";
    assert lines[0..] == lines;
    while cl != null
      invariant 0 <= i <= |cells| && cl == CellAt(cells, i) && out + Join(lines[i..]) == Join(lines)
      decreases |cells| - i
    {
      assert lines[i..][1..] == lines[i + 1..];
      out := out + cl.line;
      cl := cl.next;
      i := i + 1;
    }
  }
}
