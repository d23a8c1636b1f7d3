/** jsondump/jsondump.c: a growing buffer whose last bracket is overwritten by every addition. */
module JsonDump {
  import opened Wrappers
  import opened Sequences
  import opened JsonText
  import opened JsonReadBack

  const SIZE_INC := 256

  /** The text after the closing bracket has been taken back for one more element. */
  function Rewound(text: string, open: char, close: char): string {
    if |text| > 1 && text[|text| - 1] == close then
      var t := text[..|text| - 1];
      if t[|t| - 1] != open then t + "," else t
    else text
  }

  // ----- values as text

  lemma NoNulConcat(a: string, b: string)
    ensures NoNul(a + b) <==> NoNul(a) && NoNul(b)
  {
    if NoNul(a + b) {
      assert forall i :: 0 <= i < |a| ==> a[i] == (a + b)[i];
      assert forall i :: 0 <= i < |b| ==> b[i] == (a + b)[|a| + i];
    }
  }

  /** The switch in the loop of jsonify_string. */
  method PutEscaped(buf: array<char>, p: nat, c: char) returns (p': nat)
    requires p + 2 <= buf.Length && c != '\0' && NoNul(buf[..p])
    modifies buf
    ensures p < p' <= p + 2 && buf[..p'] == old(buf[..p]) + Escape(c) && NoNul(buf[..p'])
  {
    var escaped := Escape(c);
    ghost var before := buf[..p];
    buf[p] := escaped[0];
    p' := p + 1;
    if |escaped| == 2 {
      buf[p + 1] := escaped[1];
      p' := p + 2;
    }
    assert buf[..p'] == before + escaped;
    assert NoNul(escaped);
    NoNulConcat(before, escaped);
  }

  lemma EscapeStep(before: string, str: string, q: nat)
    requires q < |str|
    ensures before + EscapeAll(str[q..]) == before + Escape(str[q]) + EscapeAll(str[q + 1..])
  {
    assert str[q..][1..] == str[q + 1..];
    assert before + (Escape(str[q]) + EscapeAll(str[q + 1..])) == before + Escape(str[q]) + EscapeAll(str[q + 1..]);
  }

  /** jsonify_string: every character fits the buffer that is allocated for the worst case. */
  method JsonifyString(str: string) returns (text: string)
    requires NoNul(str)
    ensures text == Jsonify(str) && NoNul(text)
  {
    var buf := new char[|str| * 2 + 3](_ => '\0');
    var p, q := 0, 0;
    buf[p] := '\"';
    p := p + 1;
    assert buf[..1] == "\"" && str[0..] == str;
    while q < |str|
      invariant q <= |str| && 1 <= p <= 2 * q + 1 && NoNul(buf[..p])
      invariant buf[..p] + EscapeAll(str[q..]) == "\"" + EscapeAll(str)
    {
      EscapeStep(buf[..p], str, q);
      p := PutEscaped(buf, p, str[q]);
      q := q + 1;
    }
    ghost var before := buf[..p];
    assert before == "\"" + EscapeAll(str);
    buf[p] := '\"';
    p := p + 1;
    buf[p] := '\0';
    text := buf[..p];
    assert text == before + "\"";
    NoNulConcat(before, "\"");
  }

  /** snprintf of a number into a buffer of 22 characters. */
  method PrintNumber(value: int) returns (text: string)
    requires -0x8000_0000_0000_0000 <= value < 0x8000_0000_0000_0000
    ensures text == Decimal(value) && |text| < 22 && NoNul(text)
  {
    DecimalFits(value);
    DecimalNoNul(value);
    text := Decimal(value);
  }

  lemma DecimalNoNul(n: int)
    ensures NoNul(Decimal(n))
  {
    var k: nat := if n < 0 then -n else n;
    DigitsNoNul(k);
    NoNulConcat("-", Digits(k));
  }

  lemma DigitsNoNul(n: nat)
    ensures NoNul(Digits(n))
  {
    DigitsAre(n);
    var d := Digits(n);
    forall i | 0 <= i < |d| ensures d[i] != '\0' {
      assert IsDigit(d[i]);
    }
  }

  class JsonDump {
    var buf: array<char>
    var bufSize: nat
    var pos: nat

    /** The buffer holds a C string of `pos` characters. */
    ghost predicate Valid()
      reads this, buf
    {
      && buf.Length == bufSize && pos < bufSize
      && buf[pos] == '\0' && NoNul(buf[..pos])
    }

    ghost function Text(): string
      requires Valid()
      reads this, buf
    {
      buf[..pos]
    }

    /** jd_create */
    constructor (size: nat)
      ensures Valid() && Text() == "" && fresh(buf)
      ensures bufSize == if size == 0 then SIZE_INC else size
    {
      var n := if size == 0 then SIZE_INC else size;
      buf := new char[n](_ => '\0');
      bufSize := n;
      pos := 0;
    }

    /** _jd_realloc: afterwards `add` more characters and the NUL fit. */
    method Realloc(add: nat)
      requires Valid()
      modifies this
      ensures Valid() && Text() == old(Text()) && pos + add + 1 < bufSize
      ensures buf == old(buf) || fresh(buf)
      ensures bufSize == if old(pos) + add + 1 >= old(bufSize) then old(bufSize) + add + 256 else old(bufSize)
    {
      if pos + add >= bufSize - 1 {
        var more := add + SIZE_INC;
        var larger := new char[bufSize + more];
        for i := 0 to bufSize
          invariant Valid() && buf == old(buf) && pos == old(pos) && bufSize == old(bufSize) && fresh(larger)
          invariant larger[..i] == buf[..i]
        {
          larger[i] := buf[i];
        }
        assert larger[..pos] == larger[..bufSize][..pos] == buf[..pos];
        assert larger[pos] == larger[..bufSize][pos];
        buf := larger;
        bufSize := bufSize + more;
      }
    }

    /** snprintf at the end of the text: what does not fit is cut off, and the position moves on all the same. */
    method Print(text: string)
      requires buf.Length == bufSize && pos < bufSize
      modifies this`pos, buf
      ensures pos == old(pos) + |text|
      ensures var n := if |text| < bufSize - old(pos) then |text| else bufSize - old(pos) - 1;
              buf[..old(pos) + n] == old(buf[..pos]) + text[..n] && buf[old(pos) + n] == '\0'
    {
      var n := if |text| < bufSize - pos then |text| else bufSize - pos - 1;
      for i := 0 to n
        invariant pos == old(pos) && buf[..pos + i] == old(buf[..pos]) + text[..i]
      {
        buf[pos + i] := text[i];
        assert text[..i + 1] == text[..i] + [text[i]];
        assert buf[..pos + i + 1] == buf[..pos + i] + [text[i]];
      }
      buf[pos + n] := '\0';
      assert buf[..pos + n] == old(buf[..pos]) + text[..n];
      pos := pos + |text|;
    }

    /** jd_map_start and jd_list_start: an empty map or list is added. */
    method Start(open: char, close: char)
      requires Valid() && open != '\0' && close != '\0'
      modifies this, buf
      ensures Valid() && Text() == old(Text()) + [open, close] && (buf == old(buf) || fresh(buf))
    {
      Realloc(2);
      ghost var text := Text();
      buf[pos] := open;
      buf[pos + 1] := close;
      buf[pos + 2] := '\0';
      pos := pos + 2;
      assert buf[..pos] == text + [open, close];
    }

    /** _jd_map_prep_append and _jd_list_prep_append. The text is without its NUL for the moment. */
    method PrepAppend(open: char, close: char)
      requires Valid() && open != '\0'
      modifies this`pos, buf
      ensures pos <= old(pos) && buf[..pos] == Rewound(old(Text()), open, close)
    {
      if pos > 1 && buf[pos - 1] == close {
        pos := pos - 1;
        if buf[pos - 1] != open {
          buf[pos] := ',';
          pos := pos + 1;
        }
      }
    }

    /** The common part of _jd_map_add_raw and _jd_list_add_raw: `add` is the size that each of them reserves. */
    method AddRaw(text: string, add: nat, open: char, close: char)
      requires Valid() && open != '\0' && NoNul(text) && add >= |text|
      modifies this, buf
      ensures Valid() && Text() == Rewound(old(Text()), open, close) + text && (buf == old(buf) || fresh(buf))
    {
      Realloc(add);
      ghost var before := Text();
      PrepAppend(open, close);
      assert NoNul(Rewound(before, open, close));
      Print(text);
      assert text[..|text|] == text;
    }

    // ----- maps

    /** _jd_map_add_raw */
    method MapAddRaw(key: string, value: string)
      requires Valid() && NoNul(key) && NoNul(value)
      modifies this, buf
      ensures Valid() && (buf == old(buf) || fresh(buf))
      ensures Text() == Rewound(old(Text()), '{', '}') + ("\"" + key + "\":" + value + "}")
    {
      AddRaw("\"" + key + "\":" + value + "}", |key| + |value| + 5, '{', '}');
    }

    /** The buffer holds a map with these members, and nothing else. */
    ghost predicate HoldsMap(members: seq<Member>)
      reads this, buf
    {
      Valid() && Text() == Render(Map(members))
    }

    method MapStart()
      requires Valid() && Text() == ""
      modifies this, buf
      ensures HoldsMap([]) && (buf == old(buf) || fresh(buf))
    {
      Start('{', '}');
    }

    /** Adding the text of a value adds a member with that value. */
    method MapAdd(key: string, value: string, ghost j: Json, ghost members: seq<Member>)
      requires HoldsMap(members) && NoNul(key) && NoNul(value) && value == Render(j)
      modifies this, buf
      ensures HoldsMap(members + [Member(key, j)]) && (buf == old(buf) || fresh(buf))
    {
      MapAddRaw(key, value);
      OneMoreMember(members, Member(key, j));
    }

    /** jd_map_add_string; a missing string is added as null. */
    method MapAddString(key: string, value: Option<string>, ghost members: seq<Member>)
      requires HoldsMap(members) && NoNul(key) && (value.Some? ==> NoNul(value.value))
      modifies this, buf
      ensures HoldsMap(members + [Member(key, if value == None then Null else Str(value.value))])
      ensures buf == old(buf) || fresh(buf)
    {
      if value == None {
        MapAdd(key, "null", Null, members);
      } else {
        var text := JsonifyString(value.value);
        MapAdd(key, text, Str(value.value), members);
      }
    }

    /** jd_map_add_int and jd_map_add_int64 */
    method MapAddInt(key: string, value: int, ghost members: seq<Member>)
      requires HoldsMap(members) && NoNul(key) && -0x8000_0000_0000_0000 <= value < 0x8000_0000_0000_0000
      modifies this, buf
      ensures HoldsMap(members + [Member(key, Num(value))]) && (buf == old(buf) || fresh(buf))
    {
      var text := PrintNumber(value);
      MapAdd(key, text, Num(value), members);
    }

    /** jd_map_add_bool */
    method MapAddBool(key: string, value: bool, ghost members: seq<Member>)
      requires HoldsMap(members) && NoNul(key)
      modifies this, buf
      ensures HoldsMap(members + [Member(key, Bool(value))]) && (buf == old(buf) || fresh(buf))
    {
      MapAdd(key, if value then "true" else "false", Bool(value), members);
    }

    /** jd_map_add_child: the text of another buffer becomes a value of this one. */
    method MapAddChild(key: string, child: JsonDump, ghost j: Json, ghost members: seq<Member>)
      requires HoldsMap(members) && NoNul(key) && child != this && child.buf != buf
      requires child.Valid() && child.Text() == Render(j)
      modifies this, buf
      ensures HoldsMap(members + [Member(key, j)]) && (buf == old(buf) || fresh(buf))
      ensures child.Valid() && child.Text() == Render(j) && child.buf != buf
    {
      MapAdd(key, child.buf[..child.pos], j, members);
    }

    // ----- lists

    /** _jd_list_add_raw */
    method ListAddRaw(value: string)
      requires Valid() && NoNul(value)
      modifies this, buf
      ensures Valid() && (buf == old(buf) || fresh(buf))
      ensures Text() == Rewound(old(Text()), '[', ']') + (value + "]")
    {
      AddRaw(value + "]", |value| + 2, '[', ']');
    }

    ghost predicate HoldsList(items: seq<Json>)
      reads this, buf
    {
      Valid() && Text() == Render(List(items))
    }

    method ListStart()
      requires Valid() && Text() == ""
      modifies this, buf
      ensures HoldsList([]) && (buf == old(buf) || fresh(buf))
    {
      Start('[', ']');
    }

    /** Adding the text of a value adds an item with that value. */
    method ListAdd(value: string, ghost j: Json, ghost items: seq<Json>)
      requires HoldsList(items) && NoNul(value) && value == Render(j)
      modifies this, buf
      ensures HoldsList(items + [j]) && (buf == old(buf) || fresh(buf))
    {
      ListAddRaw(value);
      OneMoreItem(items, j);
    }

    /** jd_list_add_string */
    method ListAddString(value: Option<string>, ghost items: seq<Json>)
      requires HoldsList(items) && (value.Some? ==> NoNul(value.value))
      modifies this, buf
      ensures HoldsList(items + [if value == None then Null else Str(value.value)]) && (buf == old(buf) || fresh(buf))
    {
      if value == None {
        ListAdd("null", Null, items);
      } else {
        var text := JsonifyString(value.value);
        ListAdd(text, Str(value.value), items);
      }
    }

    /** jd_list_add_int and jd_list_add_int64 */
    method ListAddInt(value: int, ghost items: seq<Json>)
      requires HoldsList(items) && -0x8000_0000_0000_0000 <= value < 0x8000_0000_0000_0000
      modifies this, buf
      ensures HoldsList(items + [Num(value)]) && (buf == old(buf) || fresh(buf))
    {
      var text := PrintNumber(value);
      ListAdd(text, Num(value), items);
    }

    /** jd_list_add_bool */
    method ListAddBool(value: bool, ghost items: seq<Json>)
      requires HoldsList(items)
      modifies this, buf
      ensures HoldsList(items + [Bool(value)]) && (buf == old(buf) || fresh(buf))
    {
      ListAdd(if value then "true" else "false", Bool(value), items);
    }

    /** jd_list_add_child */
    method ListAddChild(child: JsonDump, ghost j: Json, ghost items: seq<Json>)
      requires HoldsList(items) && child != this && child.buf != buf
      requires child.Valid() && child.Text() == Render(j)
      modifies this, buf
      ensures HoldsList(items + [j]) && (buf == old(buf) || fresh(buf))
      ensures child.Valid() && child.Text() == Render(j) && child.buf != buf
    {
      ListAdd(child.buf[..child.pos], j, items);
    }
  }

  // ----- one more element

  /** The text of a value does not end in an opening bracket. */
  lemma RenderEnd(j: Json)
    ensures Render(j) != "" && Render(j)[|Render(j)| - 1] != '{' && Render(j)[|Render(j)| - 1] != '['
  {
    match j {
      case Num(n) => DigitsEnd(if n < 0 then -n else n);
      case List(items) => assert Render(j)[|Render(j)| - 1] == ']';
      case Map(members) => assert Render(j)[|Render(j)| - 1] == '}';
      case Str(s) => assert Render(j)[|Render(j)| - 1] == '\"';
      case Null =>
      case Bool(b) =>
    }
  }

  lemma DigitsEnd(n: nat)
    ensures Digits(n)[|Digits(n)| - 1] == Digit(n % 10) && Digit(n % 10) != '{' && Digit(n % 10) != '['
  {
  }

  lemma {:induction false} MembersAppend(members: seq<Member>, m: Member)
    ensures RenderMembers(members + [m])
         == if members == [] then RenderMember(m) else RenderMembers(members) + "," + RenderMember(m)
  {
    if members == [] {
      assert members + [m] == [m];
    } else {
      assert (members + [m])[1..] == members[1..] + [m];
      MembersAppend(members[1..], m);
      CommaJoin(RenderMember(members[0]), RenderMembers(members[1..]), RenderMember(m));
    }
  }

  lemma CommaJoin(a: string, b: string, c: string)
    ensures a + ("," + (b + "," + c)) == a + ("," + b) + "," + c
    ensures a + "" == a
  {
  }

  lemma {:induction false} MembersEnd(members: seq<Member>)
    requires members != []
    ensures var s := RenderMembers(members); s != "" && s[|s| - 1] != '{'
  {
    var last := members[|members| - 1];
    RenderEnd(last.value);
    MembersAppend(members[..|members| - 1], last);
    assert members == members[..|members| - 1] + [last];
    assert RenderMember(last)[|RenderMember(last)| - 1] == Render(last.value)[|Render(last.value)| - 1];
  }

  lemma RewoundIs(s: string, open: char, close: char)
    requires s != "" ==> s[|s| - 1] != open
    ensures Rewound([open] + s + [close], open, close) == [open] + (if s == "" then "" else s + ",")
  {
    var text := [open] + s + [close];
    assert text[..|text| - 1] == [open] + s;
  }

  lemma OneMoreInside(s: string, open: char, x: string, close: char)
    requires s != "" ==> s[|s| - 1] != open
    ensures Rewound([open] + s + [close], open, close) + (x + [close])
         == [open] + (if s == "" then x else s + "," + x) + [close]
  {
    RewoundIs(s, open, close);
    assert "" + x == x;
  }

  /** Taking the closing brace back and printing a member adds the member. */
  lemma OneMoreMember(members: seq<Member>, m: Member)
    ensures Rewound(Render(Map(members)), '{', '}') + ("\"" + m.key + "\":" + Render(m.value) + "}")
         == Render(Map(members + [m]))
  {
    var s := RenderMembers(members);
    MembersAppend(members, m);
    if members != [] { MembersEnd(members); }
    OneMoreInside(s, '{', RenderMember(m), '}');
  }

  lemma {:induction false} ItemsAppend(items: seq<Json>, j: Json)
    ensures RenderItems(items + [j]) == if items == [] then Render(j) else RenderItems(items) + "," + Render(j)
  {
    if items == [] {
      assert items + [j] == [j];
    } else {
      assert (items + [j])[1..] == items[1..] + [j];
      ItemsAppend(items[1..], j);
      CommaJoin(Render(items[0]), RenderItems(items[1..]), Render(j));
    }
  }

  lemma {:induction false} ItemsEnd(items: seq<Json>)
    requires items != []
    ensures var s := RenderItems(items); s != "" && s[|s| - 1] != '['
  {
    var last := items[|items| - 1];
    RenderEnd(last);
    ItemsAppend(items[..|items| - 1], last);
    assert items == items[..|items| - 1] + [last];
  }

  lemma OneMoreItem(items: seq<Json>, j: Json)
    ensures Rewound(Render(List(items)), '[', ']') + (Render(j) + "]") == Render(List(items + [j]))
  {
    var s := RenderItems(items);
    ItemsAppend(items, j);
    if items != [] { ItemsEnd(items); }
    OneMoreInside(s, '[', Render(j), ']');
  }
}
