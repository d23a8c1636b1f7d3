/** What jsondump prints is read back exactly if its keys and strings need no more escaping than it does. */
module JsonReadBack {
  import opened JsonText

  // ----- numbers

  lemma {:induction false} TakeDigitsOver(d: string, t: string)
    requires (forall i :: 0 <= i < |d| ==> IsDigit(d[i])) && (t == "" || !IsDigit(t[0]))
    ensures TakeDigits(d + t) == d
  {
    if d == "" {
      assert d + t == t;
    } else {
      assert (d + t)[1..] == d[1..] + t;
      TakeDigitsOver(d[1..], t);
    }
  }

  /** Decimal digits without a leading zero, which stand for the number. */
  lemma {:induction false} DigitsAre(n: nat)
    ensures forall i :: 0 <= i < |Digits(n)| ==> IsDigit(Digits(n)[i])
    ensures Digits(n)[0] == '0' ==> n == 0 && |Digits(n)| == 1
    ensures ValueOf(Digits(n)) == n
  {
    var last := Digit(n % 10);
    assert IsDigit(last) && last as int - '0' as int == n % 10;
    if n < 10 {
      assert Digits(n) == [last];
      assert ValueOf(Digits(n)[..0]) == 0;
    } else {
      DigitsAre(n / 10);
      assert Digits(n)[..|Digits(n)| - 1] == Digits(n / 10);
      assert Digits(n)[0] == Digits(n / 10)[0];
    }
  }

  /** What follows a value inside a map or a list, or at the end. */
  predicate EndsValue(t: string) {
    t == "" || t[0] == ',' || t[0] == ']' || t[0] == '}'
  }

  lemma NatBack(n: nat, t: string)
    requires EndsValue(t)
    ensures ReadNat(Digits(n) + t) == Got(n, t)
  {
    DigitsAre(n);
    TakeDigitsOver(Digits(n), t);
  }

  lemma NumberStart(s: string)
    requires s != "" && (s[0] == '-' || IsDigit(s[0]))
    ensures ReadValue(s) == ReadNumber(s)
  {
  }

  lemma PositiveBack(n: nat, t: string)
    requires EndsValue(t)
    ensures ReadValue(Digits(n) + t) == Got(Num(n), t)
  {
    var s := Digits(n) + t;
    NatBack(n, t);
    DigitStart(n);
    assert s[0] == Digits(n)[0];
    NumberStart(s);
  }

  lemma NegativeBack(n: nat, t: string)
    requires EndsValue(t)
    ensures ReadValue("-" + Digits(n) + t) == Got(Num(-(n as int)), t)
  {
    NatBack(n, t);
    MinusFirst(Digits(n), t);
    NumberStart("-" + Digits(n) + t);
  }

  lemma MinusFirst(digits: string, t: string)
    ensures var s := "-" + digits + t; s != "" && s[0] == '-' && s[1..] == digits + t
  {
  }

  lemma NumberBack(n: int, t: string)
    requires EndsValue(t)
    ensures ReadValue(Decimal(n) + t) == Got(Num(n), t)
  {
    if n < 0 { NegativeBack(-n, t); } else { PositiveBack(n, t); }
  }

  lemma DigitStart(n: nat)
    ensures IsDigit(Digits(n)[0])
  {
    DigitsAre(n);
  }

  /** "%ld" of a 64-bit number needs at most 20 characters and the NUL, so it fits a buffer of 22. */
  lemma DecimalFits(n: int)
    requires -0x8000_0000_0000_0000 <= n < 0x8000_0000_0000_0000
    ensures |Decimal(n)| <= 20
  {
    assert Power(3) == 1000;
    assert Power(6) == 1_000_000;
    assert Power(9) == 1_000_000_000;
    assert Power(12) == 1_000_000_000_000;
    assert Power(15) == 1_000_000_000_000_000;
    assert Power(18) == 1_000_000_000_000_000_000;
    DigitsCount(if n < 0 then -n else n, 19);
  }

  function Power(k: nat): nat {
    if k == 0 then 1 else 10 * Power(k - 1)
  }

  lemma {:induction false} DigitsCount(n: nat, k: nat)
    requires 0 < k && n < Power(k)
    ensures |Digits(n)| <= k
    decreases k
  {
    if n >= 10 { DigitsCount(n / 10, k - 1); }
  }

  // ----- values

  /** Strings without bare control characters, keys that are JSON strings as they are. */
  predicate Clean(j: Json)
    decreases j
  {
    match j
    case Str(s) => CleanString(s)
    case List(items) => forall i :: 0 <= i < |items| ==> Clean(items[i])
    case Map(members) => forall i :: 0 <= i < |members| ==> CleanMember(members[i])
    case _ => true
  }

  predicate CleanMember(m: Member)
    decreases m
  {
    PlainKey(m.key) && Clean(m.value)
  }

  lemma DecimalStart(n: int)
    ensures Decimal(n) != "" && (Decimal(n)[0] == '-' || IsDigit(Decimal(n)[0]))
  {
    if n >= 0 { DigitStart(n); }
  }

  lemma RenderStart(j: Json)
    ensures Render(j) != "" && Render(j)[0] != ']' && Render(j)[0] != '}'
  {
    match j {
      case Num(n) => DecimalStart(n);
      case List(items) => assert Render(j)[0] == '[';
      case Map(members) => assert Render(j)[0] == '{';
      case Str(s) => assert Render(j)[0] == '\"';
      case Null =>
      case Bool(b) =>
    }
  }

  lemma WordBack(j: Json, t: string)
    requires j.Null? || j.Bool?
    ensures ReadValue(Render(j) + t) == Got(j, t)
  {
    var w := Render(j);
    assert w <= w + t && (w + t)[|w|..] == t && (w + t)[0] == w[0];
  }

  lemma StringStart(s: string)
    ensures ReadValue("\"" + s)
         == match ReadChars(s, true)
            case Fail => Fail
            case Got(str, rest) => Got(Str(str), rest)
  {
    assert ("\"" + s)[1..] == s;
  }

  lemma ListStart(s: string)
    requires s != "" && s[0] != ']'
    ensures ReadValue("[" + s)
         == match ReadItems(s)
            case Fail => Fail
            case Got(items, rest) => Got(List(items), rest)
  {
    assert ("[" + s)[1..] == s;
  }

  lemma MapStart(s: string)
    requires s != "" && s[0] != '}'
    ensures ReadValue("{" + s)
         == match ReadMembers(s)
            case Fail => Fail
            case Got(members, rest) => Got(Map(members), rest)
  {
    assert ("{" + s)[1..] == s;
  }

  lemma EmptyBack(j: Json, t: string)
    requires j == List([]) || j == Map([])
    ensures ReadValue(Render(j) + t) == Got(j, t)
  {
    assert (Render(j) + t)[2..] == t && Render(j)[0] == (if j.List? then '[' else '{');
  }

  lemma StringBack(s: string, t: string)
    ensures ReadValue(Render(Str(s)) + t) == if CleanString(s) then Got(Str(s), t) else Fail
  {
    var rest := EscapeAll(s) + "\"" + t;
    assert Render(Str(s)) + t == "\"" + rest;
    StringStart(rest);
    ReadJsonified(s, t, true);
  }

  /** A clean value is read back from its text, whatever follows. */
  lemma {:induction false} ValueBack(j: Json, t: string)
    requires Clean(j) && EndsValue(t)
    ensures ReadValue(Render(j) + t) == Got(j, t)
    decreases j, 1
  {
    match j {
      case Null => WordBack(j, t);
      case Bool(_) => WordBack(j, t);
      case Num(n) => NumberBack(n, t);
      case Str(s) => StringBack(s, t);
      case List(items) =>
        if items == [] {
          EmptyBack(j, t);
        } else {
          ItemsBack(items, t);
          ListText(items, t);
        }
      case Map(members) =>
        if members == [] {
          EmptyBack(j, t);
        } else {
          MembersBack(members, t);
          MapText(members, t);
        }
    }
  }

  lemma ListText(items: seq<Json>, t: string)
    requires items != []
    ensures ReadValue(Render(List(items)) + t)
         == match ReadItems(RenderItems(items) + "]" + t)
            case Fail => Fail
            case Got(read, rest) => Got(List(read), rest)
  {
    var s := RenderItems(items) + "]" + t;
    RenderStart(items[0]);
    assert Render(List(items)) + t == "[" + s;
    assert s[0] == Render(items[0])[0];
    ListStart(s);
  }

  lemma MapText(members: seq<Member>, t: string)
    requires members != []
    ensures ReadValue(Render(Map(members)) + t)
         == match ReadMembers(RenderMembers(members) + "}" + t)
            case Fail => Fail
            case Got(read, rest) => Got(Map(read), rest)
  {
    var s := RenderMembers(members) + "}" + t;
    assert Render(Map(members)) + t == "{" + s;
    assert RenderMember(members[0])[0] == '\"' && RenderMembers(members)[0] == RenderMember(members[0])[0];
    MapStart(s);
  }

  /** What follows the first item: a comma and the other items, or the closing bracket. */
  function ItemsTail(items: seq<Json>, t: string): string
    requires items != []
  {
    if |items| == 1 then "]" + t else "," + (RenderItems(items[1..]) + "]" + t)
  }

  function MembersTail(members: seq<Member>, t: string): string
    requires members != []
  {
    if |members| == 1 then "}" + t else "," + (RenderMembers(members[1..]) + "}" + t)
  }

  lemma {:induction false} ItemsBack(items: seq<Json>, t: string)
    requires items != [] && forall i :: 0 <= i < |items| ==> Clean(items[i])
    ensures ReadItems(RenderItems(items) + "]" + t) == Got(items, t)
    decreases items, 0
  {
    var tail := ItemsTail(items, t);
    assert RenderItems(items) + "]" + t == Render(items[0]) + tail;
    ValueBack(items[0], tail);
    if |items| == 1 {
      assert tail[1..] == t && items == [items[0]];
    } else {
      assert tail[1..] == RenderItems(items[1..]) + "]" + t;
      ItemsBack(items[1..], t);
      assert items == [items[0]] + items[1..];
    }
  }

  /** The key of a member, as it is met by the reader. */
  lemma MemberText(m: Member, t: string)
    ensures (RenderMember(m) + t)[0] == '\"'
    ensures (RenderMember(m) + t)[1..] == m.key + "\"" + (":" + (Render(m.value) + t))
  {
  }

  lemma {:induction false} MemberBack(m: Member, t: string)
    requires CleanMember(m) && EndsValue(t)
    ensures ReadMember(RenderMember(m) + t) == Got(m, t)
    decreases m, 2
  {
    var rest := ":" + (Render(m.value) + t);
    MemberText(m, t);
    KeyExact(m.key, rest);
    assert rest[1..] == Render(m.value) + t;
    ValueBack(m.value, t);
  }

  lemma {:induction false} MembersBack(members: seq<Member>, t: string)
    requires members != [] && forall i :: 0 <= i < |members| ==> CleanMember(members[i])
    ensures ReadMembers(RenderMembers(members) + "}" + t) == Got(members, t)
    decreases members, 0
  {
    var tail := MembersTail(members, t);
    assert RenderMembers(members) + "}" + t == RenderMember(members[0]) + tail;
    MemberBack(members[0], tail);
    if |members| == 1 {
      assert tail[1..] == t && members == [members[0]];
    } else {
      assert tail[1..] == RenderMembers(members[1..]) + "}" + t;
      MembersBack(members[1..], t);
      assert members == [members[0]] + members[1..];
    }
  }

  // ----- only clean values are read back

  ghost predicate ReadsAs(j: Json, s: string) {
    ReadValue(s).Got? && ReadValue(s).value == j
  }

  lemma {:induction false} ValueExact(j: Json, t: string)
    requires EndsValue(t) && ReadsAs(j, Render(j) + t)
    ensures Clean(j)
    decreases j, 1
  {
    match j {
      case Str(s) => StringBack(s, t);
      case List(items) =>
        if items != [] {
          ListText(items, t);
          ItemsExact(items, t);
        }
      case Map(members) =>
        if members != [] {
          MapText(members, t);
          MembersExact(members, t);
        }
      case _ =>
    }
  }

  lemma {:induction false} ItemsExact(items: seq<Json>, t: string)
    requires items != []
    requires var r := ReadItems(RenderItems(items) + "]" + t); r.Got? && r.value == items
    ensures forall i :: 0 <= i < |items| ==> Clean(items[i])
    decreases items, 0
  {
    var tail := ItemsTail(items, t);
    var s := RenderItems(items) + "]" + t;
    assert s == Render(items[0]) + tail;
    FirstItem(s, items);
    ValueExact(items[0], tail);
    ValueBack(items[0], tail);
    if |items| > 1 {
      assert tail[1..] == RenderItems(items[1..]) + "]" + t;
      OtherItems(s, items, tail);
      ItemsExact(items[1..], t);
      assert forall i :: 1 <= i < |items| ==> items[i] == items[1..][i - 1];
    }
  }

  lemma FirstItem(s: string, items: seq<Json>)
    requires ReadItems(s).Got? && ReadItems(s).value == items
    ensures items != [] && ReadsAs(items[0], s)
  {
  }

  lemma OtherItems(s: string, items: seq<Json>, tail: string)
    requires ReadItems(s).Got? && ReadItems(s).value == items && |items| > 1
    requires ReadValue(s).Got? && ReadValue(s).rest == tail
    ensures tail != "" && ReadItems(tail[1..]).Got? && ReadItems(tail[1..]).value == items[1..]
  {
    var more := ReadItems(tail[1..]);
    assert items == [items[0]] + more.value;
  }

  lemma {:induction false} MemberExact(m: Member, t: string)
    requires EndsValue(t)
    requires var r := ReadMember(RenderMember(m) + t); r.Got? && r.value == m
    ensures CleanMember(m)
    decreases m, 2
  {
    var rest := ":" + (Render(m.value) + t);
    MemberText(m, t);
    KeyExact(m.key, rest);
    assert rest[1..] == Render(m.value) + t;
    ValueExact(m.value, t);
  }

  lemma {:induction false} MembersExact(members: seq<Member>, t: string)
    requires members != []
    requires var r := ReadMembers(RenderMembers(members) + "}" + t); r.Got? && r.value == members
    ensures forall i :: 0 <= i < |members| ==> CleanMember(members[i])
    decreases members, 0
  {
    var tail := MembersTail(members, t);
    var s := RenderMembers(members) + "}" + t;
    assert s == RenderMember(members[0]) + tail;
    assert ReadMembers(s).value[0] == ReadMember(s).value;
    MemberExact(members[0], tail);
    MemberBack(members[0], tail);
    if |members| > 1 {
      assert tail[1..] == RenderMembers(members[1..]) + "}" + t;
      var more := ReadMembers(tail[1..]);
      assert ReadMembers(s).value == [members[0]] + more.value;
      assert more.value == members[1..];
      MembersExact(members[1..], t);
      assert forall i :: 1 <= i < |members| ==> members[i] == members[1..][i - 1];
    }
  }

  /** The text of a value is JSON text that stands for this value exactly if the value is clean. */
  lemma ReadBackExact(j: Json)
    ensures ReadValue(Render(j)) == Got(j, "") <==> Clean(j)
  {
    assert Render(j) + "" == Render(j);
    if Clean(j) { ValueBack(j, ""); }
    if ReadValue(Render(j)) == Got(j, "") { ValueExact(j, ""); }
  }
}
