/** JSON values, the text that jsondump prints for them, and a reader for that text after RFC 8259. */
module JsonText {
  import opened Wrappers

  datatype Json =
    | Null
    | Bool(b: bool)
    | Num(n: int)
    | Str(s: string)
    | List(items: seq<Json>)
    | Map(members: seq<Member>)

  datatype Member = Member(key: string, value: Json)

  // ----- printing

  /** What jsonify_string puts for one character. */
  function Escape(c: char): string {
    match c
    case '\"' => "\\\""
    case '\\' => "\\\\"
    case '\U{0008}' => "\\b"
    case '\U{000C}' => "\\f"
    case '\n' => "\\n"
    case '\r' => "\\r"
    case '\t' => "\\t"
    case _ => [c]
  }

  function EscapeAll(s: string): string {
    if s == "" then "" else Escape(s[0]) + EscapeAll(s[1..])
  }

  /** jsonify_string */
  function Jsonify(s: string): string {
    "\"" + EscapeAll(s) + "\""
  }

  function Digit(n: nat): char
    requires n < 10
  {
    "0123456789"[n]
  }

  function Digits(n: nat): (s: string)
    ensures s != ""
  {
    (if n < 10 then "" else Digits(n / 10)) + [Digit(n % 10)]
  }

  /** "%d" */
  function Decimal(n: int): string {
    if n < 0 then "-" + Digits(-n) else Digits(n)
  }

  /** The text of a value. Keys are printed as they are. */
  function Render(j: Json): string
    decreases j, 1
  {
    match j
    case Null => "null"
    case Bool(b) => if b then "true" else "false"
    case Num(n) => Decimal(n)
    case Str(s) => Jsonify(s)
    case List(items) => "[" + RenderItems(items) + "]"
    case Map(members) => "{" + RenderMembers(members) + "}"
  }

  function RenderItems(items: seq<Json>): string
    decreases items, 0
  {
    if items == [] then ""
    else Render(items[0]) + (if |items| == 1 then "" else "," + RenderItems(items[1..]))
  }

  function RenderMember(m: Member): string
    decreases m, 2
  {
    "\"" + m.key + "\":" + Render(m.value)
  }

  function RenderMembers(members: seq<Member>): string
    decreases members, 0
  {
    if members == [] then ""
    else RenderMember(members[0]) + (if |members| == 1 then "" else "," + RenderMembers(members[1..]))
  }

  // ----- reading

  datatype Read<T> = Fail | Got(value: T, rest: string)

  /** Characters that section 7 of RFC 8259 does not allow inside a string as they are. */
  predicate IsControl(c: char) {
    c < ' '
  }

  function Unescape(c: char): Option<char> {
    match c
    case '\"' => Some('\"')
    case '\\' => Some('\\')
    case '/' => Some('/')
    case 'b' => Some('\U{0008}')
    case 'f' => Some('\U{000C}')
    case 'n' => Some('\n')
    case 'r' => Some('\r')
    case 't' => Some('\t')
    case _ => None
  }

  function Hex(c: char): (r: Option<nat>)
    ensures r.Some? ==> r.value < 16 && c != '\"'
  {
    if '0' <= c <= '9' then Some(c as int - '0' as int)
    else if 'a' <= c <= 'f' then Some(c as int - 'a' as int + 10)
    else if 'A' <= c <= 'F' then Some(c as int - 'A' as int + 10)
    else None
  }

  /** Four hexadecimal digits. Halves of surrogate pairs are not read; jsondump prints none. */
  function Unicode(s: string): (r: Option<char>)
    ensures r.Some? ==> |s| >= 4 && forall i :: 0 <= i < 4 ==> s[i] != '\"'
  {
    if |s| < 4 || Hex(s[0]) == None || Hex(s[1]) == None || Hex(s[2]) == None || Hex(s[3]) == None then None
    else
      var n := ((Hex(s[0]).value * 16 + Hex(s[1]).value) * 16 + Hex(s[2]).value) * 16 + Hex(s[3]).value;
      if n < 0xD800 || 0xE000 <= n then Some(n as char) else None
  }

  /** The rest of a string up to its closing quote (section 7). Without `strict` control characters are let through. */
  function ReadChars(s: string, strict: bool): (r: Read<string>)
    ensures r.Got? ==> |r.rest| < |s|
    decreases |s|
  {
    if s == "" then Fail
    else if s[0] == '\"' then Got("", s[1..])
    else if s[0] == '\\' then
      if |s| < 2 then Fail
      else if s[1] == 'u' then
        match Unicode(s[2..])
        case None => Fail
        case Some(c) => Front(c, ReadChars(s[6..], strict))
      else
        match Unescape(s[1])
        case None => Fail
        case Some(c) => Front(c, ReadChars(s[2..], strict))
    else if strict && IsControl(s[0]) then Fail
    else Front(s[0], ReadChars(s[1..], strict))
  }

  function Front(c: char, r: Read<string>): Read<string> {
    match r
    case Fail => Fail
    case Got(s, rest) => Got([c] + s, rest)
  }

  predicate IsDigit(c: char) {
    '0' <= c <= '9'
  }

  function TakeDigits(s: string): (d: string)
    ensures |d| <= |s| && forall i :: 0 <= i < |d| ==> IsDigit(d[i])
  {
    if s != "" && IsDigit(s[0]) then [s[0]] + TakeDigits(s[1..]) else ""
  }

  function ValueOf(d: string): nat
    requires forall i :: 0 <= i < |d| ==> IsDigit(d[i])
  {
    if d == "" then 0
    else
      var last := d[|d| - 1];
      assert IsDigit(last);
      ValueOf(d[..|d| - 1]) * 10 + (last as int - '0' as int)
  }

  /** An integer without leading zeros (section 6); fractions and exponents are not read. */
  function ReadNat(s: string): (r: Read<nat>)
    ensures r.Got? ==> |r.rest| < |s|
  {
    var d := TakeDigits(s);
    var rest := s[|d|..];
    if d == "" || (d[0] == '0' && |d| > 1) || (rest != "" && rest[0] in ".eE") then Fail else Got(ValueOf(d), rest)
  }

  function ReadNumber(s: string): (r: Read<Json>)
    ensures r.Got? ==> |r.rest| < |s|
  {
    if s != "" && s[0] == '-' then
      match ReadNat(s[1..])
      case Fail => Fail
      case Got(n, rest) => Got(Num(-(n as int)), rest)
    else
      match ReadNat(s)
      case Fail => Fail
      case Got(n, rest) => Got(Num(n), rest)
  }

  function ReadWord(word: string, j: Json, s: string): (r: Read<Json>)
    requires word != ""
    ensures r.Got? ==> |r.rest| < |s|
  {
    if word <= s then Got(j, s[|word|..]) else Fail
  }

  /** One value, without white space around its parts (sections 3, 4 and 5). */
  function ReadValue(s: string): (r: Read<Json>)
    ensures r.Got? ==> |r.rest| < |s|
    decreases |s|, 0
  {
    if s == "" then Fail
    else if s[0] == '-' || IsDigit(s[0]) then ReadNumber(s)
    else if s[0] == '{' then
      if |s| > 1 && s[1] == '}' then Got(Map([]), s[2..])
      else
        match ReadMembers(s[1..])
        case Fail => Fail
        case Got(members, rest) => Got(Map(members), rest)
    else if s[0] == '[' then
      if |s| > 1 && s[1] == ']' then Got(List([]), s[2..])
      else
        match ReadItems(s[1..])
        case Fail => Fail
        case Got(items, rest) => Got(List(items), rest)
    else if s[0] == '\"' then
      match ReadChars(s[1..], true)
      case Fail => Fail
      case Got(str, rest) => Got(Str(str), rest)
    else if s[0] == 'n' then ReadWord("null", Null, s)
    else if s[0] == 't' then ReadWord("true", Bool(true), s)
    else if s[0] == 'f' then ReadWord("false", Bool(false), s)
    else Fail
  }

  function ReadItems(s: string): (r: Read<seq<Json>>)
    ensures r.Got? ==> |r.rest| < |s|
    decreases |s|, 1
  {
    match ReadValue(s)
    case Fail => Fail
    case Got(item, rest) =>
      if rest != "" && rest[0] == ']' then Got([item], rest[1..])
      else if rest != "" && rest[0] == ',' then
        match ReadItems(rest[1..])
        case Fail => Fail
        case Got(items, end) => Got([item] + items, end)
      else Fail
  }

  function ReadMember(s: string): (r: Read<Member>)
    ensures r.Got? ==> |r.rest| < |s|
    decreases |s|, 1
  {
    if s == "" || s[0] != '\"' then Fail
    else
      match ReadChars(s[1..], true)
      case Fail => Fail
      case Got(key, rest) =>
        if rest == "" || rest[0] != ':' then Fail
        else
          match ReadValue(rest[1..])
          case Fail => Fail
          case Got(value, end) => Got(Member(key, value), end)
  }

  function ReadMembers(s: string): (r: Read<seq<Member>>)
    ensures r.Got? ==> |r.rest| < |s|
    decreases |s|, 2
  {
    match ReadMember(s)
    case Fail => Fail
    case Got(m, rest) =>
      if rest != "" && rest[0] == '}' then Got([m], rest[1..])
      else if rest != "" && rest[0] == ',' then
        match ReadMembers(rest[1..])
        case Fail => Fail
        case Got(members, end) => Got([m] + members, end)
      else Fail
  }

  // ----- strings

  /** The characters that jsonify_string escapes, all others stay as they are. */
  predicate Special(c: char) {
    c in "\"\\\n\r\t\U{0008}\U{000C}"
  }

  lemma EscapesAre(c: char)
    ensures Escape(c) == [c] <==> !Special(c)
    ensures Special(c) ==>
              |Escape(c)| == 2 && Escape(c)[0] == '\\' && Escape(c)[1] != 'u' && Unescape(Escape(c)[1]) == Some(c)
  {
    assert c in "\"\\\n\r\t\U{0008}\U{000C}" <==>
        c == '\"' || c == '\\' || c == '\n' || c == '\r' || c == '\t' || c == '\U{0008}' || c == '\U{000C}' by {
      var specials := "\"\\\n\r\t\U{0008}\U{000C}";
      assert specials[0] == '\"' && specials[1] == '\\' && specials[2] == '\n' && specials[3] == '\r';
      assert specials[4] == '\t' && specials[5] == '\U{0008}' && specials[6] == '\U{000C}';
    }
  }

  /** No control characters but line feed, carriage return, tab, backspace and form feed. */
  predicate CleanString(s: string) {
    forall i :: 0 <= i < |s| && IsControl(s[i]) ==> s[i] in "\n\r\t\U{0008}\U{000C}"
  }

  lemma CleanChar(c: char)
    ensures (Escape(c) == [c] ==> !IsControl(c)) <==> (IsControl(c) ==> c in "\n\r\t\U{0008}\U{000C}")
  {
    var allowed := "\n\r\t\U{0008}\U{000C}";
    assert allowed[0] == '\n' && allowed[1] == '\r' && allowed[2] == '\t';
    assert allowed[3] == '\U{0008}' && allowed[4] == '\U{000C}';
  }

  /** jsonify_string is undone by reading; after RFC 8259 exactly if the string is clean. */
  lemma {:induction false} ReadJsonified(s: string, t: string, strict: bool)
    ensures ReadChars(EscapeAll(s) + "\"" + t, strict) == if strict && !CleanString(s) then Fail else Got(s, t)
  {
    if s == "" {
      assert EscapeAll(s) + "\"" + t == "\"" + t;
    } else {
      var rest := EscapeAll(s[1..]) + "\"" + t;
      assert EscapeAll(s) + "\"" + t == Escape(s[0]) + rest;
      ReadJsonified(s[1..], t, strict);
      ReadEscape(s[0], rest, strict);
      assert s == [s[0]] + s[1..];
      CleanChar(s[0]);
      assert CleanString(s) <==> (Escape(s[0]) == [s[0]] ==> !IsControl(s[0])) && CleanString(s[1..]);
    }
  }

  lemma ReadEscape(c: char, rest: string, strict: bool)
    ensures ReadChars(Escape(c) + rest, strict)
         == if strict && Escape(c) == [c] && IsControl(c) then Fail else Front(c, ReadChars(rest, strict))
  {
    var s := Escape(c) + rest;
    if |Escape(c)| == 2 {
      assert s[2..] == rest && Unescape(s[1]) == Some(c) && s[0] == '\\';
    } else {
      assert s[1..] == rest && s[0] == c;
    }
  }

  /** A key that is a JSON string as it is. */
  predicate PlainKey(key: string) {
    forall i :: 0 <= i < |key| ==> key[i] != '\"' && key[i] != '\\' && !IsControl(key[i])
  }

  predicate NoQuote(s: string) {
    forall i :: 0 <= i < |s| ==> s[i] != '\"'
  }

  lemma {:induction false} ReadPlain(key: string, t: string)
    requires PlainKey(key)
    ensures ReadChars(key + "\"" + t, true) == Got(key, t)
  {
    if key == "" {
      assert key + "\"" + t == "\"" + t;
    } else {
      assert (key + "\"" + t)[1..] == key[1..] + "\"" + t;
      ReadPlain(key[1..], t);
      assert key == [key[0]] + key[1..];
    }
  }

  /** What is read of unescaped text runs behind it once an escape has been met, and cannot catch up: `behind` is what
      it is behind by. */
  lemma {:induction false} ReadBehind(behind: string, q: string, t: string)
    requires NoQuote(behind)
    requires var r := ReadChars(q + "\"" + t, true); r.Got? && r.value == behind + q
    ensures behind == "" && PlainKey(q)
    decreases |q|
  {
    var s := q + "\"" + t;
    if q == "" {
      assert s[0] == '\"';
    } else if q[0] == '\\' {
      var n := if s[1] == 'u' then 6 else 2;
      EscapeInside(behind, q, t);
      CutText(q, n, t);
      BehindBy(behind, q, n, ReadChars(s[n..], true).value);
      ReadBehind((behind + q)[1..|behind| + n], q[n..], t);
      assert false;
    } else {
      CutText(q, 1, t);
      BehindBy(behind, q, 1, ReadChars(s[1..], true).value);
      ReadBehind((behind + q)[1..|behind| + 1], q[1..], t);
    }
  }

  lemma CutText(q: string, n: nat, t: string)
    requires 0 < n <= |q|
    ensures var s := q + "\"" + t; s[0] == q[0] && s[n..] == q[n..] + "\"" + t
  {
  }

  lemma BehindBy(behind: string, q: string, n: nat, rest: string)
    requires 0 < n <= |q| && behind + q == [(behind + q)[0]] + rest
    ensures rest == (behind + q)[1..|behind| + n] + q[n..]
  {
    assert rest == (behind + q)[1..];
  }

  /** The escape lies inside the text, and what is read for it is not a quote. */
  lemma EscapeInside(behind: string, q: string, t: string)
    requires NoQuote(behind) && q != "" && q[0] == '\\'
    requires var r := ReadChars(q + "\"" + t, true); r.Got? && r.value == behind + q
    ensures var n := if (q + "\"" + t)[1] == 'u' then 6 else 2;
            |q| >= n && NoQuote((behind + q)[1..|behind| + n])
  {
    var s := q + "\"" + t;
    var out := behind + q;
    assert s[|q|] == '\"';
    assert out[0] != '\"';
    if s[1] == 'u' {
      assert forall i :: 2 <= i < 6 ==> s[i] == s[2..][i - 2];
      assert |q| >= 6;
      forall i | 0 <= i < 6 ensures q[i] != '\"' {
        assert q[i] == s[i];
        if i >= 2 { assert s[i] == s[2..][i - 2]; }
      }
      assert out[1..|behind| + 6] == (behind + q[..6])[1..];
    }
  }

  /** A key is read back exactly if it is plain. */
  lemma KeyExact(key: string, t: string)
    ensures PlainKey(key) ==> ReadChars(key + "\"" + t, true) == Got(key, t)
    ensures var r := ReadChars(key + "\"" + t, true);
            r.Got? && r.value == key ==> PlainKey(key)
  {
    if PlainKey(key) { ReadPlain(key, t); }
    var r := ReadChars(key + "\"" + t, true);
    if r.Got? && r.value == key {
      assert "" + key == key;
      ReadBehind("", key, t);
    }
  }
}
