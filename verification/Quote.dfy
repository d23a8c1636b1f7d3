/** dup_quote_string and dup_unquote_string of llconf/strutils.c. */
module Quote {
  import opened Sequences

  function Escaped(s: string, qchar: char): string {
    if s == "" then "" else (if s[0] == qchar then "\\" + [s[0]] else [s[0]]) + Escaped(s[1..], qchar)
  }

  /** What dup_quote_string makes. */
  function Quoted(s: string, qchar: char): string {
    [qchar] + Escaped(s, qchar) + [qchar]
  }

  /** Every quote gets a backslash in front, all other characters stay as they are. */
  lemma {:induction false} EscapedEach(a: string, b: string, qchar: char, c: char)
    ensures Escaped(a + b, qchar) == Escaped(a, qchar) + Escaped(b, qchar)
    ensures Escaped([c], qchar) == if c == qchar then ['\\', c] else [c]
  {
    if a == "" {
      assert a + b == b;
    } else {
      assert (a + b)[1..] == a[1..] + b;
      EscapedEach(a[1..], b, qchar, c);
    }
  }

  /** The loop that counts: two quotes, the NUL, every character, and one more for every quote. */
  method QuotedSize(str: string, qchar: char) returns (n: nat)
    ensures n == |Quoted(str, qchar)| + 1
  {
    n := 3;
    var p := 0;
    assert str[0..] == str;
    while p < |str|
      invariant p <= |str| && n + |Escaped(str[p..], qchar)| == |Escaped(str, qchar)| + 3
    {
      assert str[p..][1..] == str[p + 1..];
      if str[p] == qchar { n := n + 1; }
      n := n + 1;
      p := p + 1;
    }
  }

  function Piece(c: char, qchar: char): string {
    if c == qchar then "\\" + [c] else [c]
  }

  lemma EscapedStep(before: string, str: string, p: nat, qchar: char)
    requires p < |str|
    ensures before + Escaped(str[p..], qchar) == before + Piece(str[p], qchar) + Escaped(str[p + 1..], qchar)
    ensures |Escaped(str[p..], qchar)| == |Piece(str[p], qchar)| + |Escaped(str[p + 1..], qchar)|
  {
    assert str[p..][1..] == str[p + 1..];
    assert Escaped(str[p..], qchar) == Piece(str[p], qchar) + Escaped(str[p + 1..], qchar);
  }

  /** One turn of the second loop of dup_quote_string. */
  method PutPiece(buf: array<char>, q: nat, c: char, qchar: char) returns (q': nat)
    requires q + |Piece(c, qchar)| <= buf.Length
    modifies buf
    ensures q' == q + |Piece(c, qchar)| && buf[..q'] == old(buf[..q]) + Piece(c, qchar)
  {
    ghost var before := buf[..q];
    q' := q;
    if c == qchar {
      buf[q'] := '\\';
      q' := q' + 1;
    }
    buf[q'] := c;
    q' := q' + 1;
    assert buf[..q'] == before + Piece(c, qchar);
  }

  /** dup_quote_string: the copy fills exactly the size computed for it. */
  method QuoteString(str: string, qchar: char) returns (buf: array<char>)
    requires NoNul(str) && qchar != '\0'
    ensures fresh(buf) && buf[..] == Quoted(str, qchar) + "\0"
  {
    var n := QuotedSize(str, qchar);
    buf := new char[n](_ => '\0');
    buf[0] := qchar;
    var q, p := 1, 0;
    assert str[0..] == str && buf[..1] == [qchar];
    while p < |str|
      invariant p <= |str| && 1 <= q && q + |Escaped(str[p..], qchar)| + 2 == buf.Length == n
      invariant buf[..q] + Escaped(str[p..], qchar) == [qchar] + Escaped(str, qchar)
    {
      EscapedStep(buf[..q], str, p, qchar);
      q := PutPiece(buf, q, str[p], qchar);
      p := p + 1;
    }
    ghost var before := buf[..q];
    buf[q] := qchar;
    q := q + 1;
    buf[q] := '\0';
    assert buf[..] == before + [qchar] + "\0";
  }

  // ----- unquoting

  /** The loop of dup_unquote_string: a backslash in front of a quote is left out. */
  function Unescaped(s: string, qchar: char): string {
    if s == "" then ""
    else if s[0] == '\\' && |s| > 1 && s[1] == qchar then Unescaped(s[1..], qchar)
    else [s[0]] + Unescaped(s[1..], qchar)
  }

  /** What dup_unquote_string makes: without the first quote, and without a quote at the end of the result. */
  function Unquoted(s: string, qchar: char): string {
    var r := Unescaped(if s != "" && s[0] == qchar then s[1..] else s, qchar);
    if r != "" && r[|r| - 1] == qchar then r[..|r| - 1] else r
  }

  lemma UnescapedStep(before: string, s: string, p: nat, qchar: char)
    requires p < |s|
    ensures before + Unescaped(s[p..], qchar)
         == if s[p] == '\\' && p + 1 < |s| && s[p + 1] == qchar then before + Unescaped(s[p + 1..], qchar)
            else before + [s[p]] + Unescaped(s[p + 1..], qchar)
  {
    assert s[p..][1..] == s[p + 1..];
  }

  method PutChar(buf: array<char>, q: nat, c: char) returns (q': nat)
    requires q < buf.Length
    modifies buf
    ensures q' == q + 1 && buf[..q'] == old(buf[..q]) + [c]
  {
    buf[q] := c;
    q' := q + 1;
  }

  /** Its loop: the result never gets ahead of what has been read. */
  method UnescapeInto(buf: array<char>, qstring: string, start: nat, qchar: char) returns (q: nat)
    requires start <= |qstring| < buf.Length
    modifies buf
    ensures q <= |qstring| && buf[..q] == Unescaped(qstring[start..], qchar)
  {
    var p := start;
    q := 0;
    while p < |qstring|
      invariant start <= p <= |qstring| && q <= p - start
      invariant buf[..q] + Unescaped(qstring[p..], qchar) == Unescaped(qstring[start..], qchar)
    {
      UnescapedStep(buf[..q], qstring, p, qchar);
      if !(qstring[p] == '\\' && p + 1 < |qstring| && qstring[p + 1] == qchar) {
        q := PutChar(buf, q, qstring[p]);
      }
      p := p + 1;
    }
  }

  /** dup_unquote_string: the result fits a buffer of the size of the string. */
  method UnquoteString(qstring: string, qchar: char) returns (r: string)
    requires NoNul(qstring) && qchar != '\0'
    ensures r == Unquoted(qstring, qchar)
  {
    var buf := new char[|qstring| + 1];
    var p := 0;
    if qstring != "" && qstring[0] == qchar { p := 1; }
    assert qstring[0..] == qstring;
    var q := UnescapeInto(buf, qstring, p, qchar);
    if q > 0 && buf[q - 1] == qchar { q := q - 1; }
    buf[q] := '\0';
    return buf[..q];
  }

  /** A backslash is left out in front of a quote, ... */
  lemma {:induction false} UnescapedPair(a: string, b: string, qchar: char)
    requires qchar != '\\'
    ensures Unescaped(a + (['\\', qchar] + b), qchar) == Unescaped(a, qchar) + ([qchar] + Unescaped(b, qchar))
  {
    var pair := ['\\', qchar] + b;
    if a == "" {
      assert a + pair == pair && pair[1..] == [qchar] + b && ([qchar] + b)[1..] == b;
    } else {
      assert (a + pair)[1..] == a[1..] + pair;
      assert |a| > 1 ==> (a + pair)[1] == a[1];
      UnescapedPair(a[1..], b, qchar);
    }
  }

  /** ... and nowhere else. */
  lemma {:induction false} UnescapedOther(s: string, qchar: char)
    requires forall i :: 0 <= i < |s| - 1 && s[i] == '\\' ==> s[i + 1] != qchar
    ensures Unescaped(s, qchar) == s
  {
    if s != "" {
      assert s == [s[0]] + s[1..];
      UnescapedOther(s[1..], qchar);
    }
  }

  // ----- both together

  predicate EndsInBackslash(s: string) {
    s != "" && s[|s| - 1] == '\\'
  }

  /** A quote at either side goes, and text without quotes stays. */
  lemma UnquotedSides(s: string, qchar: char, first: bool, last: bool)
    requires qchar != '\\' && (forall i :: 0 <= i < |s| ==> s[i] != qchar) && (last ==> !EndsInBackslash(s))
    ensures Unquoted((if first then [qchar] else []) + (s + if last then [qchar] else []), qchar) == s
  {
    var t := s + if last then [qchar] else [];
    UnescapedOther(t, qchar);
    UnescapedOther(s, qchar);
    var whole := (if first then [qchar] else []) + t;
    assert first ==> whole[1..] == t;
    assert !first ==> whole == t;
    assert last ==> t[..|t| - 1] == s;
    if !first && last && s == "" { assert whole == [qchar] && whole[1..] == ""; }
  }

  /** Escaped text and the closing quote: a backslash at the end of the text takes the quote for an escaped one. */
  lemma {:induction false} UnescapeEscaped(s: string, qchar: char)
    requires qchar != '\\'
    ensures Unescaped(Escaped(s, qchar) + [qchar], qchar)
         == if EndsInBackslash(s) then s[..|s| - 1] + [qchar] else s + [qchar]
  {
    var t := Escaped(s, qchar) + [qchar];
    if s == "" {
      assert t == [qchar] && t[1..] == "";
    } else {
      var rest := Escaped(s[1..], qchar) + [qchar];
      UnescapeEscaped(s[1..], qchar);
      if s[0] == qchar {
        assert t == "\\" + [qchar] + rest;
        assert t[1..] == [qchar] + rest && t[1..][1..] == rest;
      } else {
        assert t == [s[0]] + rest && t[1..] == rest;
        assert rest[0] == qchar <==> s[1..] == "" by { EscapedStart(s[1..], qchar); }
      }
      assert s == [s[0]] + s[1..];
    }
  }

  lemma EscapedStart(s: string, qchar: char)
    requires qchar != '\\'
    ensures s != "" ==> Escaped(s, qchar) != "" && Escaped(s, qchar)[0] != qchar
  {
  }

  /** For a quote that is not a backslash, unquoting undoes quoting exactly on the strings that do not end in a
      backslash; of the others it loses that backslash. */
  lemma UnquoteQuoted(s: string, qchar: char)
    requires qchar != '\\'
    ensures EndsInBackslash(s) ==> Unquoted(Quoted(s, qchar), qchar) == s[..|s| - 1]
    ensures Unquoted(Quoted(s, qchar), qchar) == s <==> !EndsInBackslash(s)
  {
    var t := Escaped(s, qchar) + [qchar];
    assert Quoted(s, qchar)[1..] == t;
    UnescapeEscaped(s, qchar);
    var r := Unescaped(t, qchar);
    assert r[..|r| - 1] == if EndsInBackslash(s) then s[..|s| - 1] else s;
  }
}
