/** Taking a NEVRA string apart: split_nevra of solv/simplequery.c, SolvSplitEvr of solv/tdnfpackage.c, and the
    search for solvables by such a string. */
module Nevra {
  import opened Wrappers

  predicate Without(s: string, c: char) {
    forall i :: 0 <= i < |s| ==> s[i] != c
  }

  /** Going back from place `p` to a character, or to the beginning. */
  function ScanBack(s: string, c: char, p: nat): (q: nat)
    requires p < |s|
    ensures q <= p
  {
    if p == 0 || s[p] == c then p else ScanBack(s, c, p - 1)
  }

  lemma {:induction false} ScanBackIs(s: string, c: char, end: nat)
    requires 0 < end <= |s|
    ensures var q := ScanBack(s, c, end - 1);
            (q == 0 || s[q] == c) && Free(s, q + 1, end, c)
    decreases end
  {
    if end > 1 && s[end - 1] != c { ScanBackIs(s, c, end - 1); }
  }

  datatype Parts = Parts(name: string, evr: string, arch: string)

  /** split_nevra: the result of the three scans, or the code of the one that failed. */
  datatype Split = Failed(code: int) | Split(parts: Parts)

  function SplitNevra(s: string): Split
    requires s != ""
  {
    var a := ScanBack(s, '.', |s| - 1);
    if a == 0 then Failed(-1)
    else
      var r := ScanBack(s, '-', a - 1);
      if r == 0 then Failed(-2)
      else
        var v := ScanBack(s, '-', r - 1);
        if v == 0 then Failed(-3) else Split(Parts(s[..v], s[v + 1..a], s[a + 1..]))
  }

  // ----- what it finds

  function Join(name: string, evr: string, arch: string): string {
    name + "-" + evr + "." + arch
  }

  /** `s` is a name, a version, a release and an architecture, put together in the usual way. */
  ghost predicate Decomposes(s: string, name: string, version: string, release: string, arch: string) {
    && s == Join(name, version + "-" + release, arch)
    && name != "" && Without(version, '-') && Without(release, '-') && Without(arch, '.')
  }

  lemma {:induction false} ScanBackTo(s: string, c: char, end: nat, q: nat)
    requires q < end <= |s| && (s[q] == c || q == 0) && Free(s, q + 1, end, c)
    ensures ScanBack(s, c, end - 1) == q
    decreases end
  {
    if q < end - 1 { ScanBackTo(s, c, end - 1, q); }
  }

  predicate Free(s: string, i: nat, j: nat, c: char)
    requires i <= j <= |s|
  {
    forall k :: i <= k < j ==> s[k] != c
  }

  lemma ToEnd(s: string, i: nat)
    requires i <= |s|
    ensures s[i..|s|] == s[i..]
  {
  }

  lemma FreeSlice(s: string, i: nat, j: nat, c: char)
    requires i <= j <= |s|
    ensures Free(s, i, j, c) <==> Without(s[i..j], c)
  {
    assert forall k :: 0 <= k < j - i ==> s[i..j][k] == s[i + k];
    assert forall k :: i <= k < j ==> s[k] == s[i..j][k - i];
  }

  /** The three places that part a string. */
  ghost predicate PartedAt(s: string, v: nat, r: nat, a: nat) {
    && 0 < v < r < a < |s| && s[v] == '-' && s[r] == '-' && s[a] == '.'
    && Free(s, v + 1, r, '-') && Free(s, r + 1, a, '-') && Free(s, a + 1, |s|, '.')
  }

  lemma PartedSplit(s: string, v: nat, r: nat, a: nat)
    requires PartedAt(s, v, r, a)
    ensures SplitNevra(s) == Split(Parts(s[..v], s[v + 1..a], s[a + 1..]))
  {
    ScanBackTo(s, '.', |s|, a);
    ScanBackTo(s, '-', a, r);
    ScanBackTo(s, '-', r, v);
  }

  lemma SplitParted(s: string) returns (v: nat, r: nat, a: nat)
    requires s != "" && SplitNevra(s).Split?
    ensures PartedAt(s, v, r, a) && SplitNevra(s).parts == Parts(s[..v], s[v + 1..a], s[a + 1..])
  {
    a := ScanBack(s, '.', |s| - 1);
    r := ScanBack(s, '-', a - 1);
    v := ScanBack(s, '-', r - 1);
    ScanBackIs(s, '.', |s|);
    ScanBackIs(s, '-', a);
    ScanBackIs(s, '-', r);
  }

  lemma Concat3(a: string, b: string, c: string)
    ensures (a + b + c)[..|a|] == a && (a + b + c)[|a|..|a| + |b|] == b && (a + b + c)[|a| + |b|..] == c
  {
  }

  /** The pieces of a joined string are found at their places. */
  lemma JoinPieces(name: string, version: string, release: string, arch: string)
    ensures var s := Join(name, version + "-" + release, arch);
            var v, r, a := |name|, |name| + 1 + |version|, |name| + 1 + |version| + 1 + |release|;
            && |s| == a + 1 + |arch| && s[v] == '-' && s[r] == '-' && s[a] == '.'
            && s[..v] == name && s[v + 1..r] == version && s[r + 1..a] == release && s[a + 1..] == arch
            && s[v + 1..a] == version + "-" + release
  {
    var s, evr := Join(name, version + "-" + release, arch), version + "-" + release;
    var v, r, a := |name|, |name| + 1 + |version|, |name| + 1 + |version| + 1 + |release|;
    Concat3(name + "-" + evr, ".", arch);
    Concat3(name, "-", evr);
    Concat3(version, "-", release);
    var head := name + "-" + evr;
    assert s[..a] == head && head[v + 1..] == evr;
    assert s[v + 1..a] == evr;
    assert s[v + 1..r] == s[v + 1..a][..|version|];
    assert s[r + 1..a] == s[v + 1..a][|version| + 1..];
    assert s[r] == s[v + 1..a][|version|];
    assert s[..v] == head[..v] && s[v] == head[v];
  }

  /** Whatever can be taken apart at all is taken apart in the one way there is. */
  lemma SplitFinds(s: string, name: string, version: string, release: string, arch: string)
    requires Decomposes(s, name, version, release, arch)
    ensures SplitNevra(s) == Split(Parts(name, version + "-" + release, arch))
  {
    var v, r, a := |name|, |name| + 1 + |version|, |name| + 1 + |version| + 1 + |release|;
    JoinPieces(name, version, release, arch);
    JoinParted(s, name, version, release, arch);
    PartedPieces(s, v, r, a, name, version + "-" + release, arch);
  }

  lemma PartedPieces(s: string, v: nat, r: nat, a: nat, name: string, evr: string, arch: string)
    requires PartedAt(s, v, r, a) && s[..v] == name && s[v + 1..a] == evr && s[a + 1..] == arch
    ensures SplitNevra(s) == Split(Parts(name, evr, arch))
  {
    PartedSplit(s, v, r, a);
  }

  lemma JoinParted(s: string, name: string, version: string, release: string, arch: string)
    requires Decomposes(s, name, version, release, arch)
    ensures PartedAt(s, |name|, |name| + 1 + |version|, |name| + 1 + |version| + 1 + |release|)
  {
    var v, r, a := |name|, |name| + 1 + |version|, |name| + 1 + |version| + 1 + |release|;
    JoinPieces(name, version, release, arch);
    FreeSlice(s, v + 1, r, '-');
    FreeSlice(s, r + 1, a, '-');
    FreeSlice(s, a + 1, |s|, '.');
    ToEnd(s, a + 1);
  }

  /** What has been taken apart can be put together again. */
  lemma SplitSound(s: string) returns (version: string, release: string)
    requires s != "" && SplitNevra(s).Split?
    ensures var p := SplitNevra(s).parts;
            p.evr == version + "-" + release && Decomposes(s, p.name, version, release, p.arch)
  {
    var v, r, a := SplitParted(s);
    version, release := s[v + 1..r], s[r + 1..a];
    FreeSlice(s, v + 1, r, '-');
    FreeSlice(s, r + 1, a, '-');
    FreeSlice(s, a + 1, |s|, '.');
    ToEnd(s, a + 1);
    Glue(s, v + 1, r, a);
    Glue3(s, v, a);
  }

  lemma Glue(s: string, i: nat, r: nat, a: nat)
    requires i <= r < a <= |s| && s[r] == '-'
    ensures s[i..a] == s[i..r] + "-" + s[r + 1..a]
  {
  }

  lemma Glue3(s: string, v: nat, a: nat)
    requires v < a < |s| && s[v] == '-' && s[a] == '.'
    ensures s == Join(s[..v], s[v + 1..a], s[a + 1..])
  {
  }

  /** Which of the three scans fails: there is no dot behind the first character; no dash between the first character
      and the last dot `a`; or no other dash in front of the last one `r` of these. */
  lemma SplitFails(s: string, a: nat, r: nat)
    requires s != ""
    ensures SplitNevra(s) == Failed(-1) <==> Free(s, 1, |s|, '.')
    ensures 0 < a < |s| && s[a] == '.' && Free(s, a + 1, |s|, '.') ==>
              (SplitNevra(s) == Failed(-2) <==> Free(s, 1, a, '-'))
    ensures 0 < r < a < |s| && s[a] == '.' && Free(s, a + 1, |s|, '.') && s[r] == '-' && Free(s, r + 1, a, '-') ==>
              (SplitNevra(s) == Failed(-3) <==> Free(s, 1, r, '-'))
  {
    ScanFails(s, '.', |s|);
    if 0 < a < |s| && s[a] == '.' && Free(s, a + 1, |s|, '.') {
      ScanBackTo(s, '.', |s|, a);
      ScanFails(s, '-', a);
      if 0 < r < a && s[r] == '-' && Free(s, r + 1, a, '-') {
        ScanBackTo(s, '-', a, r);
        ScanFails(s, '-', r);
      }
    }
  }

  /** A scan arrives at the beginning exactly if it finds nothing behind it. */
  lemma ScanFails(s: string, c: char, end: nat)
    requires 0 < end <= |s|
    ensures ScanBack(s, c, end - 1) == 0 <==> Free(s, 1, end, c)
  {
    ScanBackIs(s, c, end);
    if Free(s, 1, end, c) { ScanBackTo(s, c, end, 0); }
  }

  // ----- split_nevra in place

  /** The C string at a place of a buffer. */
  function StringAt(buf: seq<char>, p: nat): string
    decreases |buf| - p
  {
    if p < |buf| && buf[p] != '\0' then [buf[p]] + StringAt(buf, p + 1) else ""
  }

  lemma {:induction false} StringIs(buf: seq<char>, p: nat, q: nat)
    requires p <= q < |buf| && buf[q] == '\0' && forall i :: p <= i < q ==> buf[i] != '\0'
    ensures StringAt(buf, p) == buf[p..q]
    decreases q - p
  {
    if p < q { StringIs(buf, p + 1, q); }
  }

  /** One of the loops `while (*p != c && p > nevra) p--`. */
  method Back(buf: array<char>, ghost s: string, c: char, p0: nat) returns (p: nat)
    requires p0 < |s| <= buf.Length && buf[..|s|] == s
    ensures p == ScanBack(s, c, p0)
  {
    p := p0;
    while buf[p] != c && p > 0
      invariant p < |s| && ScanBack(s, c, p) == ScanBack(s, c, p0)
      decreases p
    {
      p := p - 1;
    }
    assert buf[p] == s[p];
  }

  /** What is left in the buffer when the string has been cut at two places. */
  lemma CutStrings(buf: seq<char>, s: string, v: nat, a: nat)
    requires v < a < |s| < |buf| && Without(s, '\0') && buf[|s|] == '\0' && buf[a] == '\0' && buf[v] == '\0'
    requires forall i :: 0 <= i < |s| && i != a && i != v ==> buf[i] == s[i]
    ensures StringAt(buf, 0) == s[..v] && StringAt(buf, v + 1) == s[v + 1..a] && StringAt(buf, a + 1) == s[a + 1..]
  {
    StringIs(buf, 0, v);
    StringIs(buf, v + 1, a);
    StringIs(buf, a + 1, |s|);
    assert buf[0..v] == s[..v] && buf[v + 1..a] == s[v + 1..a] && buf[a + 1..|s|] == s[a + 1..];
  }

  /** The three scans, and the two cuts. */
  method CutPlaces(buf: array<char>, n: nat, ghost s: string) returns (code: int, v: nat, a: nat)
    requires 0 < n < buf.Length && buf[..n] == s
    modifies buf
    ensures match SplitNevra(s)
            case Failed(c) => code == c < 0
            case Split(p) => code == 0 && v < a < n && p == PartsAt(s, v, a) && buf[a] == buf[v] == '\0'
    ensures forall i :: 0 <= i < buf.Length && i != a && i != v ==> buf[i] == old(buf[i])
  {
    v, a := 0, 0;
    a := Back(buf, s, '.', n - 1);
    if a == 0 { return -1, v, a; }
    buf[a] := '\0';
    var r;
    r, v := BackTwice(buf, s, a);
    if r == 0 { return -2, v, a; }
    if v == 0 { return -3, v, a; }
    buf[v] := '\0';
    code := 0;
  }

  /** The second and the third scan; there is no third one if the second fails. */
  method BackTwice(buf: array<char>, ghost s: string, a: nat) returns (r: nat, v: nat)
    requires 0 < a < |s| <= buf.Length && forall i :: 0 <= i < a ==> buf[i] == s[i]
    ensures r == ScanBack(s, '-', a - 1) && r < a && v == if r == 0 then 0 else ScanBack(s, '-', r - 1)
  {
    assert buf[..a] == s[..a];
    v := 0;
    r := Back(buf, s[..a], '-', a - 1);
    ScanBackPrefix(s, a, '-', a - 1);
    if r != 0 {
      v := Back(buf, s[..a], '-', r - 1);
      ScanBackPrefix(s, a, '-', r - 1);
    }
  }

  function PartsAt(s: string, v: nat, a: nat): Parts
    requires v < a < |s|
  {
    Parts(s[..v], s[v + 1..a], s[a + 1..])
  }

  /** split_nevra: cuts the string with two NULs; the name is where the string was. */
  method SplitInPlace(buf: array<char>, n: nat) returns (code: int, evr: nat, arch: nat)
    requires 0 < n < buf.Length && buf[n] == '\0' && Without(buf[..n], '\0')
    modifies buf
    ensures match SplitNevra(old(buf[..n]))
            case Failed(c) => code == c < 0
            case Split(p) =>
              code == 0 && p == Parts(StringAt(buf[..], 0), StringAt(buf[..], evr), StringAt(buf[..], arch))
  {
    ghost var s := buf[..n];
    var v, a;
    code, v, a := CutPlaces(buf, n, s);
    if code == 0 { CutStrings(buf[..], s, v, a); }
    evr, arch := v + 1, a + 1;
  }

  lemma {:induction false} ScanBackPrefix(s: string, n: nat, c: char, p: nat)
    requires p < n <= |s|
    ensures ScanBack(s[..n], c, p) == ScanBack(s, c, p)
    decreases p
  {
    if p > 0 && s[p] != c { ScanBackPrefix(s, n, c, p - 1); }
  }

  // ----- SolvSplitEvr

  /** The index of the last such character, or 0. */
  function LastIndex(s: string, c: char): (k: nat)
    ensures k == 0 || k < |s|
  {
    if s == "" then 0 else if s[|s| - 1] == c then |s| - 1 else LastIndex(s[..|s| - 1], c)
  }

  datatype Evr = Evr(epoch: Option<string>, version: Option<string>, release: Option<string>)

  /** Empty parts become null. */
  function NonEmpty(s: string): Option<string> {
    if s == "" then None else Some(s)
  }

  /** The parts of a string with a colon at `e` and a dash at `r`, either 0 if there is none. */
  function EvrAt(s: string, e: nat, r: nat): Evr
    requires (e == 0 || e < |s|) && (r == 0 || r < |s|)
  {
    var start := if e != 0 then e + 1 else 0;
    if r != 0 && r > e then Evr(EpochAt(s, e), NonEmpty(s[start..r]), NonEmpty(s[r + 1..]))
    else Evr(EpochAt(s, e), NonEmpty(s[start..]), None)
  }

  function EpochAt(s: string, e: nat): Option<string>
    requires e == 0 || e < |s|
  {
    if e != 0 then Some(s[..e]) else None
  }

  /** SolvSplitEvr. A colon or a dash at the very beginning does not count, and a dash counts only behind the colon. */
  function SplitEvr(s: string): Evr {
    EvrAt(s, LastIndex(s, ':'), LastIndex(s, '-'))
  }

  /** The scan that notes the last colon and the last dash. */
  method ScanEvr(s: string) returns (e: nat, r: nat)
    ensures e == LastIndex(s, ':') && r == LastIndex(s, '-')
  {
    e, r := 0, 0;
    var i := 0;
    while i < |s|
      invariant i <= |s| && e == LastIndex(s[..i], ':') && r == LastIndex(s[..i], '-')
    {
      assert s[..i + 1][..i] == s[..i];
      if s[i] == ':' { e := i; } else if s[i] == '-' { r := i; }
      i := i + 1;
    }
    assert s[..i] == s;
  }

  /** A copy of the string `s` with a NUL at the colon `e` and one at the dash `r`, as far as they count. */
  ghost predicate EvrCut(buf: seq<char>, s: string, e: nat, r: nat) {
    && |buf| == |s| + 1 && e <= |s| && r <= |s|
    && forall i :: 0 <= i <= |s| ==>
         buf[i] == if i == |s| || (i == e && e != 0) || (i == r && r != 0 && r > e) then '\0' else s[i]
  }

  lemma CutString(buf: seq<char>, s: string, e: nat, r: nat, i: nat, j: nat)
    requires Without(s, '\0') && EvrCut(buf, s, e, r) && i <= j <= |s| && buf[j] == '\0'
    requires forall k :: i <= k < j ==> buf[k] == s[k]
    ensures StringAt(buf, i) == s[i..j]
  {
    StringIs(buf, i, j);
    assert buf[i..j] == s[i..j];
  }

  lemma EvrStrings(buf: seq<char>, s: string, e: nat, r: nat)
    requires s != "" && Without(s, '\0') && e == LastIndex(s, ':') && r == LastIndex(s, '-') && EvrCut(buf, s, e, r)
    ensures e != 0 ==> StringAt(buf, 0) == s[..e]
    ensures var start := if e != 0 then e + 1 else 0;
            StringAt(buf, start) == if r != 0 && r > e then s[start..r] else s[start..]
    ensures r != 0 && r > e ==> StringAt(buf, r + 1) == s[r + 1..]
  {
    var cut, start := r != 0 && r > e, if e != 0 then e + 1 else 0;
    if e != 0 { CutString(buf, s, e, r, 0, e); }
    ToEnd(s, start);
    CutString(buf, s, e, r, start, if cut then r else |s|);
    if cut {
      ToEnd(s, r + 1);
      CutString(buf, s, e, r, r + 1, |s|);
    }
  }

  /** SolvSplitEvr on a copy of the string, which is cut by NULs. None is the error for an empty string. */
  method SplitEvrInPlace(evr: string) returns (result: Option<Evr>)
    requires Without(evr, '\0')
    ensures result == if evr == "" then None else Some(SplitEvr(evr))
  {
    if evr == "" { return None; }
    var n := |evr|;
    var buf := new char[n + 1](i requires 0 <= i <= n => if i < n then evr[i] else '\0');
    var e, r := ScanEvr(evr);
    if e != 0 { buf[e] := '\0'; }
    if r != 0 && r > e { buf[r] := '\0'; }
    var parts := CopyParts(buf, e, r, evr);
    return Some(parts);
  }

  /** The parts between the NULs are copied; empty ones become null. */
  method CopyParts(buf: array<char>, e: nat, r: nat, ghost evr: string) returns (parts: Evr)
    requires evr != "" && Without(evr, '\0') && e == LastIndex(evr, ':') && r == LastIndex(evr, '-')
    requires EvrCut(buf[..], evr, e, r)
    ensures parts == SplitEvr(evr)
  {
    EvrStrings(buf[..], evr, e, r);
    var start := if e != 0 then e + 1 else 0;
    var epoch := if e != 0 then NonEmpty(StringAt(buf[..], 0)) else None;
    var version := NonEmpty(StringAt(buf[..], start));
    var release := if r != 0 && r > e then NonEmpty(StringAt(buf[..], r + 1)) else None;
    return Evr(epoch, version, release);
  }

  lemma {:induction false} LastIndexIs(s: string, c: char, k: nat)
    requires k < |s| && s[k] == c && Free(s, k + 1, |s|, c)
    ensures LastIndex(s, c) == k
  {
    if k < |s| - 1 { LastIndexIs(s[..|s| - 1], c, k); }
  }

  lemma {:induction false} LastIndexNone(s: string, c: char)
    requires Free(s, if s == "" then 0 else 1, |s|, c)
    ensures LastIndex(s, c) == 0
  {
    if |s| > 1 { LastIndexNone(s[..|s| - 1], c); }
  }

  lemma {:induction false} LastIndexSound(s: string, c: char)
    ensures var k := LastIndex(s, c);
            && (k != 0 ==> s[k] == c && Free(s, k + 1, |s|, c))
            && (k == 0 && s != "" ==> Free(s, 1, |s|, c))
  {
    if s != "" && s[|s| - 1] != c { LastIndexSound(s[..|s| - 1], c); }
  }

  // ----- both together

  function EpochString(epoch: Option<string>): string {
    match epoch
    case None => ""
    case Some(e) => e + ":"
  }

  function EvrString(epoch: Option<string>, version: string, release: string): string {
    EpochString(epoch) + version + "-" + release
  }

  /** The version and release that the epoch does not run into. */
  predicate EvrOk(epoch: Option<string>, version: string, release: string) {
    && version != "" && release != "" && Without(release, ':')
    && match epoch
       case None => Free(version, 1, |version|, ':')
       case Some(e) => e != "" && Without(version, ':')
  }

  lemma EvrPieces(epoch: Option<string>, version: string, release: string)
    ensures var s, base := EvrString(epoch, version, release), |EpochString(epoch)|;
            var r := base + |version|;
            && |s| == r + 1 + |release| && s[r] == '-' && s[base..r] == version && s[r + 1..] == release
            && (epoch.Some? ==> s[..base - 1] == epoch.value && s[base - 1] == ':')
  {
    var s, base := EvrString(epoch, version, release), |EpochString(epoch)|;
    Concat3(EpochString(epoch) + version, "-", release);
    Concat3(EpochString(epoch), version, "");
    assert s[..base + |version|] == EpochString(epoch) + version;
    assert s[..base] == EpochString(epoch);
    if epoch.Some? {
      assert s[base - 1] == s[..base][base - 1];
      assert s[..base - 1] == s[..base][..base - 1];
    }
  }

  lemma FreeJoin(s: string, i: nat, r: nat, j: nat, c: char)
    requires i <= r < j <= |s| && s[r] != c
    ensures Free(s, i, j, c) <==> Free(s, i, r, c) && Free(s, r + 1, j, c)
  {
  }

  /** A part of a string, looked at from its `k`th character on. */
  lemma FreePart(s: string, i: nat, j: nat, part: string, k: nat, c: char)
    requires i <= j <= |s| && s[i..j] == part && k <= |part|
    ensures Free(s, i + k, j, c) <==> Free(part, k, |part|, c)
  {
    assert forall x :: 0 <= x < |part| ==> part[x] == s[i + x];
    assert forall x :: i <= x < j ==> s[x] == part[x - i];
  }

  /** Where the dash is. */
  lemma EvrDash(epoch: Option<string>, version: string, release: string)
    requires Without(release, '-')
    ensures LastIndex(EvrString(epoch, version, release), '-') == |EpochString(epoch)| + |version|
  {
    var s, r := EvrString(epoch, version, release), |EpochString(epoch)| + |version|;
    EvrPieces(epoch, version, release);
    ToEnd(s, r + 1);
    FreeSlice(s, r + 1, |s|, '-');
    LastIndexIs(s, '-', r);
  }

  /** Which colons there are behind the epoch. */
  lemma EvrColons(epoch: Option<string>, version: string, release: string, k: nat)
    requires k <= |version|
    ensures var s, base := EvrString(epoch, version, release), |EpochString(epoch)|;
            && base + k < |s|
            && (Free(s, base + k, |s|, ':') <==> Free(version, k, |version|, ':') && Without(release, ':'))
  {
    var s, base := EvrString(epoch, version, release), |EpochString(epoch)|;
    var r := base + |version|;
    EvrPieces(epoch, version, release);
    FreePart(s, base, r, version, k, ':');
    ToEnd(s, r + 1);
    FreeSlice(s, r + 1, |s|, ':');
    FreeJoin(s, base + k, r, |s|, ':');
  }

  lemma EvrOkSplits(epoch: Option<string>, version: string, release: string)
    requires Without(release, '-') && EvrOk(epoch, version, release)
    ensures SplitEvr(EvrString(epoch, version, release)) == Evr(epoch, Some(version), Some(release))
  {
    var s, base := EvrString(epoch, version, release), |EpochString(epoch)|;
    EvrPieces(epoch, version, release);
    EvrDash(epoch, version, release);
    EvrColons(epoch, version, release, if epoch == None then 1 else 0);
    if epoch == None { LastIndexNone(s, ':'); } else { LastIndexIs(s, ':', base - 1); }
    EvrAtIs(s, if epoch == None then 0 else base - 1, base + |version|, epoch, version, release);
  }

  lemma EvrAtIs(s: string, e: nat, r: nat, epoch: Option<string>, version: string, release: string)
    requires e < r < |s| && epoch == EpochAt(s, e)
    requires version != "" && version == s[if e != 0 then e + 1 else 0..r]
    requires release != "" && release == s[r + 1..]
    ensures EvrAt(s, e, r) == Evr(epoch, Some(version), Some(release))
  {
  }

  lemma SplitsEvrOk(epoch: Option<string>, version: string, release: string)
    requires Without(release, '-')
    requires SplitEvr(EvrString(epoch, version, release)) == Evr(epoch, Some(version), Some(release))
    ensures EvrOk(epoch, version, release)
  {
    var s, base := EvrString(epoch, version, release), |EpochString(epoch)|;
    EvrPieces(epoch, version, release);
    EvrDash(epoch, version, release);
    assert version != "" && release != "";
    EvrColons(epoch, version, release, if epoch == None then 1 else 0);
    LastIndexSound(s, ':');
    if epoch.Some? { assert LastIndex(s, ':') == |epoch.value|; }
  }

  /** An EVR string with one dash is taken apart into what it was made of exactly under these conditions. */
  lemma SplitEvrExact(epoch: Option<string>, version: string, release: string)
    requires Without(version, '-') && Without(release, '-') && (epoch.Some? ==> Without(epoch.value, '-'))
    ensures SplitEvr(EvrString(epoch, version, release)) == Evr(epoch, Some(version), Some(release))
       <==> EvrOk(epoch, version, release)
  {
    if EvrOk(epoch, version, release) {
      EvrOkSplits(epoch, version, release);
    } else if SplitEvr(EvrString(epoch, version, release)) == Evr(epoch, Some(version), Some(release)) {
      SplitsEvrOk(epoch, version, release);
    }
  }

  /** What SolvSplitEvr makes of any string, with its last colon at `e` and its last dash behind that at `r`, both
      behind the first character, or 0 where there is none. */
  lemma SplitEvrIs(s: string, e: nat, r: nat)
    requires e < |s| && (if e == 0 then Free(s, 1, |s|, ':') else s[e] == ':' && Free(s, e + 1, |s|, ':'))
    requires if r == 0 then Free(s, e + 1, |s|, '-') else e < r < |s| && s[r] == '-' && Free(s, r + 1, |s|, '-')
    ensures var start, end := if e == 0 then 0 else e + 1, if r == 0 then |s| else r;
            && SplitEvr(s).epoch == (if e == 0 then None else Some(s[..e]))
            && SplitEvr(s).version == (if s[start..end] == "" then None else Some(s[start..end]))
            && SplitEvr(s).release == (if r == 0 || s[r + 1..] == "" then None else Some(s[r + 1..]))
  {
    if e == 0 { LastIndexNone(s, ':'); } else { LastIndexIs(s, ':', e); }
    if r == 0 {
      NoDashBehind(s, e);
      assert s[if e == 0 then 0 else e + 1..|s|] == s[if e == 0 then 0 else e + 1..];
    } else {
      LastIndexIs(s, '-', r);
    }
  }

  lemma NoDashBehind(s: string, e: nat)
    requires e < |s| && Free(s, e + 1, |s|, '-')
    ensures LastIndex(s, '-') <= e
  {
    LastIndexSound(s, '-');
  }

  /** Such places there are in every string. */
  lemma EvrPlaces(s: string) returns (e: nat, r: nat)
    requires s != ""
    ensures e < |s| && (if e == 0 then Free(s, 1, |s|, ':') else s[e] == ':' && Free(s, e + 1, |s|, ':'))
    ensures if r == 0 then Free(s, e + 1, |s|, '-') else e < r < |s| && s[r] == '-' && Free(s, r + 1, |s|, '-')
  {
    e, r := LastIndex(s, ':'), LastIndex(s, '-');
    LastIndexSound(s, ':');
    LastIndexSound(s, '-');
    if r <= e { r := 0; }
  }

  /** An EVR string as split_nevra wants it: one dash. */
  ghost predicate OneDash(evr: string) {
    exists k {:trigger evr[..k]} ::
      0 <= k < |evr| && evr[k] == '-' && Without(evr[..k], '-') && Without(evr[k + 1..], '-')
  }

  lemma OneDashOf(version: string, release: string)
    requires Without(version, '-') && Without(release, '-')
    ensures OneDash(version + "-" + release)
  {
    var evr := version + "-" + release;
    assert evr[..|version|] == version && evr[|version| + 1..] == release && evr[|version|] == '-';
  }

  lemma PartsUsual(s: string, p: Parts)
    requires s != "" && SplitNevra(s) == Split(p)
    ensures s == Join(p.name, p.evr, p.arch) && p.name != "" && OneDash(p.evr) && Without(p.arch, '.')
  {
    var version, release := SplitSound(s);
    OneDashOf(version, release);
  }

  lemma UsualParts(s: string, name: string, evr: string, arch: string)
    requires s == Join(name, evr, arch) && name != "" && OneDash(evr) && Without(arch, '.')
    ensures SplitNevra(s) == Split(Parts(name, evr, arch))
  {
    var k :| 0 <= k < |evr| && evr[k] == '-' && Without(evr[..k], '-') && Without(evr[k + 1..], '-');
    assert evr == evr[..k] + "-" + evr[k + 1..];
    SplitFinds(s, name, evr[..k], evr[k + 1..], arch);
  }

  /** A NEVRA string is taken apart into a name, an EVR and an architecture exactly if it is made of these and they
      are of the usual form. */
  lemma SplitExact(s: string, name: string, evr: string, arch: string)
    requires s != ""
    ensures SplitNevra(s) == Split(Parts(name, evr, arch))
       <==> s == Join(name, evr, arch) && name != "" && OneDash(evr) && Without(arch, '.')
  {
    if SplitNevra(s) == Split(Parts(name, evr, arch)) {
      PartsUsual(s, Parts(name, evr, arch));
    } else if s == Join(name, evr, arch) && name != "" && OneDash(evr) && Without(arch, '.') {
      UsualParts(s, name, evr, arch);
    }
  }

  ghost predicate NoDashes(epoch: Option<string>, version: string, release: string) {
    Without(version, '-') && Without(release, '-') && (epoch.Some? ==> Without(epoch.value, '-'))
  }

  /** In front of its last dash an EVR string is the epoch and the version. */
  lemma FrontDashes(epoch: Option<string>, version: string)
    ensures Without(EpochString(epoch) + version, '-') <==>
              Without(version, '-') && (epoch.Some? ==> Without(epoch.value, '-'))
  {
    var front := EpochString(epoch) + version;
    assert forall i :: 0 <= i < |version| ==> front[|EpochString(epoch)| + i] == version[i];
    if epoch.Some? { assert forall i :: 0 <= i < |epoch.value| ==> front[i] == epoch.value[i]; }
  }

  lemma DashesOf(epoch: Option<string>, version: string, release: string)
    ensures OneDash(EvrString(epoch, version, release)) <==> NoDashes(epoch, version, release)
  {
    var front := EpochString(epoch) + version;
    FrontDashes(epoch, version);
    if NoDashes(epoch, version, release) { OneDashOf(front, release); }
    if OneDash(front + "-" + release) { OnlyDash(front, release); }
  }

  lemma OnlyDash(front: string, release: string)
    requires OneDash(front + "-" + release)
    ensures Without(front, '-') && Without(release, '-')
  {
    var s := front + "-" + release;
    var k :| 0 <= k < |s| && s[k] == '-' && Without(s[..k], '-') && Without(s[k + 1..], '-');
    Concat3(front, "-", release);
    FreeSlice(s, 0, k, '-');
    FreeSlice(s, k + 1, |s|, '-');
    ToEnd(s, k + 1);
    assert s[0..k] == s[..k];
    assert s[|front|] == '-';
    assert k == |front|;
  }

  /** split_nevra and then SolvSplitEvr give back the name, epoch, version, release and architecture that a NEVRA
      string was made of, exactly if these are of the usual form. */
  lemma NevraRoundTrip(name: string, epoch: Option<string>, version: string, release: string, arch: string)
    ensures SplitNevra(Join(name, EvrString(epoch, version, release), arch))
            == Split(Parts(name, EvrString(epoch, version, release), arch))
            && SplitEvr(EvrString(epoch, version, release)) == Evr(epoch, Some(version), Some(release))
       <==> name != "" && Without(arch, '.') && NoDashes(epoch, version, release) && EvrOk(epoch, version, release)
  {
    var evr := EvrString(epoch, version, release);
    SplitExact(Join(name, evr, arch), name, evr, arch);
    DashesOf(epoch, version, release);
    if OneDash(evr) { SplitEvrExact(epoch, version, release); }
  }

  // ----- finding solvables

  datatype Solvable = Solvable(name: string, evr: string, arch: string, installed: bool)

  /** The string that the history stores for a solvable. */
  function NevraOf(x: Solvable): string {
    Join(x.name, x.evr, x.arch)
  }

  predicate IsMatch(x: Solvable, p: Parts, installed: bool) {
    x.installed == installed && Parts(x.name, x.evr, x.arch) == p
  }

  function Matching(pool: seq<Solvable>, p: Parts, installed: bool, from: nat): seq<nat>
    decreases |pool| - from
  {
    if from >= |pool| then []
    else (if IsMatch(pool[from], p, installed) then [from] else []) + Matching(pool, p, installed, from + 1)
  }

  /** The loop of SolvFindSolvablesByNevraId. */
  method FindByParts(pool: seq<Solvable>, p: Parts, installed: bool) returns (found: seq<nat>)
    ensures found == Matching(pool, p, installed, 0)
  {
    found := [];
    var i := 0;
    while i < |pool|
      invariant i <= |pool| && found + Matching(pool, p, installed, i) == Matching(pool, p, installed, 0)
    {
      if pool[i].installed == installed {
        if pool[i].name == p.name && pool[i].evr == p.evr && pool[i].arch == p.arch { found := found + [i]; }
      }
      i := i + 1;
    }
  }

  /** What a search by a NEVRA string finds. */
  function Found(pool: seq<Solvable>, nevra: string, installed: bool): Option<seq<nat>>
    requires nevra != ""
  {
    match SplitNevra(nevra)
    case Failed(_) => None
    case Split(p) => Some(Matching(pool, p, installed, 0))
  }

  /** SolvFindSolvablesByNevraStr. None is the error for a string that cannot be taken apart. */
  method FindByNevra(pool: seq<Solvable>, nevra: string, installed: bool) returns (found: Option<seq<nat>>)
    requires nevra != "" && Without(nevra, '\0')
    ensures found == Found(pool, nevra, installed)
  {
    var n := |nevra|;
    var buf := new char[n + 1](i requires 0 <= i <= n => if i < n then nevra[i] else '\0');
    assert buf[..n] == nevra;
    var code, evr, arch := SplitInPlace(buf, n);
    if code != 0 { return None; }
    var p := Parts(StringAt(buf[..], 0), StringAt(buf[..], evr), StringAt(buf[..], arch));
    var result := FindByParts(pool, p, installed);
    return Some(result);
  }

  lemma {:induction false} MatchingIs(pool: seq<Solvable>, p: Parts, installed: bool, from: nat, i: nat)
    ensures i in Matching(pool, p, installed, from) <==> from <= i < |pool| && IsMatch(pool[i], p, installed)
    decreases |pool| - from
  {
    if from < |pool| { MatchingIs(pool, p, installed, from + 1, i); }
  }

  /** A search by a NEVRA string finds the installed, or not installed, solvables that have this NEVRA, provided that
      their own parts are of the usual form. */
  lemma FoundExactly(pool: seq<Solvable>, nevra: string, installed: bool, i: nat)
    requires nevra != "" && i < |pool|
    ensures Found(pool, nevra, installed).Some? && i in Found(pool, nevra, installed).value
       <==> pool[i].installed == installed && NevraOf(pool[i]) == nevra
            && pool[i].name != "" && OneDash(pool[i].evr) && Without(pool[i].arch, '.')
  {
    var x := pool[i];
    SplitExact(nevra, x.name, x.evr, x.arch);
    if SplitNevra(nevra).Split? { MatchingIs(pool, SplitNevra(nevra).parts, installed, 0, i); }
  }
}
