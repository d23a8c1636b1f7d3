/** The path language of llconf/entry.c without escapes, values and indices: what a path finds in a tree, what
    setting a path makes of the tree, and how the two go together. */
module CnfPaths {
  import opened Wrappers
  import opened CnfTree

  // ----- paths

  function TakeName(p: string): string {
    if p != "" && p[0] != '/' then [p[0]] + TakeName(p[1..]) else ""
  }

  function DropName(p: string): string {
    if p != "" && p[0] != '/' then DropName(p[1..]) else p
  }

  /** The names of a path; a slash at the end does not count. */
  function Components(path: string): (names: seq<string>)
    ensures names != []
    decreases |path|
  {
    DropNameShorter(path);
    var rest := DropName(path);
    if |rest| >= 2 then [TakeName(path)] + Components(rest[1..]) else [TakeName(path)]
  }

  lemma DropNameShorter(p: string)
    ensures |DropName(p)| <= |p| && (DropName(p) != "" ==> DropName(p)[0] == '/')
  {
  }

  // ----- a path is its names with slashes in between

  function WithSlashes(names: seq<string>): string
    requires names != []
  {
    if |names| == 1 then names[0] else names[0] + ("/" + WithSlashes(names[1..]))
  }

  predicate NoSlash(name: string) {
    forall i :: 0 <= i < |name| ==> name[i] != '/'
  }

  lemma {:induction false} NameOver(name: string, rest: string)
    requires NoSlash(name) && (rest == "" || rest[0] == '/')
    ensures TakeName(name + rest) == name && DropName(name + rest) == rest
  {
    if name == "" {
      assert name + rest == rest;
    } else {
      assert (name + rest)[1..] == name[1..] + rest;
      NameOver(name[1..], rest);
    }
  }

  /** Names joined by slashes, with or without one more slash at the end, are the names of the path. A last name that is
      empty needs that slash. */
  lemma {:induction false} ComponentsJoined(names: seq<string>, end: string)
    requires names != [] && (forall n :: n in names ==> NoSlash(n)) && (end == "" || end == "/")
    requires |names| > 1 && names[|names| - 1] == "" ==> end == "/"
    ensures Components(WithSlashes(names) + end) == names
  {
    if |names| == 1 {
      NameOver(names[0], end);
    } else {
      var rest := WithSlashes(names[1..]) + end;
      assert WithSlashes(names) + end == names[0] + ("/" + rest);
      NameOver(names[0], "/" + rest);
      assert names[1..][|names[1..]| - 1] == names[|names| - 1];
      ComponentsJoined(names[1..], end);
      assert ("/" + rest)[1..] == rest;
      assert rest != "" by { JoinedNotEmpty(names[1..], end); }
    }
  }

  lemma JoinedNotEmpty(names: seq<string>, end: string)
    requires names != [] && (names[|names| - 1] == "" ==> end != "")
    ensures WithSlashes(names) + end != ""
  {
  }

  /** No escapes, values or indices. */
  predicate PlainText(path: string) {
    forall i :: 0 <= i < |path| ==> path[i] != '\\' && path[i] != '[' && path[i] != '='
  }

  // ----- places in a tree

  /** The way from the root to a node: which child to take at every level. */
  type Place = seq<nat>

  predicate InTree(t: Node, p: Place)
    decreases p
  {
    p == [] || (p[0] < |t.children| && InTree(t.children[p[0]], p[1..]))
  }

  function TreeAt(t: Node, p: Place): Node
    requires InTree(t, p)
    decreases p
  {
    if p == [] then t else TreeAt(t.children[p[0]], p[1..])
  }

  function ReplaceAt(t: Node, p: Place, u: Node): Node
    requires InTree(t, p)
    decreases p
  {
    if p == [] then u else t.(children := t.children[p[0] := ReplaceAt(t.children[p[0]], p[1..], u)])
  }

  /** The names on the way to a node. */
  function NamesTo(t: Node, p: Place): seq<string>
    requires InTree(t, p)
    decreases p
  {
    if p == [] then [] else [t.children[p[0]].name] + NamesTo(t.children[p[0]], p[1..])
  }

  lemma NamesToLength(t: Node, p: Place)
    requires InTree(t, p)
    ensures |NamesTo(t, p)| == |p|
  {
  }

  // ----- finding

  /** All places where a path leads, in the order of _cnf_find_entry. With `first`, every list of children that the
      last name is looked up in gives one result only. */
  function Matches(t: Node, names: seq<string>, first: bool): seq<Place>
    requires names != []
    decreases names, 1, 0
  {
    MatchesFrom(t, 0, names, first)
  }

  function MatchesFrom(t: Node, i: nat, names: seq<string>, first: bool): seq<Place>
    requires names != [] && i <= |t.children|
    decreases names, 0, |t.children| - i
  {
    if i == |t.children| then []
    else if t.children[i].name != names[0] then MatchesFrom(t, i + 1, names, first)
    else if |names| == 1 then
      [[i]] + if first then [] else MatchesFrom(t, i + 1, names, first)
    else Under(i, Matches(t.children[i], names[1..], first)) + MatchesFrom(t, i + 1, names, first)
  }

  /** Places below child `i`. */
  function Under(i: nat, places: seq<Place>): (r: seq<Place>)
    ensures |r| == |places|
    ensures forall k :: 0 <= k < |r| ==> r[k] == [i] + places[k]
  {
    seq(|places|, k requires 0 <= k < |places| => [i] + places[k])
  }

  /** A place that the names lead to. */
  ghost predicate Spelled(t: Node, p: Place, names: seq<string>) {
    InTree(t, p) && NamesTo(t, p) == names
  }

  lemma SpelledCons(t: Node, p: Place, names: seq<string>)
    requires p != []
    ensures Spelled(t, p, names) <==>
              p[0] < |t.children| && names != [] && names[0] == t.children[p[0]].name
              && Spelled(t.children[p[0]], p[1..], names[1..])
  {
    if InTree(t, p) {
      assert NamesTo(t, p) == [t.children[p[0]].name] + NamesTo(t.children[p[0]], p[1..]);
      if names != [] { assert names == [names[0]] + names[1..]; }
    }
  }

  lemma SpelledNil(t: Node, p: Place, names: seq<string>)
    requires p == [] || names == []
    ensures Spelled(t, p, names) <==> p == [] && names == []
  {
  }

  /** Without `first` the results are exactly the places whose names spell the path. */
  lemma {:induction false} MatchesExact(t: Node, i: nat, names: seq<string>, p: Place)
    requires names != [] && i <= |t.children|
    ensures p in MatchesFrom(t, i, names, false) <==> p != [] && p[0] >= i && Spelled(t, p, names)
    decreases names, |t.children| - i
  {
    if p != [] { SpelledCons(t, p, names); }
    if i < |t.children| {
      MatchesExact(t, i + 1, names, p);
      if t.children[i].name == names[0] {
        if |names| > 1 {
          MatchesHere(t, i, names, p);
        } else if p != [] && p[0] == i {
          SpelledNil(t.children[i], p[1..], names[1..]);
          assert p[1..] == [] ==> p == [i];
        }
      }
    }
  }

  lemma {:induction false} MatchesHere(t: Node, i: nat, names: seq<string>, p: Place)
    requires |names| > 1 && i < |t.children| && t.children[i].name == names[0]
    ensures p in Under(i, Matches(t.children[i], names[1..], false)) <==> p != [] && p[0] == i && Spelled(t, p, names)
    decreases names, |t.children| - i, 0
  {
    var below := Matches(t.children[i], names[1..], false);
    if p != [] && p[0] == i {
      assert p == [i] + p[1..];
      MatchesExact(t.children[i], 0, names[1..], p[1..]);
      SpelledCons(t, p, names);
      if p[1..] == [] { SpelledNil(t.children[i], p[1..], names[1..]); }
      if p[1..] in below {
        var k :| 0 <= k < |below| && below[k] == p[1..];
        assert Under(i, below)[k] == p;
      }
      if p in Under(i, below) {
        var k :| 0 <= k < |below| && Under(i, below)[k] == p;
        assert below[k] == p[1..];
      }
    }
  }

  /** The first place in preorder. */
  function First(t: Node, names: seq<string>): Option<Place>
    requires names != []
    decreases names, 1, 0
  {
    FirstFrom(t, 0, names)
  }

  function FirstFrom(t: Node, i: nat, names: seq<string>): Option<Place>
    requires names != [] && i <= |t.children|
    decreases names, 0, |t.children| - i
  {
    if i == |t.children| then None
    else if t.children[i].name != names[0] then FirstFrom(t, i + 1, names)
    else if |names| == 1 then Some([i])
    else
      match First(t.children[i], names[1..])
      case Some(p) => Some([i] + p)
      case None => FirstFrom(t, i + 1, names)
  }

  /** The results, with `first` or without, begin with the first place. */
  lemma {:induction false} FirstMatch(t: Node, i: nat, names: seq<string>, first: bool)
    requires names != [] && i <= |t.children|
    ensures var m := MatchesFrom(t, i, names, first);
            FirstFrom(t, i, names) == if m == [] then None else Some(m[0])
    decreases names, |t.children| - i
  {
    if i < |t.children| {
      FirstMatch(t, i + 1, names, first);
      if t.children[i].name == names[0] && |names| > 1 { FirstMatch(t.children[i], 0, names[1..], first); }
    }
  }

  lemma {:induction false} FirstIsThere(t: Node, i: nat, names: seq<string>)
    requires names != [] && i <= |t.children|
    ensures FirstFrom(t, i, names).Some? ==>
              Spelled(t, FirstFrom(t, i, names).value, names) && FirstFrom(t, i, names).value != []
    decreases names, |t.children| - i
  {
    if i < |t.children| {
      FirstIsThere(t, i + 1, names);
      if t.children[i].name == names[0] {
        if |names| > 1 {
          FirstIsThere(t.children[i], 0, names[1..]);
          var below := First(t.children[i], names[1..]);
          if below.Some? {
            assert ([i] + below.value)[1..] == below.value;
            SpelledCons(t, [i] + below.value, names);
          }
        } else {
          assert names == [names[0]];
        }
      }
    }
  }

  /** Preorder: a node comes before what is below it and before its later siblings. */
  predicate Before(p: Place, q: Place) {
    q != [] && (p == [] || p[0] < q[0] || (p[0] == q[0] && Before(p[1..], q[1..])))
  }

  ghost predicate InOrder(places: seq<Place>) {
    forall a, b :: 0 <= a < b < |places| ==> Before(places[a], places[b])
  }

  ghost predicate StartAt(places: seq<Place>, i: nat) {
    forall a :: 0 <= a < |places| ==> places[a] != [] && places[a][0] >= i
  }

  /** The results come in preorder, so none comes twice. */
  lemma {:induction false} MatchesInOrder(t: Node, i: nat, names: seq<string>, first: bool)
    requires names != [] && i <= |t.children|
    ensures InOrder(MatchesFrom(t, i, names, first)) && StartAt(MatchesFrom(t, i, names, first), i)
    decreases names, |t.children| - i
  {
    if i < |t.children| {
      MatchesInOrder(t, i + 1, names, first);
      if t.children[i].name == names[0] && |names| > 1 {
        MatchesInOrder(t.children[i], 0, names[1..], first);
        var below := Matches(t.children[i], names[1..], first);
        assert forall a :: 0 <= a < |below| ==> Under(i, below)[a][1..] == below[a];
      }
    }
  }

  /** The first place is the one with these names that comes before all others with them in preorder. */
  lemma FirstIsEarliest(t: Node, names: seq<string>, p: Place)
    requires names != []
    ensures First(t, names) == Some(p) <==>
              Spelled(t, p, names) && forall q :: Spelled(t, q, names) ==> q == p || Before(p, q)
    ensures First(t, names) == None <==> forall q :: !Spelled(t, q, names)
  {
    var m := Matches(t, names, false);
    FirstMatch(t, 0, names, false);
    MatchesInOrder(t, 0, names, false);
    forall q ensures q in m <==> Spelled(t, q, names) { MatchIsSpelled(t, names, q); }
    if m == [] {
      assert First(t, names) == None;
    } else {
      assert m[0] in m;
      forall q | Spelled(t, q, names) ensures q == m[0] || Before(m[0], q) {
        var k :| 0 <= k < |m| && m[k] == q;
      }
      if Spelled(t, p, names) && p != m[0] { NotBoth(p, m[0]); }
    }
  }

  lemma MatchIsSpelled(t: Node, names: seq<string>, q: Place)
    requires names != []
    ensures q in Matches(t, names, false) <==> Spelled(t, q, names)
  {
    MatchesExact(t, 0, names, q);
    if q == [] { SpelledNil(t, q, names); }
  }

  lemma {:induction false} NotBoth(p: Place, q: Place)
    ensures !(Before(p, q) && Before(q, p))
    decreases |p|
  {
    if p != [] && q != [] { NotBoth(p[1..], q[1..]); }
  }

  /** No earlier sibling, from the `i`th child of the root on, has the name of the node at this place. */
  ghost predicate NoEarlierSibling(t: Node, i: nat, p: Place)
    requires InTree(t, p) && p != []
    decreases p
  {
    if |p| == 1 then forall j :: i <= j < p[0] ==> t.children[j].name != t.children[p[0]].name
    else NoEarlierSibling(t.children[p[0]], 0, p[1..])
  }

  /** With `first` the results are the places with these names that have no earlier sibling of the same name. */
  lemma {:induction false} MatchesFirst(t: Node, i: nat, names: seq<string>, p: Place)
    requires names != [] && i <= |t.children|
    ensures p in MatchesFrom(t, i, names, true) <==>
              p != [] && p[0] >= i && Spelled(t, p, names) && NoEarlierSibling(t, i, p)
    decreases names, |t.children| - i
  {
    if p != [] { SpelledCons(t, p, names); }
    if i < |t.children| {
      MatchesFirst(t, i + 1, names, p);
      if t.children[i].name == names[0] {
        if |names| > 1 { FirstBelow(t, i, names, p); } else { FirstHere(t, i, names, p); }
      } else if p != [] && InTree(t, p) && |p| == 1 {
        SpelledNil(t.children[p[0]], p[1..], names[1..]);
      }
    }
  }

  lemma FirstHere(t: Node, i: nat, names: seq<string>, p: Place)
    requires i < |t.children| && |names| == 1 && t.children[i].name == names[0]
    ensures p in MatchesFrom(t, i, names, true) <==>
              p != [] && p[0] >= i && Spelled(t, p, names) && NoEarlierSibling(t, i, p)
  {
    assert MatchesFrom(t, i, names, true) == [[i]];
    assert p in MatchesFrom(t, i, names, true) <==> p == [i];
    if p != [] {
      SpelledCons(t, p, names);
      if p[0] < |t.children| { SpelledNil(t.children[p[0]], p[1..], names[1..]); }
      assert p == [p[0]] + p[1..];
      assert Spelled(t, p, names) <==> |p| == 1 && p[0] < |t.children| && t.children[p[0]].name == names[0];
    }
  }

  lemma {:induction false} FirstBelow(t: Node, i: nat, names: seq<string>, p: Place)
    requires i < |t.children| && |names| > 1 && t.children[i].name == names[0]
    requires p in MatchesFrom(t, i + 1, names, true) <==>
               p != [] && p[0] >= i + 1 && Spelled(t, p, names) && NoEarlierSibling(t, i + 1, p)
    ensures p in MatchesFrom(t, i, names, true) <==>
              p != [] && p[0] >= i && Spelled(t, p, names) && NoEarlierSibling(t, i, p)
    decreases names, 0
  {
    var below := Matches(t.children[i], names[1..], true);
    InUnder(i, below, p);
    if p != [] {
      SpelledCons(t, p, names);
      if InTree(t, p) && |p| == 1 { SpelledNil(t.children[p[0]], p[1..], names[1..]); }
      if p[0] == i {
        MatchesFirst(t.children[i], 0, names[1..], p[1..]);
        if p[1..] == [] { SpelledNil(t.children[i], p[1..], names[1..]); }
      }
    }
  }

  lemma InUnder(i: nat, places: seq<Place>, p: Place)
    ensures p in Under(i, places) <==> p != [] && p[0] == i && p[1..] in places
  {
    if p != [] && p[0] == i && p[1..] in places {
      var k :| 0 <= k < |places| && places[k] == p[1..];
      assert Under(i, places)[k] == p;
    }
    if p in Under(i, places) {
      var k :| 0 <= k < |places| && Under(i, places)[k] == p;
      assert p[1..] == places[k];
    }
  }

  // ----- reading

  /** What is read below a list of children: None if the path leads nowhere, otherwise the value it leads to. */
  function Reads(kids: seq<Node>, i: nat, names: seq<string>): Option<Option<string>>
    requires names != [] && i <= |kids|
    decreases names, |kids| - i
  {
    if i == |kids| then None
    else if kids[i].name != names[0] then Reads(kids, i + 1, names)
    else if |names| == 1 then Some(kids[i].value)
    else
      match Reads(kids[i].children, 0, names[1..])
      case Some(x) => Some(x)
      case None => Reads(kids, i + 1, names)
  }

  /** The value at the first place. */
  lemma {:induction false} ReadsFirst(t: Node, i: nat, names: seq<string>)
    requires names != [] && i <= |t.children|
    ensures match FirstFrom(t, i, names)
            case None => Reads(t.children, i, names) == None
            case Some(p) => InTree(t, p) && Reads(t.children, i, names) == Some(TreeAt(t, p).value)
    decreases names, |t.children| - i
  {
    FirstIsThere(t, i, names);
    if i < |t.children| {
      ReadsFirst(t, i + 1, names);
      if t.children[i].name == names[0] && |names| > 1 {
        ReadsFirst(t.children[i], 0, names[1..]);
        var below := First(t.children[i], names[1..]);
        if below.Some? { assert ([i] + below.value)[1..] == below.value; }
      }
    }
  }

  /** cnf_get_entry: null for no node and for no value. */
  function Get(t: Node, names: seq<string>): Option<string>
    requires names != []
  {
    match Reads(t.children, 0, names)
    case Some(Some(v)) => Some(v)
    case _ => None
  }

  // ----- setting a value

  function WithValue(t: Node, v: string): Node {
    t.(value := Some(v))
  }

  function SetAt(t: Node, p: Place, v: string): Node
    requires InTree(t, p)
  {
    ReplaceAt(t, p, WithValue(TreeAt(t, p), v))
  }

  lemma SetAtRoot(t: Node, p: Place, v: string)
    requires InTree(t, p)
    ensures SetAt(t, p, v).name == t.name && SetAt(t, p, v).value == if p == [] then Some(v) else t.value
  {
  }

  lemma SetAtKids(t: Node, p: Place, v: string, i: nat)
    requires p != [] && InTree(t, p) && i < |t.children|
    ensures var t' := SetAt(t, p, v);
            && |t'.children| == |t.children| && t'.children[i].name == t.children[i].name
            && t'.children[i] == if i == p[0] then SetAt(t.children[i], p[1..], v) else t.children[i]
    ensures i == p[0] ==>
              SetAt(t.children[i], p[1..], v).value == if p[1..] == [] then Some(v) else t.children[i].value
  {
    if i == p[0] { SetAtRoot(t.children[i], p[1..], v); }
  }

  /** Setting the value at one place changes what is read there, and nothing else. */
  lemma {:induction false} SetAtReads(t: Node, p: Place, v: string, i: nat, names: seq<string>)
    requires p != [] && InTree(t, p) && names != [] && i <= |t.children|
    ensures |SetAt(t, p, v).children| == |t.children|
    ensures Reads(SetAt(t, p, v).children, i, names)
         == if FirstFrom(t, i, names) == Some(p) then Some(Some(v)) else Reads(t.children, i, names)
    decreases names, |t.children| - i
  {
    ReadsFirst(t, i, names);
    if i < |t.children| {
      FirstIsThere(t, i + 1, names);
      SetAtReads(t, p, v, i + 1, names);
      SetAtKids(t, p, v, i);
      if t.children[i].name == names[0] {
        if |names| > 1 {
          SetAtReadsHere(t, p, v, i, names);
          ReadsFirst(t.children[i], 0, names[1..]);
          var below := First(t.children[i], names[1..]);
          if below.Some? { assert ([i] + below.value)[0] == i && ([i] + below.value)[1..] == below.value; }
        }
        assert [i][0] == i && [i][1..] == [];
        if i == p[0] {
          assert p == [i] + p[1..] && (p[1..] == [] ==> p == [i]);
          NotEarlier(t, p, i, names);
        }
      }
    }
  }

  /** Looking from child `i + 1` on finds nothing below child `i`. */
  lemma {:induction false} FirstNotBefore(t: Node, i: nat, names: seq<string>)
    requires names != [] && i <= |t.children|
    ensures FirstFrom(t, i, names).Some? ==> FirstFrom(t, i, names).value != [] && FirstFrom(t, i, names).value[0] >= i
    decreases |t.children| - i
  {
    if i < |t.children| { FirstNotBefore(t, i + 1, names); }
  }

  lemma NotEarlier(t: Node, p: Place, i: nat, names: seq<string>)
    requires names != [] && i < |t.children| && p != [] && p[0] == i
    ensures FirstFrom(t, i + 1, names) != Some(p)
  {
    FirstNotBefore(t, i + 1, names);
  }

  lemma {:induction false} SetAtReadsHere(t: Node, p: Place, v: string, i: nat, names: seq<string>)
    requires p != [] && InTree(t, p) && |names| > 1 && i < |t.children|
    ensures |SetAt(t, p, v).children| == |t.children|
    ensures Reads(SetAt(t, p, v).children[i].children, 0, names[1..])
         == if i == p[0] && First(t.children[i], names[1..]) == Some(p[1..]) then Some(Some(v))
            else Reads(t.children[i].children, 0, names[1..])
    decreases names, |t.children| - i, 0
  {
    SetAtKids(t, p, v, i);
    FirstIsThere(t.children[i], 0, names[1..]);
    if i == p[0] && p[1..] != [] { SetAtReads(t.children[i], p[1..], v, 0, names[1..]); }
  }
}
