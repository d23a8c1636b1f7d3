/** cnf_add_branch and cnf_set_entry on trees: what a set path reads afterwards, and when all other paths read as
    before. */
module CnfSetting {
  import opened Wrappers
  import opened CnfTree
  import opened CnfPaths

  /** The first child of that name, or the number of children. */
  function IndexOf(kids: seq<Node>, i: nat, name: string): (k: nat)
    requires i <= |kids|
    ensures i <= k <= |kids| && (k < |kids| ==> kids[k].name == name)
    ensures forall j :: i <= j < k ==> kids[j].name != name
    decreases |kids| - i
  {
    if i == |kids| || kids[i].name == name then i else IndexOf(kids, i + 1, name)
  }

  /** cnf_add_branch with do_merge, and the value set on the node it returns: as far as they go the first children
      of the right names are taken, without looking further back, and the rest of the path is made. */
  function Merge(t: Node, names: seq<string>, v: string): Node
    decreases |names|
  {
    if names == [] then WithValue(t, v)
    else
      var k := IndexOf(t.children, 0, names[0]);
      if k < |t.children| then
        t.(children := t.children[k := Merge(t.children[k], names[1..], v)])
      else
        t.(children := t.children + [Merge(Node(names[0], None, []), names[1..], v)])
  }

  /** cnf_add_branch with do_merge: the tree it leaves. */
  function Branch(t: Node, names: seq<string>): Node
    decreases |names|
  {
    if names == [] then t
    else
      var k := IndexOf(t.children, 0, names[0]);
      if k < |t.children| then
        t.(children := t.children[k := Branch(t.children[k], names[1..])])
      else
        t.(children := t.children + [Branch(Node(names[0], None, []), names[1..])])
  }

  /** The place of the node that it returns. */
  function BranchPlace(t: Node, names: seq<string>): Place
    decreases |names|
  {
    if names == [] then []
    else
      var k := IndexOf(t.children, 0, names[0]);
      [k] + BranchPlace(if k < |t.children| then t.children[k] else Node(names[0], None, []), names[1..])
  }

  lemma {:induction false} BranchThere(t: Node, names: seq<string>)
    ensures InTree(Branch(t, names), BranchPlace(t, names))
    ensures NamesTo(Branch(t, names), BranchPlace(t, names)) == names
    decreases |names|
  {
    if names != [] {
      var k := IndexOf(t.children, 0, names[0]);
      var u := if k < |t.children| then t.children[k] else Node(names[0], None, []);
      BranchThere(u, names[1..]);
      BranchRoot(u, names[1..]);
      assert BranchPlace(t, names)[1..] == BranchPlace(u, names[1..]);
      assert Branch(t, names).children[k] == Branch(u, names[1..]);
      assert names == [names[0]] + names[1..];
    }
  }

  lemma BranchRoot(t: Node, names: seq<string>)
    ensures Branch(t, names).name == t.name && Branch(t, names).value == t.value
  {
  }

  /** Merge is the branch with the value set on its last node. */
  lemma {:induction false} MergeIsBranchThenSet(t: Node, names: seq<string>, v: string)
    ensures InTree(Branch(t, names), BranchPlace(t, names))
    ensures SetAt(Branch(t, names), BranchPlace(t, names), v) == Merge(t, names, v)
    decreases |names|
  {
    BranchThere(t, names);
    if names != [] {
      var k := IndexOf(t.children, 0, names[0]);
      var u := if k < |t.children| then t.children[k] else Node(names[0], None, []);
      MergeIsBranchThenSet(u, names[1..], v);
      assert BranchPlace(t, names)[1..] == BranchPlace(u, names[1..]);
      var b := Branch(t, names);
      assert b.children[k] == Branch(u, names[1..]);
      assert SetAt(b, BranchPlace(t, names), v) == b.(children := b.children[k := Merge(u, names[1..], v)]);
    }
  }

  /** How many names are there already on the way that Merge takes. */
  function MergeDepth(t: Node, names: seq<string>): (d: nat)
    ensures d <= |names|
    decreases |names|
  {
    if names == [] then 0
    else
      var k := IndexOf(t.children, 0, names[0]);
      if k < |t.children| then 1 + MergeDepth(t.children[k], names[1..]) else 0
  }

  /** cnf_set_entry. None is the error of an entry that is not there and shall not be made. */
  function Set(t: Node, names: seq<string>, v: string, create: bool): Option<Node>
    requires names != []
  {
    FirstIsThere(t, 0, names);
    match First(t, names)
    case Some(p) => Some(SetAt(t, p, v))
    case None => if create then Some(Merge(t, names, v)) else None
  }

  /** Setting an entry that is there changes the value of the first one and nothing else; it fails exactly if there is
      none and none shall be made. */
  lemma SetsFirst(t: Node, names: seq<string>, v: string, create: bool, p: Place)
    requires names != []
    ensures Spelled(t, p, names) && (forall q :: Spelled(t, q, names) ==> q == p || Before(p, q)) ==>
              Set(t, names, v, create) == Some(ReplaceAt(t, p, TreeAt(t, p).(value := Some(v))))
    ensures Set(t, names, v, create) == None <==> !create && forall q :: !Spelled(t, q, names)
  {
    FirstIsEarliest(t, names, p);
  }

  /** Making entries moves no node: all old ones stay in their places, with their names, and new ones come last among
      their siblings. */
  lemma {:induction false} MergeKeepsPlaces(t: Node, names: seq<string>, v: string, p: Place)
    requires InTree(t, p)
    ensures InTree(Merge(t, names, v), p) && NamesTo(Merge(t, names, v), p) == NamesTo(t, p)
    ensures TreeAt(Merge(t, names, v), p).value
         == if p == BranchPlace(t, names) then Some(v) else TreeAt(t, p).value
    decreases |names|
  {
    if names != [] {
      var k := IndexOf(t.children, 0, names[0]);
      MergeRoot(t, names, v);
      if p != [] && p[0] == k {
        var u := t.children[k];
        MergeKeepsPlaces(u, names[1..], v, p[1..]);
        MergeRoot(u, names[1..], v);
        assert Merge(t, names, v).children[k] == Merge(u, names[1..], v);
        assert BranchPlace(t, names) == [k] + BranchPlace(u, names[1..]);
        assert p == [k] + p[1..] && BranchPlace(t, names)[1..] == BranchPlace(u, names[1..]);
      }
    }
  }

  // ----- reading a list of children piece by piece

  lemma {:induction false} ReadsAppend(kids: seq<Node>, u: Node, i: nat, names: seq<string>)
    requires names != [] && i <= |kids|
    ensures Reads(kids + [u], i, names)
         == match Reads(kids, i, names)
            case Some(x) => Some(x)
            case None => Reads([u], 0, names)
    decreases |kids| - i
  {
    if i < |kids| { ReadsAppend(kids, u, i + 1, names); } else { ReadsSuffix(kids + [u], [u], i, 0, names); }
  }

  /** Only the children from `i` on matter. */
  lemma {:induction false} ReadsSuffix(a: seq<Node>, b: seq<Node>, i: nat, j: nat, names: seq<string>)
    requires names != [] && i <= |a| && j <= |b| && a[i..] == b[j..]
    ensures Reads(a, i, names) == Reads(b, j, names)
    decreases |a| - i
  {
    if i < |a| {
      assert a[i] == a[i..][0] && b[j] == b[j..][0];
      assert a[i + 1..] == a[i..][1..] && b[j + 1..] == b[j..][1..];
      ReadsSuffix(a, b, i + 1, j + 1, names);
    }
  }

  lemma {:induction false} ReadsSkip(kids: seq<Node>, i: nat, k: nat, names: seq<string>)
    requires names != [] && i <= k <= |kids| && forall j :: i <= j < k ==> kids[j].name != names[0]
    ensures Reads(kids, i, names) == Reads(kids, k, names)
    decreases k - i
  {
    if i < k { ReadsSkip(kids, i + 1, k, names); }
  }

  // ----- what a merged path reads

  /** The path leads to a node that Merge makes, but not to the last one. */
  predicate NewOnTheWay(t: Node, names: seq<string>, other: seq<string>) {
    MergeDepth(t, names) < |other| < |names| && other == names[..|other|]
  }

  lemma MergeRoot(t: Node, names: seq<string>, v: string)
    ensures Merge(t, names, v).name == t.name
    ensures Merge(t, names, v).value == if names == [] then Some(v) else t.value
  {
  }

  /** After a merge the path reads the value, the new nodes on the way read no value, all else is as before. */
  lemma {:induction false} MergeReads(t: Node, names: seq<string>, v: string, other: seq<string>)
    requires names != [] && other != [] && Reads(t.children, 0, names) == None
    ensures Reads(Merge(t, names, v).children, 0, other)
         == if other == names then Some(Some(v))
            else if NewOnTheWay(t, names, other) then Some(None)
            else Reads(t.children, 0, other)
    decreases |names|
  {
    var k := IndexOf(t.children, 0, names[0]);
    ReadsSkip(t.children, 0, k, names);
    if other[0] == names[0] { ReadsSkip(t.children, 0, k, other); }
    if k == |t.children| { MergeReadsNew(t, names, v, other); } else { MergeReadsOld(t, names, v, other); }
  }

  lemma {:induction false} MergeReadsNew(t: Node, names: seq<string>, v: string, other: seq<string>)
    requires names != [] && other != [] && IndexOf(t.children, 0, names[0]) == |t.children|
    requires other[0] == names[0] ==> Reads(t.children, 0, other) == None
    ensures Reads(Merge(t, names, v).children, 0, other)
         == if other == names then Some(Some(v))
            else if NewOnTheWay(t, names, other) then Some(None)
            else Reads(t.children, 0, other)
    decreases |names|, 0
  {
    var leaf := Node(names[0], None, []);
    var u := Merge(leaf, names[1..], v);
    MergeRoot(leaf, names[1..], v);
    ReadsAppend(t.children, u, 0, other);
    assert names == [names[0]] + names[1..] && other == [other[0]] + other[1..];
    if other[0] == names[0] && |other| > 1 && |names| > 1 {
      MergeReads(leaf, names[1..], v, other[1..]);
      assert |other| <= |names| ==> (other == names[..|other|] <==> other[1..] == names[1..][..|other| - 1]);
    }
  }

  lemma {:induction false} MergeReadsOld(t: Node, names: seq<string>, v: string, other: seq<string>)
    requires names != [] && other != [] && Reads(t.children, 0, names) == None
    requires IndexOf(t.children, 0, names[0]) < |t.children|
    requires other[0] == names[0] ==>
               Reads(t.children, 0, other) == Reads(t.children, IndexOf(t.children, 0, names[0]), other)
    requires Reads(t.children, 0, names) == Reads(t.children, IndexOf(t.children, 0, names[0]), names)
    ensures Reads(Merge(t, names, v).children, 0, other)
         == if other == names then Some(Some(v))
            else if NewOnTheWay(t, names, other) then Some(None)
            else Reads(t.children, 0, other)
    decreases |names|, 0
  {
    var k := IndexOf(t.children, 0, names[0]);
    var u := Merge(t.children[k], names[1..], v);
    var kids := t.children[k := u];
    MergeRoot(t.children[k], names[1..], v);
    assert names == [names[0]] + names[1..] && other == [other[0]] + other[1..];
    ReadsReplaced(t.children, k, u, 0, other);
    if other[0] == names[0] {
      if |other| > 1 {
        MergeReads(t.children[k], names[1..], v, other[1..]);
        assert |other| <= |names| ==> (other == names[..|other|] <==> other[1..] == names[1..][..|other| - 1]);
      }
    }
  }

  /** Another child of the same name and value in place of child `k`. */
  lemma {:induction false} ReadsReplaced(kids: seq<Node>, k: nat, u: Node, i: nat, names: seq<string>)
    requires names != [] && i <= |kids| && k < |kids| && u.name == kids[k].name && u.value == kids[k].value
    ensures kids[k].name != names[0] || |names| == 1 ==> Reads(kids[k := u], i, names) == Reads(kids, i, names)
    ensures (|names| > 1 && kids[k].name == names[0] && i <= k
             && forall j :: i <= j < k ==> kids[j].name != names[0]) ==>
              (Reads(kids[k := u], i, names)
               == match Reads(u.children, 0, names[1..])
                  case Some(x) => Some(x)
                  case None => Reads(kids, k + 1, names))
    decreases |kids| - i
  {
    if i < |kids| {
      ReadsReplaced(kids, k, u, i + 1, names);
      if i == k { ReadsSuffix(kids[k := u], kids, k + 1, k + 1, names); }
    }
  }

  // ----- what setting promises

  /** cnf_get_entry after cnf_set_entry gives the value set, on every tree. */
  lemma GetAfterSet(t: Node, names: seq<string>, v: string, create: bool)
    requires names != []
    ensures Set(t, names, v, create) == None <==> First(t, names) == None && !create
    ensures Set(t, names, v, create).Some? ==> Get(Set(t, names, v, create).value, names) == Some(v)
  {
    ReadsFirst(t, 0, names);
    match First(t, names) {
      case Some(p) =>
        FirstIsThere(t, 0, names);
        SetAtReads(t, p, v, 0, names);
      case None =>
        if create { MergeReads(t, names, v, names); }
    }
  }

  ghost predicate OthersKept(t: Node, t': Node, names: seq<string>) {
    forall other: seq<string> :: other != [] && other != names ==> Get(t', other) == Get(t, other)
  }

  /** None of the nodes that a set path makes takes the place of a node that has a value. */
  predicate NothingHidden(t: Node, names: seq<string>)
  {
    forall k {:trigger names[..k]} :: MergeDepth(t, names) < k < |names| ==> Get(t, names[..k]) == None
  }

  /** Setting an entry that is there changes what no other path reads. */
  lemma SetExistingKeepsOthers(t: Node, names: seq<string>, v: string, create: bool)
    requires names != [] && First(t, names).Some?
    ensures OthersKept(t, Set(t, names, v, create).value, names)
  {
    FirstIsThere(t, 0, names);
    var p := First(t, names).value;
    forall other: seq<string> | other != [] && other != names
      ensures Get(SetAt(t, p, v), other) == Get(t, other)
    {
      FirstIsThere(t, 0, other);
      SetAtReads(t, p, v, 0, other);
    }
  }

  /** Making an entry changes what no other path reads exactly if it hides no value. */
  lemma SetNewKeepsOthers(t: Node, names: seq<string>, v: string)
    requires names != [] && First(t, names) == None
    ensures OthersKept(t, Set(t, names, v, true).value, names) <==> NothingHidden(t, names)
  {
    ReadsFirst(t, 0, names);
    var t' := Merge(t, names, v);
    forall other: seq<string> | other != [] && other != names
      ensures Get(t', other) == if NewOnTheWay(t, names, other) then None else Get(t, other)
    {
      MergeReads(t, names, v, other);
    }
    forall k | MergeDepth(t, names) < k < |names| ensures NewOnTheWay(t, names, names[..k]) && names[..k] != names {
      assert |names[..k]| == k;
    }
    if OthersKept(t, t', names) {
      forall k | MergeDepth(t, names) < k < |names| ensures Get(t, names[..k]) == None {
        assert names[..k] != [] && Get(t', names[..k]) == Get(t, names[..k]);
      }
    }
  }

  // ----- trees without two siblings of one name

  ghost predicate UniqueSiblings(t: Node) {
    && (forall i, j :: 0 <= i < j < |t.children| ==> t.children[i].name != t.children[j].name)
    && forall u :: u in t.children ==> UniqueSiblings(u)
  }

  /** There, what Merge would have to make is not there in another place. */
  lemma {:induction false} UniqueHidesNothing(t: Node, names: seq<string>, k: nat)
    requires UniqueSiblings(t) && MergeDepth(t, names) < k <= |names|
    ensures Reads(t.children, 0, names[..k]) == None
    decreases |names|
  {
    var j := IndexOf(t.children, 0, names[0]);
    ReadsSkip(t.children, 0, j, names[..k]);
    if j < |t.children| {
      UniqueHidesNothing(t.children[j], names[1..], k - 1);
      assert names[..k][1..] == names[1..][..k - 1];
      ReadsSkip(t.children, j + 1, |t.children|, names[..k]);
    }
  }

  /** With unique siblings every other path reads as before. */
  lemma UniqueKeepsOthers(t: Node, names: seq<string>, v: string, create: bool)
    requires names != [] && UniqueSiblings(t) && Set(t, names, v, create).Some?
    ensures OthersKept(t, Set(t, names, v, create).value, names)
  {
    if First(t, names).Some? {
      SetExistingKeepsOthers(t, names, v, create);
    } else {
      forall k | MergeDepth(t, names) < k < |names| ensures Get(t, names[..k]) == None {
        UniqueHidesNothing(t, names, k);
      }
      SetNewKeepsOthers(t, names, v);
    }
  }

  lemma {:induction false} SetAtUnique(t: Node, p: Place, v: string)
    requires InTree(t, p) && UniqueSiblings(t)
    ensures UniqueSiblings(SetAt(t, p, v))
    decreases p
  {
    if p != [] {
      SetAtUnique(t.children[p[0]], p[1..], v);
      SetAtRoot(t.children[p[0]], p[1..], v);
    }
  }

  lemma {:induction false} MergeUnique(t: Node, names: seq<string>, v: string)
    requires UniqueSiblings(t)
    ensures UniqueSiblings(Merge(t, names, v))
    decreases |names|
  {
    if names != [] {
      var k := IndexOf(t.children, 0, names[0]);
      var u := if k < |t.children| then t.children[k] else Node(names[0], None, []);
      MergeUnique(u, names[1..], v);
      MergeRoot(u, names[1..], v);
    }
  }

  /** Setting keeps siblings unique. */
  lemma SetKeepsUnique(t: Node, names: seq<string>, v: string, create: bool)
    requires names != [] && UniqueSiblings(t) && Set(t, names, v, create).Some?
    ensures UniqueSiblings(Set(t, names, v, create).value)
  {
    FirstIsThere(t, 0, names);
    if First(t, names).Some? { SetAtUnique(t, First(t, names).value, v); } else { MergeUnique(t, names, v); }
  }

  /** With two siblings of one name a value can get hidden: the first "a" has no "b", so "a/b/c" makes one there,
      in front of the "b" of the second "a". */
  lemma HiddenValueExample()
    ensures var t := Node("(root)", None, [Node("a", None, []), Node("a", None, [Node("b", Some("x"), [])])]);
            && First(t, ["a", "b", "c"]) == None && Get(t, ["a", "b"]) == Some("x")
            && Get(Set(t, ["a", "b", "c"], "v", true).value, ["a", "b"]) == None
  {
    var b := Node("b", Some("x"), []);
    var a1, a2 := Node("a", None, []), Node("a", None, [b]);
    var t := Node("(root)", None, [a1, a2]);
    var names := ["a", "b", "c"];
    assert names[1..] == ["b", "c"] && ["b", "c"][1..] == ["c"];
    assert First(a1, ["b", "c"]) == None && First(b, ["c"]) == None;
    assert FirstFrom(a2, 1, ["b", "c"]) == None && FirstFrom(t, 2, names) == None;
    assert First(a2, ["b", "c"]) == None;
    assert FirstFrom(t, 1, names) == None;
    assert ["a", "b"][1..] == ["b"];
    assert Reads(a1.children, 0, ["b"]) == None && Reads(a2.children, 0, ["b"]) == Some(Some("x"));
    assert Reads(t.children, 1, ["a", "b"]) == Some(Some("x"));
    ReadsFirst(t, 0, names);
    MergeReads(t, names, "v", ["a", "b"]);
    assert IndexOf(t.children, 0, "a") == 0;
    assert MergeDepth(Node("a", None, []), ["b", "c"]) == 0;
    assert MergeDepth(t, names) == 1;
    assert names[..2] == ["a", "b"];
  }
}
