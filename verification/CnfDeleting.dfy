/** cnf_del_branch on trees: what is left, and when it undoes cnf_set_entry. */
module CnfDeleting {
  import opened Wrappers
  import opened CnfTree
  import opened CnfNodes
  import opened CnfPaths
  import opened CnfSetting

  function WithoutChild(t: Node, k: nat): Node
    requires k < |t.children|
  {
    t.(children := RemoveAt(t.children, k))
  }

  // ----- meaning

  /** The tree without the node at place `p`, and with `delEmpty` without the nodes above it that have become empty. */
  function DeleteAt(t: Node, p: Place, delEmpty: bool): Node
    requires InTree(t, p) && p != []
    decreases p
  {
    if |p| == 1 then WithoutChild(t, p[0])
    else
      var u := DeleteAt(t.children[p[0]], p[1..], delEmpty);
      if delEmpty && u.children == [] then WithoutChild(t, p[0])
      else t.(children := t.children[p[0] := u])
  }

  /** cnf_del_branch. None is the error of a path that leads nowhere. */
  function Delete(t: Node, names: seq<string>, delEmpty: bool): Option<Node>
    requires names != []
  {
    FirstIsThere(t, 0, names);
    match First(t, names)
    case None => None
    case Some(p) => Some(DeleteAt(t, p, delEmpty))
  }

  // ----- undoing

  /** The node to which setting a new path appends the first new name. */
  function Attach(t: Node, names: seq<string>): Node
    decreases |names|
  {
    if names == [] then t
    else
      var k := IndexOf(t.children, 0, names[0]);
      if k < |t.children| then Attach(t.children[k], names[1..]) else t
  }

  lemma {:induction false} FirstSkip(t: Node, i: nat, k: nat, names: seq<string>)
    requires names != [] && i <= k <= |t.children| && forall j :: i <= j < k ==> t.children[j].name != names[0]
    ensures FirstFrom(t, i, names) == FirstFrom(t, k, names)
    decreases k - i
  {
    if i < k { FirstSkip(t, i + 1, k, names); }
  }

  /** After a merge the path leads to the node that was made. */
  lemma {:induction false} MergedFirst(t: Node, names: seq<string>, v: string)
    requires names != []
    ensures First(Merge(t, names, v), names) == Some(BranchPlace(t, names))
    decreases |names|
  {
    var t' := Merge(t, names, v);
    var k := IndexOf(t.children, 0, names[0]);
    var u := if k < |t.children| then t.children[k] else Node(names[0], None, []);
    MergeRoot(u, names[1..], v);
    assert t'.children[k] == Merge(u, names[1..], v);
    FirstSkip(t', 0, k, names);
    if |names| > 1 {
      MergedFirst(u, names[1..], v);
    } else {
      assert BranchPlace(u, names[1..]) == [];
      assert [k] + [] == [k];
    }
  }

  lemma MergedThere(t: Node, names: seq<string>, v: string)
    requires names != []
    ensures InTree(Merge(t, names, v), BranchPlace(t, names)) && BranchPlace(t, names) != []
  {
    MergedFirst(t, names, v);
    FirstIsThere(Merge(t, names, v), 0, names);
  }

  lemma ReplaceLast<T>(xs: seq<T>, x: T)
    ensures RemoveAt(xs + [x], |xs|) == xs
  {
  }

  /** Deleting a path with its empty parents right after it was made gives back the tree exactly if the first new name
      was appended to the root or to a node that had children. */
  lemma {:induction false} DeleteUndoesMerge(t: Node, names: seq<string>, v: string)
    requires names != [] && Reads(t.children, 0, names) == None
    ensures InTree(Merge(t, names, v), BranchPlace(t, names)) && BranchPlace(t, names) != []
    ensures DeleteAt(Merge(t, names, v), BranchPlace(t, names), true) == t
       <==> MergeDepth(t, names) == 0 || Attach(t, names).children != []
    decreases |names|
  {
    MergedThere(t, names, v);
    var k := IndexOf(t.children, 0, names[0]);
    if k == |t.children| { UndoNew(t, names, v); } else { UndoOld(t, names, v); }
  }

  lemma {:induction false} UndoNew(t: Node, names: seq<string>, v: string)
    requires names != [] && IndexOf(t.children, 0, names[0]) == |t.children|
    ensures InTree(Merge(t, names, v), BranchPlace(t, names)) && BranchPlace(t, names) != []
    ensures DeleteAt(Merge(t, names, v), BranchPlace(t, names), true) == t
    decreases |names|, 0
  {
    MergedThere(t, names, v);
    var leaf := Node(names[0], None, []);
    var p := BranchPlace(leaf, names[1..]);
    ReplaceLast(t.children, Merge(leaf, names[1..], v));
    assert BranchPlace(t, names)[1..] == p;
    if |names| > 1 {
      DeleteUndoesMerge(leaf, names[1..], v);
      assert p != [];
    }
  }

  lemma {:induction false} UndoOld(t: Node, names: seq<string>, v: string)
    requires names != [] && IndexOf(t.children, 0, names[0]) < |t.children| && Reads(t.children, 0, names) == None
    ensures InTree(Merge(t, names, v), BranchPlace(t, names)) && BranchPlace(t, names) != []
    ensures DeleteAt(Merge(t, names, v), BranchPlace(t, names), true) == t <==> Attach(t, names).children != []
    decreases |names|, 0
  {
    MergedThere(t, names, v);
    var k := IndexOf(t.children, 0, names[0]);
    var u, rest := t.children[k], names[1..];
    ReadsSkip(t.children, 0, k, names);
    assert rest != [] && Reads(u.children, 0, rest) == None;
    DeleteUndoesMerge(u, rest, v);
    var p := BranchPlace(u, rest);
    assert BranchPlace(t, names)[1..] == p;
    var t' := Merge(t, names, v);
    var w := DeleteAt(t'.children[k], p, true);
    var result := DeleteAt(t', BranchPlace(t, names), true);
    if w.children == [] {
      assert |result.children| < |t.children|;
      AttachEmpty(u, rest);
    } else {
      assert result.children[k] == w;
      assert w == u ==> result.children == t.children;
      AttachEmpty(u, rest);
    }
  }

  /** A node without children is itself where a path is attached. */
  lemma AttachEmpty(u: Node, names: seq<string>)
    ensures u.children == [] ==> Attach(u, names) == u && MergeDepth(u, names) == 0
    ensures names != [] && MergeDepth(u, names) == 0 ==> Attach(u, names) == u
  {
  }

  /** cnf_del_branch with del_empty after cnf_set_entry of a new path. */
  lemma DeleteUndoesSet(t: Node, names: seq<string>, v: string)
    requires names != [] && First(t, names) == None
    ensures Delete(Set(t, names, v, true).value, names, true) == Some(t)
       <==> MergeDepth(t, names) == 0 || Attach(t, names).children != []
  {
    ReadsFirst(t, 0, names);
    MergedFirst(t, names, v);
    DeleteUndoesMerge(t, names, v);
  }

  // ----- what is left

  /** How long the way is to the topmost node that goes with the one at `p`. */
  function PrunedTo(t: Node, p: Place): (d: nat)
    requires InTree(t, p) && p != []
    ensures 1 <= d <= |p|
    decreases p
  {
    if |p| == 1 then 1
    else
      var u, d := t.children[p[0]], PrunedTo(t.children[p[0]], p[1..]);
      if d == 1 && |u.children| == 1 then 1 else d + 1
  }

  lemma {:induction false} PrefixInTree(t: Node, p: Place, d: nat)
    requires InTree(t, p) && d <= |p|
    ensures InTree(t, p[..d])
    decreases p
  {
    if d > 0 {
      PrefixInTree(t.children[p[0]], p[1..], d - 1);
      assert p[..d][1..] == p[1..][..d - 1];
    }
  }

  lemma DeleteAtSize(t: Node, p: Place)
    requires InTree(t, p) && p != []
    ensures |DeleteAt(t, p, false).children| == if |p| == 1 then |t.children| - 1 else |t.children|
  {
  }

  /** Deleting with the empty parents is deleting the topmost of them. */
  lemma {:induction false} PruneIsDelete(t: Node, p: Place)
    requires InTree(t, p) && p != []
    ensures InTree(t, p[..PrunedTo(t, p)])
    ensures DeleteAt(t, p, true) == DeleteAt(t, p[..PrunedTo(t, p)], false)
    decreases p
  {
    PrefixInTree(t, p, PrunedTo(t, p));
    if |p| > 1 {
      var u, rest := t.children[p[0]], p[1..];
      var d := PrunedTo(u, rest);
      PruneIsDelete(u, rest);
      DeleteAtSize(u, rest[..d]);
      assert p[..d + 1][1..] == rest[..d];
      if d == 1 && |u.children| == 1 {
        assert |DeleteAt(u, rest, true).children| == 0;
        assert p[..1][0] == p[0];
      } else {
        assert |DeleteAt(u, rest, true).children| > 0;
      }
    } else {
      assert p[..1] == p;
    }
  }

  lemma {:induction false} ReadsConcat(a: seq<Node>, b: seq<Node>, names: seq<string>)
    requires names != []
    ensures Reads(a + b, 0, names)
         == match Reads(a, 0, names)
            case Some(x) => Some(x)
            case None => Reads(b, 0, names)
    decreases |b|
  {
    if b == [] {
      assert a + b == a;
    } else {
      var init, last := b[..|b| - 1], b[|b| - 1];
      assert a + b == a + init + [last] && b == init + [last];
      ReadsAppend(a + init, last, 0, names);
      ReadsAppend(init, last, 0, names);
      ReadsConcat(a, init, names);
    }
  }

  /** A list of children without one of them. */
  lemma ReadsRemoved(kids: seq<Node>, k: nat, names: seq<string>)
    requires names != [] && k < |kids|
    ensures kids[k].name != names[0] ==> Reads(RemoveAt(kids, k), 0, names) == Reads(kids, 0, names)
    ensures (forall j :: 0 <= j < |kids| && j != k ==> kids[j].name != names[0]) ==>
              Reads(RemoveAt(kids, k), 0, names) == None
  {
    var a, b := kids[..k], kids[k + 1..];
    assert kids == a + ([kids[k]] + b) && RemoveAt(kids, k) == a + b;
    ReadsConcat(a, [kids[k]] + b, names);
    ReadsConcat([kids[k]], b, names);
    ReadsConcat(a, b, names);
    if forall j :: 0 <= j < |kids| && j != k ==> kids[j].name != names[0] {
      ReadsSkip(a, 0, |a|, names);
      ReadsSkip(b, 0, |b|, names);
    }
  }

  /** With unique siblings, paths that begin with the deleted one lead nowhere afterwards, and all others read as
      before. */
  lemma {:induction false} DeletedReads(t: Node, p: Place, other: seq<string>)
    requires InTree(t, p) && p != [] && other != [] && UniqueSiblings(t)
    ensures Reads(DeleteAt(t, p, false).children, 0, other)
         == if NamesTo(t, p) <= other then None else Reads(t.children, 0, other)
    decreases p
  {
    var k, kids := p[0], t.children;
    assert NamesTo(t, p) == [kids[k].name] + NamesTo(kids[k], p[1..]);
    if |p| == 1 {
      ReadsRemoved(kids, k, other);
      assert NamesTo(kids[k], p[1..]) == [];
    } else {
      var u := DeleteAt(kids[k], p[1..], false);
      assert u.name == kids[k].name && u.value == kids[k].value;
      ReadsReplaced(kids, k, u, 0, other);
      if other[0] == kids[k].name {
        NamesToLonger(kids[k], p[1..]);
        if |other| > 1 {
          DeletedReads(kids[k], p[1..], other[1..]);
          ReadsSkip(kids, k + 1, |kids|, other);
          ReadsSkip(kids, 0, k, other);
          PrefixCons(kids[k].name, NamesTo(kids[k], p[1..]), other);
        }
      }
    }
  }

  lemma NamesToLonger(t: Node, p: Place)
    requires InTree(t, p) && p != []
    ensures NamesTo(t, p) != []
  {
  }

  lemma PrefixCons(x: string, names: seq<string>, other: seq<string>)
    requires other != [] && other[0] == x
    ensures ([x] + names <= other) <==> (names <= other[1..])
  {
    if names <= other[1..] { assert other == [x] + other[1..]; }
    if [x] + names <= other { assert other[1..][..|names|] == other[1..|names| + 1] == ([x] + names)[1..]; }
  }

  /** cnf_del_branch in a tree with unique siblings: the path leads nowhere, and a path that does not begin with the
      topmost deleted node reads as before. */
  lemma DeleteReads(t: Node, names: seq<string>, delEmpty: bool, other: seq<string>)
    requires names != [] && other != [] && UniqueSiblings(t) && First(t, names).Some?
    ensures First(t, names).value != [] && InTree(t, First(t, names).value)
    ensures var d := if delEmpty then PrunedTo(t, First(t, names).value) else |names|;
            && 1 <= d <= |names|
            && Reads(Delete(t, names, delEmpty).value.children, 0, other)
            == if names[..d] <= other then None else Reads(t.children, 0, other)
  {
    FirstIsThere(t, 0, names);
    var p := First(t, names).value;
    NamesToLength(t, p);
    var d := if delEmpty then PrunedTo(t, p) else |p|;
    if delEmpty { PruneIsDelete(t, p); }
    assert p[..|p|] == p;
    PrefixInTree(t, p, d);
    NamesToPrefix(t, p, d);
    DeletedReads(t, p[..d], other);
  }

  lemma {:induction false} NamesToPrefix(t: Node, p: Place, d: nat)
    requires InTree(t, p) && d <= |p| && InTree(t, p[..d])
    ensures d <= |NamesTo(t, p)| && NamesTo(t, p[..d]) == NamesTo(t, p)[..d]
    decreases p
  {
    NamesToLength(t, p);
    if d > 0 {
      assert p[..d][1..] == p[1..][..d - 1];
      NamesToPrefix(t.children[p[0]], p[1..], d - 1);
    }
  }
}
