/** cnf_del_branch on the heap. */
module CnfDelBranch {
  import opened Wrappers
  import opened CnfTree
  import opened CnfNodes
  import opened CnfBuild
  import opened CnfPaths
  import opened CnfPlaces
  import opened CnfDeleting
  import opened CnfEntry

  /** The place of the parent. */
  function Up(p: Place): Place
    requires p != []
  {
    p[..|p| - 1]
  }

  lemma UpDown(p: Place)
    requires p != []
    ensures p == Up(p) + [p[|p| - 1]]
  {
  }

  lemma {:induction false} UpInTree(t: Node, p: Place)
    requires InTree(t, p) && p != []
    ensures InTree(t, Up(p)) && p[|p| - 1] < |TreeAt(t, Up(p)).children|
    ensures TreeAt(t, p) == TreeAt(t, Up(p)).children[p[|p| - 1]]
    decreases p
  {
    if |p| > 1 {
      UpInTree(t.children[p[0]], p[1..]);
      assert Up(p)[1..] == Up(p[1..]);
    } else {
      assert p[1..] == [];
    }
  }

  /** unlink_node. */
  function RemoveBelow(t: Node, p: Place): Node
    requires InTree(t, p) && p != []
  {
    UpInTree(t, p);
    ReplaceAt(t, Up(p), WithoutChild(TreeAt(t, Up(p)), p[|p| - 1]))
  }

  // ----- unlinking deep inside a tree

  /** Taking out one child rebuilds the tree of its parent. */
  lemma RemoveRebuilds(m: Heap, s: Shape, t: Node, k: nat)
    requires Holds(m, s, t) && Apart(s) && k < |s.kids|
    ensures s.kids[k].node in m && (k > 0 ==> s.kids[k - 1].node in m)
    ensures var m', c := LinkRemove(m, s, k), Shape(s.node, RemoveAt(s.kids, k));
            && Rebuilt(m, m', s, c) && Apart(c) && Holds(m', c, WithoutChild(t, k)) && Footprint(c) <= Footprint(s)
            && m'[s.kids[k].node].parent == s.node
  {
    RemoveHolds(m, s, t, k);
    HoldsInside(m, s, t);
    KidsApart(s);
    KidIn(m, s, t, k);
    if k > 0 { KidIn(m, s, t, k - 1); }
    RemoveApart(s, k);
  }

  lemma {:induction false} ForestPart(kids: seq<Shape>, some: seq<Shape>)
    requires forall c :: c in some ==> c in kids
    ensures Forest(some) <= Forest(kids)
  {
    if some != [] {
      ForestPart(kids, some[1..]);
      assert some[0] in kids;
    }
  }

  lemma RemoveApart(s: Shape, k: nat)
    requires Apart(s) && k < |s.kids|
    ensures Apart(Shape(s.node, RemoveAt(s.kids, k))) && Footprint(Shape(s.node, RemoveAt(s.kids, k))) <= Footprint(s)
  {
    var kids := RemoveAt(s.kids, k);
    forall i | 0 <= i < |kids| ensures kids[i] == s.kids[if i < k then i else i + 1] {
    }
    ForestPart(s.kids, kids);
  }

  /** Holds only looks at the nodes of the tree. */
  lemma HoldsNarrower(m: Heap, m': Heap, s: Shape, t: Node)
    requires Holds(m, s, t) && forall n :: n in Footprint(s) && n in m ==> n in m' && m'[n] == m[n]
    ensures Holds(m', s, t)
  {
    HoldsFrame(m, m', s, t);
  }

  /** Everything about the parent that unlinking at place `p` needs. */
  lemma ParentAt(m: Heap, s: Shape, t: Node, p: Place)
    requires Holds(m, s, t) && Apart(s) && InTree(t, p) && p != []
    ensures InTree(t, Up(p)) && InShape(s, Up(p)) && InShape(s, p)
    ensures var sub, u, k := ShapeAt(s, Up(p)), TreeAt(t, Up(p)), p[|p| - 1];
            && Holds(m, sub, u) && Apart(sub) && k < |sub.kids| && sub.kids[k] == ShapeAt(s, p)
            && ShapeAt(s, p).node in m && m[ShapeAt(s, p).node].parent == sub.node
  {
    var k := p[|p| - 1];
    UpInTree(t, p);
    PlaceHolds(m, s, t, Up(p));
    PlaceApart(s, Up(p));
    ShapeOneDown(s, Up(p), k);
    UpDown(p);
    KidIn(m, ShapeAt(s, Up(p)), TreeAt(t, Up(p)), k);
  }

  /** unlink_node of a node inside a tree; its parent link stays. */
  method Unlink(cn: CnfNode, ghost s: Shape, ghost f: set<CnfNode>, ghost t: Node, ghost p: Place)
    returns (ghost s': Shape, ghost f': set<CnfNode>)
    requires TreeOn(s, f, t) && InTree(t, p) && p != [] && InShape(s, p) && cn == ShapeAt(s, p).node
    modifies f
    ensures f' <= f && s'.node == s.node && TreeOn(s', f', RemoveBelow(t, p))
    ensures InShape(s', Up(p)) && cn.parent == ShapeAt(s', Up(p)).node
  {
    ghost var m := Links(f);
    ParentAt(m, s, t, p);
    ghost var q, k := Up(p), p[|p| - 1];
    ghost var sub, u := ShapeAt(s, q), TreeAt(t, q);
    ghost var c := Shape(sub.node, RemoveAt(sub.kids, k));
    RemoveRebuilds(m, sub, u, k);
    UnlinkNode(cn, f, sub, u, k);
    ghost var m' := Links(f);
    PlaceApart(s, q);
    ReplaceDeep(m, m', s, t, q, c, WithoutChild(u, k));
    s' := ReplaceShape(s, q, c);
    ReplacedShape(s, q, c);
    f' := Footprint(s');
    HoldsNarrower(m', Links(f'), s', RemoveBelow(t, p));
  }

  // ----- removing empty parents

  /** What is left when the way up from `q` has been gone, and every node on it that is empty unlinked. The root
      stays. */
  function Prune(t: Node, q: Place): Node
    requires InTree(t, q)
    decreases |q|
  {
    if q == [] then t
    else
      UpInTree(t, q);
      if TreeAt(t, q).children == [] then
        RemoveBelowStill(t, q);
        Prune(RemoveBelow(t, q), Up(q))
      else Prune(t, Up(q))
  }

  lemma {:induction false} ReplacedTree(t: Node, p: Place, u: Node)
    requires InTree(t, p)
    ensures InTree(ReplaceAt(t, p, u), p) && TreeAt(ReplaceAt(t, p, u), p) == u
    decreases p
  {
    if p != [] { ReplacedTree(t.children[p[0]], p[1..], u); }
  }

  /** The parent is still there. */
  lemma RemoveBelowStill(t: Node, p: Place)
    requires InTree(t, p) && p != []
    ensures InTree(RemoveBelow(t, p), Up(p))
  {
    UpInTree(t, p);
    ReplacedTree(t, Up(p), WithoutChild(TreeAt(t, Up(p)), p[|p| - 1]));
  }

  /** A change further down, seen from a child. */
  lemma RemoveBelowChild(t: Node, k: nat, q: Place)
    requires k < |t.children| && InTree(t.children[k], q) && q != []
    ensures InTree(t, [k] + q)
    ensures RemoveBelow(t, [k] + q) == t.(children := t.children[k := RemoveBelow(t.children[k], q)])
  {
    var p := [k] + q;
    assert p[1..] == q && p[|p| - 1] == q[|q| - 1];
    UpInTree(t, p);
    assert Up(p) == [k] + Up(q) && Up(p)[1..] == Up(q);
    UpInTree(t.children[k], q);
  }

  function PrunedChild(t: Node, k: nat, u: Node): Node
    requires k < |t.children|
  {
    if u.children == [] then WithoutChild(t, k) else t.(children := t.children[k := u])
  }

  /** Going up from below a child goes up inside the child, and then looks at the child itself. */
  lemma {:induction false} PruneUnder(t: Node, k: nat, q: Place)
    requires k < |t.children| && InTree(t.children[k], q)
    ensures InTree(t, [k] + q)
    ensures Prune(t, [k] + q) == PrunedChild(t, k, Prune(t.children[k], q))
    decreases |q|
  {
    var p, u := [k] + q, t.children[k];
    assert p[1..] == q;
    assert TreeAt(t, p) == TreeAt(u, q);
    if q == [] {
      assert Up(p) == [];
      PruneOwn(t, k);
    } else {
      assert Up(p) == [k] + Up(q);
      UpInTree(u, q);
      if TreeAt(u, q).children == [] {
        RemoveBelowChild(t, k, q);
        RemoveBelowStill(u, q);
        var u1 := RemoveBelow(u, q);
        var t1 := t.(children := t.children[k := u1]);
        PruneUnder(t1, k, Up(q));
        PrunedTwice(t, k, u1, Prune(u1, Up(q)));
      } else {
        PruneUnder(t, k, Up(q));
      }
    }
  }

  lemma PrunedTwice(t: Node, k: nat, u: Node, w: Node)
    requires k < |t.children|
    ensures PrunedChild(t.(children := t.children[k := u]), k, w) == PrunedChild(t, k, w)
  {
  }

  lemma PruneOwn(t: Node, k: nat)
    requires k < |t.children|
    ensures Prune(t, [k]) == PrunedChild(t, k, t.children[k])
  {
    assert Up([k]) == [] && [k][1..] == [];
    assert TreeAt(t, [k]) == TreeAt(t.children[k], [k][1..]) == t.children[k];
    assert t.children[k := t.children[k]] == t.children;
    assert Prune(t, Up([k])) == t;
    if t.children[k].children == [] {
      assert RemoveBelow(t, [k]) == WithoutChild(t, k);
      assert Prune(RemoveBelow(t, [k]), Up([k])) == RemoveBelow(t, [k]);
    }
  }

  /** Unlinking a node and then the empty ones above it, one by one on the way up, deletes what it should. */
  lemma {:induction false} PruneMeans(t: Node, p: Place)
    requires InTree(t, p) && p != []
    ensures InTree(RemoveBelow(t, p), Up(p))
    ensures RemoveBelow(t, p) == DeleteAt(t, p, false)
    ensures Prune(RemoveBelow(t, p), Up(p)) == DeleteAt(t, p, true)
    decreases p
  {
    RemoveBelowStill(t, p);
    var k := p[0];
    if |p| == 1 {
      assert Up(p) == [];
    } else {
      var u, q := t.children[k], p[1..];
      assert p == [k] + q && Up(p) == [k] + Up(q);
      PruneMeans(u, q);
      RemoveBelowChild(t, k, q);
      var u1 := RemoveBelow(u, q);
      PruneUnder(t.(children := t.children[k := u1]), k, Up(q));
      PrunedTwice(t, k, u1, Prune(u1, Up(q)));
    }
  }

  lemma ParentLink(m: Heap, s: Shape, t: Node, q: Place)
    requires Holds(m, s, t) && Apart(s) && InTree(t, q) && q != []
    ensures InTree(t, Up(q)) && InShape(s, q) && InShape(s, Up(q)) && ShapeAt(s, q).node in m
    ensures m[ShapeAt(s, q).node].parent == ShapeAt(s, Up(q)).node && ShapeAt(s, q).node != s.node
    ensures m[ShapeAt(s, q).node].firstChild == null <==> TreeAt(t, q).children == []
  {
    ParentAt(m, s, t, q);
    PlaceApart(s, q);
    PlaceHolds(m, s, t, q);
  }

  /** The loop of cnf_del_branch: `cn0` is the parent of the node that has been unlinked. */
  method PruneEmpty(cn0: CnfNode, root: CnfNode, ghost s: Shape, ghost f: set<CnfNode>, ghost t: Node, ghost q0: Place)
    returns (ghost s': Shape, ghost f': set<CnfNode>)
    requires TreeOn(s, f, t) && s.node == root && InTree(t, q0) && InShape(s, q0) && cn0 == ShapeAt(s, q0).node
    modifies f
    ensures f' <= f && s'.node == root && TreeOn(s', f', Prune(t, q0))
  {
    var cn := cn0;
    ghost var t1, q := t, q0;
    s', f' := s, f;
    if q != [] { ParentLink(Links(f'), s', t1, q); }
    while cn.parent != null && cn != root
      invariant f' <= f && s'.node == root && TreeOn(s', f', t1)
      invariant InTree(t1, q) && InShape(s', q) && cn == ShapeAt(s', q).node && Prune(t1, q) == Prune(t, q0)
      invariant q != [] ==> cn.parent != null && cn != root
      decreases |q|
    {
      ParentLink(Links(f'), s', t1, q);
      if cn.firstChild == null {
        s', f' := Unlink(cn, s', f', t1, q);
        RemoveBelowStill(t1, q);
        t1 := RemoveBelow(t1, q);
      }
      cn := cn.parent;
      q := Up(q);
      if q != [] { ParentLink(Links(f'), s', t1, q); }
    }
  }

  /** Deleting takes out the first node that the names lead to, and fails exactly if there is none. */
  lemma DeletesFirst(t: Node, names: seq<string>, p: Place)
    requires names != []
    ensures Spelled(t, p, names) && (forall q :: Spelled(t, q, names) ==> q == p || Before(p, q)) ==>
              && p != [] && InTree(t, p[..|p| - 1])
              && var u, k := TreeAt(t, p[..|p| - 1]), p[|p| - 1];
                 k < |u.children|
                 && Delete(t, names, false)
                    == Some(ReplaceAt(t, p[..|p| - 1], u.(children := u.children[..k] + u.children[k + 1..])))
    ensures Delete(t, names, false) == None <==> forall q :: !Spelled(t, q, names)
    ensures Delete(t, names, true) == None <==> forall q :: !Spelled(t, q, names)
  {
    FirstIsEarliest(t, names, p);
    if Spelled(t, p, names) {
      if p == [] { SpelledNil(t, p, names); }
      PruneMeans(t, p);
      UpInTree(t, p);
    }
  }

  /** cnf_del_branch. The path "." is left to callers that do not mean the root: unlinking a node without a parent
      is not possible. */
  method DelBranch(root: CnfNode, path: string, delEmpty: bool, ghost s: Shape, ghost f: set<CnfNode>, ghost t: Node)
    returns (ok: bool, ghost s': Shape, ghost f': set<CnfNode>)
    requires PlainText(path) && path != "." && TreeOn(s, f, t) && s.node == root
    modifies f
    ensures f' <= f && s'.node == root
    ensures match Delete(t, Components(path), delEmpty)
            case Some(t') => ok && TreeOn(s', f', t')
            case None => !ok && s' == s && f' == f && TreeOn(s, f, t)
  {
    var cn := GetNode(root, path, f, s, t);
    s', f' := s, f;
    ok := cn != null;
    if ok {
      FirstIsThere(t, 0, Components(path));
      ghost var p := First(t, Components(path)).value;
      PlaceHolds(Links(f), s, t, p);
      NodeOfShape(s, p);
      PruneMeans(t, p);
      s', f' := Unlink(cn, s, f, t, p);
      if delEmpty { s', f' := PruneEmpty(cn.parent, root, s', f', RemoveBelow(t, p), Up(p)); }
    }
  }
}
