/** compare_cnftree is a total order on trees, and clone_cnftree makes a separate equal tree. */
module CnfCompare {
  import opened Wrappers
  import opened CnfTree
  import opened CnfNodes
  import opened CnfBuild

  // ----- the order on values

  /** The sign of strcmp. */
  function StrCmp(a: string, b: string): int {
    if a == "" && b == "" then 0
    else if a == "" then -1
    else if b == "" then 1
    else if a[0] < b[0] then -1
    else if a[0] > b[0] then 1
    else StrCmp(a[1..], b[1..])
  }

  /** The sign of _strcmp_null: no string comes before any string. */
  function StrCmpNull(a: Option<string>, b: Option<string>): int {
    match (a, b)
    case (Some(x), Some(y)) => StrCmp(x, y)
    case (None, Some(_)) => -1
    case (Some(_), None) => 1
    case (None, None) => 0
  }

  /** compare_cnfnode */
  function CompareNodes(a: Node, b: Node): int {
    var byName := StrCmp(a.name, b.name);
    if byName != 0 then 2 * byName else StrCmpNull(a.value, b.value)
  }

  /** compare_cnftree */
  function CompareTrees(a: Node, b: Node): int
    decreases a, 1
  {
    var here := CompareNodes(a, b);
    if here != 0 then here else CompareLists(a.children, b.children)
  }

  /** The loop over the children, where a missing node counts as smaller. */
  function CompareLists(a: seq<Node>, b: seq<Node>): int
    decreases a, 0
  {
    if a == [] && b == [] then 0
    else if a == [] then -3
    else if b == [] then 3
    else
      var first := CompareTrees(a[0], b[0]);
      if first != 0 then first else CompareLists(a[1..], b[1..])
  }

  lemma {:induction false} StrCmpOrder(a: string, b: string, c: string)
    ensures StrCmp(a, b) == -StrCmp(b, a)
    ensures StrCmp(a, b) == 0 <==> a == b
    ensures StrCmp(a, b) < 0 && StrCmp(b, c) < 0 ==> StrCmp(a, c) < 0
    decreases |a| + |b| + |c|
  {
    if a != "" && b != "" {
      assert a == [a[0]] + a[1..] && b == [b[0]] + b[1..];
      StrCmpOrder(a[1..], b[1..], if c != "" then c[1..] else c);
    }
  }

  /** Strings are ordered by the first character in which they differ; where one ends first, it is the smaller one. */
  lemma {:induction false} StrCmpIs(a: string, b: string, k: nat)
    requires k <= |a| && k <= |b| && a[..k] == b[..k]
    ensures k < |a| && k < |b| && a[k] < b[k] ==> StrCmp(a, b) == -1
    ensures k == |a| < |b| ==> StrCmp(a, b) == -1
  {
    if k > 0 {
      assert a[0] == a[..k][0] && b[0] == b[..k][0];
      assert a[1..][..k - 1] == a[..k][1..] && b[1..][..k - 1] == b[..k][1..];
      StrCmpIs(a[1..], b[1..], k - 1);
    }
  }

  lemma CompareNodesOrder(a: Node, b: Node, c: Node)
    ensures CompareNodes(a, b) == -CompareNodes(b, a)
    ensures CompareNodes(a, b) == 0 <==> a.name == b.name && a.value == b.value
    ensures CompareNodes(a, b) < 0 && CompareNodes(b, c) < 0 ==> CompareNodes(a, c) < 0
  {
    StrCmpOrder(a.name, b.name, c.name);
    StrCmpOrder(b.name, c.name, a.name);
    if a.value.Some? && b.value.Some? {
      StrCmpOrder(a.value.value, b.value.value, if c.value.Some? then c.value.value else "");
    }
  }

  /** What decides between two trees: the names (2), then the values (1), of which none is the smallest, and then, the
      first `k` children being equal, the next child, or that there is none (3). */
  lemma {:induction false} CompareDecides(a: Node, b: Node, k: nat)
    ensures StrCmp(a.name, b.name) == -1 ==> CompareTrees(a, b) == -2
    ensures a.name == b.name && a.value == None && b.value.Some? ==> CompareTrees(a, b) == -1
    ensures a.name == b.name && a.value.Some? && b.value.Some? && StrCmp(a.value.value, b.value.value) == -1 ==>
              CompareTrees(a, b) == -1
    ensures a.name == b.name && a.value == b.value && k <= |a.children| && k <= |b.children|
            && a.children[..k] == b.children[..k] ==>
              && (k == |a.children| < |b.children| ==> CompareTrees(a, b) == -3)
              && (k < |a.children| && k < |b.children| && a.children[k] != b.children[k] ==>
                    CompareTrees(a, b) == CompareTrees(a.children[k], b.children[k]))
  {
    CompareNodesOrder(a, b, a);
    StrCmpOrder(a.name, b.name, a.name);
    if k <= |a.children| && k <= |b.children| && a.children[..k] == b.children[..k] {
      ListsDecide(a.children, b.children, k);
    }
  }

  lemma {:induction false} ListsDecide(a: seq<Node>, b: seq<Node>, k: nat)
    requires k <= |a| && k <= |b| && a[..k] == b[..k]
    ensures k == |a| < |b| ==> CompareLists(a, b) == -3
    ensures k < |a| && k < |b| && a[k] != b[k] ==> CompareLists(a, b) == CompareTrees(a[k], b[k])
  {
    if k > 0 {
      assert a[0] == a[..k][0] && b[0] == b[..k][0];
      assert a[1..][..k - 1] == a[..k][1..] && b[1..][..k - 1] == b[..k][1..];
      CompareAntisymmetric(a[0], b[0]);
      ListsDecide(a[1..], b[1..], k - 1);
    } else if a != [] && b != [] {
      CompareAntisymmetric(a[0], b[0]);
    }
  }

  /** Swapping the trees flips the sign, and only equal trees compare 0. */
  lemma {:induction false} CompareAntisymmetric(a: Node, b: Node)
    ensures CompareTrees(a, b) == -CompareTrees(b, a)
    ensures CompareTrees(a, b) == 0 <==> a == b
    decreases a, 1
  {
    CompareNodesOrder(a, b, a);
    CompareListsAntisymmetric(a.children, b.children);
  }

  lemma {:induction false} CompareListsAntisymmetric(a: seq<Node>, b: seq<Node>)
    ensures CompareLists(a, b) == -CompareLists(b, a)
    ensures CompareLists(a, b) == 0 <==> a == b
    decreases a, 0
  {
    if a != [] && b != [] {
      assert a == [a[0]] + a[1..] && b == [b[0]] + b[1..];
      CompareAntisymmetric(a[0], b[0]);
      CompareListsAntisymmetric(a[1..], b[1..]);
    }
  }

  lemma {:induction false} CompareTransitive(a: Node, b: Node, c: Node)
    requires CompareTrees(a, b) < 0 && CompareTrees(b, c) < 0
    ensures CompareTrees(a, c) < 0
    decreases a, 1
  {
    CompareNodesOrder(a, b, c);
    CompareNodesOrder(b, c, a);
    if CompareNodes(a, b) == 0 && CompareNodes(b, c) == 0 {
      CompareListsTransitive(a.children, b.children, c.children);
    }
  }

  lemma {:induction false} CompareListsTransitive(a: seq<Node>, b: seq<Node>, c: seq<Node>)
    requires CompareLists(a, b) < 0 && CompareLists(b, c) < 0
    ensures CompareLists(a, c) < 0
    decreases a, 0
  {
    if a != [] && b != [] && c != [] {
      CompareAntisymmetric(a[0], b[0]);
      CompareAntisymmetric(b[0], c[0]);
      if CompareTrees(a[0], b[0]) < 0 && CompareTrees(b[0], c[0]) < 0 {
        CompareTransitive(a[0], b[0], c[0]);
      } else if CompareTrees(a[0], b[0]) == 0 && CompareTrees(b[0], c[0]) == 0 {
        CompareListsTransitive(a[1..], b[1..], c[1..]);
      }
    }
  }

  // ----- comparing trees on the heap

  ghost function Height(s: Shape): nat
    decreases s, 1
  {
    1 + ForestHeight(s.kids)
  }

  ghost function ForestHeight(kids: seq<Shape>): (h: nat)
    ensures forall i :: 0 <= i < |kids| ==> Height(kids[i]) <= h
    decreases kids, 0
  {
    if kids == [] then 0
    else if Height(kids[0]) > ForestHeight(kids[1..]) then Height(kids[0]) else ForestHeight(kids[1..])
  }

  /** A pointer that is null or leads to a tree. */
  datatype Pointed = Nothing | Tree(shape: Shape, tree: Node)

  ghost predicate Points(m: Heap, cn: CnfNode?, p: Pointed) {
    match p
    case Nothing => cn == null
    case Tree(s, t) => cn == s.node && Holds(m, s, t)
  }

  ghost function PointedHeight(p: Pointed): nat {
    match p
    case Nothing => 0
    case Tree(s, _) => Height(s)
  }

  ghost function ComparePointed(a: Pointed, b: Pointed): int {
    match (a, b)
    case (Nothing, Nothing) => 0
    case (Nothing, Tree(_, _)) => -3
    case (Tree(_, _), Nothing) => 3
    case (Tree(_, t), Tree(_, u)) => CompareTrees(t, u)
  }

  ghost function KidPointed(s: Shape, t: Node, i: nat): Pointed
    requires |s.kids| == |t.children|
  {
    if i < |s.kids| then Tree(s.kids[i], t.children[i]) else Nothing
  }

  lemma KidPoints(m: Heap, s: Shape, t: Node, i: nat)
    requires Holds(m, s, t) && i <= |s.kids|
    ensures Points(m, NodeAt(s.kids, i), KidPointed(s, t, i))
    ensures PointedHeight(KidPointed(s, t, i)) < Height(s)
    ensures i < |s.kids| ==> s.kids[i].node in m && m[s.kids[i].node].next == NodeAt(s.kids, i + 1)
  {
    if i < |s.kids| { KidIn(m, s, t, i); }
  }

  lemma CompareListsStep(a: seq<Node>, b: seq<Node>, i: nat)
    requires i < |a| && i < |b|
    ensures CompareLists(a[i..], b[i..])
         == if CompareTrees(a[i], b[i]) != 0 then CompareTrees(a[i], b[i]) else CompareLists(a[i + 1..], b[i + 1..])
  {
    assert a[i..][1..] == a[i + 1..] && b[i..][1..] == b[i + 1..];
  }

  /** compare_cnfnode */
  method CompareCnfNode(cn1: CnfNode, cn2: CnfNode) returns (ret: int)
    ensures forall a: Node, b: Node ::
              a.name == cn1.name && a.value == cn1.value && b.name == cn2.name && b.value == cn2.value ==>
                ret == CompareNodes(a, b)
  {
    ret := StrCmp(cn1.name, cn2.name);
    if ret != 0 { return 2 * ret; }
    ret := StrCmpNull(cn1.value, cn2.value);
  }

  /** compare_cnftree */
  method CompareCnfTree(root1: CnfNode?, root2: CnfNode?, ghost all: set<CnfNode>, ghost p1: Pointed, ghost p2: Pointed)
    returns (ret: int)
    requires Points(Links(all), root1, p1) && Points(Links(all), root2, p2)
    ensures ret == ComparePointed(p1, p2)
    decreases PointedHeight(p1) + PointedHeight(p2)
  {
    if root1 == null || root2 == null {
      return if root1 == null && root2 == null then 0 else if root1 == null then -3 else 3;
    }
    ghost var m := Links(all);
    ghost var s1, t1, s2, t2 := p1.shape, p1.tree, p2.shape, p2.tree;
    ret := CompareCnfNode(root1, root2);
    assert ret == CompareNodes(t1, t2);
    if ret != 0 { return; }
    var cn1, cn2 := root1.firstChild, root2.firstChild;
    ghost var i := 0;
    KidPoints(m, s1, t1, 0);
    KidPoints(m, s2, t2, 0);
    while cn1 != null || cn2 != null
      invariant i <= |s1.kids| && i <= |s2.kids| && Links(all) == m
      invariant cn1 == NodeAt(s1.kids, i) && cn2 == NodeAt(s2.kids, i)
      invariant CompareLists(t1.children[i..], t2.children[i..]) == CompareLists(t1.children, t2.children)
      decreases |s1.kids| - i
    {
      KidPoints(m, s1, t1, i);
      KidPoints(m, s2, t2, i);
      ret := CompareCnfTree(cn1, cn2, all, KidPointed(s1, t1, i), KidPointed(s2, t2, i));
      if ret != 0 {
        if i < |s1.kids| && i < |s2.kids| { CompareListsStep(t1.children, t2.children, i); }
        return;
      }
      CompareListsStep(t1.children, t2.children, i);
      cn1, cn2 := cn1.next, cn2.next;
      i := i + 1;
    }
    return 0;
  }

  // ----- cloning

  /** clone_cnftree: a tree with the same content, made of new nodes only. Comparing the two gives 0, as long as both
      hold these trees. */
  method CloneTree(root: CnfNode, ghost all: set<CnfNode>, ghost s: Shape, ghost t: Node)
    returns (copy: CnfNode, ghost s': Shape, ghost f: set<CnfNode>)
    requires s.node == root && Holds(Links(all), s, t)
    ensures fresh(f) && s'.node == copy && TreeOn(s', f, t)
    ensures Points(Links(all + f), root, Tree(s, t)) && Points(Links(all + f), copy, Tree(s', t))
    ensures ComparePointed(Tree(s, t), Tree(s', t)) == 0
    ensures copy.parent == null && copy.next == null
    decreases Height(s), 0
  {
    ghost var m := Links(all);
    copy, s', f := NewLeaf(root.name, root.value);
    var cn := root.firstChild;
    ghost var i := 0;
    KidPoints(m, s, t, 0);
    assert t.(children := t.children[..0]) == Node(t.name, t.value, []);
    while cn != null
      invariant i <= |s.kids| && Links(all) == m && cn == NodeAt(s.kids, i)
      invariant fresh(f) && s'.node == copy && TreeOn(s', f, t.(children := t.children[..i]))
      invariant copy.parent == null && copy.next == null
      decreases |s.kids| - i
    {
      KidPoints(m, s, t, i);
      s', f := CloneKid(copy, cn, all, s.kids[i], t.children[i], s', f, t.(children := t.children[..i]));
      assert t.children[..i + 1] == t.children[..i] + [t.children[i]];
      cn := cn.next;
      i := i + 1;
    }
    assert t.(children := t.children[..i]) == t;
    CloneHolds(all, s, t, f, s');
  }

  /** Original and clone stand side by side and compare equal. */
  lemma CloneHolds(all: set<CnfNode>, s: Shape, t: Node, f: set<CnfNode>, s': Shape)
    requires Holds(Links(all), s, t) && Holds(Links(f), s', t)
    ensures Holds(Links(all + f), s, t) && Holds(Links(all + f), s', t)
    ensures ComparePointed(Tree(s, t), Tree(s', t)) == 0
  {
    HoldsWider(Links(all), Links(all + f), s, t);
    HoldsWider(Links(f), Links(all + f), s', t);
    CompareAntisymmetric(t, t);
  }

  /** One turn of its loop. */
  method CloneKid(copy: CnfNode, cn: CnfNode, ghost all: set<CnfNode>, ghost k: Shape, ghost u: Node,
                  ghost s: Shape, ghost f: set<CnfNode>, ghost t: Node)
    returns (ghost s': Shape, ghost f': set<CnfNode>)
    requires k.node == cn && Holds(Links(all), k, u)
    requires s.node == copy && TreeOn(s, f, t) && all !! f
    modifies f
    ensures f <= f' && fresh(f' - f) && s'.node == copy && TreeOn(s', f', WithChild(t, u))
    ensures copy.parent == old(copy.parent) && copy.next == old(copy.next)
    decreases Height(k), 1
  {
    ghost var c, g;
    var kid;
    kid, c, g := CloneTree(cn, all, k, u);
    AppendTree(copy, kid, s, f, t, c, g, u);
    s', f' := WithKid(s, c), f + g;
  }

  /** Comparing gives 0 for trees with the same content, and only for these. */
  lemma ComparesZero(p: Pointed, q: Pointed)
    requires p.Tree? && q.Tree?
    ensures ComparePointed(p, q) == 0 <==> p.tree == q.tree
  {
    CompareAntisymmetric(p.tree, q.tree);
  }
}
