/** Building trees on the heap: new nodes, and trees that are appended to trees. */
module CnfBuild {
  import opened Wrappers
  import opened CnfTree
  import opened CnfNodes

  /** The nodes `f` make up the tree of `s`, which holds `t`. */
  ghost predicate TreeOn(s: Shape, f: set<CnfNode>, t: Node)
    reads f
  {
    Footprint(s) == f && Apart(s) && Holds(Links(f), s, t)
  }

  lemma HoldsWider(m: Heap, m': Heap, s: Shape, t: Node)
    requires Holds(m, s, t) && m.Keys <= m'.Keys && forall n :: n in m ==> m'[n] == m[n]
    ensures Holds(m', s, t)
  {
    HoldsFrame(m, m', s, t);
  }

  lemma LeafShape(n: CnfNode)
    ensures Footprint(Shape(n, [])) == {n} && Apart(Shape(n, []))
  {
    assert Forest([]) == {};
  }

  /** create_cnfnode, then cnfnode_setval: a tree of one node. */
  method NewLeaf(name: string, value: Option<string>) returns (cn: CnfNode, ghost s: Shape, ghost f: set<CnfNode>)
    ensures fresh(f) && s.node == cn && s.kids == [] && TreeOn(s, f, Node(name, value, []))
    ensures cn.parent == null && cn.next == null
  {
    cn := new CnfNode(name);
    cn.value := value;
    s, f := Shape(cn, []), {cn};
    LeafShape(cn);
  }

  lemma AppendKeepsRootLinks(m: Heap, s: Shape, t: Node, cn: CnfNode)
    requires Holds(m, s, t) && Apart(s) && cn in m && cn != s.node
    ensures s.kids != [] ==> s.kids[|s.kids| - 1].node in m
    ensures s.node in m && SameLinks(m[s.node], LinkAppend(m, s, cn)[s.node])
  {
    LastKidIn(m, s, t);
    KidsApart(s);
  }

  lemma AppendedStill(m: Heap, m': Heap, mg: Heap, s: Shape, t: Node, c: Shape, u: Node)
    requires Holds(m, s, t) && Holds(m, c, u) && Apart(c) && Footprint(s) !! Footprint(c)
    requires s.kids != [] ==> s.kids[|s.kids| - 1].node in m
    requires s.node in m && c.node in m && m' == LinkAppend(m, s, c.node)
    requires Footprint(c) <= mg.Keys && forall n :: n in mg && n in m' ==> mg[n] == m'[n]
    ensures Holds(mg, c, u)
  {
    HoldsInside(m, c, u);
    HoldsFrame(m, mg, c, u);
  }

  /** append_node of one tree to another. */
  method AppendTree(parent: CnfNode, cn: CnfNode, ghost s: Shape, ghost f: set<CnfNode>, ghost t: Node,
                    ghost c: Shape, ghost g: set<CnfNode>, ghost u: Node)
    requires TreeOn(s, f, t) && TreeOn(c, g, u) && f !! g && s.node == parent && c.node == cn
    modifies f, g
    ensures TreeOn(WithKid(s, c), f + g, WithChild(t, u)) && TreeOn(c, g, u)
    ensures parent.parent == old(parent.parent) && parent.next == old(parent.next)
  {
    ghost var all := f + g;
    ghost var m := Links(all);
    HoldsWider(Links(f), m, s, t);
    HoldsWider(Links(g), m, c, u);
    AppendHolds(m, s, t, c, u);
    AppendKeepsRootLinks(m, s, t, cn);
    ApartAppend(s, c);
    AppendNode(parent, cn, all, s, t);
    AppendedStill(m, Links(all), Links(g), s, t, c, u);
    assert Links(all)[parent] == Link(parent.name, parent.value, parent.next, parent.firstChild, parent.parent);
  }

  /** create_cnfnode, cnfnode_setval, append_node: a new last child. */
  method AppendLeaf(parent: CnfNode, name: string, value: Option<string>,
                    ghost s: Shape, ghost f: set<CnfNode>, ghost t: Node)
    returns (ghost s': Shape, ghost f': set<CnfNode>)
    requires TreeOn(s, f, t) && s.node == parent
    modifies f
    ensures f <= f' && fresh(f' - f) && s'.node == parent && TreeOn(s', f', WithChild(t, Node(name, value, [])))
    ensures parent.parent == old(parent.parent) && parent.next == old(parent.next)
  {
    ghost var c, g;
    var cn;
    cn, c, g := NewLeaf(name, value);
    AppendTree(parent, cn, s, f, t, c, g, Node(name, value, []));
    s', f' := WithKid(s, c), f + g;
  }

  // ----- replacing a subtree

  /** Between `m` and `m'` the nodes of `before` have been rebuilt into the tree `c`, perhaps with new nodes; how its
      root is linked and all other nodes are as before. */
  ghost predicate Rebuilt(m: Heap, m': Heap, before: Shape, c: Shape) {
    && c.node == before.node && m.Keys <= m'.Keys && Footprint(before) <= m.Keys && Footprint(c) <= m'.Keys
    && (forall n :: n in m && n !in Footprint(before) ==> m'[n] == m[n])
    && SameLinks(m[c.node], m'[c.node])
    && (Footprint(c) - Footprint(before)) !! m.Keys
  }

  /** Rebuilding one child leaves the other children, and the list of children, as they were. */
  lemma ReplaceKid(m: Heap, m': Heap, s: Shape, t: Node, k: nat, c: Shape, u: Node)
    requires Holds(m, s, t) && Apart(s) && k < |s.kids|
    requires Rebuilt(m, m', s.kids[k], c) && Apart(c) && Holds(m', c, u)
    ensures Holds(m', Shape(s.node, s.kids[k := c]), t.(children := t.children[k := u]))
  {
    var s', t' := Shape(s.node, s.kids[k := c]), t.(children := t.children[k := u]);
    KidsApart(s);
    HoldsInside(m, s, t);
    KidNodesKept(s, k, c);
    forall i | 0 <= i < |s'.kids| ensures KidHolds(m', s', i, t'.children[i]) {
      KidIn(m, s, t, i);
      if i != k {
        assert Footprint(s.kids[i]) !! Footprint(s.kids[k]);
        assert Footprint(s.kids[i]) <= Footprint(s) <= m.Keys;
        HoldsFrame(m, m', s.kids[i], t.children[i]);
      }
    }
  }

  lemma KidNodesKept(s: Shape, k: nat, c: Shape)
    requires k < |s.kids| && c.node == s.kids[k].node
    ensures forall i: nat :: NodeAt(s.kids[k := c], i) == NodeAt(s.kids, i)
  {
  }

  lemma {:induction false} ForestReplace(kids: seq<Shape>, k: nat, c: Shape)
    requires k < |kids|
    requires forall i, j :: 0 <= i < j < |kids| ==> Footprint(kids[i]) !! Footprint(kids[j])
    ensures Forest(kids[k := c]) == (Forest(kids) - Footprint(kids[k])) + Footprint(c)
  {
    ForestApart(Footprint(kids[0]), kids[1..]);
    if k == 0 {
      assert kids[k := c][1..] == kids[1..];
    } else {
      assert kids[k := c][1..] == kids[1..][k - 1 := c];
      ForestReplace(kids[1..], k - 1, c);
    }
  }

  lemma ReplaceApart(s: Shape, k: nat, c: Shape)
    requires Apart(s) && k < |s.kids| && Apart(c)
    requires (Footprint(c) - Footprint(s.kids[k])) !! Footprint(s)
    ensures Apart(Shape(s.node, s.kids[k := c]))
    ensures Footprint(Shape(s.node, s.kids[k := c])) == (Footprint(s) - Footprint(s.kids[k])) + Footprint(c)
  {
    KidsApart(s);
    ForestReplace(s.kids, k, c);
    var s' := Shape(s.node, s.kids[k := c]);
    forall i, j | 0 <= i < j < |s'.kids| ensures Footprint(s'.kids[i]) !! Footprint(s'.kids[j]) {
      assert Footprint(s.kids[i]) !! Footprint(s.kids[j]);
      assert Footprint(s.kids[i]) <= Footprint(s) && Footprint(s.kids[j]) <= Footprint(s);
    }
  }
}
