/** struct cnfnode on the heap: nodes linked by first_child, next and parent, and the operations of
    llconf/nodes.c on them. The links of a set of nodes are looked at as a value, a shape says which nodes
    make up a tree, and `Holds` ties the two to the tree that the nodes stand for. */
module CnfNodes {
  import opened Wrappers
  import opened CnfTree

  class CnfNode {
    var name: string
    var value: Option<string>
    var next: CnfNode?
    var firstChild: CnfNode?
    var parent: CnfNode?

    /** create_cnfnode */
    constructor (name: string)
      ensures this.name == name && value == None
      ensures next == null && firstChild == null && parent == null
    {
      this.name, value := name, None;
      next, firstChild, parent := null, null, null;
    }
  }

  /** The fields of one node. */
  datatype Link = Link(name: string, value: Option<string>, next: CnfNode?, firstChild: CnfNode?, parent: CnfNode?)

  type Heap = map<CnfNode, Link>

  ghost function Links(all: set<CnfNode>): (m: Heap)
    reads all
    ensures m.Keys == all
  {
    map n | n in all :: Link(n.name, n.value, n.next, n.firstChild, n.parent)
  }

  datatype Shape = Shape(node: CnfNode, kids: seq<Shape>)

  ghost function Footprint(s: Shape): (f: set<CnfNode>)
    ensures s.node in f && Below(s) <= f
    decreases s, 2
  {
    {s.node} + Below(s)
  }

  /** The nodes of a tree without its root. */
  ghost function Below(s: Shape): set<CnfNode>
    decreases s, 1
  {
    Forest(s.kids)
  }

  ghost function Forest(kids: seq<Shape>): (f: set<CnfNode>)
    ensures forall i :: 0 <= i < |kids| ==> Footprint(kids[i]) <= f
    decreases kids, 0
  {
    if kids == [] then {} else Footprint(kids[0]) + Forest(kids[1..])
  }

  /** No node occurs twice. */
  ghost predicate Apart(s: Shape) {
    && s.node !in Below(s)
    && (forall i :: 0 <= i < |s.kids| ==> Apart(s.kids[i]))
    && (forall i, j :: 0 <= i < j < |s.kids| ==> Footprint(s.kids[i]) !! Footprint(s.kids[j]))
  }

  ghost function NodeAt(kids: seq<Shape>, i: nat): CnfNode? {
    if i < |kids| then kids[i].node else null
  }

  /** The nodes of `s` are linked to a tree that holds `t`. How the root is linked to its surroundings does not
      matter. */
  ghost predicate Holds(m: Heap, s: Shape, t: Node)
    decreases s, 1
  {
    && s.node in m && m[s.node].name == t.name && m[s.node].value == t.value
    && |s.kids| == |t.children|
    && m[s.node].firstChild == NodeAt(s.kids, 0)
    && forall i :: 0 <= i < |s.kids| ==> KidHolds(m, s, i, t.children[i])
  }

  ghost predicate KidHolds(m: Heap, s: Shape, i: nat, t: Node)
    requires i < |s.kids|
    decreases s, 0
  {
    && s.kids[i].node in m && Holds(m, s.kids[i], t)
    && m[s.kids[i].node].parent == s.node
    && m[s.kids[i].node].next == NodeAt(s.kids, i + 1)
  }

  ghost predicate SameContent(a: Link, b: Link) {
    a.name == b.name && a.value == b.value && a.firstChild == b.firstChild
  }

  ghost predicate SameLinks(a: Link, b: Link) {
    a.next == b.next && a.parent == b.parent
  }

  /** Only the nodes of a tree, and of its root only the content, decide what it holds. */
  lemma {:induction false} HoldsFrame(m: Heap, m': Heap, s: Shape, t: Node)
    requires Holds(m, s, t)
    requires forall n :: n in Footprint(s) && n in m ==> n in m' && SameContent(m[n], m'[n])
    requires forall n :: n in Below(s) && n in m ==> n in m' && SameLinks(m[n], m'[n])
    ensures Holds(m', s, t)
    decreases s
  {
    forall i | 0 <= i < |s.kids| ensures KidHolds(m', s, i, t.children[i]) {
      assert KidHolds(m, s, i, t.children[i]);
      HoldsFrame(m, m', s.kids[i], t.children[i]);
    }
  }

  lemma {:induction false} HoldsInside(m: Heap, s: Shape, t: Node)
    requires Holds(m, s, t)
    ensures Footprint(s) <= m.Keys
    decreases s
  {
    forall i | 0 <= i < |s.kids| ensures Footprint(s.kids[i]) <= m.Keys {
      assert KidHolds(m, s, i, t.children[i]);
      HoldsInside(m, s.kids[i], t.children[i]);
    }
    ForestInside(s.kids, m.Keys);
  }

  lemma {:induction false} ForestInside(kids: seq<Shape>, f: set<CnfNode>)
    requires forall i :: 0 <= i < |kids| ==> Footprint(kids[i]) <= f
    ensures Forest(kids) <= f
  {
    if kids != [] { ForestInside(kids[1..], f); }
  }

  lemma {:induction false} ForestApart(f: set<CnfNode>, kids: seq<Shape>)
    requires forall i :: 0 <= i < |kids| ==> f !! Footprint(kids[i])
    ensures f !! Forest(kids)
  {
    if kids != [] { ForestApart(f, kids[1..]); }
  }

  /** The children of a node are not below each other. */
  lemma KidsApart(s: Shape)
    requires Apart(s)
    ensures forall i, j :: 0 <= i < |s.kids| && 0 <= j < |s.kids| ==> s.kids[j].node !in Below(s.kids[i])
    ensures forall i, j :: 0 <= i < |s.kids| && 0 <= j < |s.kids| && i != j ==> s.kids[j].node !in Footprint(s.kids[i])
    ensures forall i :: 0 <= i < |s.kids| ==> s.node !in Footprint(s.kids[i])
  {
    forall i, j | 0 <= i < |s.kids| && 0 <= j < |s.kids| ensures s.kids[j].node !in Below(s.kids[i]) {
      assert s.kids[j].node in Footprint(s.kids[j]);
      if j == i { assert Apart(s.kids[i]); }
    }
  }

  // ----- append_node

  ghost function WithKid(s: Shape, c: Shape): Shape {
    Shape(s.node, s.kids + [c])
  }

  function WithChild(t: Node, u: Node): Node {
    t.(children := t.children + [u])
  }

  lemma {:induction false} ForestAppend(kids: seq<Shape>, c: Shape)
    ensures Forest(kids + [c]) == Forest(kids) + Footprint(c)
  {
    if kids == [] {
      assert [] + [c] == [c];
    } else {
      assert (kids + [c])[1..] == kids[1..] + [c];
      ForestAppend(kids[1..], c);
    }
  }

  lemma ApartAppend(s: Shape, c: Shape)
    requires Apart(s) && Apart(c) && Footprint(s) !! Footprint(c)
    ensures Apart(WithKid(s, c)) && Footprint(WithKid(s, c)) == Footprint(s) + Footprint(c)
  {
    ForestAppend(s.kids, c);
  }

  /** The links after `cn` was linked behind the last child of the root of `s`. */
  ghost function LinkAppend(m: Heap, s: Shape, cn: CnfNode): Heap
    requires s.node in m && cn in m && (s.kids != [] ==> s.kids[|s.kids| - 1].node in m)
  {
    var m1 := if s.kids == [] then m[s.node := m[s.node].(firstChild := cn)]
              else
                var last := s.kids[|s.kids| - 1].node;
                m[last := m[last].(next := cn)];
    m1[cn := m1[cn].(parent := s.node, next := null)]
  }

  lemma LastKidIn(m: Heap, s: Shape, t: Node)
    requires Holds(m, s, t)
    ensures s.node in m && (s.kids != [] ==> s.kids[|s.kids| - 1].node in m)
  {
    if s.kids != [] { assert KidHolds(m, s, |s.kids| - 1, t.children[|s.kids| - 1]); }
  }

  /** Appending a node to a list of children appends its tree to the children. */
  lemma AppendHolds(m: Heap, s: Shape, t: Node, c: Shape, u: Node)
    requires Holds(m, s, t) && Apart(s) && Holds(m, c, u) && Apart(c) && Footprint(s) !! Footprint(c)
    ensures s.kids != [] ==> s.kids[|s.kids| - 1].node in m
    ensures Holds(LinkAppend(m, s, c.node), WithKid(s, c), WithChild(t, u))
  {
    LastKidIn(m, s, t);
    KidsApart(s);
    var m', s', t' := LinkAppend(m, s, c.node), WithKid(s, c), WithChild(t, u);
    forall i | 0 <= i < |s.kids| ensures KidHolds(m', s', i, t'.children[i]) {
      assert KidHolds(m, s, i, t.children[i]);
      AppendKid(m, s, t, c, i);
    }
    HoldsFrame(m, m', c, u);
    assert KidHolds(m', s', |s.kids|, u);
  }

  lemma AppendKid(m: Heap, s: Shape, t: Node, c: Shape, i: nat)
    requires Holds(m, s, t) && Apart(s) && c.node in m && Footprint(s) !! Footprint(c)
    requires i < |s.kids| && s.kids[|s.kids| - 1].node in m
    ensures Holds(LinkAppend(m, s, c.node), s.kids[i], t.children[i])
  {
    KidsApart(s);
    assert KidHolds(m, s, i, t.children[i]);
    HoldsFrame(m, LinkAppend(m, s, c.node), s.kids[i], t.children[i]);
  }

  /** append_node: walks to the end of the list of children and links `cn` there. */
  method AppendNode(parent: CnfNode, cn: CnfNode, ghost all: set<CnfNode>, ghost s: Shape, ghost t: Node)
    requires s.node == parent && cn in all && Holds(Links(all), s, t) && cn !in Footprint(s)
    modifies all
    ensures s.kids != [] ==> s.kids[|s.kids| - 1].node in all
    ensures Links(all) == LinkAppend(old(Links(all)), s, cn)
  {
    ghost var m := Links(all);
    LastKidIn(m, s, t);
    if parent.firstChild == null {
      parent.firstChild := cn;
    } else {
      var last: CnfNode := parent.firstChild;
      ghost var i := 0;
      assert KidHolds(m, s, 0, t.children[0]);
      while last.next != null
        invariant 0 <= i < |s.kids| && last == s.kids[i].node && last in all
        decreases |s.kids| - i
      {
        assert KidHolds(m, s, i, t.children[i]) && KidHolds(m, s, i + 1, t.children[i + 1]);
        last := last.next;
        i := i + 1;
      }
      assert KidHolds(m, s, i, t.children[i]);
      last.next := cn;
    }
    cn.parent := parent;
    cn.next := null;
  }

  // ----- insert_node_before and unlink_node

  function InsertAt<T>(xs: seq<T>, k: nat, x: T): seq<T>
    requires k <= |xs|
  {
    xs[..k] + [x] + xs[k..]
  }

  function RemoveAt<T>(xs: seq<T>, k: nat): seq<T>
    requires k < |xs|
  {
    xs[..k] + xs[k + 1..]
  }

  /** The link that leads to child `k` is changed to lead to `cn`. */
  ghost function Redirect(m: Heap, s: Shape, k: nat, cn: CnfNode?): Heap
    requires k <= |s.kids| && s.node in m && (k > 0 ==> s.kids[k - 1].node in m)
  {
    if k == 0 then m[s.node := m[s.node].(firstChild := cn)]
    else m[s.kids[k - 1].node := m[s.kids[k - 1].node].(next := cn)]
  }

  ghost function LinkInsert(m: Heap, s: Shape, k: nat, cn: CnfNode): Heap
    requires k < |s.kids| && s.node in m && cn in m && (k > 0 ==> s.kids[k - 1].node in m)
  {
    var m1 := Redirect(m, s, k, cn);
    m1[cn := m1[cn].(parent := s.node, next := s.kids[k].node)]
  }

  ghost function LinkRemove(m: Heap, s: Shape, k: nat): Heap
    requires k < |s.kids| && s.node in m && s.kids[k].node in m && (k > 0 ==> s.kids[k - 1].node in m)
  {
    Redirect(m, s, k, m[s.kids[k].node].next)
  }

  lemma KidIn(m: Heap, s: Shape, t: Node, k: nat)
    requires Holds(m, s, t) && k < |s.kids|
    ensures s.kids[k].node in m && m[s.kids[k].node].next == NodeAt(s.kids, k + 1)
    ensures m[s.kids[k].node].parent == s.node && Holds(m, s.kids[k], t.children[k])
  {
    assert KidHolds(m, s, k, t.children[k]);
  }

  /** Redirecting one link leaves the trees of the children, and their other links, as they were. */
  lemma RedirectKid(m: Heap, s: Shape, t: Node, k: nat, cn: CnfNode?, i: nat)
    requires Holds(m, s, t) && Apart(s) && k <= |s.kids| && i < |s.kids|
    ensures k > 0 ==> s.kids[k - 1].node in m
    ensures var m' := Redirect(m, s, k, cn);
            && s.kids[i].node in m' && Holds(m', s.kids[i], t.children[i])
            && m'[s.kids[i].node].parent == s.node
            && m'[s.kids[i].node].next == if i + 1 == k then cn else NodeAt(s.kids, i + 1)
  {
    if k > 0 { KidIn(m, s, t, k - 1); }
    KidIn(m, s, t, i);
    KidsApart(s);
    HoldsFrame(m, Redirect(m, s, k, cn), s.kids[i], t.children[i]);
  }

  lemma RedirectRoot(m: Heap, s: Shape, t: Node, k: nat, cn: CnfNode?)
    requires Holds(m, s, t) && Apart(s) && k <= |s.kids|
    ensures k > 0 ==> s.kids[k - 1].node in m
    ensures var m' := Redirect(m, s, k, cn);
            && m'[s.node].name == t.name && m'[s.node].value == t.value
            && m'[s.node].firstChild == if k == 0 then cn else NodeAt(s.kids, 0)
  {
    if k > 0 { KidIn(m, s, t, k - 1); }
    KidsApart(s);
  }

  /** Inserting before child `k` inserts the tree at that place. */
  lemma InsertHolds(m: Heap, s: Shape, t: Node, k: nat, c: Shape, u: Node)
    requires Holds(m, s, t) && Apart(s) && k < |s.kids|
    requires Holds(m, c, u) && Apart(c) && Footprint(s) !! Footprint(c)
    ensures k > 0 ==> s.kids[k - 1].node in m
    ensures Holds(LinkInsert(m, s, k, c.node), Shape(s.node, InsertAt(s.kids, k, c)),
                  t.(children := InsertAt(t.children, k, u)))
  {
    RedirectRoot(m, s, t, k, c.node);
    var m', s' := LinkInsert(m, s, k, c.node), Shape(s.node, InsertAt(s.kids, k, c));
    var t' := t.(children := InsertAt(t.children, k, u));
    forall i | 0 <= i < |s'.kids| ensures KidHolds(m', s', i, t'.children[i]) {
      if i == k {
        InsertedKid(m, s, t, k, c, u);
      } else {
        InsertKid(m, s, t, k, c, if i < k then i else i - 1);
      }
    }
  }

  lemma InsertKid(m: Heap, s: Shape, t: Node, k: nat, c: Shape, i: nat)
    requires Holds(m, s, t) && Apart(s) && k < |s.kids| && i < |s.kids|
    requires c.node in m && c.node !in Footprint(s)
    ensures k > 0 ==> s.kids[k - 1].node in m
    ensures var m' := LinkInsert(m, s, k, c.node);
            && s.kids[i].node in m' && Holds(m', s.kids[i], t.children[i])
            && m'[s.kids[i].node].parent == s.node
            && m'[s.kids[i].node].next == if i + 1 == k then c.node else NodeAt(s.kids, i + 1)
  {
    RedirectKid(m, s, t, k, c.node, i);
    var m1 := Redirect(m, s, k, c.node);
    HoldsFrame(m1, LinkInsert(m, s, k, c.node), s.kids[i], t.children[i]);
  }

  lemma InsertedKid(m: Heap, s: Shape, t: Node, k: nat, c: Shape, u: Node)
    requires Holds(m, s, t) && Apart(s) && k < |s.kids|
    requires Holds(m, c, u) && Apart(c) && Footprint(s) !! Footprint(c)
    ensures k > 0 ==> s.kids[k - 1].node in m
    ensures Holds(LinkInsert(m, s, k, c.node), c, u)
  {
    RedirectRoot(m, s, t, k, c.node);
    HoldsFrame(m, LinkInsert(m, s, k, c.node), c, u);
  }

  /** Unlinking child `k` takes its tree out, and leaves that tree as it was. */
  lemma RemoveHolds(m: Heap, s: Shape, t: Node, k: nat)
    requires Holds(m, s, t) && Apart(s) && k < |s.kids|
    ensures s.kids[k].node in m && (k > 0 ==> s.kids[k - 1].node in m)
    ensures Holds(LinkRemove(m, s, k), Shape(s.node, RemoveAt(s.kids, k)), t.(children := RemoveAt(t.children, k)))
    ensures Holds(LinkRemove(m, s, k), s.kids[k], t.children[k])
  {
    KidIn(m, s, t, k);
    var cn := m[s.kids[k].node].next;
    RedirectRoot(m, s, t, k, cn);
    RedirectKid(m, s, t, k, cn, k);
    var s', t' := Shape(s.node, RemoveAt(s.kids, k)), t.(children := RemoveAt(t.children, k));
    forall i | 0 <= i < |s'.kids| ensures KidHolds(LinkRemove(m, s, k), s', i, t'.children[i]) {
      RemoveKid(m, s, t, k, i);
    }
    assert s'.kids == [] ==> NodeAt(s'.kids, 0) == null;
  }

  lemma RemoveKid(m: Heap, s: Shape, t: Node, k: nat, i: nat)
    requires Holds(m, s, t) && Apart(s) && k < |s.kids| && i < |s.kids| - 1
    ensures s.kids[k].node in m && (k > 0 ==> s.kids[k - 1].node in m)
    ensures KidHolds(LinkRemove(m, s, k), Shape(s.node, RemoveAt(s.kids, k)), i, RemoveAt(t.children, k)[i])
  {
    KidIn(m, s, t, k);
    RedirectKid(m, s, t, k, m[s.kids[k].node].next, if i < k then i else i + 1);
    RemovedKids(s.kids, k, i);
    RemovedChildren(t.children, k, i);
  }

  lemma RemovedKids(kids: seq<Shape>, k: nat, i: nat)
    requires k < |kids| && i < |kids| - 1
    ensures RemoveAt(kids, k)[i] == kids[if i < k then i else i + 1]
    ensures NodeAt(RemoveAt(kids, k), i + 1) == NodeAt(kids, if i + 1 < k then i + 1 else i + 2)
  {
  }

  lemma RemovedChildren(children: seq<Node>, k: nat, i: nat)
    requires k < |children| && i < |children| - 1
    ensures RemoveAt(children, k)[i] == children[if i < k then i else i + 1]
  {
  }

  lemma KidsDistinct(s: Shape)
    requires Apart(s)
    ensures forall i, j :: 0 <= i < j < |s.kids| ==> s.kids[i].node != s.kids[j].node
  {
    KidsApart(s);
  }

  /** The search loop of the two methods below: the sibling whose next link leads to `cn`, or null if it is the
      first_child link that does. */
  method FindLink(parent: CnfNode, cn: CnfNode, ghost all: set<CnfNode>, ghost s: Shape, ghost t: Node, ghost k: nat)
    returns (prev: CnfNode?)
    requires Holds(Links(all), s, t) && Apart(s) && k < |s.kids| && s.kids[k].node == cn && s.node == parent
    ensures if k == 0 then prev == null else prev == s.kids[k - 1].node && prev in all
  {
    ghost var m := Links(all);
    KidsDistinct(s);
    KidIn(m, s, t, 0);
    if parent.firstChild == cn { return null; }
    prev := parent.firstChild;
    ghost var i := 0;
    while prev.next != cn
      invariant 0 <= i < k && prev == s.kids[i].node && prev in all
      decreases k - i
    {
      KidIn(m, s, t, i);
      KidIn(m, s, t, i + 1);
      prev := prev.next;
      i := i + 1;
    }
    KidIn(m, s, t, i);
  }

  /** insert_node_before */
  method InsertNodeBefore(before: CnfNode, cn: CnfNode,
                          ghost all: set<CnfNode>, ghost s: Shape, ghost t: Node, ghost k: nat)
    requires Holds(Links(all), s, t) && Apart(s) && k < |s.kids| && s.kids[k].node == before
    requires cn in all && cn !in Footprint(s)
    modifies all
    ensures k > 0 ==> s.kids[k - 1].node in all
    ensures Links(all) == LinkInsert(old(Links(all)), s, k, cn)
  {
    KidIn(Links(all), s, t, k);
    var parent := before.parent;
    var prev := FindLink(parent, before, all, s, t, k);
    if prev == null { parent.firstChild := cn; } else { prev.next := cn; }
    cn.parent := parent;
    cn.next := before;
  }

  /** unlink_node */
  method UnlinkNode(cn: CnfNode, ghost all: set<CnfNode>, ghost s: Shape, ghost t: Node, ghost k: nat)
    requires Holds(Links(all), s, t) && Apart(s) && k < |s.kids| && s.kids[k].node == cn
    modifies all
    ensures cn in all && (k > 0 ==> s.kids[k - 1].node in all)
    ensures Links(all) == LinkRemove(old(Links(all)), s, k)
  {
    KidIn(Links(all), s, t, k);
    var parent := cn.parent;
    var prev := FindLink(parent, cn, all, s, t, k);
    if prev == null { parent.firstChild := cn.next; } else { prev.next := cn.next; }
  }
}
