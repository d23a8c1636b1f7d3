/** Traversal of a configuration tree: cnfnode_walk_step visits the nodes in preorder, each exactly once. */
module CnfWalk {
  import opened CnfTree
  import opened CnfNodes

  /** The nodes of a tree, parents first. */
  ghost function Pre(s: Shape): (p: seq<CnfNode>)
    ensures |p| > 0 && p[0] == s.node
    decreases s, 1
  {
    [s.node] + PreAll(s.kids)
  }

  ghost function PreAll(kids: seq<Shape>): seq<CnfNode>
    decreases kids, 0
  {
    if kids == [] then [] else Pre(kids[0]) + PreAll(kids[1..])
  }

  /** The subtree whose root is the j-th node in preorder. */
  ghost function SubAt(s: Shape, j: nat): Shape
    requires j < |Pre(s)|
    decreases s, 1
  {
    if j == 0 then s else SubAtAll(s.kids, j - 1)
  }

  ghost function SubAtAll(kids: seq<Shape>, j: nat): Shape
    requires j < |PreAll(kids)|
    decreases kids, 0
  {
    if j < |Pre(kids[0])| then SubAt(kids[0], j) else SubAtAll(kids[1..], j - |Pre(kids[0])|)
  }

  /** The position just behind the subtree of the j-th node. */
  ghost function End(s: Shape, j: nat): nat
    requires j < |Pre(s)|
  {
    j + |Pre(SubAt(s, j))|
  }

  // ----- preorder lists every node once

  ghost predicate NoRepeat(p: seq<CnfNode>) {
    forall i, j :: 0 <= i < j < |p| ==> p[i] != p[j]
  }

  ghost function NodesOf(p: seq<CnfNode>): set<CnfNode> {
    set n | n in p
  }

  lemma NodesOfAppend(a: seq<CnfNode>, b: seq<CnfNode>)
    ensures NodesOf(a + b) == NodesOf(a) + NodesOf(b)
  {
  }

  lemma {:induction false} PreNodes(s: Shape)
    ensures NodesOf(Pre(s)) == Footprint(s)
    decreases s, 1
  {
    PreAllNodes(s.kids);
    NodesOfAppend([s.node], PreAll(s.kids));
    assert NodesOf([s.node]) == {s.node};
  }

  lemma {:induction false} PreAllNodes(kids: seq<Shape>)
    ensures NodesOf(PreAll(kids)) == Forest(kids)
    decreases kids, 0
  {
    if kids != [] {
      PreNodes(kids[0]);
      PreAllNodes(kids[1..]);
      NodesOfAppend(Pre(kids[0]), PreAll(kids[1..]));
    }
  }

  lemma {:induction false} PreNoRepeat(s: Shape)
    requires Apart(s)
    ensures NoRepeat(Pre(s))
    decreases s, 1
  {
    PreAllNodes(s.kids);
    PreAllNoRepeat(s.kids);
    assert NodesOf([s.node]) == {s.node};
    NoRepeatAppend([s.node], PreAll(s.kids));
  }

  lemma NoRepeatAppend(a: seq<CnfNode>, b: seq<CnfNode>)
    requires NoRepeat(a) && NoRepeat(b) && NodesOf(a) !! NodesOf(b)
    ensures NoRepeat(a + b)
  {
    forall i, j | 0 <= i < j < |a + b| ensures (a + b)[i] != (a + b)[j] {
      if i < |a| {
        assert (a + b)[i] in NodesOf(a);
        assert j >= |a| ==> (a + b)[j] in NodesOf(b);
      } else {
        assert b[i - |a|] != b[j - |a|];
      }
    }
  }

  lemma {:induction false} PreAllNoRepeat(kids: seq<Shape>)
    requires forall i :: 0 <= i < |kids| ==> Apart(kids[i])
    requires forall i, j :: 0 <= i < j < |kids| ==> Footprint(kids[i]) !! Footprint(kids[j])
    ensures NoRepeat(PreAll(kids))
    decreases kids, 0
  {
    if kids != [] {
      PreNoRepeat(kids[0]);
      PreNodes(kids[0]);
      PreAllNoRepeat(kids[1..]);
      PreAllNodes(kids[1..]);
      ForestApart(Footprint(kids[0]), kids[1..]);
      NoRepeatAppend(Pre(kids[0]), PreAll(kids[1..]));
    }
  }

  // ----- where parents, children and siblings stand in preorder

  /** Position `q` of child `c` is position off + q of the whole list. */
  ghost predicate SpanAt(kids: seq<Shape>, c: nat, off: nat, q: nat)
    requires c < |kids| && q < |Pre(kids[c])|
  {
    && off + q < |PreAll(kids)|
    && PreAll(kids)[off + q] == Pre(kids[c])[q] && SubAtAll(kids, off + q) == SubAt(kids[c], q)
  }

  /** Behind child `c` comes the next child. */
  ghost predicate NextKid(kids: seq<Shape>, c: nat, off: nat)
    requires c < |kids|
  {
    var e := off + |Pre(kids[c])|;
    if c + 1 < |kids| then e < |PreAll(kids)| && PreAll(kids)[e] == kids[c + 1].node else e == |PreAll(kids)|
  }

  /** The nodes of child `c` occupy the positions from `off` on. */
  ghost predicate Span(kids: seq<Shape>, c: nat, off: nat) {
    && c < |kids| && off + |Pre(kids[c])| <= |PreAll(kids)|
    && (forall q :: 0 <= q < |Pre(kids[c])| ==> SpanAt(kids, c, off, q))
    && NextKid(kids, c, off)
  }

  /** Every position in a list of children belongs to one of them. */
  lemma {:induction false} FindKid(kids: seq<Shape>, j: nat) returns (c: nat, off: nat)
    requires j < |PreAll(kids)|
    ensures Span(kids, c, off) && off <= j < off + |Pre(kids[c])|
    decreases kids
  {
    var n := |Pre(kids[0])|;
    if j < n {
      c, off := 0, 0;
      SpanFirst(kids);
    } else {
      var c', off' := FindKid(kids[1..], j - n);
      c, off := c' + 1, off' + n;
      SpanLater(kids, c', off');
    }
  }

  lemma SpanFirst(kids: seq<Shape>)
    requires kids != []
    ensures Span(kids, 0, 0)
  {
    assert forall q :: 0 <= q < |Pre(kids[0])| ==> SpanAt(kids, 0, 0, q);
    if |kids| > 1 { assert PreAll(kids[1..]) == Pre(kids[1..][0]) + PreAll(kids[1..][1..]); }
  }

  lemma SpanLater(kids: seq<Shape>, c: nat, off: nat)
    requires kids != [] && Span(kids[1..], c, off)
    ensures Span(kids, c + 1, off + |Pre(kids[0])|)
  {
    var n, rest := |Pre(kids[0])|, kids[1..];
    var c1: nat, off1: nat := c + 1, off + n;
    assert rest[c] == kids[c1];
    forall q | 0 <= q < |Pre(kids[c1])| ensures SpanAt(kids, c1, off1, q) {
      assert SpanAt(rest, c, off, q);
      SpanAtLater(kids, c, off, q);
    }
    NextKidLater(kids, c, off);
  }

  lemma SpanAtLater(kids: seq<Shape>, c: nat, off: nat, q: nat)
    requires kids != [] && c < |kids[1..]| && q < |Pre(kids[1..][c])| && SpanAt(kids[1..], c, off, q)
    ensures q < |Pre(kids[c + 1])| && SpanAt(kids, c + 1, off + |Pre(kids[0])|, q)
  {
    assert kids[1..][c] == kids[c + 1];
    assert PreAll(kids)[|Pre(kids[0])| + (off + q)] == PreAll(kids[1..])[off + q];
  }

  lemma NextKidLater(kids: seq<Shape>, c: nat, off: nat)
    requires kids != [] && c < |kids[1..]| && NextKid(kids[1..], c, off)
    ensures NextKid(kids, c + 1, off + |Pre(kids[0])|)
  {
    assert kids[1..][c] == kids[c + 1];
    assert PreAll(kids) == Pre(kids[0]) + PreAll(kids[1..]);
  }

  /** What the links of a node other than the root mean: `p` is its parent, at position `i`, and it is child `c`
      of it; the next sibling, if any, comes right behind its subtree, and otherwise its subtree ends where that
      of its parent ends. */
  ghost predicate Placed(m: Heap, s: Shape, j: nat, i: nat, c: nat)
    requires i < |Pre(s)| && j < |Pre(s)|
  {
    var p, x := SubAt(s, i), SubAt(s, j);
    && i < j && c < |p.kids| && x == p.kids[c] && x.node in m && x.node == Pre(s)[j]
    && m[x.node].parent == p.node == Pre(s)[i]
    && m[x.node].next == NodeAt(p.kids, c + 1)
    && if c + 1 < |p.kids| then End(s, j) < |Pre(s)| && Pre(s)[End(s, j)] == p.kids[c + 1].node
       else End(s, j) == End(s, i)
  }

  lemma {:induction false} Place(m: Heap, s: Shape, t: Node, j: nat) returns (i: nat, c: nat)
    requires Holds(m, s, t) && 0 < j < |Pre(s)|
    ensures i < |Pre(s)| && Placed(m, s, j, i, c)
    decreases s
  {
    var k, off := FindKid(s.kids, j - 1);
    KidIn(m, s, t, k);
    ShiftedKid(s, k, off);
    if j - 1 == off {
      i, c := 0, k;
      PlacedBelowRoot(m, s, t, k, off);
    } else {
      var i', c' := Place(m, s.kids[k], t.children[k], j - 1 - off);
      i, c := 1 + off + i', c';
      ShiftPlaced(m, s, k, off, j - 1 - off, i', c');
    }
  }

  /** The positions of child `k` of `s` are those of its own preorder, moved by 1 + off. */
  ghost predicate Shifted(s: Shape, k: nat, off: nat) {
    && k < |s.kids| && 1 + off + |Pre(s.kids[k])| <= |Pre(s)|
    && forall q :: 0 <= q < |Pre(s.kids[k])| ==> ShiftedAt(s, k, off, q)
  }

  ghost predicate ShiftedAt(s: Shape, k: nat, off: nat, q: nat)
    requires k < |s.kids| && q < |Pre(s.kids[k])|
  {
    && 1 + off + q < |Pre(s)|
    && Pre(s)[1 + off + q] == Pre(s.kids[k])[q] && SubAt(s, 1 + off + q) == SubAt(s.kids[k], q)
  }

  lemma ShiftedKid(s: Shape, k: nat, off: nat)
    requires Span(s.kids, k, off)
    ensures Shifted(s, k, off)
  {
    forall q | 0 <= q < |Pre(s.kids[k])| ensures ShiftedAt(s, k, off, q) {
      assert SpanAt(s.kids, k, off, q);
      assert Pre(s)[1 + (off + q)] == PreAll(s.kids)[off + q];
    }
  }

  lemma PlacedBelowRoot(m: Heap, s: Shape, t: Node, k: nat, off: nat)
    requires Holds(m, s, t) && Shifted(s, k, off) && Span(s.kids, k, off)
    ensures Placed(m, s, 1 + off, 0, k)
  {
    KidIn(m, s, t, k);
    assert ShiftedAt(s, k, off, 0);
  }

  lemma ShiftPlaced(m: Heap, s: Shape, k: nat, off: nat, j: nat, i: nat, c: nat)
    requires Shifted(s, k, off) && i < |Pre(s.kids[k])| && j < |Pre(s.kids[k])|
    requires Placed(m, s.kids[k], j, i, c)
    ensures Placed(m, s, 1 + off + j, 1 + off + i, c)
  {
    var kid := s.kids[k];
    assert ShiftedAt(s, k, off, j) && ShiftedAt(s, k, off, i);
    if c + 1 < |SubAt(kid, i).kids| { assert ShiftedAt(s, k, off, End(kid, j)); }
  }

  /** Every subtree is held, and its nodes stand together. */
  lemma {:induction false} SubHolds(m: Heap, s: Shape, t: Node, j: nat) returns (u: Node)
    requires Holds(m, s, t) && j < |Pre(s)|
    ensures Holds(m, SubAt(s, j), u) && SubAt(s, j).node == Pre(s)[j] && End(s, j) <= |Pre(s)|
    ensures SubAt(s, j).kids != [] ==> j + 1 < |Pre(s)| && Pre(s)[j + 1] == SubAt(s, j).kids[0].node
    decreases s
  {
    if j == 0 {
      u := t;
      if s.kids != [] { assert PreAll(s.kids) == Pre(s.kids[0]) + PreAll(s.kids[1..]); }
    } else {
      var k, off := FindKid(s.kids, j - 1);
      var q: nat := j - 1 - off;
      KidIn(m, s, t, k);
      ShiftedKid(s, k, off);
      u := SubHolds(m, s.kids[k], t.children[k], q);
      assert ShiftedAt(s, k, off, q);
      if SubAt(s, j).kids != [] { assert ShiftedAt(s, k, off, q + 1); }
    }
  }

  /** cnfnode_walk_step: from the k-th node in preorder to the next one, or to null. */
  method WalkStep(start: CnfNode, ghost all: set<CnfNode>, ghost s: Shape, ghost t: Node, ghost k: nat)
    returns (r: CnfNode?)
    requires Holds(Links(all), s, t) && s.node.parent == null && s.node.next == null
    requires k < |Pre(s)| && Pre(s)[k] == start
    ensures r == if k + 1 < |Pre(s)| then Pre(s)[k + 1] else null
  {
    ghost var m := Links(all);
    ghost var u := SubHolds(m, s, t, k);
    ghost var i, c;
    var cn := start;
    if cn.firstChild != null { return cn.firstChild; }
    assert Pre(SubAt(s, k)) == [start];
    if k > 0 { i, c := Place(m, s, t, k); }
    if cn.next != null { return cn.next; }
    if cn.parent != null {
      ghost var j: nat := k;
      while cn.parent != null && cn.next == null
        invariant j < |Pre(s)| && cn == Pre(s)[j] && cn in all && End(s, j) == k + 1
        decreases j
      {
        i, c := Place(m, s, t, j);
        u := SubHolds(m, s, t, i);
        cn, j := cn.parent, i;
      }
      if j > 0 { i, c := Place(m, s, t, j); }
      return cn.next;
    }
    return null;
  }

  /** Stepping from the root until null visits exactly the nodes of the tree, each once, in preorder. */
  method Walk(root: CnfNode, ghost all: set<CnfNode>, ghost s: Shape, ghost t: Node) returns (visited: seq<CnfNode>)
    requires Holds(Links(all), s, t) && Apart(s) && s.node == root && root.parent == null && root.next == null
    ensures visited == Pre(s) && NoRepeat(visited) && NodesOf(visited) == Footprint(s)
  {
    PreNoRepeat(s);
    PreNodes(s);
    visited := [];
    var cn: CnfNode? := root;
    while cn != null
      invariant |visited| <= |Pre(s)| && visited == Pre(s)[..|visited|]
      invariant if |visited| < |Pre(s)| then cn == Pre(s)[|visited|] else cn == null
      decreases |Pre(s)| - |visited|
    {
      ghost var k := |visited|;
      visited := visited + [cn];
      cn := WalkStep(cn, all, s, t, k);
    }
  }
}
