/** Nodes deep inside a tree on the heap: a change below one node is a change at one place of the tree. */
module CnfPlaces {
  import opened CnfTree
  import opened CnfNodes
  import opened CnfBuild
  import opened CnfPaths

  ghost predicate InShape(s: Shape, p: Place)
    decreases p
  {
    p == [] || (p[0] < |s.kids| && InShape(s.kids[p[0]], p[1..]))
  }

  ghost function ShapeAt(s: Shape, p: Place): Shape
    requires InShape(s, p)
    decreases p
  {
    if p == [] then s else ShapeAt(s.kids[p[0]], p[1..])
  }

  ghost function ReplaceShape(s: Shape, p: Place, c: Shape): Shape
    requires InShape(s, p)
    decreases p
  {
    if p == [] then c else Shape(s.node, s.kids[p[0] := ReplaceShape(s.kids[p[0]], p[1..], c)])
  }

  /** The node at a place of the tree. */
  lemma {:induction false} PlaceHolds(m: Heap, s: Shape, t: Node, p: Place)
    requires Holds(m, s, t) && InTree(t, p)
    ensures InShape(s, p) && Holds(m, ShapeAt(s, p), TreeAt(t, p)) && ShapeAt(s, p).node in m
    ensures Footprint(ShapeAt(s, p)) <= Footprint(s)
    decreases p
  {
    if p != [] {
      KidIn(m, s, t, p[0]);
      PlaceHolds(m, s.kids[p[0]], t.children[p[0]], p[1..]);
    }
  }

  lemma {:induction false} PlaceApart(s: Shape, p: Place)
    requires Apart(s) && InShape(s, p)
    ensures Apart(ShapeAt(s, p))
    ensures Footprint(ShapeAt(s, p)) <= Footprint(s) && (p != [] ==> Footprint(ShapeAt(s, p)) <= Below(s))
    decreases p
  {
    if p != [] { PlaceApart(s.kids[p[0]], p[1..]); }
  }

  ghost predicate Replaced(m': Heap, s: Shape, t: Node, p: Place, c: Shape, u: Node)
    requires InShape(s, p) && InTree(t, p)
  {
    var s' := ReplaceShape(s, p, c);
    && Holds(m', s', ReplaceAt(t, p, u)) && Apart(s') && s'.node == s.node
    && Footprint(s') == (Footprint(s) - Footprint(ShapeAt(s, p))) + Footprint(c)
  }

  /** Rebuilding the tree below one node replaces it at its place. */
  lemma {:induction false} ReplaceDeep(m: Heap, m': Heap, s: Shape, t: Node, p: Place, c: Shape, u: Node)
    requires Holds(m, s, t) && Apart(s) && InTree(t, p) && InShape(s, p)
    requires Rebuilt(m, m', ShapeAt(s, p), c) && Apart(c) && Holds(m', c, u)
    ensures Replaced(m', s, t, p, c, u)
    decreases p
  {
    if p != [] {
      var k, kid := p[0], s.kids[p[0]];
      KidIn(m, s, t, k);
      HoldsInside(m, s, t);
      ReplaceDeep(m, m', kid, t.children[k], p[1..], c, u);
      var c' := ReplaceShape(kid, p[1..], c);
      PlaceApart(kid, p[1..]);
      RebuiltKid(m, m', kid, p[1..], c);
      ReplaceKid(m, m', s, t, k, c', ReplaceAt(t.children[k], p[1..], u));
      ReplaceApart(s, k, c');
      KidsApart(s);
      PlaceApart(s, p);
    }
  }

  lemma RebuiltKid(m: Heap, m': Heap, s: Shape, p: Place, c: Shape)
    requires Apart(s) && InShape(s, p) && Footprint(s) <= m.Keys
    requires Rebuilt(m, m', ShapeAt(s, p), c)
    requires Footprint(ReplaceShape(s, p, c)) == (Footprint(s) - Footprint(ShapeAt(s, p))) + Footprint(c)
    ensures Rebuilt(m, m', s, ReplaceShape(s, p, c))
  {
    PlaceApart(s, p);
  }

  // ----- one step further down

  lemma {:induction false} ReplaceBySame(t: Node, p: Place)
    requires InTree(t, p)
    ensures ReplaceAt(t, p, TreeAt(t, p)) == t
    decreases p
  {
    if p != [] {
      ReplaceBySame(t.children[p[0]], p[1..]);
      assert t.children[p[0] := t.children[p[0]]] == t.children;
    }
  }

  lemma {:induction false} OneDown(t: Node, p: Place, u: Node, k: nat, w: Node)
    requires InTree(t, p) && k < |u.children|
    ensures var t' := ReplaceAt(t, p, u);
            && InTree(t', p) && InTree(t', p + [k]) && TreeAt(t', p) == u && TreeAt(t', p + [k]) == u.children[k]
            && ReplaceAt(t', p + [k], w) == ReplaceAt(t, p, u.(children := u.children[k := w]))
    decreases p
  {
    if p == [] {
      assert [] + [k] == [k] && [k][1..] == [];
    } else {
      OneDown(t.children[p[0]], p[1..], u, k, w);
      assert (p + [k])[1..] == p[1..] + [k];
    }
  }

  lemma {:induction false} ShapeOneDown(s: Shape, p: Place, k: nat)
    requires InShape(s, p) && k < |ShapeAt(s, p).kids|
    ensures InShape(s, p + [k]) && ShapeAt(s, p + [k]) == ShapeAt(s, p).kids[k]
    decreases p
  {
    if p == [] {
      assert [] + [k] == [k] && [k][1..] == [];
    } else {
      ShapeOneDown(s.kids[p[0]], p[1..], k);
      assert (p + [k])[1..] == p[1..] + [k];
    }
  }

  lemma {:induction false} ReplacedShape(s: Shape, p: Place, c: Shape)
    requires InShape(s, p)
    ensures InShape(ReplaceShape(s, p, c), p) && ShapeAt(ReplaceShape(s, p, c), p) == c
    decreases p
  {
    if p != [] { ReplacedShape(s.kids[p[0]], p[1..], c); }
  }

  /** Linking a new node behind the last child rebuilds the tree of the parent. */
  lemma AppendRebuilds(m: Heap, s: Shape, t: Node, c: Shape, u: Node, m0: Heap)
    requires Holds(m, s, t) && Apart(s) && Holds(m, c, u) && Apart(c) && Footprint(s) !! Footprint(c)
    requires c.kids == [] && m0.Keys == m.Keys - {c.node} && forall n :: n in m0 ==> m0[n] == m[n]
    ensures s.kids != [] ==> s.kids[|s.kids| - 1].node in m
    ensures var m' := LinkAppend(m, s, c.node);
            Rebuilt(m0, m', s, WithKid(s, c)) && Apart(WithKid(s, c)) && Holds(m', WithKid(s, c), WithChild(t, u))
  {
    AppendHolds(m, s, t, c, u);
    AppendKeepsRootLinks(m, s, t, c.node);
    ApartAppend(s, c);
    LeafShape(c.node);
    assert c == Shape(c.node, []);
    HoldsInside(m, s, t);
    LastKidInside(s);
  }

  lemma LastKidInside(s: Shape)
    ensures s.kids != [] ==> s.kids[|s.kids| - 1].node in Footprint(s)
  {
    if s.kids != [] {
      assert s.kids[|s.kids| - 1].node in Footprint(s.kids[|s.kids| - 1]);
    }
  }
}
