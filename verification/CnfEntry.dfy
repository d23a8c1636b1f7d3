/** llconf/entry.c on the heap: finding, reading and setting entries by path. */
module CnfEntry {
  import opened Wrappers
  import opened CnfTree
  import opened CnfNodes
  import opened CnfBuild
  import opened CnfCompare
  import opened CnfPaths
  import opened CnfPlaces
  import opened CnfSetting

  /** The loop that copies one name of a path into a buffer. */
  method ReadName(path: string, p: nat) returns (name: string, q: nat)
    requires p <= |path|
    ensures p <= q <= |path| && name == TakeName(path[p..]) && path[q..] == DropName(path[p..])
  {
    name, q := "", p;
    while q < |path| && path[q] != '/'
      invariant p <= q <= |path|
      invariant TakeName(path[p..]) == name + TakeName(path[q..]) && DropName(path[q..]) == DropName(path[p..])
    {
      assert path[q..][1..] == path[q + 1..];
      name := name + [path[q]];
      q := q + 1;
    }
  }

  // ----- finding

  ghost function NodeOf(s: Shape, p: Place): CnfNode?
    decreases p
  {
    if p == [] then s.node else if p[0] < |s.kids| then NodeOf(s.kids[p[0]], p[1..]) else null
  }

  /** `found` are the nodes at `places`. */
  ghost predicate NodesAt(found: seq<CnfNode>, s: Shape, places: seq<Place>) {
    |found| == |places| && forall k :: 0 <= k < |found| ==> found[k] == NodeOf(s, places[k])
  }

  lemma NodesUnder(found: seq<CnfNode>, s: Shape, i: nat, places: seq<Place>)
    requires i < |s.kids| && NodesAt(found, s.kids[i], places)
    ensures NodesAt(found, s, Under(i, places))
  {
    forall k | 0 <= k < |found| ensures found[k] == NodeOf(s, Under(i, places)[k]) {
      assert ([i] + places[k])[1..] == places[k];
    }
  }

  /** _cnf_find_entry: the result is appended to `found`. */
  method FindEntries(found: seq<CnfNode>, cn_parent: CnfNode, path: string, p: nat, first: bool,
                     ghost all: set<CnfNode>, ghost s: Shape, ghost t: Node)
    returns (found': seq<CnfNode>)
    requires PlainText(path) && p <= |path| && s.node == cn_parent && Holds(Links(all), s, t)
    ensures found <= found' && NodesAt(found'[|found|..], s, Matches(t, Components(path[p..]), first))
    decreases |path| - p, 0
  {
    DropNameShorter(path[p..]);
    var dname, q := ReadName(path, p);
    if q < |path| && path[q] == '/' && q + 1 < |path| {
      assert path[q..][1..] == path[q + 1..];
      found' := FindBelow(found, cn_parent, dname, path, q + 1, first, all, s, t);
    } else {
      found' := FindHere(found, cn_parent, dname, first, all, s, t);
    }
  }

  lemma BelowStep(t: Node, i: nat, dname: string, rest: seq<string>, first: bool, done: seq<Place>)
    requires i < |t.children| && rest != []
    ensures var names := [dname] + rest;
            var here := if t.children[i].name == dname then Under(i, Matches(t.children[i], rest, first)) else [];
            done + MatchesFrom(t, i, names, first) == (done + here) + MatchesFrom(t, i + 1, names, first)
  {
    assert ([dname] + rest)[1..] == rest;
  }

  /** The loop for a name that is not the last one. */
  method FindBelow(found: seq<CnfNode>, cn_parent: CnfNode, dname: string, path: string, p: nat, first: bool,
                   ghost all: set<CnfNode>, ghost s: Shape, ghost t: Node)
    returns (found': seq<CnfNode>)
    requires PlainText(path) && p <= |path| && s.node == cn_parent && Holds(Links(all), s, t)
    ensures found <= found' && NodesAt(found'[|found|..], s, Matches(t, [dname] + Components(path[p..]), first))
    decreases |path| - p, 1
  {
    ghost var m, rest := Links(all), Components(path[p..]);
    ghost var names := [dname] + rest;
    ghost var done: seq<Place> := [];
    ghost var i := 0;
    found' := found;
    var cn := cn_parent.firstChild;
    KidPoints(m, s, t, 0);
    while cn != null
      invariant i <= |s.kids| && cn == NodeAt(s.kids, i) && Links(all) == m
      invariant found <= found' && NodesAt(found'[|found|..], s, done)
      invariant done + MatchesFrom(t, i, names, first) == Matches(t, names, first)
      decreases |s.kids| - i
    {
      KidPoints(m, s, t, i);
      KidIn(m, s, t, i);
      BelowStep(t, i, dname, rest, first, done);
      if cn.name == dname {
        ghost var before, places := found', Matches(t.children[i], rest, first);
        found' := FindEntries(found', cn, path, p, first, all, s.kids[i], t.children[i]);
        NodesUnder(found'[|before|..], s, i, places);
        NodesAppend(found, before, found', s, done, Under(i, places));
        done := done + Under(i, places);
      } else {
        assert done + [] == done;
      }
      cn := cn.next;
      i := i + 1;
    }
    assert done == Matches(t, names, first);
  }

  lemma NodesAppend(found: seq<CnfNode>, before: seq<CnfNode>, found': seq<CnfNode>, s: Shape,
                    a: seq<Place>, b: seq<Place>)
    requires found <= before <= found' && NodesAt(before[|found|..], s, a) && NodesAt(found'[|before|..], s, b)
    ensures NodesAt(found'[|found|..], s, a + b)
  {
    assert found'[|found|..] == before[|found|..] + found'[|before|..];
  }

  /** The loop for the last name. */
  method FindHere(found: seq<CnfNode>, cn_parent: CnfNode, dname: string, first: bool,
                  ghost all: set<CnfNode>, ghost s: Shape, ghost t: Node)
    returns (found': seq<CnfNode>)
    requires s.node == cn_parent && Holds(Links(all), s, t)
    ensures found <= found' && NodesAt(found'[|found|..], s, Matches(t, [dname], first))
  {
    ghost var m := Links(all);
    ghost var done: seq<Place> := [];
    ghost var i := 0;
    found' := found;
    var cn := cn_parent.firstChild;
    KidPoints(m, s, t, 0);
    while cn != null
      invariant i <= |s.kids| && cn == NodeAt(s.kids, i) && Links(all) == m
      invariant found <= found' && NodesAt(found'[|found|..], s, done)
      invariant done + MatchesFrom(t, i, [dname], first) == Matches(t, [dname], first)
      decreases |s.kids| - i
    {
      KidPoints(m, s, t, i);
      KidIn(m, s, t, i);
      if cn.name == dname {
        NodesAppend(found, found', found' + [cn], s, done, [[i]]);
        found' := found' + [cn];
        done := done + [[i]];
        if first { return; }
      }
      cn := cn.next;
      i := i + 1;
    }
  }

  /** Where a path leads first: "." is the root. */
  function Lookup(t: Node, path: string): Option<Place> {
    if path == "." then Some([]) else First(t, Components(path))
  }

  /** cnf_get_node */
  method GetNode(root: CnfNode, path: string, ghost all: set<CnfNode>, ghost s: Shape, ghost t: Node)
    returns (cn: CnfNode?)
    requires PlainText(path) && s.node == root && Holds(Links(all), s, t)
    ensures match Lookup(t, path)
            case None => cn == null
            case Some(p) => cn != null && cn == NodeOf(s, p)
  {
    if path == "." { return root; }
    var found := FindEntries([], root, path, 0, true, all, s, t);
    assert path[0..] == path && found[0..] == found;
    FirstMatch(t, 0, Components(path), true);
    return if found == [] then null else found[0];
  }

  /** cnf_get_entry on a path as text. */
  function GetPath(t: Node, path: string): Option<string> {
    if path == "." then t.value else Get(t, Components(path))
  }

  lemma {:induction false} NodeOfShape(s: Shape, p: Place)
    requires InShape(s, p)
    ensures NodeOf(s, p) == ShapeAt(s, p).node
    decreases p
  {
    if p != [] { NodeOfShape(s.kids[p[0]], p[1..]); }
  }

  /** Where a path leads, there is a node, and it has the value that the path reads. */
  lemma LookupReads(t: Node, path: string)
    ensures match Lookup(t, path)
            case None => GetPath(t, path) == None
            case Some(p) => InTree(t, p) && GetPath(t, path) == TreeAt(t, p).value
  {
    if path != "." { ReadsFirst(t, 0, Components(path)); }
  }

  /** cnf_get_entry */
  method GetEntry(root: CnfNode, path: string, ghost all: set<CnfNode>, ghost s: Shape, ghost t: Node)
    returns (value: Option<string>)
    requires PlainText(path) && s.node == root && Holds(Links(all), s, t)
    ensures value == GetPath(t, path)
  {
    var cn := GetNode(root, path, all, s, t);
    LookupReads(t, path);
    if cn == null { return None; }
    ghost var p := Lookup(t, path).value;
    PlaceHolds(Links(all), s, t, p);
    NodeOfShape(s, p);
    return cn.value;
  }

  // ----- setting

  /** cnfnode_setval on a node inside a tree. */
  method SetValue(cn: CnfNode, val: string, ghost s: Shape, ghost f: set<CnfNode>, ghost t: Node, ghost p: Place)
    returns (ghost s': Shape)
    requires TreeOn(s, f, t) && InTree(t, p) && cn == NodeOf(s, p)
    modifies f
    ensures s'.node == s.node && TreeOn(s', f, SetAt(t, p, val))
    ensures cn.parent == old(cn.parent) && cn.next == old(cn.next)
  {
    ghost var m := Links(f);
    PlaceHolds(m, s, t, p);
    NodeOfShape(s, p);
    PlaceApart(s, p);
    ghost var c := ShapeAt(s, p);
    cn.value := Some(val);
    ghost var m' := Links(f);
    ValueSet(m, m', c, TreeAt(t, p), val);
    ReplaceDeep(m, m', s, t, p, c, WithValue(TreeAt(t, p), val));
    s' := ReplaceShape(s, p, c);
  }

  lemma ValueSet(m: Heap, m': Heap, c: Shape, u: Node, val: string)
    requires Holds(m, c, u) && Apart(c) && Footprint(c) <= m.Keys
    requires m' == m[c.node := m[c.node].(value := Some(val))]
    ensures Rebuilt(m, m', c, c) && Holds(m', c, WithValue(u, val))
  {
    KidsApart(c);
    forall i | 0 <= i < |c.kids| ensures KidHolds(m', c, i, u.children[i]) {
      KidIn(m, c, u, i);
      HoldsFrame(m, m', c.kids[i], u.children[i]);
    }
  }

  /** append_node of a new node, somewhere in a tree. */
  method AppendBelow(parent: CnfNode, name: string,
                     ghost s: Shape, ghost f: set<CnfNode>, ghost t: Node, ghost p: Place)
    returns (cn: CnfNode, ghost s': Shape, ghost f': set<CnfNode>)
    requires TreeOn(s, f, t) && InTree(t, p) && InShape(s, p) && parent == ShapeAt(s, p).node
    modifies f
    ensures f <= f' && fresh(f' - f) && s'.node == s.node
    ensures TreeOn(s', f', ReplaceAt(t, p, WithChild(TreeAt(t, p), Node(name, None, []))))
    ensures InShape(s', p + [|TreeAt(t, p).children|]) && cn == ShapeAt(s', p + [|TreeAt(t, p).children|]).node
  {
    ghost var c, g;
    cn, c, g := NewLeaf(name, None);
    ghost var sub, u, leaf := ShapeAt(s, p), TreeAt(t, p), Node(name, None, []);
    ghost var m0, m := Links(f), Links(f + g);
    LeafShape(cn);
    assert c == Shape(cn, []);
    HoldsWider(Links(g), m, c, leaf);
    ParentReady(m0, m, s, t, p, c, leaf);
    AppendNode(parent, cn, f + g, sub, u);
    AttachBelow(m0, m, Links(f + g), s, t, p, c, leaf);
    s', f' := ReplaceShape(s, p, WithKid(sub, c)), f + g;
    KidAppendedBelow(s, p, c);
  }

  /** A new node `c` beside the tree of `s`: `m0` are the links without it, `m` with it. */
  ghost predicate Beside(m0: Heap, m: Heap, s: Shape, t: Node, c: Shape, leaf: Node) {
    && TreeIn(m0, s, m0.Keys, t) && c.kids == [] && c.node !in m0 && Holds(m, c, leaf)
    && m.Keys == m0.Keys + {c.node} && forall n :: n in m0 ==> m[n] == m0[n]
  }

  lemma ParentReady(m0: Heap, m: Heap, s: Shape, t: Node, p: Place, c: Shape, leaf: Node)
    requires Beside(m0, m, s, t, c, leaf) && InTree(t, p) && InShape(s, p)
    ensures var sub, u := ShapeAt(s, p), TreeAt(t, p);
            && Holds(m, sub, u) && Apart(sub) && Footprint(sub) <= m0.Keys && |sub.kids| == |u.children|
            && (sub.kids != [] ==> sub.kids[|sub.kids| - 1].node in m) && sub.node in m
  {
    PlaceHolds(m0, s, t, p);
    PlaceApart(s, p);
    HoldsWider(m0, m, ShapeAt(s, p), TreeAt(t, p));
    LastKidIn(m, ShapeAt(s, p), TreeAt(t, p));
  }

  lemma AttachBelow(m0: Heap, m: Heap, m': Heap, s: Shape, t: Node, p: Place, c: Shape, leaf: Node)
    requires Beside(m0, m, s, t, c, leaf) && InTree(t, p) && InShape(s, p)
    requires var sub, u := ShapeAt(s, p), TreeAt(t, p);
             && Holds(m, sub, u) && Apart(sub) && Footprint(sub) <= m0.Keys
             && (sub.kids != [] ==> sub.kids[|sub.kids| - 1].node in m) && sub.node in m
             && m' == LinkAppend(m, sub, c.node)
    ensures var s' := ReplaceShape(s, p, WithKid(ShapeAt(s, p), c));
            TreeIn(m', s', m.Keys, ReplaceAt(t, p, WithChild(TreeAt(t, p), leaf))) && s'.node == s.node
  {
    var sub, u := ShapeAt(s, p), TreeAt(t, p);
    LeafShape(c.node);
    assert c == Shape(c.node, []);
    AppendRebuilds(m, sub, u, c, leaf, m0);
    ApartAppend(sub, c);
    ReplaceDeep(m0, m', s, t, p, WithKid(sub, c), WithChild(u, leaf));
  }

  /** TreeOn, for links looked at as a value. */
  ghost predicate TreeIn(m: Heap, s: Shape, f: set<CnfNode>, t: Node) {
    Footprint(s) == f && Apart(s) && Holds(m, s, t)
  }

  lemma KidAppendedBelow(s: Shape, p: Place, c: Shape)
    requires InShape(s, p)
    ensures var sub := ShapeAt(s, p);
            var s' := ReplaceShape(s, p, WithKid(sub, c));
            InShape(s', p + [|sub.kids|]) && ShapeAt(s', p + [|sub.kids|]) == c
  {
    var sub := ShapeAt(s, p);
    ReplacedShape(s, p, WithKid(sub, c));
    ShapeOneDown(ReplaceShape(s, p, WithKid(sub, c)), p, |sub.kids|);
  }

  /** The tree in which a node has a child of a name. */
  function WithNamed(u: Node, name: string): (u': Node)
    ensures IndexOf(u.children, 0, name) < |u'.children|
  {
    if IndexOf(u.children, 0, name) < |u.children| then u else WithChild(u, Node(name, None, []))
  }

  /** The search for a child of a name. */
  method FindChild(parent: CnfNode, dname: string, ghost all: set<CnfNode>, ghost s: Shape, ghost t: Node)
    returns (cn: CnfNode?)
    requires s.node == parent && Holds(Links(all), s, t)
    ensures cn == NodeAt(s.kids, IndexOf(t.children, 0, dname))
  {
    cn := parent.firstChild;
    ghost var m := Links(all);
    ghost var i := 0;
    KidPoints(m, s, t, 0);
    while cn != null
      invariant i <= |s.kids| && cn == NodeAt(s.kids, i)
      invariant IndexOf(t.children, 0, dname) == IndexOf(t.children, i, dname)
      decreases |s.kids| - i
    {
      KidPoints(m, s, t, i);
      KidIn(m, s, t, i);
      if cn.name == dname { return; }
      cn := cn.next;
      i := i + 1;
    }
  }

  /** One turn of the loop of cnf_add_branch: the child of that name, which is appended if there is none. */
  method Descend(parent: CnfNode, dname: string, ghost s: Shape, ghost f: set<CnfNode>, ghost t: Node, ghost p: Place)
    returns (cn: CnfNode, ghost s': Shape, ghost f': set<CnfNode>)
    requires TreeOn(s, f, t) && InTree(t, p) && InShape(s, p) && parent == ShapeAt(s, p).node
    modifies f
    ensures f <= f' && fresh(f' - f) && s'.node == s.node
    ensures TreeOn(s', f', ReplaceAt(t, p, WithNamed(TreeAt(t, p), dname)))
    ensures var q := p + [IndexOf(TreeAt(t, p).children, 0, dname)];
            InShape(s', q) && cn == ShapeAt(s', q).node
  {
    ghost var sub, u := ShapeAt(s, p), TreeAt(t, p);
    PlaceHolds(Links(f), s, t, p);
    s', f' := s, f;
    var child := FindChild(parent, dname, f, sub, u);
    if child == null {
      cn, s', f' := AppendBelow(parent, dname, s, f, t, p);
    } else {
      cn := child;
      ShapeOneDown(s, p, IndexOf(u.children, 0, dname));
      ReplaceBySame(t, p);
    }
  }

  function NamesFrom(path: string, p: nat): seq<string>
    requires p <= |path|
  {
    if p == |path| then [] else Components(path[p..])
  }

  lemma NamesFromStep(path: string, p: nat, q: nat)
    requires p < |path| && p <= q <= |path| && path[q..] == DropName(path[p..])
    ensures q < |path| ==> path[q] == '/'
    ensures NamesFrom(path, p) == [TakeName(path[p..])] + NamesFrom(path, if q < |path| then q + 1 else q)
  {
    DropNameShorter(path[p..]);
    if q < |path| { assert path[q..][1..] == path[q + 1..]; }
  }

  /** In tree `t1` the way has been gone down to place `p`; the rest of it is still to be made. */
  ghost predicate OnTheWay(t: Node, names: seq<string>, t1: Node, p: Place, rest: seq<string>) {
    && InTree(t1, p)
    && ReplaceAt(t1, p, Branch(TreeAt(t1, p), rest)) == Branch(t, names)
    && p + BranchPlace(TreeAt(t1, p), rest) == BranchPlace(t, names)
  }

  lemma OneFurther(t: Node, names: seq<string>, t1: Node, p: Place, rest: seq<string>)
    requires OnTheWay(t, names, t1, p, rest) && rest != []
    ensures var u := TreeAt(t1, p);
            OnTheWay(t, names, ReplaceAt(t1, p, WithNamed(u, rest[0])),
                     p + [IndexOf(u.children, 0, rest[0])], rest[1..])
  {
    var u := TreeAt(t1, p);
    var u', k := WithNamed(u, rest[0]), IndexOf(u.children, 0, rest[0]);
    var w := Branch(u'.children[k], rest[1..]);
    OneDown(t1, p, u', k, w);
    BranchFurther(u, rest);
    Regroup(p, k, BranchPlace(u'.children[k], rest[1..]));
  }

  lemma Regroup(p: Place, k: nat, q: Place)
    ensures p + [k] + q == p + ([k] + q)
  {
  }

  lemma BranchFurther(u: Node, rest: seq<string>)
    requires rest != []
    ensures var u', k := WithNamed(u, rest[0]), IndexOf(u.children, 0, rest[0]);
            && u'.(children := u'.children[k := Branch(u'.children[k], rest[1..])]) == Branch(u, rest)
            && BranchPlace(u, rest) == [k] + BranchPlace(u'.children[k], rest[1..])
  {
  }

  /** The tree on the heap has been made as far as place `p`, which is where `cn` is. */
  ghost predicate MadeTo(s: Shape, f: set<CnfNode>, root: CnfNode, t1: Node, p: Place, cn: CnfNode)
    reads f
  {
    s.node == root && TreeOn(s, f, t1) && InTree(t1, p) && InShape(s, p) && cn == ShapeAt(s, p).node
  }

  method BranchStep(cn_parent: CnfNode, dname: string, ghost s: Shape, ghost f: set<CnfNode>, ghost t: Node,
                    ghost names: seq<string>, ghost t1: Node, ghost p: Place, ghost rest: seq<string>)
    returns (cn: CnfNode, ghost s': Shape, ghost f': set<CnfNode>, ghost t1': Node, ghost p': Place)
    requires MadeTo(s, f, s.node, t1, p, cn_parent)
    requires rest != [] && rest[0] == dname && OnTheWay(t, names, t1, p, rest)
    modifies f
    ensures f <= f' && fresh(f' - f) && MadeTo(s', f', s.node, t1', p', cn)
    ensures OnTheWay(t, names, t1', p', rest[1..])
  {
    ghost var u := TreeAt(t1, p);
    OneFurther(t, names, t1, p, rest);
    t1', p' := ReplaceAt(t1, p, WithNamed(u, dname)), p + [IndexOf(u.children, 0, dname)];
    cn, s', f' := Descend(cn_parent, dname, s, f, t1, p);
  }

  /** cnf_add_branch with do_merge, for a path without values. An empty path gives null. */
  method AddBranch(root: CnfNode, path: string, ghost s: Shape, ghost f: set<CnfNode>, ghost t: Node)
    returns (cn: CnfNode?, ghost s': Shape, ghost f': set<CnfNode>)
    requires PlainText(path) && TreeOn(s, f, t) && s.node == root
    modifies f
    ensures f <= f' && fresh(f' - f)
    ensures path == "" ==> cn == null && s' == s && f' == f && TreeOn(s, f, t)
    ensures path != "" ==>
              && cn != null
              && MadeTo(s', f', root, Branch(t, Components(path)), BranchPlace(t, Components(path)), cn)
  {
    ghost var names := NamesFrom(path, 0);
    ghost var t1, place: Place := t, [];
    s', f' := s, f;
    var cn_parent, p := root, 0;
    while p < |path|
      invariant p <= |path| && f <= f' && fresh(f' - f) && MadeTo(s', f', root, t1, place, cn_parent)
      invariant OnTheWay(t, names, t1, place, NamesFrom(path, p))
      invariant p == 0 ==> s' == s && f' == f && t1 == t
    {
      var dname, q := ReadName(path, p);
      NamesFromStep(path, p, q);
      ghost var rest := NamesFrom(path, p);
      p := if q < |path| then q + 1 else q;
      assert rest[1..] == NamesFrom(path, p);
      cn_parent, s', f', t1, place := BranchStep(cn_parent, dname, s', f', t, names, t1, place, rest);
    }
    assert path[0..] == path && place + [] == place;
    BranchThere(t1, []);
    OneDownDone(t1, place);
    cn := if p == 0 then null else cn_parent;
  }

  lemma OneDownDone(t: Node, p: Place)
    requires InTree(t, p)
    ensures ReplaceAt(t, p, Branch(TreeAt(t, p), [])) == t
  {
    ReplaceBySame(t, p);
  }

  // ----- cnf_set_entry

  /** cnf_set_entry on a path as text. None is the error: an entry that is not there and shall not be made, or the
      empty path, for which none is made. */
  function SetPath(t: Node, path: string, v: string, create: bool): Option<Node> {
    if path == "." then Some(WithValue(t, v))
    else if path == "" then Set(t, Components(path), v, false)
    else Set(t, Components(path), v, create)
  }

  ghost predicate LeadsNowhere(t: Node, path: string) {
    var names := Components(path);
    forall q :: !Spelled(t, q, names)
  }

  /** "." is the root and is always there; all other paths fail exactly if they lead nowhere and no entry is made,
      which is never done for the empty path. */
  lemma SetPathFails(t: Node, path: string, v: string, create: bool)
    ensures SetPath(t, path, v, create) == None <==> path != "." && (path == "" || !create) && LeadsNowhere(t, path)
    ensures SetPath(t, ".", v, create) == Some(t.(value := Some(v))) && GetPath(t, ".") == t.value
    ensures Lookup(t, ".") == Some([])
  {
    var names, creates := Components(path), create && path != "";
    SetsFirst(t, names, v, creates, []);
    assert Set(t, names, v, creates) == None <==> !creates && forall q :: !Spelled(t, q, names);
    if path != "." { assert SetPath(t, path, v, create) == Set(t, names, v, creates); }
  }

  /** After setting, the path reads the value set; in a tree with unique siblings every path that does not lead to
      the same names reads as before. */
  lemma PathsAfterSet(t: Node, path: string, v: string, create: bool, other: string)
    requires SetPath(t, path, v, create).Some?
    ensures GetPath(SetPath(t, path, v, create).value, path) == Some(v)
    ensures UniqueSiblings(t) ==> UniqueSiblings(SetPath(t, path, v, create).value)
    ensures UniqueSiblings(t)
            && (if path == "." || other == "." then path != other else Components(path) != Components(other))
            ==> GetPath(SetPath(t, path, v, create).value, other) == GetPath(t, other)
  {
    if path != "." {
      var names := Components(path);
      var creates := create && path != "";
      GetAfterSet(t, names, v, creates);
      SetKeepsRootValue(t, names, v, creates);
      if UniqueSiblings(t) {
        SetKeepsUnique(t, names, v, creates);
        UniqueKeepsOthers(t, names, v, creates);
      }
    }
  }

  lemma SetKeepsRootValue(t: Node, names: seq<string>, v: string, create: bool)
    requires names != [] && Set(t, names, v, create).Some?
    ensures Set(t, names, v, create).value.value == t.value
  {
    FirstIsThere(t, 0, names);
    MergeRoot(t, names, v);
    if First(t, names).Some? { SetAtRoot(t, First(t, names).value, v); }
  }

  /** cnf_set_entry */
  method SetEntry(root: CnfNode, path: string, val: string, create: bool,
                  ghost s: Shape, ghost f: set<CnfNode>, ghost t: Node)
    returns (ok: bool, ghost s': Shape, ghost f': set<CnfNode>)
    requires PlainText(path) && TreeOn(s, f, t) && s.node == root
    modifies f
    ensures f <= f' && fresh(f' - f) && s'.node == root
    ensures match SetPath(t, path, val, create)
            case Some(t') => ok && TreeOn(s', f', t')
            case None => !ok && s' == s && f' == f && TreeOn(s, f, t)
  {
    var names := Components(path);
    var cn := GetNode(root, path, f, s, t);
    s', f' := s, f;
    ghost var t1, p := t, [];
    if cn != null {
      p := Lookup(t, path).value;
      LookupReads(t, path);
      PlaceHolds(Links(f), s, t, p);
    } else if create {
      cn, s', f' := AddBranch(root, path, s, f, t);
      if cn != null {
        t1, p := Branch(t, names), BranchPlace(t, names);
        MergeIsBranchThenSet(t, names, val);
        NodeOfShape(s', p);
      }
    }
    ok := cn != null;
    if cn != null { s' := SetValue(cn, val, s', f', t1, p); }
  }
}
