/**
  The labelled header tree and the walks over it that ExcelGenerator
  performs: getDepth, collectLeafNodes and buildTitleToFieldNameMap with its
  recursive helper collectMapping.

  Walks over a list of children peel the LAST child off, so that after the
  first i children of a loop the accumulated result is the walk over
  children[..i].
 */
module HeaderTree {
  import opened Base
  import opened Grid

  /** ExcelHeaderNode. A null list of children is the empty sequence; a node
      without children is a leaf whatever its field name says. */
  datatype Node = Node(title: string, fieldName: Option<string>, children: seq<Node>, style: Option<Style>)
  {
    predicate IsLeaf() {
      |children| == 0
    }
  }

  function Max(a: nat, b: nat): nat {
    if a < b then b else a
  }

  // ---------------------------------------------------------------------------
  // getDepth

  /** getDepth: 1 for a leaf, one more than the deepest child otherwise. */
  function Depth(n: Node): (d: nat)
    ensures d >= 1
    ensures d == 1 <==> n.IsLeaf()
    decreases n
  {
    if n.IsLeaf() then 1 else 1 + MaxDepth(n.children)
  }

  /** The largest depth among ns; 0 for no nodes (the orElse(0) of the
      stream, which a group never reaches). */
  function MaxDepth(ns: seq<Node>): (d: nat)
    ensures d == 0 <==> ns == []
    decreases ns
  {
    if ns == [] then 0 else Max(MaxDepth(ns[..|ns| - 1]), Depth(ns[|ns| - 1]))
  }

  lemma {:induction false} MaxDepthIsMaximum(ns: seq<Node>)
    ensures forall i :: 0 <= i < |ns| ==> Depth(ns[i]) <= MaxDepth(ns)
    ensures ns != [] ==> exists i :: 0 <= i < |ns| && Depth(ns[i]) == MaxDepth(ns)
  {
    if ns != [] {
      var p := ns[..|ns| - 1];
      MaxDepthIsMaximum(p);
      assert forall i :: 0 <= i < |p| ==> ns[i] == p[i];
      if p != [] && MaxDepth(p) >= Depth(ns[|ns| - 1]) {
        var i :| 0 <= i < |p| && Depth(p[i]) == MaxDepth(p);
        assert Depth(ns[i]) == MaxDepth(ns);
      } else {
        assert Depth(ns[|ns| - 1]) == MaxDepth(ns);
      }
    }
  }

  /** The depth of a node is at least 1, and a group is exactly one level
      deeper than its deepest child. */
  lemma DepthOfGroup(n: Node)
    ensures Depth(n) >= 1
    ensures forall i :: 0 <= i < |n.children| ==> Depth(n.children[i]) < Depth(n)
    ensures !n.IsLeaf() ==> exists i :: 0 <= i < |n.children| && Depth(n.children[i]) == Depth(n) - 1
  {
    MaxDepthIsMaximum(n.children);
  }

  // ---------------------------------------------------------------------------
  // collectLeafNodes

  /** The leaves under n, left to right: the column order of the sheet. */
  function Leaves(n: Node): (r: seq<Node>)
    ensures |r| >= 1
    ensures forall i :: 0 <= i < |r| ==> r[i].IsLeaf()
    decreases n
  {
    if n.IsLeaf() then [n] else LeavesOf(n.children)
  }

  /** The leaves under each of ns in turn; every node has at least one. */
  function LeavesOf(ns: seq<Node>): (r: seq<Node>)
    ensures |r| >= |ns|
    ensures forall i :: 0 <= i < |r| ==> r[i].IsLeaf()
    decreases ns
  {
    if ns == [] then [] else LeavesOf(ns[..|ns| - 1]) + Leaves(ns[|ns| - 1])
  }

  /** How many rows below n the j-th leaf of n sits. */
  function LeafLevel(n: Node, j: nat): (d: nat)
    requires j < |Leaves(n)|
    ensures d < Depth(n)
    ensures d == 0 <==> n.IsLeaf()
    decreases n
  {
    if n.IsLeaf() then 0 else 1 + LeafLevelOf(n.children, j)
  }

  function LeafLevelOf(ns: seq<Node>, j: nat): (d: nat)
    requires j < |LeavesOf(ns)|
    ensures d < MaxDepth(ns)
    decreases ns
  {
    var p := ns[..|ns| - 1];
    if j < |LeavesOf(p)| then LeafLevelOf(p, j) else LeafLevel(ns[|ns| - 1], j - |LeavesOf(p)|)
  }

  /** collectLeafNodes: a fresh list per call, extended child by child. */
  method CollectLeafNodes(node: Node) returns (leaves: seq<Node>)
    ensures leaves == Leaves(node)
    decreases node
  {
    leaves := [];
    if node.IsLeaf() {
      leaves := leaves + [node];
    } else {
      for i := 0 to |node.children|
        invariant leaves == LeavesOf(node.children[..i])
      {
        var sub := CollectLeafNodes(node.children[i]);
        assert node.children[..i + 1][..i] == node.children[..i];
        leaves := leaves + sub;
      }
      assert node.children[..|node.children|] == node.children;
    }
  }

  // ---------------------------------------------------------------------------
  // Pre-order traversal, the order collectMapping visits the nodes in

  /** Every node of the tree, each parent before its children, children in
      listed order. */
  function PreOrder(n: Node): (r: seq<Node>)
    ensures |r| >= 1 && r[0] == n
    decreases n
  {
    [n] + PreOrderOf(n.children)
  }

  function PreOrderOf(ns: seq<Node>): seq<Node>
    decreases ns
  {
    if ns == [] then [] else PreOrderOf(ns[..|ns| - 1]) + PreOrder(ns[|ns| - 1])
  }

  /** The leaves among ns, in order. */
  function LeafFilter(ns: seq<Node>): (r: seq<Node>)
    ensures |r| <= |ns|
  {
    if ns == [] then []
    else LeafFilter(ns[..|ns| - 1]) + (if ns[|ns| - 1].IsLeaf() then [ns[|ns| - 1]] else [])
  }

  lemma {:induction false} LeafFilterAppend(a: seq<Node>, b: seq<Node>)
    ensures LeafFilter(a + b) == LeafFilter(a) + LeafFilter(b)
  {
    if b != [] {
      assert (a + b)[..|a + b| - 1] == a + b[..|b| - 1];
      LeafFilterAppend(a, b[..|b| - 1]);
    } else {
      assert a + b == a;
    }
  }

  /** The leaves among ns are nodes of ns. */
  lemma {:induction false} LeafFilterMembers(ns: seq<Node>)
    ensures forall x :: x in LeafFilter(ns) ==> x in ns
  {
    if ns != [] {
      var p := ns[..|ns| - 1];
      LeafFilterMembers(p);
      assert forall x :: x in p ==> x in ns;
    }
  }

  /** collectLeafNodes agrees with the pre-order walk: its result is exactly
      the childless nodes of the tree, in pre-order. */
  lemma {:induction false} LeavesArePreOrderLeaves(n: Node)
    ensures Leaves(n) == LeafFilter(PreOrder(n))
    decreases n, 1
  {
    LeafFilterAppend([n], PreOrderOf(n.children));
    assert LeafFilter([n]) == LeafFilter([]) + (if n.IsLeaf() then [n] else []);
    if n.IsLeaf() {
      assert PreOrderOf(n.children) == [];
    } else {
      LeavesOfArePreOrderLeaves(n.children);
    }
  }

  lemma {:induction false} LeavesOfArePreOrderLeaves(ns: seq<Node>)
    ensures LeavesOf(ns) == LeafFilter(PreOrderOf(ns))
    decreases ns, 0
  {
    if ns != [] {
      var p, x := ns[..|ns| - 1], ns[|ns| - 1];
      LeavesOfArePreOrderLeaves(p);
      LeavesArePreOrderLeaves(x);
      LeafFilterAppend(PreOrderOf(p), PreOrder(x));
    }
  }

  // ---------------------------------------------------------------------------
  // buildTitleToFieldNameMap / collectMapping

  /** n contributes the entry title -> fieldName to the title map. */
  predicate Maps(n: Node, title: string) {
    n.fieldName.Some? && n.title == title
  }

  /** Some node of ns maps title. */
  predicate MapsSome(ns: seq<Node>, title: string) {
    exists i :: 0 <= i < |ns| && Maps(ns[i], title)
  }

  /** One map.put of collectMapping, made only when the field name is set. */
  function Put(m: map<string, string>, n: Node): map<string, string> {
    if n.fieldName.Some? then m[n.title := n.fieldName.value] else m
  }

  /** The map after putting the entries of ns, in order, into m. */
  function PutAll(m: map<string, string>, ns: seq<Node>): map<string, string> {
    if ns == [] then m else Put(PutAll(m, ns[..|ns| - 1]), ns[|ns| - 1])
  }

  lemma {:induction false} PutAllAppend(m: map<string, string>, a: seq<Node>, b: seq<Node>)
    ensures PutAll(m, a + b) == PutAll(PutAll(m, a), b)
  {
    if b == [] {
      assert a + b == a;
    } else {
      assert (a + b)[..|a + b| - 1] == a + b[..|b| - 1];
      PutAllAppend(m, a, b[..|b| - 1]);
    }
  }

  /** A title is a key after the puts iff it was one before or some node of
      ns maps it. */
  lemma {:induction false} PutAllKeys(m: map<string, string>, ns: seq<Node>, t: string)
    ensures t in PutAll(m, ns) <==> t in m || exists i :: 0 <= i < |ns| && Maps(ns[i], t)
  {
    if ns != [] {
      var p := ns[..|ns| - 1];
      PutAllKeys(m, p, t);
      if exists i :: 0 <= i < |ns| && Maps(ns[i], t) {
        var i :| 0 <= i < |ns| && Maps(ns[i], t);
        if i < |p| {
          assert Maps(p[i], t);
        }
      }
      if exists i :: 0 <= i < |p| && Maps(p[i], t) {
        var i :| 0 <= i < |p| && Maps(p[i], t);
        assert Maps(ns[i], t);
      }
    }
  }

  /** Last write wins: the value of a title is the field name of the last
      node of ns that maps it. */
  lemma {:induction false} PutAllLastWins(m: map<string, string>, ns: seq<Node>, i: nat)
    requires i < |ns| && ns[i].fieldName.Some?
    requires forall j :: i < j < |ns| ==> !Maps(ns[j], ns[i].title)
    ensures ns[i].title in PutAll(m, ns) && PutAll(m, ns)[ns[i].title] == ns[i].fieldName.value
  {
    var p := ns[..|ns| - 1];
    if i < |ns| - 1 {
      assert !Maps(ns[|ns| - 1], ns[i].title);
      PutAllLastWins(m, p, i);
    }
  }

  /** ns[i] has a field name, and no later node of ns maps the same title. */
  predicate LastToMap(ns: seq<Node>, i: nat)
    requires i < |ns|
  {
    ns[i].fieldName.Some? && forall j :: i < j < |ns| ==> !Maps(ns[j], ns[i].title)
  }

  /** The title map of a tree: its keys are exactly the titles of the nodes
      with a field name, and each maps to the field name of the last such
      node in pre-order. */
  function TitleMap(root: Node): (r: map<string, string>)
    ensures forall t :: t in r <==> MapsSome(PreOrder(root), t)
    ensures forall i :: 0 <= i < |PreOrder(root)| && LastToMap(PreOrder(root), i) ==>
              PreOrder(root)[i].title in r && r[PreOrder(root)[i].title] == PreOrder(root)[i].fieldName.value
  {
    var p := PreOrder(root);
    var empty: map<string, string> := map[];
    var r := PutAll(empty, p);
    forall t ensures t in r <==> MapsSome(p, t) {
      PutAllKeys(empty, p, t);
    }
    forall i | 0 <= i < |p| && LastToMap(p, i)
      ensures p[i].title in r && r[p[i].title] == p[i].fieldName.value
    {
      PutAllLastWins(empty, p, i);
    }
    r
  }

  /** No node with a field name shares its title with a node before it in
      pre-order, so no title is put twice with different field names. */
  predicate MappedTitlesDistinct(root: Node) {
    var p := PreOrder(root);
    forall a, b :: 0 <= a < b < |p| && p[b].fieldName.Some? ==> p[a].title != p[b].title
  }

  /** With distinct titles, the title map sends the title of each leaf that
      has a field name to that field name. */
  lemma TitleMapOfLeaf(root: Node, k: nat)
    requires MappedTitlesDistinct(root)
    requires k < |Leaves(root)| && Leaves(root)[k].fieldName.Some?
    ensures Leaves(root)[k].title in TitleMap(root)
    ensures TitleMap(root)[Leaves(root)[k].title] == Leaves(root)[k].fieldName.value
  {
    var p, leaf := PreOrder(root), Leaves(root)[k];
    LeavesArePreOrderLeaves(root);
    LeafFilterMembers(p);
    assert leaf in p;
    var i :| 0 <= i < |p| && p[i] == leaf;
    assert LastToMap(p, i);
  }

  /** collectMapping: puts the entry of node, then those of its subtrees,
      into the caller's map. */
  method CollectMapping(node: Node, m: map<string, string>) returns (r: map<string, string>)
    ensures r == PutAll(m, PreOrder(node))
    decreases node
  {
    r := m;
    if node.fieldName.Some? {
      r := r[node.title := node.fieldName.value];
    }
    ghost var seen := [node];
    assert r == PutAll(m, seen);
    for i := 0 to |node.children|
      invariant seen == [node] + PreOrderOf(node.children[..i])
      invariant r == PutAll(m, seen)
    {
      var child := node.children[i];
      r := CollectMapping(child, r);
      PutAllAppend(m, seen, PreOrder(child));
      PreOrderOfStep(node, i);
      seen := seen + PreOrder(child);
    }
    assert node.children[..|node.children|] == node.children;
  }

  /** The walk over the first i + 1 children of node, after node itself. */
  lemma PreOrderOfStep(node: Node, i: nat)
    requires i < |node.children|
    ensures [node] + PreOrderOf(node.children[..i + 1])
         == ([node] + PreOrderOf(node.children[..i])) + PreOrder(node.children[i])
  {
    assert node.children[..i + 1][..i] == node.children[..i];
  }

  /** buildTitleToFieldNameMap: collectMapping into an empty map. */
  method BuildTitleToFieldNameMap(root: Node) returns (m: map<string, string>)
    ensures m == TitleMap(root)
  {
    m := CollectMapping(root, map[]);
  }
}
