/**
 * The live employee tree: TreeNode objects whose `descendants` lists the
 * restructuring operations edit in place, the ghost bookkeeping that says
 * when such a heap structure is a tree, its value view (`Serialize`) and
 * the deep copy the source takes with `JSON.parse(JSON.stringify(...))`.
 */
module Nodes {
  import opened Lookup

  /** A node of the live tree: one employee and its ordered list of direct subordinates. */
  class TreeNode {
    const value: Employee
    var descendants: seq<TreeNode>

    constructor (value: Employee)
      ensures this.value == value && descendants == []
    {
      this.value := value;
      descendants := [];
    }

    /** A node built with its child list already in place, as `JSON.parse` builds one. */
    constructor Parsed(value: Employee, descendants: seq<TreeNode>)
      ensures this.value == value && this.descendants == descendants
    {
      this.value := value;
      this.descendants := descendants;
    }
  }

  /**
   * Ghost bookkeeping for a live tree: the nodes in it, a rank that falls
   * strictly from a node to each of its children (so no node is its own
   * descendant) and the parent of every node but the root.
   */
  datatype Shape = Shape(nodes: set<TreeNode>, rank: map<TreeNode, nat>, parent: map<TreeNode, TreeNode>)

  /** The child lists of `nodes` stay inside `nodes` and strictly lower the rank. */
  ghost predicate Acyclic(nodes: set<TreeNode>, rank: map<TreeNode, nat>)
    reads nodes
  {
    forall n :: n in nodes ==> ChildrenBelow(n, nodes, rank)
  }

  ghost predicate ChildrenBelow(n: TreeNode, nodes: set<TreeNode>, rank: map<TreeNode, nat>)
    reads n
  {
    n in rank && forall i :: 0 <= i < |n.descendants| ==> Below(n.descendants[i], n, nodes, rank)
  }

  /** `c` is in `nodes` and ranks strictly below `n`. */
  ghost predicate Below(c: TreeNode, n: TreeNode, nodes: set<TreeNode>, rank: map<TreeNode, nat>)
  {
    c in nodes && c in rank && n in rank && rank[c] < rank[n]
  }

  /** No node is listed twice. */
  predicate NoDuplicates(s: seq<TreeNode>)
  {
    s == [] || (s[0] !in s[1..] && NoDuplicates(s[1..]))
  }

  lemma {:induction false} NoDuplicatesConcat(a: seq<TreeNode>, b: seq<TreeNode>)
    requires NoDuplicates(a) && NoDuplicates(b) && forall x :: x in a ==> x !in b
    ensures NoDuplicates(a + b)
  {
    if a != [] {
      assert (a + b)[1..] == a[1..] + b;
      NoDuplicatesConcat(a[1..], b);
    } else {
      assert a + b == b;
    }
  }

  lemma NoDuplicatesAppend(a: seq<TreeNode>, x: TreeNode)
    requires NoDuplicates(a) && x !in a
    ensures NoDuplicates(a + [x])
  {
    NoDuplicatesConcat(a, [x]);
  }

  /** The child list of every node of `nodes`: the part of the heap the restructuring edits. */
  ghost function Children(nodes: set<TreeNode>): (kids: map<TreeNode, seq<TreeNode>>)
    reads nodes
    ensures kids.Keys == nodes
  {
    map n | n in nodes :: n.descendants
  }

  /**
   * The tree invariants, over a snapshot `kids` of the child lists: one
   * root, every other node listed by exactly one parent (and once only in
   * that list), ranks falling from parent to child (no cycles) and no node
   * above the root in rank, so that following parents reaches the root.
   */
  ghost predicate TreeShape(root: TreeNode, s: Shape, kids: map<TreeNode, seq<TreeNode>>)
  {
    root in s.nodes && s.nodes <= kids.Keys
    && RankedBelow(root, s) && EdgesDown(s, kids) && ParentsListed(root, s, kids) && ListsDistinct(s, kids)
  }

  /** Every node has a rank, none above the root's. */
  ghost predicate RankedBelow(root: TreeNode, s: Shape)
  {
    root in s.rank && forall n :: n in s.nodes ==> BelowRoot(root, s, n)
  }

  ghost predicate BelowRoot(root: TreeNode, s: Shape, n: TreeNode)
  {
    n in s.rank && root in s.rank && s.rank[n] <= s.rank[root]
  }

  /** A child of a node is in the tree, has a lower rank and has that node as parent. */
  ghost predicate EdgesDown(s: Shape, kids: map<TreeNode, seq<TreeNode>>)
  {
    forall n, c :: n in s.nodes && n in kids && c in kids[n] ==> Edge(s, n, c)
  }

  /** `c` may be listed under `n`. */
  ghost predicate Edge(s: Shape, n: TreeNode, c: TreeNode)
  {
    c in s.nodes && n in s.rank && c in s.rank && s.rank[c] < s.rank[n] && c in s.parent && s.parent[c] == n
  }

  /** Every node but the root has a parent in the tree that lists it. */
  ghost predicate ParentsListed(root: TreeNode, s: Shape, kids: map<TreeNode, seq<TreeNode>>)
  {
    s.parent.Keys == s.nodes - {root}
    && forall n {:trigger s.parent[n]} :: n in s.parent ==> s.parent[n] in s.nodes && s.parent[n] in kids && n in kids[s.parent[n]]
  }

  /** No child list holds a node twice. */
  ghost predicate ListsDistinct(s: Shape, kids: map<TreeNode, seq<TreeNode>>)
  {
    forall n :: n in s.nodes && n in kids ==> NoDuplicates(kids[n])
  }

  /** The invariants only look at the child lists of the tree's own nodes. */
  lemma TreeShapeAgree(root: TreeNode, s: Shape, kids: map<TreeNode, seq<TreeNode>>, kids': map<TreeNode, seq<TreeNode>>)
    requires TreeShape(root, s, kids) && s.nodes <= kids'.Keys
    requires forall n :: n in s.nodes ==> kids'[n] == kids[n]
    ensures TreeShape(root, s, kids')
  {
  }

  /** The live structure rooted at `root` is a tree. */
  ghost predicate IsTree(root: TreeNode, s: Shape)
    reads s.nodes
  {
    TreeShape(root, s, Children(s.nodes))
  }

  lemma TreeIsAcyclic(root: TreeNode, s: Shape)
    requires IsTree(root, s)
    ensures Acyclic(s.nodes, s.rank)
  {
    var kids := Children(s.nodes);
    forall n | n in s.nodes ensures ChildrenBelow(n, s.nodes, s.rank) {
      forall i | 0 <= i < |n.descendants| ensures Below(n.descendants[i], n, s.nodes, s.rank) {
        assert n.descendants[i] in kids[n];
        assert Edge(s, n, n.descendants[i]);
      }
    }
  }

  /** No two nodes carry the same employee name. */
  ghost predicate UniqueNames(nodes: set<TreeNode>)
  {
    forall a, b :: a in nodes && b in nodes && a != b ==> a.value.name != b.value.name
  }

  /** The names held by `nodes`. */
  ghost function Names(nodes: set<TreeNode>): set<string>
  {
    set n | n in nodes :: n.value.name
  }

  /** A root-to-node path: each node is a direct child of the one before it. */
  ghost predicate IsPath(p: seq<TreeNode>)
    reads set x | x in p
  {
    forall i :: 0 < i < |p| ==> p[i] in p[i - 1].descendants
  }

  /** Every node of a tree is reachable from its root. */
  lemma Reachable(root: TreeNode, s: Shape, n: TreeNode) returns (p: seq<TreeNode>)
    requires IsTree(root, s) && n in s.nodes
    ensures |p| > 0 && p[0] == root && p[|p| - 1] == n && IsPath(p)
    decreases s.rank[root] - s.rank[n]
  {
    if n == root {
      p := [root];
    } else {
      assert Children(s.nodes)[s.parent[n]] == s.parent[n].descendants;
      var q := Reachable(root, s, s.parent[n]);
      p := q + [n];
      assert forall i :: 0 <= i < |q| ==> p[i] == q[i];
    }
  }

  /** No path through `nodes` comes back to where it started: the child relation has no cycle. */
  lemma {:induction false} NoCycle(nodes: set<TreeNode>, rank: map<TreeNode, nat>, p: seq<TreeNode>)
    requires Acyclic(nodes, rank) && |p| > 0 && p[0] in nodes && IsPath(p)
    ensures forall i :: 0 < i < |p| ==> p[i] in nodes && rank[p[i]] < rank[p[0]]
    ensures forall i :: 0 < i < |p| ==> p[i] != p[0]
  {
    if |p| > 1 {
      var q := p[..|p| - 1];
      assert IsPath(q) by { assert forall i :: 0 <= i < |q| ==> q[i] == p[i]; }
      NoCycle(nodes, rank, q);
      var last := |p| - 1;
      assert p[last] in p[last - 1].descendants;
      assert p[last - 1] == p[0] || rank[p[last - 1]] < rank[p[0]];
    }
  }

  /** The value of the subtree rooted at `n`: what `JSON.stringify` captures. */
  ghost function Serialize(n: TreeNode, nodes: set<TreeNode>, rank: map<TreeNode, nat>): Tree
    reads nodes
    requires Acyclic(nodes, rank) && n in nodes
    decreases rank[n]
  {
    Node(n.value, seq(|n.descendants|, i requires 0 <= i < |n.descendants| && Acyclic(nodes, rank) && n in nodes reads nodes => Serialize(n.descendants[i], nodes, rank)))
  }

  /** The values of the subtrees rooted at the nodes of `list`. */
  ghost function Values(list: seq<TreeNode>, nodes: set<TreeNode>, rank: map<TreeNode, nat>): seq<Tree>
    reads nodes
    requires Acyclic(nodes, rank) && forall c :: c in list ==> c in nodes
  {
    seq(|list|, i requires 0 <= i < |list| && Acyclic(nodes, rank) && list[i] in nodes reads nodes => Serialize(list[i], nodes, rank))
  }

  /** The value of a subtree does not depend on the bookkeeping used to compute it. */
  lemma {:induction false} SerializeFrame(n: TreeNode, nodes: set<TreeNode>, rank: map<TreeNode, nat>,
                                          nodes': set<TreeNode>, rank': map<TreeNode, nat>)
    requires Acyclic(nodes, rank) && Acyclic(nodes', rank') && n in nodes && n in nodes'
    ensures Serialize(n, nodes, rank) == Serialize(n, nodes', rank')
    decreases rank[n]
  {
    forall i | 0 <= i < |n.descendants|
      ensures Serialize(n.descendants[i], nodes, rank) == Serialize(n.descendants[i], nodes', rank')
    {
      SerializeFrame(n.descendants[i], nodes, rank, nodes', rank');
    }
  }

  // ---------------------------------------------------------------- deep copy

  lemma AcyclicUnion(a: set<TreeNode>, ra: map<TreeNode, nat>, b: set<TreeNode>, rb: map<TreeNode, nat>)
    requires Acyclic(a, ra) && Acyclic(b, rb) && ra.Keys == a && rb.Keys == b && a !! b
    ensures Acyclic(a + b, ra + rb) && (ra + rb).Keys == a + b
  {
    var r := ra + rb;
    assert forall x :: x in a ==> r[x] == ra[x];
    assert forall x :: x in b ==> r[x] == rb[x];
  }

  lemma AcyclicAddTop(a: set<TreeNode>, ra: map<TreeNode, nat>, c: TreeNode, k: nat)
    requires Acyclic(a, ra) && ra.Keys == a && c !in a
    requires forall d :: d in c.descendants ==> d in a && ra[d] < k
    ensures Acyclic(a + {c}, ra[c := k]) && ra[c := k].Keys == a + {c}
  {
    var r := ra[c := k];
    assert forall x :: x in a ==> r[x] == ra[x];
  }

  /** A fresh copy of the subtree at `n`: new nodes holding the same values in the same shape. */
  method Clone(n: TreeNode, ghost nodes: set<TreeNode>, ghost rank: map<TreeNode, nat>)
    returns (c: TreeNode, ghost cn: set<TreeNode>, ghost cr: map<TreeNode, nat>)
    requires Acyclic(nodes, rank) && n in nodes
    ensures fresh(cn) && c in cn && cr.Keys == cn && Acyclic(cn, cr)
    ensures forall x :: x in cn ==> cr[x] <= rank[n]
    ensures Serialize(c, cn, cr) == Serialize(n, nodes, rank)
    decreases rank[n], 1
  {
    var kids;
    kids, cn, cr := DeepCopy(n.descendants, nodes, rank, rank[n]);
    c := new TreeNode.Parsed(n.value, kids);
    ghost var cn0, cr0 := cn, cr;
    AcyclicAddTop(cn0, cr0, c, rank[n]);
    cn, cr := cn + {c}, cr[c := rank[n]];
    forall i | 0 <= i < |kids|
      ensures Serialize(kids[i], cn, cr) == Serialize(n.descendants[i], nodes, rank)
    {
      SerializeFrame(kids[i], cn0, cr0, cn, cr);
    }
  }

  /**
   * `JSON.parse(JSON.stringify(cs))`: a list of fresh nodes, one per node of
   * `cs`, each the root of a copy of that node's subtree.
   */
  method DeepCopy(cs: seq<TreeNode>, ghost nodes: set<TreeNode>, ghost rank: map<TreeNode, nat>, ghost bound: nat)
    returns (copy: seq<TreeNode>, ghost cn: set<TreeNode>, ghost cr: map<TreeNode, nat>)
    requires Acyclic(nodes, rank) && forall c :: c in cs ==> c in nodes && rank[c] < bound
    ensures fresh(cn) && cr.Keys == cn && Acyclic(cn, cr)
    ensures forall x :: x in cn ==> cr[x] < bound
    ensures |copy| == |cs|
    ensures forall i :: 0 <= i < |cs| ==> copy[i] in cn && Serialize(copy[i], cn, cr) == Serialize(cs[i], nodes, rank)
    decreases bound, 0
  {
    copy, cn, cr := [], {}, map[];
    ghost var want := seq(|cs|, j requires 0 <= j < |cs| && Acyclic(nodes, rank) && cs[j] in nodes reads nodes => Serialize(cs[j], nodes, rank));
    for i := 0 to |cs|
      invariant fresh(cn) && cr.Keys == cn && Acyclic(cn, cr)
      invariant forall x :: x in cn ==> cr[x] < bound
      invariant |copy| == i
      invariant forall j :: 0 <= j < i ==> copy[j] in cn && Serialize(copy[j], cn, cr) == want[j]
    {
      var c, cn1, cr1 := Clone(cs[i], nodes, rank);
      ghost var cn0, cr0 := cn, cr;
      AcyclicUnion(cn0, cr0, cn1, cr1);
      copy, cn, cr := copy + [c], cn + cn1, cr + cr1;
      forall j | 0 <= j < i + 1
        ensures Serialize(copy[j], cn, cr) == want[j]
      {
        if j < i { SerializeFrame(copy[j], cn0, cr0, cn, cr); } else { SerializeFrame(c, cn1, cr1, cn, cr); }
      }
    }
  }

  // ---------------------------------------------------------------- list edits

  /** `list.findIndex(x => x.value.name === name)`: the first index holding the name, or -1. */
  function FindIndexByName(list: seq<TreeNode>, name: string): (i: int)
    ensures -1 <= i < |list|
    ensures i == -1 <==> forall k :: 0 <= k < |list| ==> list[k].value.name != name
    ensures 0 <= i ==> list[i].value.name == name && forall k :: 0 <= k < i ==> list[k].value.name != name
  {
    if list == [] then -1
    else if list[0].value.name == name then 0
    else
      var j := FindIndexByName(list[1..], name);
      assert forall k :: 1 <= k < |list| ==> list[k] == list[1..][k - 1];
      if j == -1 then -1 else j + 1
  }

  /**
   * `s.splice(start, 1)`: removes one element; a negative start counts back
   * from the end (and is clamped at 0), a start at or past the end removes nothing.
   */
  function SpliceOne<T>(s: seq<T>, start: int): (r: seq<T>)
    ensures 0 <= start < |s| ==> r == s[..start] + s[start + 1..]
    ensures -|s| <= start < 0 ==> r == s[..|s| + start] + s[|s| + start + 1..]
    ensures start < -|s| && s != [] ==> r == s[1..]
    ensures start >= |s| || s == [] ==> r == s
    ensures |r| == if s != [] && start < |s| then |s| - 1 else |s|
  {
    var k := if start < 0 then (if |s| + start < 0 then 0 else |s| + start) else start;
    if k < |s| then s[..k] + s[k + 1..] else s
  }

  /** `s` without the node `x`, the others in their order. */
  function RemoveNode(s: seq<TreeNode>, x: TreeNode): (r: seq<TreeNode>)
    ensures forall y :: y in r ==> y in s && y != x
    ensures forall y :: y in s && y != x ==> y in r
    ensures |r| <= |s|
  {
    if s == [] then [] else (if s[0] == x then [] else [s[0]]) + RemoveNode(s[1..], x)
  }

  lemma {:induction false} RemoveAbsent(s: seq<TreeNode>, x: TreeNode)
    requires x !in s
    ensures RemoveNode(s, x) == s
  {
    if s != [] {
      assert x !in s[1..];
      RemoveAbsent(s[1..], x);
    }
  }

  /** In a list without repeats, cutting out position i removes exactly the node held there. */
  lemma {:induction false} RemoveAt(s: seq<TreeNode>, i: nat)
    requires i < |s| && NoDuplicates(s)
    ensures s[..i] + s[i + 1..] == RemoveNode(s, s[i])
  {
    var t := s[1..];
    if i == 0 {
      RemoveAbsent(t, s[0]);
      assert s[..0] + s[1..] == t;
    } else {
      assert t[i - 1] == s[i];
      RemoveAt(t, i - 1);
      assert s[0] != s[i] by { assert s[i] in t; }
      assert RemoveNode(s, s[i]) == [s[0]] + RemoveNode(t, s[i]);
      assert s[..i] == [s[0]] + t[..i - 1];
      assert s[i + 1..] == t[i..];
    }
  }

  lemma {:induction false} RemoveKeepsNoDuplicates(s: seq<TreeNode>, x: TreeNode)
    requires NoDuplicates(s)
    ensures NoDuplicates(RemoveNode(s, x))
  {
    if s != [] {
      RemoveKeepsNoDuplicates(s[1..], x);
      var h: seq<TreeNode> := if s[0] == x then [] else [s[0]];
      assert RemoveNode(s, x) == h + RemoveNode(s[1..], x);
      NoDuplicatesConcat(h, RemoveNode(s[1..], x));
    }
  }

  /** `r` is `s` without `x`, in terms of membership, and keeps it free of repeats. */
  ghost predicate Without(r: seq<TreeNode>, s: seq<TreeNode>, x: TreeNode)
  {
    (forall y :: y in r ==> y in s && y != x)
    && (forall y :: y in s && y != x ==> y in r)
    && (NoDuplicates(s) ==> NoDuplicates(r))
  }

  lemma RemoveNodeWithout(s: seq<TreeNode>, x: TreeNode)
    ensures Without(RemoveNode(s, x), s, x)
  {
    if NoDuplicates(s) { RemoveKeepsNoDuplicates(s, x); }
  }

  /**
   * `list.splice(list.findIndex(n => n.value.name === x.value.name), 1)` on a
   * list without repeats where only `x` carries its name removes exactly `x`.
   */
  lemma SpliceByName(list: seq<TreeNode>, x: TreeNode)
    requires x in list && NoDuplicates(list)
    requires forall y :: y in list && y.value.name == x.value.name ==> y == x
    ensures SpliceOne(list, FindIndexByName(list, x.value.name)) == RemoveNode(list, x)
  {
    var i := FindIndexByName(list, x.value.name);
    assert i != -1 by {
      var k :| 0 <= k < |list| && list[k] == x;
    }
    assert list[i] in list;
    RemoveAt(list, i);
  }

  lemma {:induction false} RemoveNodeConcat(a: seq<TreeNode>, b: seq<TreeNode>, x: TreeNode)
    requires x !in b
    ensures RemoveNode(a + b, x) == RemoveNode(a, x) + b
    decreases |a|
  {
    if a == [] {
      assert a + b == b;
      RemoveAbsent(b, x);
    } else {
      assert (a + b)[1..] == a[1..] + b;
      RemoveNodeConcat(a[1..], b, x);
    }
  }
}
