/**
 * getEmployee, getBoss and getFutureBoss applied to the live tree.  The
 * three share one recursion (test the node itself, else take the first
 * non-null result among its children, left to right) and differ only in the
 * test applied to a node, which is a `Query` here.
 */
module Search {
  import opened Wrappers
  import opened Lookup
  import opened Nodes

  /** What a search looks for: a node with the name (getEmployee, getFutureBoss) or its boss (getBoss). */
  datatype Query = Named(name: string) | BossOf(name: string)

  /**
   * The test a search applies to one node.  getBoss compares through
   * `find`, which returns the matched name, so an empty name is never found.
   */
  predicate Hit(n: TreeNode, q: Query)
    reads n
  {
    match q
    case Named(name) => n.value.name == name
    case BossOf(name) => name != "" && exists c :: c in n.descendants && c.value.name == name
  }

  /** The shared recursion: the node itself if it passes the test, else the first hit among its children. */
  function Find(n: TreeNode, q: Query, ghost nodes: set<TreeNode>, ghost rank: map<TreeNode, nat>): (r: TreeNode?)
    reads nodes
    requires Acyclic(nodes, rank) && n in nodes
    ensures r != null ==> r in nodes && Hit(r, q)
    decreases rank[n], 1
  {
    if Hit(n, q) then n else FindFrom(n, 0, q, nodes, rank)
  }

  /** The `for` loop of the search: children from index `i` on, up to the first non-null result. */
  function FindFrom(n: TreeNode, i: nat, q: Query, ghost nodes: set<TreeNode>, ghost rank: map<TreeNode, nat>): (r: TreeNode?)
    reads nodes
    requires Acyclic(nodes, rank) && n in nodes
    ensures r != null ==> r in nodes && Hit(r, q)
    decreases rank[n], 0, |n.descendants| - i
  {
    if i >= |n.descendants| then null
    else
      var b := Find(n.descendants[i], q, nodes, rank);
      if b != null then b else FindFrom(n, i + 1, q, nodes, rank)
  }

  // ---------------------------------------------------------------- agreement with the value view

  /** The same search on the value of a tree. */
  function SearchValue(t: Tree, q: Query): Option<Tree>
  {
    match q
    case Named(name) => GetEmployee(t, name)
    case BossOf(name) => GetBoss(t, name)
  }

  function SearchValueFrom(t: Tree, i: nat, q: Query): Option<Tree>
  {
    match q
    case Named(name) => GetEmployeeFrom(t, i, name)
    case BossOf(name) => GetBossFrom(t, i, name)
  }

  lemma HitOnValue(n: TreeNode, q: Query, nodes: set<TreeNode>, rank: map<TreeNode, nat>)
    requires Acyclic(nodes, rank) && n in nodes
    ensures var t := Serialize(n, nodes, rank);
      Hit(n, q) <==> match q
        case Named(name) => t.value.name == name
        case BossOf(name) => name != "" && HasChildNamed(t, name)
  {
    var t := Serialize(n, nodes, rank);
    forall i | 0 <= i < |n.descendants| ensures t.descendants[i].value == n.descendants[i].value {
      assert t.descendants[i] == Serialize(n.descendants[i], nodes, rank);
    }
    if q.BossOf? && Hit(n, q) {
      var c :| c in n.descendants && c.value.name == q.name;
      var i :| 0 <= i < |n.descendants| && n.descendants[i] == c;
      assert t.descendants[i] in t.descendants;
    }
  }

  /**
   * On the value of the tree, getEmployee and getBoss find exactly the value
   * of the node the live search finds.
   */
  lemma {:induction false} FindIsSearchValue(n: TreeNode, q: Query, nodes: set<TreeNode>, rank: map<TreeNode, nat>)
    requires Acyclic(nodes, rank) && n in nodes
    ensures var b := Find(n, q, nodes, rank);
      SearchValue(Serialize(n, nodes, rank), q) == if b == null then None else Some(Serialize(b, nodes, rank))
    decreases rank[n], 1
  {
    HitOnValue(n, q, nodes, rank);
    FindFromIsSearchValueFrom(n, 0, q, nodes, rank);
  }

  lemma {:induction false} FindFromIsSearchValueFrom(n: TreeNode, i: nat, q: Query, nodes: set<TreeNode>, rank: map<TreeNode, nat>)
    requires Acyclic(nodes, rank) && n in nodes
    ensures var b := FindFrom(n, i, q, nodes, rank);
      SearchValueFrom(Serialize(n, nodes, rank), i, q) == if b == null then None else Some(Serialize(b, nodes, rank))
    decreases rank[n], 0, |n.descendants| - i
  {
    if i < |n.descendants| {
      assert Serialize(n, nodes, rank).descendants[i] == Serialize(n.descendants[i], nodes, rank);
      FindIsSearchValue(n.descendants[i], q, nodes, rank);
      FindFromIsSearchValueFrom(n, i + 1, q, nodes, rank);
    }
  }

  // ---------------------------------------------------------------- what the searches find in a tree

  lemma {:induction false} NotFoundFromBelow(n: TreeNode, i: nat, j: nat, q: Query, nodes: set<TreeNode>, rank: map<TreeNode, nat>)
    requires Acyclic(nodes, rank) && n in nodes && i <= j < |n.descendants|
    requires FindFrom(n, i, q, nodes, rank) == null
    ensures Find(n.descendants[j], q, nodes, rank) == null
    decreases j - i
  {
    if i < j { NotFoundFromBelow(n, i + 1, j, q, nodes, rank); }
  }

  /** A search that finds nothing from a node finds nothing from any node below it. */
  lemma {:induction false} NotFoundAlongPath(p: seq<TreeNode>, q: Query, nodes: set<TreeNode>, rank: map<TreeNode, nat>)
    requires Acyclic(nodes, rank) && |p| > 0 && p[0] in nodes && IsPath(p)
    ensures forall i :: 0 <= i < |p| ==> p[i] in nodes
    ensures Find(p[0], q, nodes, rank) == null ==>
      forall i :: 0 <= i < |p| ==> Find(p[i], q, nodes, rank) == null
  {
    NoCycle(nodes, rank, p);
    if |p| > 1 && Find(p[0], q, nodes, rank) == null {
      var r := p[..|p| - 1];
      assert IsPath(r) by { assert forall i :: 0 <= i < |r| ==> r[i] == p[i]; }
      NotFoundAlongPath(r, q, nodes, rank);
      var last := |p| - 1;
      assert p[last - 1] == r[last - 1];
      var j :| 0 <= j < |p[last - 1].descendants| && p[last - 1].descendants[j] == p[last];
      NotFoundFromBelow(p[last - 1], 0, j, q, nodes, rank);
    }
  }

  /** A node that passes the test somewhere in the tree is not missed from the root. */
  lemma FoundFromRoot(root: TreeNode, s: Shape, n: TreeNode, q: Query)
    requires IsTree(root, s) && n in s.nodes && Hit(n, q)
    ensures Acyclic(s.nodes, s.rank) && Find(root, q, s.nodes, s.rank) != null
  {
    TreeIsAcyclic(root, s);
    var p := Reachable(root, s, n);
    NotFoundAlongPath(p, q, s.nodes, s.rank);
    assert Find(p[|p| - 1], q, s.nodes, s.rank) == n;
  }

  /** getEmployee (and getFutureBoss) finds every node of a tree with unique names by its name. */
  lemma FindsEveryNode(root: TreeNode, s: Shape, n: TreeNode)
    requires IsTree(root, s) && UniqueNames(s.nodes) && n in s.nodes
    ensures Acyclic(s.nodes, s.rank) && Find(root, Named(n.value.name), s.nodes, s.rank) == n
  {
    FoundFromRoot(root, s, n, Named(n.value.name));
  }

  /** getBoss finds the parent of every non-root node of a tree with unique, non-empty names. */
  lemma FindsBoss(root: TreeNode, s: Shape, n: TreeNode)
    requires IsTree(root, s) && UniqueNames(s.nodes) && n in s.nodes && n != root && n.value.name != ""
    ensures Acyclic(s.nodes, s.rank) && Find(root, BossOf(n.value.name), s.nodes, s.rank) == s.parent[n]
  {
    var kids := Children(s.nodes);
    var p := s.parent[n];
    assert n in kids[p] && kids[p] == p.descendants;
    FoundFromRoot(root, s, p, BossOf(n.value.name));
    var b := Find(root, BossOf(n.value.name), s.nodes, s.rank);
    var c :| c in b.descendants && c.value.name == n.value.name;
    assert c in kids[b] && c in s.nodes;
  }

  /** Nothing is found by a name no node of the tree carries. */
  lemma NotFoundWhenAbsent(root: TreeNode, name: string, nodes: set<TreeNode>, rank: map<TreeNode, nat>)
    requires Acyclic(nodes, rank) && root in nodes && name !in Names(nodes)
    ensures Find(root, Named(name), nodes, rank) == null
  {
    assert forall m :: m in nodes ==> m.value.name in Names(nodes);
  }

  /**
   * In a tree with unique names, getBoss finds a node only for the name of
   * a non-root node, and then getEmployee finds that node, whose parent the
   * found boss is.
   */
  lemma BossFoundFindsEmployee(root: TreeNode, s: Shape, name: string)
    requires IsTree(root, s) && UniqueNames(s.nodes)
    requires Acyclic(s.nodes, s.rank) && Find(root, BossOf(name), s.nodes, s.rank) != null
    ensures var e := Find(root, Named(name), s.nodes, s.rank);
      e != null && e != root && e in s.parent && s.parent[e] == Find(root, BossOf(name), s.nodes, s.rank)
  {
    var b := Find(root, BossOf(name), s.nodes, s.rank);
    var c :| c in b.descendants && c.value.name == name;
    assert c in Children(s.nodes)[b] && Edge(s, b, c);
    FindsEveryNode(root, s, c);
    FindsBoss(root, s, c);
  }
}
