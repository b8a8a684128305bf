/**
 * The bookkeeping of each restructuring: the shape (nodes, ranks, parents)
 * and the child lists after a hire or a fire, and the proofs that those are
 * trees again.  These are pure statements about maps; the methods of
 * ManageEmployees connect them to the heap.
 */
module Reshape {
  import opened Nodes

  // ---------------------------------------------------------------- hire

  /** The bookkeeping after `e` is hired under `boss`: every rank goes up by one and `e` takes rank 0. */
  ghost function HireShape(s: Shape, boss: TreeNode, e: TreeNode): Shape
  {
    Shape(s.nodes + {e}, (map x | x in s.rank :: s.rank[x] + 1)[e := 0], s.parent[e := boss])
  }

  /** The child lists after `e` is hired under `boss`. */
  ghost function HireKids(kids: map<TreeNode, seq<TreeNode>>, boss: TreeNode, e: TreeNode): map<TreeNode, seq<TreeNode>>
    requires boss in kids
  {
    kids[boss := kids[boss] + [e]][e := []]
  }

  /** Appending a new leaf to one node's list keeps the structure a tree. */
  lemma HireKeepsTree(root: TreeNode, s: Shape, kids: map<TreeNode, seq<TreeNode>>, boss: TreeNode, e: TreeNode)
    requires TreeShape(root, s, kids) && boss in s.nodes && e !in s.nodes
    ensures TreeShape(root, HireShape(s, boss, e), HireKids(kids, boss, e))
  {
    HireKeepsRanks(root, s, boss, e);
    HireKeepsEdges(s, kids, boss, e);
    HireKeepsParents(root, s, kids, boss, e);
    HireKeepsDistinct(s, kids, boss, e);
  }

  lemma HireKeepsRanks(root: TreeNode, s: Shape, boss: TreeNode, e: TreeNode)
    requires RankedBelow(root, s) && root in s.nodes && e !in s.nodes
    ensures RankedBelow(root, HireShape(s, boss, e))
  {
  }

  lemma HireKeepsEdges(s: Shape, kids: map<TreeNode, seq<TreeNode>>, boss: TreeNode, e: TreeNode)
    requires EdgesDown(s, kids) && boss in s.nodes && boss in kids && boss in s.rank && e !in s.nodes
    ensures EdgesDown(HireShape(s, boss, e), HireKids(kids, boss, e))
  {
    var s', kids' := HireShape(s, boss, e), HireKids(kids, boss, e);
    forall n, c | n in s'.nodes && n in kids' && c in kids'[n]
      ensures Edge(s', n, c)
    {
      HireKeepsEdge(s, kids, boss, e, n, c);
    }
  }

  lemma HireKeepsEdge(s: Shape, kids: map<TreeNode, seq<TreeNode>>, boss: TreeNode, e: TreeNode, n: TreeNode, c: TreeNode)
    requires EdgesDown(s, kids) && boss in s.nodes && boss in kids && boss in s.rank && e !in s.nodes
    requires n in s.nodes + {e} && n in HireKids(kids, boss, e) && c in HireKids(kids, boss, e)[n]
    ensures Edge(HireShape(s, boss, e), n, c)
  {
    if n == boss && c == e {
    } else {
      assert n != e && HireKids(kids, boss, e)[n] == (if n == boss then kids[boss] + [e] else kids[n]);
      assert c in kids[n];
    }
  }

  lemma HireKeepsParents(root: TreeNode, s: Shape, kids: map<TreeNode, seq<TreeNode>>, boss: TreeNode, e: TreeNode)
    requires ParentsListed(root, s, kids) && root in s.nodes && boss in s.nodes && boss in kids && e !in s.nodes
    ensures ParentsListed(root, HireShape(s, boss, e), HireKids(kids, boss, e))
  {
    var s', kids' := HireShape(s, boss, e), HireKids(kids, boss, e);
    forall n | n in s'.parent
      ensures s'.parent[n] in s'.nodes && s'.parent[n] in kids' && n in kids'[s'.parent[n]]
    {
      if n != e {
        var p := s.parent[n];
        assert s'.parent[n] == p && p != e;
        assert kids'[p] == if p == boss then kids[boss] + [e] else kids[p];
      }
    }
  }

  lemma HireKeepsDistinct(s: Shape, kids: map<TreeNode, seq<TreeNode>>, boss: TreeNode, e: TreeNode)
    requires ListsDistinct(s, kids) && EdgesDown(s, kids) && boss in s.nodes && boss in kids && e !in s.nodes
    ensures ListsDistinct(HireShape(s, boss, e), HireKids(kids, boss, e))
  {
    var s', kids' := HireShape(s, boss, e), HireKids(kids, boss, e);
    assert e !in kids[boss];
    forall n | n in s'.nodes && n in kids' ensures NoDuplicates(kids'[n]) {
      if n == boss {
        NoDuplicatesAppend(kids[boss], e);
      } else if n != e {
        assert kids'[n] == kids[n];
      }
    }
  }

  // ---------------------------------------------------------------- fire

  /** Where a fire happens: `e`, a child of `boss`, and (when it has subordinates) `rep`, a child of `e`. */
  ghost predicate FireSite(s: Shape, kids: map<TreeNode, seq<TreeNode>>, e: TreeNode, boss: TreeNode)
  {
    e in s.nodes && boss in s.nodes && e in kids && boss in kids && e in kids[boss]
    && e in s.parent && s.parent[e] == boss && e in s.rank && boss in s.rank && s.rank[e] < s.rank[boss]
  }

  lemma FireSiteOf(root: TreeNode, s: Shape, kids: map<TreeNode, seq<TreeNode>>, e: TreeNode)
    requires TreeShape(root, s, kids) && e in s.nodes && e != root
    ensures e in s.parent && FireSite(s, kids, e, s.parent[e])
  {
  }

  /**
   * The bookkeeping after `e`, a child of `boss`, is fired with no
   * subordinates: it leaves the node set and the parent map.
   */
  ghost function LeafFireShape(s: Shape, e: TreeNode): Shape
  {
    Shape(s.nodes - {e}, s.rank, s.parent - {e})
  }

  /** The child lists after the fire of a leaf: `rest` is the boss's list without it. */
  ghost function LeafFireKids(kids: map<TreeNode, seq<TreeNode>>, boss: TreeNode, rest: seq<TreeNode>): map<TreeNode, seq<TreeNode>>
  {
    kids[boss := rest]
  }

  /** Removing a leaf from its parent's list keeps the structure a tree. */
  lemma LeafFireKeepsTree(root: TreeNode, s: Shape, kids: map<TreeNode, seq<TreeNode>>, e: TreeNode, boss: TreeNode, rest: seq<TreeNode>)
    requires TreeShape(root, s, kids) && e != root && FireSite(s, kids, e, boss) && kids[e] == [] && Without(rest, kids[boss], e)
    ensures TreeShape(root, LeafFireShape(s, e), LeafFireKids(kids, boss, rest))
  {
    LeafFireKeepsEdges(s, kids, e, boss, rest);
    LeafFireKeepsParents(root, s, kids, e, boss, rest);
    LeafFireKeepsDistinct(s, kids, e, boss, rest);
  }

  lemma LeafFireKeepsEdges(s: Shape, kids: map<TreeNode, seq<TreeNode>>, e: TreeNode, boss: TreeNode, rest: seq<TreeNode>)
    requires EdgesDown(s, kids) && FireSite(s, kids, e, boss) && kids[e] == [] && Without(rest, kids[boss], e)
    ensures EdgesDown(LeafFireShape(s, e), LeafFireKids(kids, boss, rest))
  {
    var s', kids' := LeafFireShape(s, e), LeafFireKids(kids, boss, rest);
    forall n, c | n in s'.nodes && n in kids' && c in kids'[n]
      ensures Edge(s', n, c)
    {
      assert c in kids[n];
      assert c != e;
    }
  }

  lemma LeafFireKeepsParents(root: TreeNode, s: Shape, kids: map<TreeNode, seq<TreeNode>>, e: TreeNode, boss: TreeNode, rest: seq<TreeNode>)
    requires ParentsListed(root, s, kids) && FireSite(s, kids, e, boss) && kids[e] == [] && Without(rest, kids[boss], e)
    ensures ParentsListed(root, LeafFireShape(s, e), LeafFireKids(kids, boss, rest))
  {
    var s', kids' := LeafFireShape(s, e), LeafFireKids(kids, boss, rest);
    forall n | n in s'.parent
      ensures s'.parent[n] in s'.nodes && s'.parent[n] in kids' && n in kids'[s'.parent[n]]
    {
      var p := s.parent[n];
      assert n in kids[p] && p != e;
    }
  }

  lemma LeafFireKeepsDistinct(s: Shape, kids: map<TreeNode, seq<TreeNode>>, e: TreeNode, boss: TreeNode, rest: seq<TreeNode>)
    requires ListsDistinct(s, kids) && FireSite(s, kids, e, boss) && Without(rest, kids[boss], e)
    ensures ListsDistinct(LeafFireShape(s, e), LeafFireKids(kids, boss, rest))
  {
  }

  /**
   * The bookkeeping after `e`, a child of `boss`, is fired and `rep`, one of
   * its children, takes its place: `rep` takes over the rank of `e`, its
   * former siblings become its children and its own parent is `boss`.
   */
  ghost function FireShape(s: Shape, e: TreeNode, boss: TreeNode, rep: TreeNode): Shape
    requires e in s.rank
  {
    Shape(s.nodes - {e}, s.rank[rep := s.rank[e]],
          (map x | x in s.parent && x != e :: if s.parent[x] == e then rep else s.parent[x])[rep := boss])
  }

  /**
   * The child lists after the fire: `rest` is the boss's list without `e`,
   * `siblings` is `e`'s list without `rep`.
   */
  ghost function FireKids(kids: map<TreeNode, seq<TreeNode>>, boss: TreeNode, rep: TreeNode,
                          rest: seq<TreeNode>, siblings: seq<TreeNode>): map<TreeNode, seq<TreeNode>>
    requires rep in kids
  {
    kids[boss := rest + [rep]][rep := kids[rep] + siblings]
  }

  /** `rep` is a child of the fired `e`. */
  ghost predicate Heir(s: Shape, kids: map<TreeNode, seq<TreeNode>>, e: TreeNode, rep: TreeNode)
    requires e in kids && e in s.rank
  {
    rep in kids[e] && rep in s.nodes && rep in kids && rep in s.parent && s.parent[rep] == e
    && rep in s.rank && s.rank[rep] < s.rank[e]
  }

  /** Handing `e`'s place and its other children to `rep` keeps the structure a tree. */
  lemma FireKeepsTree(root: TreeNode, s: Shape, kids: map<TreeNode, seq<TreeNode>>, e: TreeNode, boss: TreeNode, rep: TreeNode, rest: seq<TreeNode>, siblings: seq<TreeNode>)
    requires TreeShape(root, s, kids) && e != root && FireSite(s, kids, e, boss) && rep in kids[e]
      && Without(rest, kids[boss], e) && Without(siblings, kids[e], rep)
    ensures TreeShape(root, FireShape(s, e, boss, rep), FireKids(kids, boss, rep, rest, siblings))
  {
    assert Edge(s, e, rep);
    assert Heir(s, kids, e, rep) && rep != root;
    FireKeepsRanks(root, s, kids, e, boss, rep);
    FireKeepsEdges(s, kids, e, boss, rep, rest, siblings);
    FireKeepsParents(root, s, kids, e, boss, rep, rest, siblings);
    FireKeepsDistinct(s, kids, e, boss, rep, rest, siblings);
  }

  lemma FireKeepsRanks(root: TreeNode, s: Shape, kids: map<TreeNode, seq<TreeNode>>, e: TreeNode, boss: TreeNode, rep: TreeNode)
    requires RankedBelow(root, s) && FireSite(s, kids, e, boss) && Heir(s, kids, e, rep) && rep != root
    ensures RankedBelow(root, FireShape(s, e, boss, rep))
  {
  }

  lemma FireKeepsEdges(s: Shape, kids: map<TreeNode, seq<TreeNode>>, e: TreeNode, boss: TreeNode, rep: TreeNode, rest: seq<TreeNode>, siblings: seq<TreeNode>)
    requires EdgesDown(s, kids) && FireSite(s, kids, e, boss) && Heir(s, kids, e, rep)
      && Without(rest, kids[boss], e) && Without(siblings, kids[e], rep)
    ensures EdgesDown(FireShape(s, e, boss, rep), FireKids(kids, boss, rep, rest, siblings))
  {
    var s', kids' := FireShape(s, e, boss, rep), FireKids(kids, boss, rep, rest, siblings);
    assert kids'[rep] == kids[rep] + siblings;
    assert kids'[boss] == rest + [rep];
    forall n, c | n in s'.nodes && n in kids' && c in kids'[n]
      ensures Edge(s', n, c)
    {
      if n == rep {
        if c in kids[rep] { HeirEdge(s, kids, e, boss, rep, rest, siblings, c); } else { SiblingEdge(s, kids, e, boss, rep, rest, siblings, c); }
      } else if n != boss || c != rep {
        OtherEdge(s, kids, e, boss, rep, rest, siblings, n, c);
      }
    }
  }

  /** A child of `rep` stays its child. */
  lemma HeirEdge(s: Shape, kids: map<TreeNode, seq<TreeNode>>, e: TreeNode, boss: TreeNode, rep: TreeNode, rest: seq<TreeNode>, siblings: seq<TreeNode>, c: TreeNode)
    requires EdgesDown(s, kids) && FireSite(s, kids, e, boss) && Heir(s, kids, e, rep) && c in kids[rep]
      && Without(rest, kids[boss], e) && Without(siblings, kids[e], rep)
    ensures Edge(FireShape(s, e, boss, rep), rep, c)
  {
    assert s.parent[c] == rep && s.rank[c] < s.rank[rep] && c != e && c != rep;
  }

  /** A sibling of `rep` becomes its child. */
  lemma SiblingEdge(s: Shape, kids: map<TreeNode, seq<TreeNode>>, e: TreeNode, boss: TreeNode, rep: TreeNode, rest: seq<TreeNode>, siblings: seq<TreeNode>, c: TreeNode)
    requires EdgesDown(s, kids) && FireSite(s, kids, e, boss) && Heir(s, kids, e, rep) && c in siblings
      && Without(rest, kids[boss], e) && Without(siblings, kids[e], rep)
    ensures Edge(FireShape(s, e, boss, rep), rep, c)
  {
    assert c in kids[e] && c != rep;
    assert s.parent[c] == e && s.rank[c] < s.rank[e] && c != e;
  }

  /** Any other edge but the one into `e` stays as it was. */
  lemma OtherEdge(s: Shape, kids: map<TreeNode, seq<TreeNode>>, e: TreeNode, boss: TreeNode, rep: TreeNode, rest: seq<TreeNode>, siblings: seq<TreeNode>, n: TreeNode, c: TreeNode)
    requires EdgesDown(s, kids) && FireSite(s, kids, e, boss) && Heir(s, kids, e, rep)
      && Without(rest, kids[boss], e) && Without(siblings, kids[e], rep)
    requires n in s.nodes && n in kids && n != e && n != rep && (n != boss || c != rep)
    requires c in FireKids(kids, boss, rep, rest, siblings)[n]
    ensures Edge(FireShape(s, e, boss, rep), n, c)
  {
    if n == boss {
      assert FireKids(kids, boss, rep, rest, siblings)[n] == rest + [rep];
      assert c in rest;
    } else {
      assert FireKids(kids, boss, rep, rest, siblings)[n] == kids[n];
    }
    assert c in kids[n] && c != e;
    assert s.parent[c] == n && s.rank[c] < s.rank[n] && c != rep;
  }

  lemma FireKeepsParents(root: TreeNode, s: Shape, kids: map<TreeNode, seq<TreeNode>>, e: TreeNode, boss: TreeNode, rep: TreeNode, rest: seq<TreeNode>, siblings: seq<TreeNode>)
    requires ParentsListed(root, s, kids) && e != root && FireSite(s, kids, e, boss) && Heir(s, kids, e, rep)
      && Without(rest, kids[boss], e) && Without(siblings, kids[e], rep)
    ensures ParentsListed(root, FireShape(s, e, boss, rep), FireKids(kids, boss, rep, rest, siblings))
  {
    var s', kids' := FireShape(s, e, boss, rep), FireKids(kids, boss, rep, rest, siblings);
    forall n | n in s'.parent
      ensures s'.parent[n] in s'.nodes && s'.parent[n] in kids' && n in kids'[s'.parent[n]]
    {
      if n == rep {
        assert kids'[boss] == rest + [rep];
      } else if s.parent[n] == e {
        assert n in kids[e];
        assert kids'[rep] == kids[rep] + siblings;
      } else {
        var p := s.parent[n];
        assert n in kids[p] && n != e;
        assert kids'[p] == if p == rep then kids[rep] + siblings
                           else if p == boss then rest + [rep] else kids[p];
      }
    }
  }

  lemma FireKeepsDistinct(s: Shape, kids: map<TreeNode, seq<TreeNode>>, e: TreeNode, boss: TreeNode, rep: TreeNode, rest: seq<TreeNode>, siblings: seq<TreeNode>)
    requires ListsDistinct(s, kids) && EdgesDown(s, kids) && FireSite(s, kids, e, boss) && Heir(s, kids, e, rep)
      && Without(rest, kids[boss], e) && Without(siblings, kids[e], rep)
    ensures ListsDistinct(FireShape(s, e, boss, rep), FireKids(kids, boss, rep, rest, siblings))
  {
    var s', kids' := FireShape(s, e, boss, rep), FireKids(kids, boss, rep, rest, siblings);
    forall n | n in s'.nodes && n in kids' ensures NoDuplicates(kids'[n]) {
      if n == rep {
        assert forall x :: x in kids[rep] ==> s.parent[x] == rep;
        assert forall x :: x in siblings ==> s.parent[x] == e;
        NoDuplicatesConcat(kids[rep], siblings);
      } else if n == boss {
        assert rep !in kids[boss];
        NoDuplicatesAppend(rest, rep);
      } else {
        assert kids'[n] == kids[n];
      }
    }
  }
}
