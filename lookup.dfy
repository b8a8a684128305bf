/**
 * The read-only lookups of the employee tree (getEmployee, getBoss and
 * getSubordinates), stated over the value of a tree: an employee record and
 * the ordered list of its child subtrees.
 *
 * All three are preorder depth-first searches: a node is checked before its
 * children, the children are searched in stored order and the first hit
 * ends the search.  Each search is related here to `First`, the first
 * element of the preorder listing satisfying a test.
 */
module Lookup {
  import opened Wrappers

  /** One employee record: `boss` names the intended superior at hire time. */
  datatype Employee = Employee(name: string, jobTitle: string, salary: string, boss: string)

  /** The value of a TreeNode: its employee and its subtrees in stored order. */
  datatype Tree = Node(value: Employee, descendants: seq<Tree>)

  /** Every subtree of `t` in preorder: `t` first, then each child's listing in turn. */
  function Preorder(t: Tree): seq<Tree>
    decreases t, 1
  {
    [t] + PreorderFrom(t, 0)
  }

  /** The preorder listings of the children of `t` from index `i` on, concatenated. */
  function PreorderFrom(t: Tree, i: nat): seq<Tree>
    decreases t, 0, |t.descendants| - i
  {
    if i >= |t.descendants| then [] else Preorder(t.descendants[i]) + PreorderFrom(t, i + 1)
  }

  /** The first element of `s` satisfying `p`, if any. */
  function First(s: seq<Tree>, p: Tree -> bool): (r: Option<Tree>)
    ensures r.None? <==> forall i :: 0 <= i < |s| ==> !p(s[i])
    ensures r.Some? ==> exists i :: 0 <= i < |s| && s[i] == r.value && p(s[i]) && forall j :: 0 <= j < i ==> !p(s[j])
  {
    if s == [] then None
    else if p(s[0]) then Some(s[0])
    else
      var r := First(s[1..], p);
      assert r.Some? ==> exists i :: 0 < i < |s| && s[i] == r.value && p(s[i]) && forall j :: 0 <= j < i ==> !p(s[j]) by {
        if r.Some? {
          var i :| 0 <= i < |s[1..]| && s[1..][i] == r.value && p(s[1..][i]) && forall j :: 0 <= j < i ==> !p(s[1..][j]);
          assert s[i + 1] == r.value;
          assert forall j :: 0 <= j < i + 1 ==> !p(s[j]) by {
            forall j | 0 <= j < i + 1 ensures !p(s[j]) {
              if j > 0 { assert s[j] == s[1..][j - 1]; }
            }
          }
        }
      }
      r
  }

  lemma {:induction false} FirstAppend(a: seq<Tree>, b: seq<Tree>, p: Tree -> bool)
    ensures First(a + b, p) == if First(a, p).Some? then First(a, p) else First(b, p)
  {
    if a != [] {
      assert (a + b)[1..] == a[1..] + b;
      FirstAppend(a[1..], b, p);
    } else {
      assert a + b == b;
    }
  }

  /** The test `getEmployee` applies to a node. */
  function NameIs(name: string): Tree -> bool
  {
    (x: Tree) => x.value.name == name
  }

  /** The test `getBoss` applies to a node: one of its direct children has the name. */
  function IsBossOf(name: string): Tree -> bool
  {
    (x: Tree) => HasChildNamed(x, name)
  }

  predicate HasChildNamed(t: Tree, name: string)
  {
    exists c :: c in t.descendants && c.value.name == name
  }

  // ---------------------------------------------------------------- getEmployee

  /** getEmployee: the node itself if it has the name, else the first hit among its children. */
  function GetEmployee(t: Tree, name: string): (r: Option<Tree>)
    ensures r.Some? ==> r.value.value.name == name
    decreases t, 1
  {
    if t.value.name == name then Some(t) else GetEmployeeFrom(t, 0, name)
  }

  /** The `for` loop of getEmployee: children from index `i` on, stopping at the first non-null result. */
  function GetEmployeeFrom(t: Tree, i: nat, name: string): (r: Option<Tree>)
    ensures r.Some? ==> r.value.value.name == name
    decreases t, 0, |t.descendants| - i
  {
    if i >= |t.descendants| then None
    else match GetEmployee(t.descendants[i], name)
      case Some(e) => Some(e)
      case None => GetEmployeeFrom(t, i + 1, name)
  }

  lemma {:induction false} GetEmployeeIsFirst(t: Tree, name: string)
    ensures GetEmployee(t, name) == First(Preorder(t), NameIs(name))
    decreases t, 1
  {
    FirstAppend([t], PreorderFrom(t, 0), NameIs(name));
    GetEmployeeFromIsFirst(t, 0, name);
  }

  lemma {:induction false} GetEmployeeFromIsFirst(t: Tree, i: nat, name: string)
    ensures GetEmployeeFrom(t, i, name) == First(PreorderFrom(t, i), NameIs(name))
    decreases t, 0, |t.descendants| - i
  {
    if i < |t.descendants| {
      GetEmployeeIsFirst(t.descendants[i], name);
      GetEmployeeFromIsFirst(t, i + 1, name);
      FirstAppend(Preorder(t.descendants[i]), PreorderFrom(t, i + 1), NameIs(name));
    }
  }

  /**
   * What getEmployee promises: null exactly when no node of the tree has the
   * name; otherwise the first node in preorder that has it.
   */
  lemma GetEmployeeSpec(t: Tree, name: string)
    ensures GetEmployee(t, name).None? <==> forall i :: 0 <= i < |Preorder(t)| ==> Preorder(t)[i].value.name != name
    ensures GetEmployee(t, name).Some? ==>
      exists i :: 0 <= i < |Preorder(t)| && Preorder(t)[i] == GetEmployee(t, name).value
        && Preorder(t)[i].value.name == name
        && forall j :: 0 <= j < i ==> Preorder(t)[j].value.name != name
  {
    GetEmployeeIsFirst(t, name);
    var s, r := Preorder(t), First(Preorder(t), NameIs(name));
    assert forall i :: 0 <= i < |s| ==> (NameIs(name)(s[i]) <==> s[i].value.name == name);
  }

  // ---------------------------------------------------------------- getBoss

  /**
   * getBoss: the node itself when one of its direct children has the name,
   * else the first hit among its children.  The test is the truthiness of
   * `find`'s result, which is the name itself: it fails for the empty name.
   */
  function GetBoss(t: Tree, name: string): (r: Option<Tree>)
    ensures r.Some? ==> name != "" && HasChildNamed(r.value, name)
    decreases t, 1
  {
    if name != "" && HasChildNamed(t, name) then Some(t) else GetBossFrom(t, 0, name)
  }

  function GetBossFrom(t: Tree, i: nat, name: string): (r: Option<Tree>)
    ensures r.Some? ==> name != "" && HasChildNamed(r.value, name)
    decreases t, 0, |t.descendants| - i
  {
    if i >= |t.descendants| then None
    else match GetBoss(t.descendants[i], name)
      case Some(b) => Some(b)
      case None => GetBossFrom(t, i + 1, name)
  }

  lemma {:induction false} GetBossIsFirst(t: Tree, name: string)
    ensures GetBoss(t, name) == if name == "" then None else First(Preorder(t), IsBossOf(name))
    decreases t, 1
  {
    FirstAppend([t], PreorderFrom(t, 0), IsBossOf(name));
    GetBossFromIsFirst(t, 0, name);
  }

  lemma {:induction false} GetBossFromIsFirst(t: Tree, i: nat, name: string)
    ensures GetBossFrom(t, i, name) == if name == "" then None else First(PreorderFrom(t, i), IsBossOf(name))
    decreases t, 0, |t.descendants| - i
  {
    if i < |t.descendants| {
      GetBossIsFirst(t.descendants[i], name);
      GetBossFromIsFirst(t, i + 1, name);
      FirstAppend(Preorder(t.descendants[i]), PreorderFrom(t, i + 1), IsBossOf(name));
    }
  }

  /** getBoss of the empty name finds nothing, even below a child named "". */
  lemma GetBossOfEmptyName(t: Tree)
    ensures GetBoss(t, "") == None
  {
    GetBossIsFirst(t, "");
  }

  /** Every name in the tree occurs at one preorder position only. */
  ghost predicate HasUniqueNames(t: Tree)
  {
    forall i, j :: 0 <= i < j < |Preorder(t)| ==> Preorder(t)[i].value.name != Preorder(t)[j].value.name
  }

  lemma {:induction false} InPreorderFrom(t: Tree, i: nat, j: nat, y: Tree)
    requires i <= j < |t.descendants| && y in Preorder(t.descendants[j])
    ensures y in PreorderFrom(t, i)
    decreases j - i
  {
    if i < j { InPreorderFrom(t, i + 1, j, y); }
  }

  lemma {:induction false} PreorderFromMember(t: Tree, i: nat, y: Tree) returns (j: nat)
    requires y in PreorderFrom(t, i)
    ensures i <= j < |t.descendants| && y in Preorder(t.descendants[j])
    decreases |t.descendants| - i
  {
    if y in Preorder(t.descendants[i]) { j := i; } else { j := PreorderFromMember(t, i + 1, y); }
  }

  /** A direct child of any node of `t` is listed in preorder after `t` itself. */
  lemma {:induction false} ChildListedAfterRoot(t: Tree, x: Tree, c: Tree)
    requires x in Preorder(t) && c in x.descendants
    ensures c in PreorderFrom(t, 0)
    decreases t
  {
    if x == t {
      var k :| 0 <= k < |t.descendants| && t.descendants[k] == c;
      InPreorderFrom(t, 0, k, c);
    } else {
      var j := PreorderFromMember(t, 0, x);
      ChildListedAfterRoot(t.descendants[j], x, c);
      InPreorderFrom(t, 0, j, c);
    }
  }

  /** With unique names, the root has no boss. */
  lemma GetBossOfRoot(t: Tree)
    requires HasUniqueNames(t)
    ensures GetBoss(t, t.value.name) == None
  {
    var name := t.value.name;
    GetBossIsFirst(t, name);
    var s := Preorder(t);
    forall i | 0 <= i < |s| ensures !IsBossOf(name)(s[i]) {
      forall c | c in s[i].descendants ensures c.value.name != name {
        ChildListedAfterRoot(t, s[i], c);
        var k :| 0 <= k < |PreorderFrom(t, 0)| && PreorderFrom(t, 0)[k] == c;
        assert s[k + 1] == c && s[0] == t;
      }
    }
  }

  // ---------------------------------------------------------------- getSubordinates

  /** The child list of a found node; nothing when no node was found. */
  function ListOf(found: Option<Tree>): Option<seq<Tree>>
  {
    match found
    case None => None
    case Some(e) => Some(e.descendants)
  }

  /**
   * getSubordinates: the child list of the found node.  It is the list of
   * the node getEmployee finds (an empty list still ends the search, since
   * `[]` is truthy), and null when getEmployee finds none.
   */
  function GetSubordinates(t: Tree, name: string): (r: Option<seq<Tree>>)
    ensures r == ListOf(GetEmployee(t, name))
    decreases t, 1
  {
    if t.value.name == name then Some(t.descendants) else GetSubordinatesFrom(t, 0, name)
  }

  function GetSubordinatesFrom(t: Tree, i: nat, name: string): (r: Option<seq<Tree>>)
    ensures r == ListOf(GetEmployeeFrom(t, i, name))
    decreases t, 0, |t.descendants| - i
  {
    if i >= |t.descendants| then None
    else match GetSubordinates(t.descendants[i], name)
      case Some(s) => Some(s)
      case None => GetSubordinatesFrom(t, i + 1, name)
  }
}
