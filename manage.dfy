/**
 * The restructuring operations of manageEmployees.ts on the live tree:
 * getFutureBoss, hireEmployee, fireEmployee, promoteEmployee,
 * demoteEmployee and generateCompanyStructure.
 *
 * Each operation edits `descendants` lists in place.  The tree invariants
 * (`IsTree`, `UniqueNames`) are proved preserved by hire and fire; promote
 * and demote are specified by the lists they leave behind, since they do
 * not keep the structure a tree.
 */
module ManageEmployees {
  import opened Wrappers
  import opened Lookup
  import opened Nodes
  import opened Search
  import opened Reshape

  // ---------------------------------------------------------------- hireEmployee

  /** Why an operation stops with an exception in the source. */
  datatype Failure =
    | NoSuchBoss(bossName: string)
    | NoSuchEmployee(name: string)
    | NoReplacement(name: string)

  /** The confirmation hireEmployee returns. */
  function HireMessage(employeeName: string, bossName: string): string
  {
    "Added new employee (" + employeeName + ") with " + bossName + " as their boss"
  }

  lemma UniqueNamesAdd(nodes: set<TreeNode>, e: TreeNode)
    requires UniqueNames(nodes) && e.value.name !in Names(nodes)
    ensures UniqueNames(nodes + {e})
  {
    assert forall n :: n in nodes ==> n.value.name in Names(nodes);
  }

  /** `boss.descendants.push(new TreeNode(newEmployee))`, with the bookkeeping of the grown tree. */
  method AddLeaf(tree: TreeNode, boss: TreeNode, newEmployee: Employee, ghost s: Shape)
    returns (employee: TreeNode, ghost s': Shape)
    requires IsTree(tree, s) && boss in s.nodes
    modifies boss
    ensures fresh(employee) && employee.value == newEmployee && employee.descendants == []
    ensures boss.descendants == old(boss.descendants) + [employee]
    ensures s' == HireShape(s, boss, employee) && IsTree(tree, s')
    ensures Children(s'.nodes) == HireKids(old(Children(s.nodes)), boss, employee)
  {
    ghost var kids := Children(s.nodes);
    employee := new TreeNode(newEmployee);
    boss.descendants := boss.descendants + [employee];
    s' := HireShape(s, boss, employee);
    HireKeepsTree(tree, s, kids, boss, employee);
    ghost var kids' := HireKids(kids, boss, employee);
    forall n | n in s'.nodes ensures n.descendants == kids'[n] {
      if n != boss && n != employee {
        assert n.descendants == old(n.descendants);
      }
    }
    assert Children(s'.nodes) == kids';
  }

  /**
   * hireEmployee: the boss is the node getFutureBoss finds by `bossName`;
   * a new leaf holding `newEmployee` is appended to its list.  When no node
   * has that name the source throws at `boss.descendants` before changing
   * anything: Err(NoSuchBoss).
   */
  method HireEmployee(tree: TreeNode, newEmployee: Employee, bossName: string, ghost s: Shape)
    returns (r: Result<string, Failure>, ghost boss: TreeNode?, ghost hired: TreeNode?, ghost s': Shape)
    requires IsTree(tree, s)
    modifies s.nodes
    ensures old(Acyclic(s.nodes, s.rank)) && boss == old(Find(tree, Named(bossName), s.nodes, s.rank))
    ensures boss == null ==> r == Err(NoSuchBoss(bossName)) && hired == null && s' == s && unchanged(s.nodes)
    ensures boss != null ==>
      r == Ok(HireMessage(newEmployee.name, bossName)) &&
      hired != null && fresh(hired) && hired.value == newEmployee && hired.descendants == [] &&
      boss.descendants == old(boss.descendants) + [hired] &&
      (forall n :: n in s.nodes && n != boss ==> n.descendants == old(n.descendants)) &&
      s'.nodes == s.nodes + {hired} && s'.parent == s.parent[hired := boss] && IsTree(tree, s') &&
      boss in old(Children(s.nodes)) && Children(s'.nodes) == HireKids(old(Children(s.nodes)), boss, hired) &&
      (UniqueNames(s.nodes) && newEmployee.name !in Names(s.nodes) ==> UniqueNames(s'.nodes))
  {
    TreeIsAcyclic(tree, s);
    ghost var kids := Children(s.nodes);
    var b := Find(tree, Named(bossName), s.nodes, s.rank);
    boss := b;
    if b == null {
      r, hired, s' := Err(NoSuchBoss(bossName)), null, s;
      return;
    }
    var employee;
    employee, s' := AddLeaf(tree, b, newEmployee, s);
    r := Ok(HireMessage(employee.value.name, b.value.name));
    hired := employee;
    if UniqueNames(s.nodes) && newEmployee.name !in Names(s.nodes) {
      UniqueNamesAdd(s.nodes, employee);
    }
  }

  // ---------------------------------------------------------------- fireEmployee

  /** The line fireEmployee logs. */
  function FireMessage(employeeName: string, replacementName: string): string
  {
    "Fired " + employeeName + " and replaced with " + replacementName
  }

  /** Only `x` carries its name among the nodes of `list`. */
  lemma OnlyOneNamed(list: seq<TreeNode>, nodes: set<TreeNode>, x: TreeNode)
    requires UniqueNames(nodes) && x in nodes && forall y :: y in list ==> y in nodes
    ensures forall y :: y in list && y.value.name == x.value.name ==> y == x
  {
  }

  /**
   * The path of fireEmployee for an employee without subordinates: the
   * boss's list loses the entry found by name.
   */
  method DropLeaf(tree: TreeNode, name: string, e: TreeNode, boss: TreeNode, ghost s: Shape) returns (ghost s': Shape)
    requires IsTree(tree, s) && UniqueNames(s.nodes) && e in s.nodes && e != tree && e.value.name == name
    requires e in s.parent && boss == s.parent[e] && e.descendants == []
    modifies boss
    ensures boss.descendants == RemoveNode(old(boss.descendants), e)
    ensures s' == LeafFireShape(s, e) && IsTree(tree, s')
  {
    ghost var kids := Children(s.nodes);
    FireSiteOf(tree, s, kids, e);
    assert forall y :: y in kids[boss] ==> Edge(s, boss, y);
    OnlyOneNamed(boss.descendants, s.nodes, e);
    SpliceByName(boss.descendants, e);
    boss.descendants := SpliceOne(boss.descendants, FindIndexByName(boss.descendants, name));
    ghost var rest := RemoveNode(kids[boss], e);
    RemoveNodeWithout(kids[boss], e);
    s' := LeafFireShape(s, e);
    LeafFireKeepsTree(tree, s, kids, e, boss, rest);
    ghost var kids' := LeafFireKids(kids, boss, rest);
    forall n | n in s'.nodes ensures Children(s'.nodes)[n] == kids'[n] {
      if n != boss {
        assert n.descendants == old(n.descendants);
      }
    }
    TreeShapeAgree(tree, s', kids', Children(s'.nodes));
  }

  /**
   * The first half of fireEmployee's path for an employee with
   * subordinates: the subordinate at index `k` is cut from `e`'s list
   * (found again by its name) and the others are appended to its own list
   * one by one.
   */
  method TakeOver(e: TreeNode, k: nat) returns (rep: TreeNode)
    requires k < |e.descendants| && NoDuplicates(e.descendants) && e !in e.descendants
    requires forall y :: y in e.descendants && y.value.name == e.descendants[k].value.name ==> y == e.descendants[k]
    modifies e, e.descendants[k]
    ensures rep == old(e.descendants[k])
    ensures e.descendants == RemoveNode(old(e.descendants), rep)
    ensures rep.descendants == old(rep.descendants) + e.descendants
  {
    var subordinates := e.descendants;
    rep := subordinates[k];
    assert rep in subordinates;
    SpliceByName(subordinates, rep);
    var others := SpliceOne(subordinates, FindIndexByName(subordinates, rep.value.name));
    e.descendants := others;
    PushAll(rep, others);
  }

  /** `for (let x of list) node.descendants.push(x)`. */
  method PushAll(node: TreeNode, list: seq<TreeNode>)
    modifies node
    ensures node.descendants == old(node.descendants) + list
  {
    var i := 0;
    while i < |list|
      invariant 0 <= i <= |list|
      invariant node.descendants == old(node.descendants) + list[..i]
    {
      assert list[..i + 1] == list[..i] + [list[i]];
      node.descendants := node.descendants + [list[i]];
      i := i + 1;
    }
    assert list[..|list|] == list;
  }

  /**
   * The second half: the replacement is appended to the boss's list and
   * the fired employee's entry is cut from it by name.
   */
  method Replace(boss: TreeNode, name: string, e: TreeNode, rep: TreeNode)
    requires e in boss.descendants && e.value.name == name && NoDuplicates(boss.descendants)
    requires rep !in boss.descendants && rep != e && rep.value.name != name
    requires forall y :: y in boss.descendants && y.value.name == name ==> y == e
    modifies boss
    ensures boss.descendants == RemoveNode(old(boss.descendants), e) + [rep]
  {
    ghost var before := boss.descendants;
    boss.descendants := boss.descendants + [rep];
    NoDuplicatesAppend(before, rep);
    SpliceByName(boss.descendants, e);
    RemoveNodeConcat(before, [rep], e);
    boss.descendants := SpliceOne(boss.descendants, FindIndexByName(boss.descendants, name));
  }

  /** The path of fireEmployee for an employee with subordinates, with the bookkeeping of the new tree. */
  method PassOn(tree: TreeNode, name: string, e: TreeNode, boss: TreeNode, k: nat, ghost s: Shape)
    returns (rep: TreeNode, ghost s': Shape)
    requires IsTree(tree, s) && UniqueNames(s.nodes) && e in s.nodes && e != tree && e.value.name == name
    requires e in s.parent && boss == s.parent[e] && k < |e.descendants|
    modifies e, boss, e.descendants[k]
    ensures rep == old(e.descendants[k])
    ensures e.descendants == RemoveNode(old(e.descendants), rep)
    ensures rep.descendants == old(rep.descendants) + e.descendants
    ensures boss.descendants == RemoveNode(old(boss.descendants), e) + [rep]
    ensures s' == FireShape(s, e, boss, rep) && IsTree(tree, s')
  {
    ghost var kids := Children(s.nodes);
    FireSiteOf(tree, s, kids, e);
    ghost var r0 := e.descendants[k];
    assert r0 in kids[e] && Edge(s, e, r0);
    assert forall y :: y in kids[e] ==> Edge(s, e, y);
    assert forall y :: y in kids[boss] ==> Edge(s, boss, y);
    OnlyOneNamed(e.descendants, s.nodes, r0);
    OnlyOneNamed(boss.descendants, s.nodes, e);
    rep := TakeOver(e, k);
    Replace(boss, name, e, rep);
    ghost var rest, siblings := RemoveNode(kids[boss], e), RemoveNode(kids[e], rep);
    RemoveNodeWithout(kids[boss], e);
    RemoveNodeWithout(kids[e], rep);
    s' := FireShape(s, e, boss, rep);
    FireKeepsTree(tree, s, kids, e, boss, rep, rest, siblings);
    ghost var kids' := FireKids(kids, boss, rep, rest, siblings);
    forall n | n in s'.nodes ensures Children(s'.nodes)[n] == kids'[n] {
      if n != boss && n != rep {
        assert n.descendants == old(n.descendants);
      }
    }
    TreeShapeAgree(tree, s', kids', Children(s'.nodes));
  }

  /**
   * fireEmployee: the employee is found by name and its boss by getBoss.
   * Without subordinates it is cut from the boss's list; the source then
   * logs the name of a replacement node whose value is null, which throws:
   * Err(NoReplacement) after the change.  With subordinates, the one at
   * index `choice % count` (the source draws it with Math.random) takes its
   * place.  When no node has the name the source throws before changing
   * anything: Err(NoSuchEmployee).
   */
  method FireEmployee(tree: TreeNode, name: string, choice: nat, ghost s: Shape)
    returns (r: Result<string, Failure>, ghost fired: TreeNode?, ghost boss: TreeNode?, ghost replacement: TreeNode?, ghost s': Shape)
    requires IsTree(tree, s) && UniqueNames(s.nodes)
    requires name != "" || name !in Names(s.nodes)
    requires name != tree.value.name || tree.descendants == []
    modifies s.nodes
    ensures old(Acyclic(s.nodes, s.rank)) && fired == old(Find(tree, Named(name), s.nodes, s.rank))
    ensures fired == null ==> r == Err(NoSuchEmployee(name)) && s' == s && unchanged(s.nodes)
    ensures fired == tree ==> boss == null && old(Find(tree, BossOf(name), s.nodes, s.rank)) == null && r == Err(NoSuchBoss(name)) && s' == s && unchanged(s.nodes)
    ensures fired != null && fired != tree ==>
      fired in s.nodes && fired in s.parent && boss == s.parent[fired] &&
      boss == old(Find(tree, BossOf(name), s.nodes, s.rank)) &&
      s'.nodes == s.nodes - {fired} && IsTree(tree, s') && UniqueNames(s'.nodes) && name !in Names(s'.nodes)
    ensures fired != null && fired != tree && old(fired.descendants) == [] ==>
      r == Err(NoReplacement(name)) && replacement == null &&
      boss.descendants == old(RemoveNode(boss.descendants, fired)) &&
      forall n :: n in s.nodes && n != boss ==> n.descendants == old(n.descendants)
    ensures fired != null && fired != tree && old(fired.descendants) != [] ==>
      replacement == old(fired.descendants[choice % |fired.descendants|]) &&
      r == Ok(FireMessage(name, replacement.value.name)) &&
      fired.descendants == old(RemoveNode(fired.descendants, replacement)) &&
      replacement.descendants == old(replacement.descendants) + fired.descendants &&
      boss.descendants == old(RemoveNode(boss.descendants, fired)) + [replacement] &&
      forall n :: n in s.nodes && n != boss && n != fired && n != replacement ==> n.descendants == old(n.descendants)
  {
    TreeIsAcyclic(tree, s);
    var employee := Find(tree, Named(name), s.nodes, s.rank);
    fired := employee;
    if employee == null {
      r, boss, replacement, s' := Err(NoSuchEmployee(name)), null, null, s;
      return;
    }
    if employee == tree {
      // The whole tree is this one leaf: getBoss finds no boss, and the splice on it throws.
      r, boss, replacement, s' := Err(NoSuchBoss(name)), null, null, s;
      return;
    }
    var subordinates := employee.descendants;
    FindsBoss(tree, s, employee);
    var b := Find(tree, BossOf(name), s.nodes, s.rank);
    boss := b;
    if |subordinates| > 0 {
      var rep;
      rep, s' := PassOn(tree, name, employee, b, choice % |subordinates|, s);
      replacement := rep;
      r := Ok(FireMessage(employee.value.name, rep.value.name));
    } else {
      s' := DropLeaf(tree, name, employee, b, s);
      replacement := null;
      r := Err(NoReplacement(name));
    }
    assert forall n :: n in s'.nodes ==> n.value.name != name;
  }

  // ---------------------------------------------------------------- promoteEmployee

  /** The line promoteEmployee logs. */
  function PromoteMessage(employeeName: string, bossName: string): string
  {
    "Promoted " + employeeName + " and made " + bossName + " their subordinate"
  }

  /**
   * The list edits of promoteEmployee once the copy is taken: the
   * employee's subordinates are appended to the boss's list, the
   * employee's entry is cut from it by name, and the employee's list
   * becomes the copy followed by the boss.
   */
  method SwapWithBoss(e: TreeNode, boss: TreeNode, name: string, copy: seq<TreeNode>)
    requires e != boss && e in boss.descendants && e !in e.descendants && e.value.name == name
    requires NoDuplicates(boss.descendants + e.descendants)
    requires forall y :: y in boss.descendants + e.descendants && y.value.name == name ==> y == e
    modifies e, boss
    ensures boss.descendants == RemoveNode(old(boss.descendants), e) + old(e.descendants)
    ensures e.descendants == copy + [boss]
  {
    if |e.descendants| > 0 {
      PushAll(boss, e.descendants);
      e.descendants := [];
    }
    assert boss.descendants == old(boss.descendants) + old(e.descendants);
    SpliceByName(boss.descendants, e);
    RemoveNodeConcat(old(boss.descendants), old(e.descendants), e);
    boss.descendants := SpliceOne(boss.descendants, FindIndexByName(boss.descendants, name));
    e.descendants := copy;
    e.descendants := e.descendants + [boss];
  }

  /**
   * The deep copy of the boss's list followed by the swap of promoteEmployee;
   * the copies are fresh, so the swap leaves their values alone.
   */
  method CopyAndSwap(e: TreeNode, boss: TreeNode, name: string,
                     ghost nodes: set<TreeNode>, ghost rank: map<TreeNode, nat>, ghost bound: nat)
    returns (copy: seq<TreeNode>, ghost cn: set<TreeNode>, ghost cr: map<TreeNode, nat>)
    requires Acyclic(nodes, rank) && forall c :: c in boss.descendants ==> c in nodes && c in rank && rank[c] < bound
    requires e != boss && e in boss.descendants && e !in e.descendants && e.value.name == name
    requires NoDuplicates(boss.descendants + e.descendants)
    requires forall y :: y in boss.descendants + e.descendants && y.value.name == name ==> y == e
    modifies e, boss
    ensures fresh(cn) && Acyclic(cn, cr) && (forall c :: c in copy ==> c in cn)
    ensures Values(copy, cn, cr) == old(Values(boss.descendants, nodes, rank))
    ensures boss.descendants == RemoveNode(old(boss.descendants), e) + old(e.descendants)
    ensures e.descendants == copy + [boss]
  {
    ghost var want := Values(boss.descendants, nodes, rank);
    copy, cn, cr := DeepCopy(boss.descendants, nodes, rank, bound);
    assert Values(copy, cn, cr) == want;
    SwapWithBoss(e, boss, name, copy);
  }

  /** What the two lookups of promoteEmployee guarantee about the nodes they find. */
  lemma PromoteSite(tree: TreeNode, s: Shape, name: string)
    requires IsTree(tree, s) && UniqueNames(s.nodes)
    requires Acyclic(s.nodes, s.rank) && Find(tree, BossOf(name), s.nodes, s.rank) != null
    ensures var b, e := Find(tree, BossOf(name), s.nodes, s.rank), Find(tree, Named(name), s.nodes, s.rank);
      e != null && e in s.parent && s.parent[e] == b && e != b && e in b.descendants && e !in e.descendants &&
      e.value.name == name && b in s.rank &&
      (forall c :: c in b.descendants ==> c in s.nodes && c in s.rank && s.rank[c] < s.rank[b]) &&
      NoDuplicates(b.descendants + e.descendants) &&
      (forall y :: y in b.descendants + e.descendants && y.value.name == name ==> y == e) &&
      Values(b.descendants, s.nodes, s.rank) == Serialize(b, s.nodes, s.rank).descendants
  {
    var b, e := Find(tree, BossOf(name), s.nodes, s.rank), Find(tree, Named(name), s.nodes, s.rank);
    BossFoundFindsEmployee(tree, s, name);
    var kids := Children(s.nodes);
    var before := Serialize(b, s.nodes, s.rank);
    assert e in kids[b] && Edge(s, b, e);
    assert forall y :: y in kids[b] ==> Edge(s, b, y);
    assert forall y :: y in kids[e] ==> Edge(s, e, y);
    assert forall i :: 0 <= i < |b.descendants| ==> before.descendants[i] == Serialize(b.descendants[i], s.nodes, s.rank);
    assert Values(b.descendants, s.nodes, s.rank) == before.descendants;
    NoDuplicatesConcat(b.descendants, e.descendants);
    OnlyOneNamed(b.descendants + e.descendants, s.nodes, e);
  }

  /**
   * promoteEmployee: the employee (getEmployee) and its boss (getBoss) are
   * found by name and the boss's list is deep-copied; the boss takes over
   * the employee's subordinates and loses the employee; the employee's list
   * becomes the copy (which holds a copy of the employee itself) followed
   * by the boss.  The boss's own boss is not touched.  When getBoss finds
   * nothing the source throws before changing anything: Err(NoSuchBoss).
   */
  method PromoteEmployee(tree: TreeNode, employeeName: string, ghost s: Shape)
    returns (r: Result<string, Failure>, ghost employee: TreeNode?, ghost boss: TreeNode?,
             ghost copy: seq<TreeNode>, ghost cn: set<TreeNode>, ghost cr: map<TreeNode, nat>)
    requires IsTree(tree, s) && UniqueNames(s.nodes)
    modifies s.nodes
    ensures old(Acyclic(s.nodes, s.rank)) && boss == old(Find(tree, BossOf(employeeName), s.nodes, s.rank))
    ensures boss == null ==> r == Err(NoSuchBoss(employeeName)) && unchanged(s.nodes)
    ensures boss != null ==>
      employee == old(Find(tree, Named(employeeName), s.nodes, s.rank)) && employee != null &&
      employee in s.parent && s.parent[employee] == boss &&
      r == Ok(PromoteMessage(employeeName, boss.value.name)) &&
      boss.descendants == old(RemoveNode(boss.descendants, employee) + employee.descendants) &&
      employee.descendants == copy + [boss] &&
      fresh(cn) && Acyclic(cn, cr) && (forall c :: c in copy ==> c in cn) &&
      Values(copy, cn, cr) == old(Serialize(boss, s.nodes, s.rank)).descendants &&
      forall n :: n in s.nodes && n != boss && n != employee ==> n.descendants == old(n.descendants)
  {
    TreeIsAcyclic(tree, s);
    var e := Find(tree, Named(employeeName), s.nodes, s.rank);
    var b := Find(tree, BossOf(employeeName), s.nodes, s.rank);
    employee, boss := e, b;
    if b == null {
      r, copy, cn, cr := Err(NoSuchBoss(employeeName)), [], {}, map[];
      return;
    }
    PromoteSite(tree, s, employeeName);
    copy, cn, cr := CopyAndSwap(e, b, employeeName, s.nodes, s.rank, s.rank[b]);
    r := Ok(PromoteMessage(e.value.name, b.value.name));
  }

  // ---------------------------------------------------------------- demoteEmployee

  /** The line demoteEmployee logs. */
  function DemoteMessage(employeeName: string, subordinateName: string): string
  {
    "Demoted employee (demoted " + employeeName + " and replaced with " + subordinateName + ")"
  }

  /**
   * The edits of demoteEmployee: the employee takes over the subordinate's
   * list; the index of the subordinate is looked up by name in the
   * employee's grown list and removed from `copy`, which, followed by the
   * employee, becomes the subordinate's list.
   */
  method SwapWithSubordinate(e: TreeNode, sub: TreeNode, name: string, copy: seq<TreeNode>) returns (ghost j: int)
    requires e != sub && sub.value.name == name
    requires forall y :: y in sub.descendants ==> y.value.name != name
    requires forall y :: y in e.descendants && y.value.name == name ==> y == sub
    modifies e, sub
    ensures e.descendants == old(e.descendants) + old(sub.descendants)
    ensures sub.descendants == SpliceOne(copy, j) + [e]
    ensures sub in old(e.descendants) ==> 0 <= j < |old(e.descendants)| && old(e.descendants)[j] == sub
    ensures sub !in old(e.descendants) ==> j == -1
  {
    if |sub.descendants| > 0 {
      PushAll(e, sub.descendants);
      sub.descendants := [];
    }
    var index := FindIndexByName(e.descendants, name);
    j := index;
    assert j != -1 ==> e.descendants[j] in old(e.descendants);
    if sub in old(e.descendants) {
      var k :| 0 <= k < |old(e.descendants)| && old(e.descendants)[k] == sub;
      assert e.descendants[k] == sub;
    }
    sub.descendants := SpliceOne(copy, index);
    sub.descendants := sub.descendants + [e];
  }

  /** The deep copy of the employee's list followed by the edits of demoteEmployee. */
  method CopyAndSwapDown(e: TreeNode, sub: TreeNode, name: string,
                         ghost nodes: set<TreeNode>, ghost rank: map<TreeNode, nat>, ghost bound: nat)
    returns (copy: seq<TreeNode>, ghost cn: set<TreeNode>, ghost cr: map<TreeNode, nat>, ghost j: int)
    requires Acyclic(nodes, rank) && forall c :: c in e.descendants ==> c in nodes && c in rank && rank[c] < bound
    requires e != sub && sub.value.name == name
    requires forall y :: y in sub.descendants ==> y.value.name != name
    requires forall y :: y in e.descendants && y.value.name == name ==> y == sub
    modifies e, sub
    ensures fresh(cn) && Acyclic(cn, cr) && (forall c :: c in copy ==> c in cn) && |copy| == |old(e.descendants)|
    ensures Values(copy, cn, cr) == old(Values(e.descendants, nodes, rank))
    ensures e.descendants == old(e.descendants) + old(sub.descendants)
    ensures sub in old(e.descendants) ==>
      0 <= j < |copy| && old(e.descendants)[j] == sub && sub.descendants == copy[..j] + copy[j + 1..] + [e]
    ensures sub !in old(e.descendants) && copy != [] ==> sub.descendants == copy[..|copy| - 1] + [e]
    ensures copy == [] ==> sub.descendants == [e]
  {
    ghost var want := Values(e.descendants, nodes, rank);
    copy, cn, cr := DeepCopy(e.descendants, nodes, rank, bound);
    assert Values(copy, cn, cr) == want;
    j := SwapWithSubordinate(e, sub, name, copy);
  }

  /**
   * demoteEmployee: the employee and the subordinate are found by name
   * (getEmployee) and the employee's list is deep-copied; the employee
   * takes over the subordinate's subordinates; the subordinate's list
   * becomes the copy without the entry at the subordinate's index in the
   * employee's list, followed by the employee.  When the subordinate is not
   * one of the employee's own subordinates that index is -1, and the last
   * copy is the one dropped.  A name that is not found makes the source
   * throw before anything changes: Err(NoSuchEmployee).
   */
  method DemoteEmployee(tree: TreeNode, employeeName: string, subordinateName: string, ghost s: Shape)
    returns (r: Result<string, Failure>, ghost employee: TreeNode?, ghost subordinate: TreeNode?,
             ghost copy: seq<TreeNode>, ghost cn: set<TreeNode>, ghost cr: map<TreeNode, nat>, ghost j: int)
    requires IsTree(tree, s) && UniqueNames(s.nodes)
    requires employeeName != subordinateName ||
             forall n :: n in s.nodes && n.value.name == employeeName ==> n.descendants == []
    modifies s.nodes
    ensures old(Acyclic(s.nodes, s.rank))
    ensures employee == old(Find(tree, Named(employeeName), s.nodes, s.rank))
    ensures subordinate == old(Find(tree, Named(subordinateName), s.nodes, s.rank))
    ensures employee == null ==> r == Err(NoSuchEmployee(employeeName)) && unchanged(s.nodes)
    ensures employee != null && subordinate == null ==> r == Err(NoSuchEmployee(subordinateName)) && unchanged(s.nodes)
    ensures employee != null && employee == subordinate ==>
      r == Ok(DemoteMessage(employeeName, subordinateName)) && copy == [] && j == -1 &&
      employee.descendants == [employee] &&
      forall n :: n in s.nodes && n != employee ==> n.descendants == old(n.descendants)
    ensures employee != null && subordinate != null && employee != subordinate ==>
      r == Ok(DemoteMessage(employeeName, subordinateName)) &&
      employee.descendants == old(employee.descendants + subordinate.descendants) &&
      fresh(cn) && Acyclic(cn, cr) && (forall c :: c in copy ==> c in cn) &&
      Values(copy, cn, cr) == old(Serialize(employee, s.nodes, s.rank)).descendants &&
      (subordinate in old(employee.descendants) ==>
         0 <= j < |copy| && old(employee.descendants)[j] == subordinate &&
         subordinate.descendants == copy[..j] + copy[j + 1..] + [employee]) &&
      (subordinate !in old(employee.descendants) && copy != [] ==>
         subordinate.descendants == copy[..|copy| - 1] + [employee]) &&
      (copy == [] ==> subordinate.descendants == [employee]) &&
      forall n :: n in s.nodes && n != employee && n != subordinate ==> n.descendants == old(n.descendants)
  {
    TreeIsAcyclic(tree, s);
    var e := Find(tree, Named(employeeName), s.nodes, s.rank);
    var sub := Find(tree, Named(subordinateName), s.nodes, s.rank);
    employee, subordinate := e, sub;
    if e == null {
      r, copy, cn, cr, j := Err(NoSuchEmployee(employeeName)), [], {}, map[], -1;
      return;
    }
    if sub == null {
      r, copy, cn, cr, j := Err(NoSuchEmployee(subordinateName)), [], {}, map[], -1;
      return;
    }
    if e == sub {
      // One leaf named twice: the copy is empty, the index -1, and the node ends up listing itself.
      var employeeSubordinates: seq<TreeNode> := [];
      var index := FindIndexByName(e.descendants, subordinateName);
      e.descendants := SpliceOne(employeeSubordinates, index) + [e];
      copy, cn, cr, j := employeeSubordinates, {}, map[], index;
      r := Ok(DemoteMessage(e.value.name, sub.value.name));
      return;
    }
    ghost var kids := Children(s.nodes);
    ghost var before := Serialize(e, s.nodes, s.rank);
    assert forall y :: y in kids[e] ==> Edge(s, e, y);
    assert forall y :: y in kids[sub] ==> Edge(s, sub, y);
    assert forall i :: 0 <= i < |e.descendants| ==> before.descendants[i] == Serialize(e.descendants[i], s.nodes, s.rank);
    assert Values(e.descendants, s.nodes, s.rank) == before.descendants;
    OnlyOneNamed(e.descendants, s.nodes, sub);
    copy, cn, cr, j := CopyAndSwapDown(e, sub, subordinateName, s.nodes, s.rank, s.rank[e]);
    r := Ok(DemoteMessage(e.value.name, sub.value.name));
  }

  // ---------------------------------------------------------------- generateCompanyStructure

  /** The names of a list of employees. */
  ghost function NamesOf(employees: seq<Employee>): set<string>
  {
    set e | e in employees :: e.name
  }

  /** Every employee before index `k` (the first excepted) names a boss listed before it. */
  ghost predicate BossesListedFirst(employees: seq<Employee>, k: int)
    requires k <= |employees|
  {
    forall i :: 1 <= i < k ==> employees[i].boss in NamesOf(employees[..i])
  }

  /** No two employees of the list share a name. */
  ghost predicate DistinctNames(employees: seq<Employee>)
  {
    forall i, j :: 0 <= i < j < |employees| ==> employees[i].name != employees[j].name
  }

  /** The nodes listed in `order`. */
  ghost function NodeSet(order: seq<TreeNode>): set<TreeNode>
  {
    if order == [] then {} else NodeSet(order[..|order| - 1]) + {order[|order| - 1]}
  }

  lemma {:induction false} NodeSetMembers(order: seq<TreeNode>)
    ensures forall x :: x in NodeSet(order) <==> x in order
  {
    if order != [] {
      var front := order[..|order| - 1];
      assert order == front + [order[|order| - 1]];
      NodeSetMembers(front);
    }
  }

  lemma NodesGrow(order: seq<TreeNode>, n: TreeNode)
    ensures NodeSet(order + [n]) == NodeSet(order) + {n}
  {
    assert (order + [n])[..|order|] == order;
  }

  /**
   * The nodes made for the first `i` employees: `order[k]` holds
   * `employees[k]` and hangs under a node named by its `boss` field.
   */
  ghost predicate Built(s: Shape, order: seq<TreeNode>, employees: seq<Employee>, i: nat)
  {
    i <= |employees| && |order| == i && s.nodes == NodeSet(order) &&
    (forall k :: 0 <= k < i ==> order[k].value == employees[k]) &&
    (forall k :: 1 <= k < i ==> HiredUnder(s, order[k], employees[k]))
  }

  /** `n` hangs under a node named by the `boss` field of `e`. */
  ghost predicate HiredUnder(s: Shape, n: TreeNode, e: Employee)
  {
    n in s.parent && s.parent[n].value.name == e.boss
  }

  lemma BuiltGrow(s: Shape, s': Shape, order: seq<TreeNode>, hired: TreeNode, boss: TreeNode, employees: seq<Employee>, i: nat)
    requires Built(s, order, employees, i) && i < |employees|
    requires hired.value == employees[i] && hired !in s.nodes && s'.nodes == s.nodes + {hired}
    requires s'.parent == s.parent[hired := boss] && boss.value.name == employees[i].boss
    ensures Built(s', order + [hired], employees, i + 1)
  {
    NodesGrow(order, hired);
    NodeSetMembers(order);
    forall k | 0 <= k < i ensures order[k] in s.nodes {
      assert order[k] in order;
    }
  }

  /** The names in the tree are those of the employees hired so far; distinct names stay distinct. */
  lemma BuiltNames(s: Shape, order: seq<TreeNode>, employees: seq<Employee>, i: nat)
    requires Built(s, order, employees, i)
    ensures Names(s.nodes) == NamesOf(employees[..i])
    ensures DistinctNames(employees) ==> UniqueNames(s.nodes)
  {
    NodeSetMembers(order);
    forall x | x in Names(s.nodes) ensures x in NamesOf(employees[..i]) {
      var n :| n in s.nodes && n.value.name == x;
      var k :| 0 <= k < |order| && order[k] == n;
      assert employees[..i][k] == employees[k];
    }
    forall x | x in NamesOf(employees[..i]) ensures x in Names(s.nodes) {
      var k :| 0 <= k < i && employees[..i][k].name == x;
      assert order[k] in order;
    }
    if DistinctNames(employees) {
      forall a, b | a in s.nodes && b in s.nodes && a != b ensures a.value.name != b.value.name {
        var ka :| 0 <= ka < |order| && order[ka] == a;
        var kb :| 0 <= kb < |order| && order[kb] == b;
        if ka < kb {
          assert employees[ka].name != employees[kb].name;
        } else {
          assert employees[kb].name != employees[ka].name;
        }
      }
    }
  }

  /** The tree with only its root. */
  lemma SingleNode(root: TreeNode, s: Shape, employees: seq<Employee>)
    requires |employees| > 0 && root.value == employees[0]
    requires root.descendants == [] && s == Shape({root}, map[root := 0], map[])
    ensures IsTree(root, s) && UniqueNames(s.nodes) && Building(root, s, [root], employees, 1, Children(s.nodes))
  {
    assert Children(s.nodes) == map[root := []];
    assert [root][..0] == [];
    assert employees[..1] == [employees[0]];
  }

  /** getFutureBoss finds a node exactly when some node of the tree carries the name. */
  lemma FoundIffNamed(root: TreeNode, s: Shape, name: string)
    requires IsTree(root, s)
    ensures Acyclic(s.nodes, s.rank) && (Find(root, Named(name), s.nodes, s.rank) == null <==> name !in Names(s.nodes))
  {
    TreeIsAcyclic(root, s);
    if name in Names(s.nodes) {
      var n :| n in s.nodes && n.value.name == name;
      FoundFromRoot(root, s, n, Named(name));
    } else {
      NotFoundWhenAbsent(root, name, s.nodes, s.rank);
    }
  }

  /** One hire of generateCompanyStructure, stated in terms of the names already in the tree. */
  method HireInto(root: TreeNode, employee: Employee, ghost s: Shape)
    returns (r: Result<string, Failure>, ghost hired: TreeNode, ghost boss: TreeNode, ghost s': Shape)
    requires IsTree(root, s)
    modifies s.nodes
    ensures r.Err? <==> employee.boss !in Names(s.nodes)
    ensures r.Err? ==> r.error == NoSuchBoss(employee.boss) && unchanged(s.nodes)
    ensures old(Acyclic(s.nodes, s.rank)) && (r.Ok? ==> boss == old(Find(root, Named(employee.boss), s.nodes, s.rank)))
    ensures r.Ok? ==>
      fresh(hired) && hired.value == employee && s'.nodes == s.nodes + {hired} && IsTree(root, s') &&
      boss in s.nodes && boss.value.name == employee.boss && s'.parent == s.parent[hired := boss] &&
      boss in old(Children(s.nodes)) && Children(s'.nodes) == HireKids(old(Children(s.nodes)), boss, hired)
  {
    FoundIffNamed(root, s, employee.boss);
    ghost var b, h;
    r, b, h, s' := HireEmployee(root, employee, employee.boss, s);
    hired := if h == null then root else h;
    boss := if b == null then root else b;
  }

  /**
   * The nodes of `order` whose parent is `n`, in the order of `order`: the
   * list `n` ends up with when the nodes are appended to their bosses'
   * lists one after another in that order.
   */
  ghost function HiredBelow(order: seq<TreeNode>, parent: map<TreeNode, TreeNode>, n: TreeNode): seq<TreeNode>
  {
    if order == [] then []
    else
      var last := order[|order| - 1];
      HiredBelow(order[..|order| - 1], parent, n) + (if last in parent && parent[last] == n then [last] else [])
  }

  /** `HiredBelow` holds exactly the nodes of `order` whose parent is `n`. */
  lemma {:induction false} HiredBelowMembers(order: seq<TreeNode>, parent: map<TreeNode, TreeNode>, n: TreeNode)
    ensures forall x :: x in HiredBelow(order, parent, n) <==> x in order && x in parent && parent[x] == n
  {
    if order != [] {
      var front := order[..|order| - 1];
      assert order == front + [order[|order| - 1]];
      HiredBelowMembers(front, parent, n);
    }
  }

  /** Every child list is the list of the nodes hired under its owner, in hiring order. */
  ghost predicate ListedInOrder(kids: map<TreeNode, seq<TreeNode>>, parent: map<TreeNode, TreeNode>, order: seq<TreeNode>)
  {
    forall n {:trigger HiredBelow(order, parent, n)} :: n in kids ==> kids[n] == HiredBelow(order, parent, n)
  }

  /** Two parent maps that agree on the nodes of `order` select the same children. */
  lemma {:induction false} HiredBelowAgree(order: seq<TreeNode>, p: map<TreeNode, TreeNode>, q: map<TreeNode, TreeNode>, n: TreeNode)
    requires forall x :: x in order ==> (x in p <==> x in q) && (x in p ==> p[x] == q[x])
    ensures HiredBelow(order, p, n) == HiredBelow(order, q, n)
  {
    if order != [] {
      var front := order[..|order| - 1];
      forall x | x in front ensures x in order {
      }
      HiredBelowAgree(front, p, q, n);
    }
  }

  /** A node that is nobody's parent has nobody hired below it. */
  lemma {:induction false} NoneHiredBelow(order: seq<TreeNode>, parent: map<TreeNode, TreeNode>, n: TreeNode)
    requires forall x :: x in order && x in parent ==> parent[x] != n
    ensures HiredBelow(order, parent, n) == []
  {
    if order != [] {
      var front := order[..|order| - 1];
      forall x | x in front ensures x in order {
      }
      NoneHiredBelow(front, parent, n);
    }
  }

  /** Hiring one more node under `boss` appends it to exactly that list. */
  lemma ListedGrow(kids: map<TreeNode, seq<TreeNode>>, parent: map<TreeNode, TreeNode>, order: seq<TreeNode>,
                   boss: TreeNode, hired: TreeNode)
    requires ListedInOrder(kids, parent, order)
    requires boss in kids && hired !in kids && forall x :: x in order ==> x in kids
    requires forall x {:trigger parent[x]} :: x in parent ==> parent[x] in kids
    ensures ListedInOrder(HireKids(kids, boss, hired), parent[hired := boss], order + [hired])
  {
    var kids' := HireKids(kids, boss, hired);
    var parent' := parent[hired := boss];
    var order' := order + [hired];
    assert order'[..|order'| - 1] == order;
    HiredBelowAgree(order, parent, parent', hired);
    forall n | n in kids' ensures kids'[n] == HiredBelow(order', parent', n) {
      HiredBelowAgree(order, parent, parent', n);
      if n == hired {
        NoneHiredBelow(order, parent, hired);
      }
    }
  }

  /** The state of generateCompanyStructure before it hires `employees[i]`. */
  ghost predicate Building(root: TreeNode, s: Shape, order: seq<TreeNode>, employees: seq<Employee>, i: nat,
                           kids: map<TreeNode, seq<TreeNode>>)
  {
    Recorded(root, s, order, employees, i) &&
    kids.Keys == s.nodes && TreeShape(root, s, kids) && ListedInOrder(kids, s.parent, order)
  }

  /** The records hired so far: the first `i`, each with a boss listed before it, the first at the root. */
  ghost predicate Recorded(root: TreeNode, s: Shape, order: seq<TreeNode>, employees: seq<Employee>, i: nat)
  {
    1 <= i <= |employees| && Built(s, order, employees, i) && BossesListedFirst(employees, i) && order[0] == root
  }

  lemma BuildingGrow(root: TreeNode, s: Shape, s': Shape, kids: map<TreeNode, seq<TreeNode>>, order: seq<TreeNode>,
                     hired: TreeNode, boss: TreeNode, employees: seq<Employee>, i: nat)
    requires i < |employees| && Recorded(root, s, order, employees, i)
    requires kids.Keys == s.nodes && ListedInOrder(kids, s.parent, order)
    requires forall x {:trigger s.parent[x]} :: x in s.parent ==> s.parent[x] in kids
    requires employees[i].boss in NamesOf(employees[..i])
    requires hired.value == employees[i] && hired !in s.nodes && s'.nodes == s.nodes + {hired}
    requires s'.parent == s.parent[hired := boss] && boss.value.name == employees[i].boss && boss in kids
    ensures Recorded(root, s', order + [hired], employees, i + 1)
    ensures HireKids(kids, boss, hired).Keys == s'.nodes
    ensures ListedInOrder(HireKids(kids, boss, hired), s'.parent, order + [hired])
  {
    RecordedGrow(root, s, s', order, hired, boss, employees, i);
    NodeSetMembers(order);
    forall x | x in order ensures x in kids {
      assert x in s.nodes;
    }
    ListedGrow(kids, s.parent, order, boss, hired);
  }

  lemma BuildingIntro(root: TreeNode, s: Shape, order: seq<TreeNode>, employees: seq<Employee>, i: nat,
                      kids: map<TreeNode, seq<TreeNode>>)
    requires Recorded(root, s, order, employees, i)
    requires kids.Keys == s.nodes && TreeShape(root, s, kids) && ListedInOrder(kids, s.parent, order)
    ensures Building(root, s, order, employees, i, kids)
  {
  }

  lemma RecordedGrow(root: TreeNode, s: Shape, s': Shape, order: seq<TreeNode>,
                     hired: TreeNode, boss: TreeNode, employees: seq<Employee>, i: nat)
    requires i < |employees| && Recorded(root, s, order, employees, i)
    requires employees[i].boss in NamesOf(employees[..i])
    requires hired.value == employees[i] && hired !in s.nodes && s'.nodes == s.nodes + {hired}
    requires s'.parent == s.parent[hired := boss] && boss.value.name == employees[i].boss
    ensures Recorded(root, s', order + [hired], employees, i + 1)
  {
    BuiltGrow(s, s', order, hired, boss, employees, i);
    BossesGrow(employees, i);
  }

  lemma BossesGrow(employees: seq<Employee>, i: nat)
    requires 1 <= i < |employees| && BossesListedFirst(employees, i)
    requires employees[i].boss in NamesOf(employees[..i])
    ensures BossesListedFirst(employees, i + 1)
  {
    assert employees[..i + 1][..i] == employees[..i];
  }

  /** The hire of `employees[i]` in generateCompanyStructure, with the bookkeeping of `Building`. */
  method HireNext(root: TreeNode, employees: seq<Employee>, i: nat, ghost s: Shape, ghost order: seq<TreeNode>,
                  ghost kids: map<TreeNode, seq<TreeNode>>)
    returns (r: Result<string, Failure>, ghost s': Shape, ghost hired: TreeNode, ghost kids': map<TreeNode, seq<TreeNode>>)
    requires kids == Children(s.nodes) && Building(root, s, order, employees, i, kids) && i < |employees|
    modifies s.nodes
    ensures r.Err? <==> employees[i].boss !in NamesOf(employees[..i])
    ensures r.Err? ==> r.error == NoSuchBoss(employees[i].boss) && unchanged(s.nodes)
    ensures r.Ok? ==>
      kids' == Children(s'.nodes) && Building(root, s', order + [hired], employees, i + 1, kids') &&
      fresh(hired) && s'.nodes == s.nodes + {hired}
  {
    BuiltNames(s, order, employees, i);
    ghost var boss;
    r, hired, boss, s' := HireInto(root, employees[i], s);
    kids' := Children(s'.nodes);
    if r.Ok? {
      BuildingGrow(root, s, s', kids, order, hired, boss, employees, i);
      BuildingIntro(root, s', order + [hired], employees, i + 1, kids');
    }
  }

  /** What the finished structure says about each node's list and about names. */
  lemma BuiltLists(root: TreeNode, s: Shape, order: seq<TreeNode>, employees: seq<Employee>)
    requires Building(root, s, order, employees, |employees|, Children(s.nodes))
    ensures IsTree(root, s) && Recorded(root, s, order, employees, |employees|)
    ensures forall n :: n in s.nodes ==> n.descendants == HiredBelow(order, s.parent, n)
    ensures DistinctNames(employees) ==> UniqueNames(s.nodes)
  {
    BuiltNames(s, order, employees, |employees|);
    assert forall n :: n in s.nodes ==> Children(s.nodes)[n] == n.descendants;
  }

  /** Record `k` is the first whose boss is not listed before it. */
  ghost predicate FirstUnknownBoss(employees: seq<Employee>, k: int)
  {
    1 <= k < |employees| && BossesListedFirst(employees, k) && employees[k].boss !in NamesOf(employees[..k])
  }

  /** A record whose boss is not listed before it stops the bootstrap there. */
  lemma StopsAt(employees: seq<Employee>, i: nat)
    requires 1 <= i < |employees| && employees[i].boss !in NamesOf(employees[..i])
    ensures !BossesListedFirst(employees, |employees|)
  {
    assert !(employees[i].boss in NamesOf(employees[..i]));
  }

  /**
   * The `forEach` of generateCompanyStructure from record `i` on: each
   * record is hired in turn, and the first whose boss has not been hired
   * yet stops it with Err(NoSuchBoss).
   */
  method HireRest(root: TreeNode, employees: seq<Employee>, i: nat, ghost s: Shape, ghost order: seq<TreeNode>)
    returns (r: Result<string, Failure>, ghost s': Shape, ghost order': seq<TreeNode>, ghost stop: nat)
    requires Building(root, s, order, employees, i, Children(s.nodes))
    modifies s.nodes
    ensures r.Ok? <==> BossesListedFirst(employees, |employees|)
    ensures r.Err? ==> i <= stop && FirstUnknownBoss(employees, stop) && r.error == NoSuchBoss(employees[stop].boss)
    ensures r.Ok? ==>
      Building(root, s', order', employees, |employees|, Children(s'.nodes)) && fresh(s'.nodes - s.nodes)
  {
    var j := i;
    s', order', stop := s, order, 0;
    r := Ok("");
    while j < |employees|
      invariant Building(root, s', order', employees, j, Children(s'.nodes)) && i <= j
      invariant fresh(s'.nodes - s.nodes) && s.nodes <= s'.nodes
    {
      var result;
      ghost var s1, hired, kids1;
      result, s1, hired, kids1 := HireNext(root, employees, j, s', order', Children(s'.nodes));
      if result.Err? {
        StopsAt(employees, j);
        r, stop := result, j;
        return;
      }
      s', order' := s1, order' + [hired];
      j := j + 1;
    }
  }

  /**
   * generateCompanyStructure: the first employee becomes the root and every
   * later one is hired, in list order, under the boss its `boss` field
   * names.  The first employee whose boss has not been hired yet makes
   * hireEmployee throw: Err(NoSuchBoss).  `order[i]` is the node made for
   * `employees[i]`.
   */
  method GenerateCompanyStructure(employees: seq<Employee>)
    returns (r: Result<TreeNode, Failure>, ghost s: Shape, ghost order: seq<TreeNode>)
    requires |employees| > 0
    ensures r.Ok? <==> BossesListedFirst(employees, |employees|)
    ensures r.Err? ==> exists k :: FirstUnknownBoss(employees, k) && r.error == NoSuchBoss(employees[k].boss)
    ensures r.Ok? ==> fresh(s.nodes) && IsTree(r.value, s) && Recorded(r.value, s, order, employees, |employees|)
    ensures r.Ok? ==> forall n :: n in s.nodes ==> n.descendants == HiredBelow(order, s.parent, n)
    ensures r.Ok? && DistinctNames(employees) ==> UniqueNames(s.nodes)
  {
    var root := new TreeNode(employees[0]);
    s, order := Shape({root}, map[root := 0], map[]), [root];
    SingleNode(root, s, employees);
    var result;
    ghost var stop;
    result, s, order, stop := HireRest(root, employees, 1, s, order);
    if result.Err? {
      r := Err(result.error);
      return;
    }
    r := Ok(root);
    BuiltLists(root, s, order, employees);
  }
}
