# Employee hierarchy: lookups and in-place restructuring

This project models a company hierarchy kept as a tree of `TreeNode`
objects. Each node holds one employee record and the ordered list of its
direct subordinates (`descendants`). The model covers two parts.

- **The read-only lookups** `getEmployee`, `getBoss` and `getSubordinates`
  (module `Lookup`, over the value of a tree). All three are preorder
  depth-first searches. They check the node first, then its children in
  stored order, and the first hit wins. The same searches on the live heap
  are in module `Search`. There `getEmployee` and `getFutureBoss` are one
  function, `Search.Find` with a `Named` query, because the two bodies are
  identical.
- **The restructuring operations** of `manageEmployees.ts` (module
  `ManageEmployees`): `hireEmployee`, `fireEmployee`, `promoteEmployee`,
  `demoteEmployee`, `generateCompanyStructure`, and the per-name step of
  `generateNormalizedJSON` (module `Normalize`). These are imperative
  methods that `push` and `splice` the `descendants` sequences of heap
  nodes.

The tree invariant is a ghost `Shape`: the node set, a rank that strictly
falls from parent to child, and the parent of every non-root node. It is
passed beside the root. `Nodes.IsTree` says that the heap agrees with the
shape. That means one root, one listing parent per node, no cycles, and no
repeats in any list. Hire and fire are proved to keep `IsTree`. Fire is
also proved to keep names unique.

Promote and demote do not keep the structure a tree, and the model states
what they actually leave behind:
- promote never edits the boss's own boss;
- promote gives the employee a copy of the boss's old list, and that list
  includes a copy of the employee itself;
- after demote the subordinate lists the employee; the employee lists the
  subordinate back only when the subordinate was one of its direct
  subordinates;
- demote of a leaf onto itself leaves that node listing itself.

The deep copy `JSON.parse(JSON.stringify(...))` is modelled by
`Nodes.DeepCopy`. It allocates fresh nodes whose values (`Nodes.Serialize`,
a `Lookup.Tree`) equal those of the originals.

Paths on which the source throws:
- It throws before changing anything in five cases: hire (and each hire of
  the bootstrap) under an absent boss, fire of an absent name, fire of the
  root when it has no subordinates, promote of a name without a boss (the
  root or an absent name), and demote of an absent name. Each one returns
  `Err`.
- It throws after the change when it fires an employee with no
  subordinates, at the log line that reads the placeholder's null value.
  That path returns `Err(NoReplacement)` after the edit.
- A name that normalizes to an empty local part returns `None`.

## Model

| member | source | states |
|---|---|---|
| Lookup.GetEmployee | src/getEmployees.ts:11-21 | a found node carries the queried name |
| Lookup.GetEmployeeIsFirst | src/getEmployees.ts:11-21 | getEmployee returns the first node in preorder (node before children, children in stored order) with the name |
| Lookup.GetEmployeeSpec | src/getEmployees.ts:11-21 | null exactly when no node of the tree has the name; otherwise a node with the name, and no earlier node in preorder has it |
| Lookup.GetBoss | src/getEmployees.ts:30-40 | a found node has a direct child with the queried name, and the name is not empty |
| Lookup.GetBossIsFirst | src/getEmployees.ts:30-40 | getBoss returns the first node in preorder with a direct child of the name, and null for the empty name |
| Lookup.GetBossOfEmptyName | src/getEmployees.ts:31 | getBoss of "" is null even when a child is named "", because `find` returns the falsy "" |
| Lookup.GetBossOfRoot | src/getEmployees.ts:30-40 | in a tree with unique names, getBoss of the root's name is null |
| Lookup.GetSubordinates | src/getEmployees.ts:50-60 | getSubordinates is the child list of the node getEmployee finds, and null when it finds none |
| Search.Find | src/manageEmployees.ts:80-92 | getFutureBoss and getEmployee on the live tree: a found node is in the tree and passes the test |
| Search.FindIsSearchValue | src/getEmployees.ts:11-40 | the live search finds the node whose value getEmployee or getBoss finds on the value of the tree, and null when those find nothing |
| Search.FoundFromRoot | src/getEmployees.ts:11-21 | a node of the tree that passes the test is not missed from the root |
| Search.FindsEveryNode | src/getEmployees.ts:11-21 | with unique names, getEmployee finds every node of the tree by its name |
| Search.FindsBoss | src/getEmployees.ts:30-40 | with unique, non-empty names, getBoss finds the parent of every non-root node |
| Search.NotFoundWhenAbsent | src/manageEmployees.ts:80-92 | getFutureBoss returns null for a name that no node carries |
| Search.BossFoundFindsEmployee | src/getEmployees.ts:30-40 | with unique names, a boss is found only for a non-root node; getEmployee then finds that node, and the boss is its parent |
| Normalize.LocalPart | src/manageEmployees.ts:48 | `split("@")[0]` is a prefix of the name without '@'; it is the whole name or is followed by '@' |
| Normalize.UpperAscii | src/manageEmployees.ts:49 | `toUpperCase` leaves no lower-case ASCII letter, and the only characters it changes are a-z, which become letters A-Z |
| Normalize.UpperAsciiInverse | src/manageEmployees.ts:49 | upper-casing a letter a-z loses nothing: lower-casing gives it back |
| Normalize.UpperAsciiIdempotent | src/manageEmployees.ts:49 | upper-casing an upper-cased character changes nothing |
| Normalize.NormalizeName | src/manageEmployees.ts:48-49 | fails exactly when the local part is empty; otherwise it is the local part with its first character upper-cased, so it has no '@' |
| Normalize.NormalizeIdempotent | src/manageEmployees.ts:48-49 | normalizing a normalized name changes nothing |
| Normalize.NormalizeAll | src/manageEmployees.ts:47-52 | every record keeps its other fields and gets its normalized name; fails exactly when some name cannot be normalized |
| Nodes.TreeNode.constructor | src/manageEmployees.ts:15-18 | a new node holds the employee and has no subordinates |
| Nodes.TreeNode.Parsed | src/manageEmployees.ts:163 | a node rebuilt by `JSON.parse` holds the value and the child list given |
| Nodes.Clone | src/manageEmployees.ts:163 | the copy of a subtree is made of fresh nodes and has the same value |
| Nodes.DeepCopy | src/manageEmployees.ts:196 | the copy of a list has one fresh node per entry, each with the value of the original subtree |
| Nodes.FindIndexByName | src/manageEmployees.ts:134 | `findIndex` by name gives the first index holding the name, or -1 exactly when none does |
| Nodes.SpliceOne | src/manageEmployees.ts:205-208 | `splice(start, 1)`: an index in range drops that element; a negative start counts from the end; a start before the front drops the first element; a start at or past the end, or an empty list, changes nothing |
| Nodes.SpliceByName | src/manageEmployees.ts:133-136 | splicing at that index, in a list without repeats where only one node has the name, removes exactly that node and keeps the rest in order |
| Reshape.HireKeepsTree | src/manageEmployees.ts:67-68 | appending a new leaf to one node's list keeps the structure a tree |
| Reshape.LeafFireKeepsTree | src/manageEmployees.ts:133-136 | cutting a leaf from its parent's list keeps the structure a tree without it |
| Reshape.FireKeepsTree | src/manageEmployees.ts:119-136 | letting a subordinate take the fired node's place and adopt its siblings keeps the structure a tree without the fired node |
| ManageEmployees.UniqueNamesAdd | src/manageEmployees.ts:67-68 | adding a node with a new name keeps names unique |
| ManageEmployees.AddLeaf | src/manageEmployees.ts:67-68 | the boss's list gains one fresh leaf holding the employee at its end, and the grown shape is a tree |
| ManageEmployees.HireEmployee | src/manageEmployees.ts:65-70 | the boss is the node getFutureBoss finds and gets one fresh leaf at the end of its list; no other list changes; the structure stays a tree; the message names both; an absent boss gives Err(NoSuchBoss) and no change |
| ManageEmployees.DropLeaf | src/manageEmployees.ts:133-136 | a fired leaf leaves its boss's list, the others keep their order, and the structure stays a tree |
| ManageEmployees.TakeOver | src/manageEmployees.ts:119-129 | the replacement leaves the fired node's list, and the other subordinates are appended to its own list in order |
| ManageEmployees.PushAll | src/manageEmployees.ts:127-129 | pushing each element of a list appends the whole list |
| ManageEmployees.Replace | src/manageEmployees.ts:130-136 | the boss's list loses the fired node and ends with the replacement |
| ManageEmployees.PassOn | src/manageEmployees.ts:119-136 | the whole edit for a fired node with subordinates, with the new shape proved a tree |
| ManageEmployees.FireEmployee | src/manageEmployees.ts:113-138 | the fired node leaves the tree; all other nodes stay in it, still a tree with unique names; the lists of the boss, the fired node and the chosen replacement change as in the source, and no other list changes; an absent name gives Err(NoSuchEmployee) and no change |
| ManageEmployees.SwapWithBoss | src/manageEmployees.ts:165-177 | the boss's list becomes its old list without the employee, followed by the employee's old subordinates; the employee's list becomes the copy followed by the boss |
| ManageEmployees.CopyAndSwap | src/manageEmployees.ts:163-177 | the copy is fresh and keeps the value of the boss's old list through the swap |
| ManageEmployees.PromoteSite | src/manageEmployees.ts:160-161 | in a tree with unique names, when getBoss finds a node, getEmployee finds a child of it with the name, the only node of that name in the two lists the promotion edits |
| ManageEmployees.PromoteEmployee | src/manageEmployees.ts:159-179 | the boss is found by getBoss and is the employee's parent; the boss and employee lists change as in SwapWithBoss; the copy holds the value of the boss's old list, including the employee; every other node, the boss's boss included, is unchanged; no boss gives Err(NoSuchBoss) and no change |
| ManageEmployees.SwapWithSubordinate | src/manageEmployees.ts:198-210 | the employee's list gains the subordinate's old list; the subordinate's list is the copy spliced at the subordinate's index in the employee's list (-1 when it is not there), followed by the employee |
| ManageEmployees.CopyAndSwapDown | src/manageEmployees.ts:196-210 | the copy is fresh, keeps the employee's old list values, and loses the subordinate's entry, or the last entry when the subordinate is not a direct child |
| ManageEmployees.DemoteEmployee | src/manageEmployees.ts:192-212 | both nodes are found by getEmployee; the employee keeps its old list followed by the subordinate's old list; the subordinate's list is as in CopyAndSwapDown, ending with the employee; a leaf demoted onto itself ends up listing only itself; every other node is unchanged; an absent name gives Err(NoSuchEmployee) and no change |
| ManageEmployees.SingleNode | src/manageEmployees.ts:31 | the root alone is a tree with unique names, and the bootstrap invariant holds after the first record |
| ManageEmployees.NodeSetMembers | src/manageEmployees.ts:32-34 | the node set of the bootstrap holds exactly the nodes made so far |
| ManageEmployees.BuiltGrow | src/manageEmployees.ts:32-34 | one more hire extends the record of the nodes made so far, in input order, each under a node its `boss` field names |
| ManageEmployees.BuiltNames | src/manageEmployees.ts:32-34 | the names in the tree are those of the records hired so far, and distinct records give unique names |
| ManageEmployees.BossesGrow | src/manageEmployees.ts:32-34 | the prefix in which every boss is listed earlier grows by one when the next boss is known |
| ManageEmployees.RecordedGrow | src/manageEmployees.ts:32-34 | one more hire under a known boss keeps the record of the hires and of boss-first order |
| ManageEmployees.HiredBelowMembers | src/manageEmployees.ts:32-34 | the nodes hired below `n` are exactly the nodes made so far whose parent is `n` |
| ManageEmployees.ListedGrow | src/manageEmployees.ts:32-34 | hiring one more node appends it to its boss's list only, so every list stays the nodes hired below its owner in hiring order |
| ManageEmployees.BuildingGrow | src/manageEmployees.ts:32-34 | the loop invariant of the bootstrap survives one hire |
| ManageEmployees.FoundIffNamed | src/manageEmployees.ts:80-92 | in a tree, getFutureBoss finds a node exactly when some node carries the name |
| ManageEmployees.HireInto | src/manageEmployees.ts:33 | one hire of the bootstrap fails exactly when no node carries the record's boss name; otherwise the boss is getFutureBoss's first match, the fresh node is appended to its list and to no other, and the structure stays a tree |
| ManageEmployees.HireNext | src/manageEmployees.ts:32-34 | the hire of record i fails exactly when its boss is not among the names of records 0 to i-1; otherwise the bootstrap invariant, including every list in hiring order, holds for i+1 records |
| ManageEmployees.BuiltLists | src/manageEmployees.ts:32-36 | after the last hire the structure is a tree, each node lists the nodes hired below it in input order, and distinct records give unique names |
| ManageEmployees.StopsAt | src/manageEmployees.ts:32-34 | a record whose boss is not listed before it means the records are not all in boss-first order |
| ManageEmployees.HireRest | src/manageEmployees.ts:32-34 | the `forEach` from record i on succeeds exactly when every boss is listed before its record, and otherwise stops with Err(NoSuchBoss) at the first record whose boss is not; on success the bootstrap invariant holds for all records and only fresh nodes were added |
| ManageEmployees.GenerateCompanyStructure | src/manageEmployees.ts:27-37 | succeeds exactly when every record's boss is listed before it; then the nodes are fresh, the root holds `employees[0]`, node k holds record k and hangs under a node its boss names, every list holds the nodes hired below its owner in input order, and the result is a tree; otherwise fails with Err(NoSuchBoss) at the first record whose boss is not yet hired |

## Left out

- Console output (`console.log`) is left out. It is I/O; the messages of hire, fire, promote and demote are returned as result strings.
- The `employees.json` import and the global `db` are left out. The records are a parameter of `Normalize.NormalizeAll`.
- `Math.random` is left out. Fire takes a `choice` parameter and uses the subordinate at index `choice % count`.
- JSON serialization is modelled by its effect only, a fresh deep copy. The model does not capture that the copies are plain objects rather than `TreeNode` instances, and it does not model the exception on cyclic input.
- Unicode `toUpperCase` is left out. Only ASCII letters are upper-cased.
- The empty `findLowestEmployee` stub and the demo driver `src/index.ts` are not part of this model.
- `TreeNode.value` is a constant. No modelled operation assigns it; the name rewrite of `generateNormalizedJSON` applies to records before any node exists.
- Array identity is not modelled. Lists are `seq` values assigned to `descendants`. On the modelled paths no two nodes share one array.
- `employees.splice(1)` emptying the caller's array beyond its first element is not modelled, because the records are a `seq` value.
- GenerateCompanyStructure: requires a non-empty list. On an empty list the source returns a root whose value is `undefined`, which an `Employee` cannot hold.
- FireEmployee: requires that an empty name is carried by no node, and that the root is fired only when it has no subordinates. In both excluded cases `getBoss` is null, and when the employee has subordinates the source throws only after it has edited their lists. An empty name that no node carries is modelled as Err(NoSuchEmployee), and the root as a leaf as Err(NoSuchBoss).
- FireEmployee: requires unique names, because the splices find their targets by name.
- PromoteEmployee: requires unique names, and it is not proved to keep the tree invariants, because it does not keep them.
- DemoteEmployee: when both names are the same, requires that the node has no subordinates, since then the source's `for..of` loop pushes onto the list it walks and never ends; the same name on a leaf is modelled. It also requires unique names, and it is not proved to keep the tree invariants, because it does not keep them.
- GenerateCompanyStructure: with two records of the same name, the model says only that each node hangs under some node carrying its boss name, not that it is the first such node in preorder at the time of its hire (HireInto states that for each single hire). With distinct names the boss node is the only one carrying the name.
