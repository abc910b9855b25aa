# NDEF editor tree model: node queries and the set/replace command

This project models two connected pieces of the NFC Eclipse plugin's NDEF
editor in Dafny and proves properties of them.

1. **The presentation tree and its upward queries** (`NdefRecordModelNode`).
   Every node of the tree holds a non-owning `parent` back-reference. The
   model keeps the nodes in an arena: a map from node ids to nodes. Each
   node has an optional wrapped record (present exactly for record nodes),
   an optional parent id and an ordered child list. The tree invariant
   `Valid` requires that every non-root node is listed exactly once by its
   parent. It also requires every parent chain to reach a root, so no node
   is its own ancestor (`AncestorsAcyclic`). All queries are specified over
   one reference definition: `Ancestors`, the chain of parent, grandparent
   and so on up to the root. `getLevel` and `getRecordLevel` recurse, so
   they become functions. `getTreeRootIndex`, `getRecord`,
   `getRecordBranchIndex` and `getRecordNode` step a local variable up the
   chain, so they become methods with loops. `setParent` is a method of the
   `NodeArena` class.
   Edge cases pinned down:
   - `getRecord` never examines a parentless root unless it starts there.
     `getRecordLevel` does count a record-node root.
     `NearestRecordNodeVsRecordLevel` states exactly where the two differ.
   - `getRecordBranchIndex` on a root dereferences `null`.
   - `getRecordNode` on a root that is not a record node dereferences
     `null`.
   - In both null cases the model states the caller's obligation as a
     precondition.
2. **The reversible single-slot set/replace command**
   (`DefaultNdefRecordModelParentPropertyOperation`). The slot's tree node
   (`ParentProperty`) and the record graph (`RecordGraph`) are classes that
   the command's `Execute` and `Revoke` update in place. The record graph is
   reduced to a set of (parent record, child record) connections. The node
   factory yields a fresh node. `Executed` and `Revoked` give each step's
   effect as a function of the previous state. The methods are proved
   against these functions. The lemmas prove two round trips:
   - `execute; revoke` restores the slot and the connections under the
     stated conditions;
   - `execute; revoke; execute` equals a single `execute`.

Files: `ndef.dfy` (shared `Option`, `RecordId`), `model_node.dfy` (module
`ModelNode`), `parent_property_operation.dfy` (module
`ParentPropertyOperation`).

Three behaviours of the code that are easy to misread:
- The enclosing-record lookups (`getRecord`, `getRecordNode`) stop before
  the parentless root. They examine a root only when they start there.
- `getRecordBranchIndex` returns -1 only for a non-root node. On the root it
  dereferences a `null` parent.
- `revoke` puts back two independent things: the `previous` record passed
  to the constructor, in the graph, and the node captured from the slot by
  `initialize`, in the tree. Nothing ties the two together, so the
  round-trip lemma needs both to agree with the state at construction.

## Model

| member | source | states |
|---|---|---|
| `ModelNode.IsRecordNode` | nfc-eclipse-plugin/src/org/nfc/eclipse/plugin/model/NdefRecordModelNode.java:108 | the `instanceof NdefRecordModelRecord` test (also at lines 124, 144 and 157): the node wraps a record |
| `ModelNode.HasParent` | nfc-eclipse-plugin/src/org/nfc/eclipse/plugin/model/NdefRecordModelNode.java:50-52 | `hasParent`: the parent reference is set |
| `ModelNode.HasParentIffAncestors` | nfc-eclipse-plugin/src/org/nfc/eclipse/plugin/model/NdefRecordModelNode.java:50-52 | on a valid tree a node has a parent exactly when its ancestor chain is non-empty, i.e. exactly when it is not a root |
| `ModelNode.Parent` | nfc-eclipse-plugin/src/org/nfc/eclipse/plugin/model/NdefRecordModelNode.java:42-44 | the parent of a non-root node is in the tree and lists the node among its children |
| `ModelNode.AncestorsStep` | nfc-eclipse-plugin/src/org/nfc/eclipse/plugin/model/NdefRecordModelNode.java:33 | a node's ancestor chain is its parent followed by the parent's chain |
| `ModelNode.PathAt` | nfc-eclipse-plugin/src/org/nfc/eclipse/plugin/model/NdefRecordModelNode.java:33 | each node on the path from a node to the root has the rest of the path as its ancestors and the next node as its parent; the last has none |
| `ModelNode.RootIsLastAncestor` | nfc-eclipse-plugin/src/org/nfc/eclipse/plugin/model/NdefRecordModelNode.java:33 | every parent chain ends at a parentless root |
| `ModelNode.AncestorsAcyclic` | nfc-eclipse-plugin/src/org/nfc/eclipse/plugin/model/NdefRecordModelNode.java:33 | under the tree invariant no node is its own ancestor |
| `ModelNode.IndexOf` | nfc-eclipse-plugin/src/org/nfc/eclipse/plugin/model/NdefRecordModelNode.java:72 | `indexOf` returns the first position holding the node, and -1 exactly when the node is not listed |
| `ModelNode.ParentIndex` | nfc-eclipse-plugin/src/org/nfc/eclipse/plugin/model/NdefRecordModelNode.java:134-136 | `getParentIndex` is a valid position in the parent's child list, and that position holds the node |
| `ModelNode.TwiceListed` | nfc-eclipse-plugin/src/org/nfc/eclipse/plugin/model/NdefRecordModelNode.java:134-136 | a node at two positions of a child list is counted twice, which the tree invariant excludes |
| `ModelNode.ParentIndexUnique` | nfc-eclipse-plugin/src/org/nfc/eclipse/plugin/model/NdefRecordModelNode.java:134-136 | any position of the parent's child list holding the node is `getParentIndex` |
| `ModelNode.LevelFrom` | nfc-eclipse-plugin/src/org/nfc/eclipse/plugin/model/NdefRecordModelNode.java:58-63 | `getLevel(current)` is `current` plus the number of ancestors, and terminates on every valid tree |
| `ModelNode.Level` | nfc-eclipse-plugin/src/org/nfc/eclipse/plugin/model/NdefRecordModelNode.java:54-56 | `getLevel()` is the number of ancestors; it is 0 exactly for a parentless node |
| `ModelNode.LevelOfChild` | nfc-eclipse-plugin/src/org/nfc/eclipse/plugin/model/NdefRecordModelNode.java:54-63 | a child's level is its parent's level plus one |
| `ModelNode.FirstRecordAt` | nfc-eclipse-plugin/src/org/nfc/eclipse/plugin/model/NdefRecordModelNode.java:106-118 | the first position of a record node in a node sequence, with no record node before it |
| `ModelNode.RecordLevelFrom` | nfc-eclipse-plugin/src/org/nfc/eclipse/plugin/model/NdefRecordModelNode.java:142-151 | `getRecordLevel(level)` is -1 without a record-node ancestor, else `level` plus the distance to the nearest one |
| `ModelNode.RecordLevel` | nfc-eclipse-plugin/src/org/nfc/eclipse/plugin/model/NdefRecordModelNode.java:138-151 | `getRecordLevel()` is -1 exactly when no strict ancestor (root included) is a record node; otherwise it is k >= 1, the k-th ancestor is a record node and none nearer is |
| `ModelNode.SearchedShape` | nfc-eclipse-plugin/src/org/nfc/eclipse/plugin/model/NdefRecordModelNode.java:106-118 | the nodes the record search examines are the path minus the root, or the root alone when the search starts there |
| `ModelNode.SearchedNodes` | nfc-eclipse-plugin/src/org/nfc/eclipse/plugin/model/NdefRecordModelNode.java:106-118 | a node is examined by the record search iff it is the start node or an ancestor that has a parent |
| `ModelNode.NearestRecordNode` | nfc-eclipse-plugin/src/org/nfc/eclipse/plugin/model/NdefRecordModelNode.java:106-118 | the nearest record node among the examined nodes is a record node and is examined; there is none iff no examined node is a record node; a record node finds itself |
| `ModelNode.FirstRecordAtIs` | nfc-eclipse-plugin/src/org/nfc/eclipse/plugin/model/NdefRecordModelNode.java:106-118 | a position preceded only by non-record nodes and holding a record node (or the end) is the first record position |
| `ModelNode.SearchStopsAt` | nfc-eclipse-plugin/src/org/nfc/eclipse/plugin/model/NdefRecordModelNode.java:106-118 | the search stops at the first record node, or finds nothing once it reaches the root or the last node below the root |
| `ModelNode.NearestRecordNodeVsRecordLevel` | nfc-eclipse-plugin/src/org/nfc/eclipse/plugin/model/NdefRecordModelNode.java:106-151 | for a non-record node, the record search finds the ancestor `getRecordLevel` points at unless that ancestor is the root, in which case it finds nothing |
| `ModelNode.TreeRootIndex` | nfc-eclipse-plugin/src/org/nfc/eclipse/plugin/model/NdefRecordModelNode.java:65-79 | -1 for a parentless node; otherwise the position, among the root's children, of the node's ancestor-or-self whose parent is the root |
| `ModelNode.RecordFrom` | nfc-eclipse-plugin/src/org/nfc/eclipse/plugin/model/NdefRecordModelNode.java:102-118 | `getRecord(p)` / `getRecord()` return the record of the nearest record node among the examined nodes, or none; a record node yields its own record |
| `ModelNode.ParentRecord` | nfc-eclipse-plugin/src/org/nfc/eclipse/plugin/model/NdefRecordModelNode.java:88-93 | `getParentRecord` is none without a parent, else the record search started at the parent |
| `ModelNode.RecordBranchIndex` | nfc-eclipse-plugin/src/org/nfc/eclipse/plugin/model/NdefRecordModelNode.java:120-132 | for a node with a parent: its own parent index when the parent is a record node; -1 exactly when `getRecordLevel` is -1; otherwise the parent index of the path node just below the record-node ancestor `getRecordLevel` designates |
| `ModelNode.EnclosingRecordNode` | nfc-eclipse-plugin/src/org/nfc/eclipse/plugin/model/NdefRecordModelNode.java:153-165 | `getRecordNode` is the nearest record node among the examined nodes (itself if it is one), and it wraps the record `getRecord` returns; it requires a parent or a record node |
| `ModelNode.NodeArena.SetParent` | nfc-eclipse-plugin/src/org/nfc/eclipse/plugin/model/NdefRecordModelNode.java:46-52 | `setParent` changes that node's parent field and nothing else; afterwards `hasParent` holds iff the new parent is non-null |
| `ParentPropertyOperation.GetNode` | nfc-eclipse-plugin/src/com/antares/nfc/plugin/operation/DefaultNdefRecordModelParentPropertyOperation.java:38 | the node factory yields a fresh node wrapping the given record |
| `ParentPropertyOperation.ParentProperty.RemoveAllChildren` | nfc-eclipse-plugin/src/com/antares/nfc/plugin/operation/DefaultNdefRecordModelParentPropertyOperation.java:47 | the slot is left with no children |
| `ParentPropertyOperation.ParentProperty.Add` | nfc-eclipse-plugin/src/com/antares/nfc/plugin/operation/DefaultNdefRecordModelParentPropertyOperation.java:51 | the node is appended to the slot's children |
| `ParentPropertyOperation.RecordGraph.Connect` | nfc-eclipse-plugin/src/com/antares/nfc/plugin/operation/DefaultNdefRecordModelParentPropertyOperation.java:49 | the connection is added and no other changes |
| `ParentPropertyOperation.RecordGraph.Disconnect` | nfc-eclipse-plugin/src/com/antares/nfc/plugin/operation/DefaultNdefRecordModelParentPropertyOperation.java:44 | the connection is removed and no other changes |
| `ParentPropertyOperation.Restored` | nfc-eclipse-plugin/src/com/antares/nfc/plugin/operation/DefaultNdefRecordModelParentPropertyOperation.java:64-66 | what `revoke` puts back in the slot is at most one node |
| `ParentPropertyOperation.Executed` | nfc-eclipse-plugin/src/com/antares/nfc/plugin/operation/DefaultNdefRecordModelParentPropertyOperation.java:42-53 | after `execute` the slot holds exactly the new node; (record, next) is connected; (record, previous) is disconnected when previous is non-null and differs from next; with no previous nothing is disconnected; no other connection changes |
| `ParentPropertyOperation.Revoked` | nfc-eclipse-plugin/src/com/antares/nfc/plugin/operation/DefaultNdefRecordModelParentPropertyOperation.java:55-68 | after `revoke` the slot holds exactly the captured node or nothing; (record, previous) is connected when previous is non-null; (record, next) is disconnected unless it equals (record, previous); with no previous nothing is connected; no other connection changes |
| `ParentPropertyOperation.ExecuteThenRevoke` | nfc-eclipse-plugin/src/com/antares/nfc/plugin/operation/DefaultNdefRecordModelParentPropertyOperation.java:33-68 | `execute; revoke` restores slot and connections when the slot held what was captured, (record, previous) was connected and (record, next) was not |
| `ParentPropertyOperation.ExecuteRevokeExecute` | nfc-eclipse-plugin/src/com/antares/nfc/plugin/operation/DefaultNdefRecordModelParentPropertyOperation.java:38-68 | `execute; revoke; execute` gives the same slot and connections as one `execute`, since the node is built once |
| `ParentPropertyOperation.Operation.constructor` | nfc-eclipse-plugin/src/com/antares/nfc/plugin/operation/DefaultNdefRecordModelParentPropertyOperation.java:24-39 | construction captures the slot's first child (if any) and builds a fresh node for `next`, leaving slot and connections unchanged; a slot with at most one child is then exactly what `revoke` restores |
| `ParentPropertyOperation.Operation.Initialize` | nfc-eclipse-plugin/src/com/antares/nfc/plugin/operation/DefaultNdefRecordModelParentPropertyOperation.java:33-39 | `initialize` captures the first child when the slot has one and otherwise keeps the earlier capture; it always builds a fresh node for `next` |
| `ParentPropertyOperation.Operation.Execute` | nfc-eclipse-plugin/src/com/antares/nfc/plugin/operation/DefaultNdefRecordModelParentPropertyOperation.java:41-53 | the new slot and connections are `Executed` of the old ones; only the slot and the graph are modified |
| `ParentPropertyOperation.Operation.Revoke` | nfc-eclipse-plugin/src/com/antares/nfc/plugin/operation/DefaultNdefRecordModelParentPropertyOperation.java:55-68 | the new slot and connections are `Revoked` of the old ones; only the slot and the graph are modified |
| `ParentPropertyOperation.UndoAfterExecute` | nfc-eclipse-plugin/src/com/antares/nfc/plugin/operation/DefaultNdefRecordModelParentPropertyOperation.java:41-68 | calling `execute` then `revoke` on a command leaves slot and connections as they were, under the round-trip conditions |
| `ParentPropertyOperation.RedoAfterUndo` | nfc-eclipse-plugin/src/com/antares/nfc/plugin/operation/DefaultNdefRecordModelParentPropertyOperation.java:41-68 | calling `execute`, `revoke`, `execute` leaves the state a single `execute` leaves |

## Left out

- The queries take a snapshot of the node arena as a value. Node objects,
  their aliasing and their `Cloneable` support are not modelled.
  `NodeArena.SetParent` is the only operation that writes to the arena.
- The two `NdefRecordModelNode` constructors are not modelled as separate
  members; building a `Node` value stands in for them.
- `getTreeRootIndex` also tests `p != null`. Its loop only steps to a node
  that has a parent, so the test is always true there and is not modelled.
  In `getRecord` the same test does matter: after the step from a root, `p`
  is `null`. The model has it as the `HasParent(t, p)` conjunct of
  `RecordFrom`'s loop guard.
- ParentIndex: requires a parent. `getParentIndex` on a root dereferences a
  `null` parent and throws `NullPointerException`; that path is not modelled.
- Parent: requires a parent. `getParent()` on a root returns `null`; the
  model represents that case by `t[id].parent == None`, which `HasParent`
  tests, instead of by a result of `Parent`.
- LevelFrom: uses unbounded integers. Java's `current + 1` wraps around at
  2^31 - 1, which is not modelled. Only trees with more than 2^31 - 1 levels
  would reach it.
- RecordLevelFrom: uses unbounded integers. Java's `level + 1` wraps around:
  `getRecordLevel(Integer.MAX_VALUE)` on a node whose parent is a record
  node returns `Integer.MIN_VALUE` in Java, but 2^31 here. Callers in the
  code start from 0.
- `RecordBranchIndex` and `EnclosingRecordNode` do not model the
  `NullPointerException` that the code raises on a parentless node (on a
  parentless non-record node, for `getRecordNode`). The precondition
  excludes those calls instead.
- `NdefRecordModelParent`'s child list is modelled abstractly, with
  `java.util.List` semantics. In the tree it is a sequence of node ids, and
  `indexOf` is `ModelNode.IndexOf` (first position, or -1). In the command
  it is the slot's sequence of `RecordModelNode` objects, and `add`,
  `removeAllChildren` and `hasChildren` are `ParentProperty.Add`,
  `ParentProperty.RemoveAllChildren` and `ParentProperty.HasChildren`.
  `getChild(0)` is the first element of that sequence.
- `NdefRecordFactory.connect`/`disconnect` are modelled abstractly by
  `RecordGraph.Connect`/`RecordGraph.Disconnect`, which keep only the set of
  connections. The record field each connection writes is not modelled,
  and neither are failures.
  The adapter is taken to be total, so a partial `execute` or `revoke`
  after an adapter failure does not arise.
- `NdefRecordModelFactory.getNode` is not part of this model. It is
  represented as a fresh node wrapping the record; the node's own parent
  field and variant are not modelled.
- The nfctools record classes are reduced to a record id, plus a record tag
  on the node that wraps one.
- `Operation`: `next` is a non-null record. The code does not exclude a
  null `next`, but what `connect` does with one is not visible.
- `Operation`: the cast of the slot's first child to a record node is taken
  to succeed. The slot's children are typed as record nodes, so the
  `ClassCastException` path is not modelled.
- `Operation`: `revoke` before `execute`, and `execute` twice in a row, are
  not guarded against, because the code does not guard them.
- The menu listener, the terminal storage, NDEF binary encoding and the
  reader hardware are outside this model.
