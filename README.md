# js-treeview forest assembly and open state, in Dafny

This project models the logic of the `qetr1ck-op/tree` repository. It turns a
flat list of `{_id, name, parentId}` records into a nested forest, and it
decides which nodes start opened. The repository holds two copies of this
logic, and both are modelled:

- **`TreeView`** models `js-treeview-master/src/treeview.js`.
  - `createGenericTree` runs three passes over a hash keyed by `_id`:
    1. Store one node per id.
    2. Push every node that has a parent onto its parent's `children` and mark it `ordered`.
    3. Delete the ordered nodes from the hash and return the others, in key order.
  - `isOpened` is the recursive query the renderer uses to expand a leaf.
- **`App`** models `app.js`.
  - The same three passes. In addition, pass two opens every root and pass
    three marks every node that has children as a folder.
  - `initState` opens the active node, its direct children and its direct
    parent.
- **`Records`** holds what a JavaScript object used as a hash makes of the
  records. The last write under an id wins. `Object.keys` lists the ids in
  first-insertion order.
- **`Hierarchy`** holds the facts about parent references and children lists
  that both copies use:
  - depth and groundedness (the parent chain ends at a root);
  - ancestors;
  - the pre-order walk of a forest, with the proof that it visits each grounded node exactly once.

### How it is represented

- **Arena.** Node objects live in an arena, a `map<Id, Node>` keyed by id. A
  `children` (or `childens`) array of object references becomes a sequence of
  ids into the arena.
- **Passes as loops.** Each pass is a method with a `while` loop. Each is proved
  against a function that applies the pass to a prefix of its input (`Hashing`,
  `Linking`, `Foldering`), and against a declarative description of the finished
  arena (`Assembled`).
- **Dangling parents.** Dereferencing a `parentId` that names no node throws in
  the source. It is modelled as `Err(DanglingParent(child, parentId))` for the
  first such key in key order.
- **Cycles.** Records whose parent references form a cycle are accepted, as in the
  source. Their nodes are ordered, so they never reach the top level. The
  lemmas about the walk, `isOpened` and `initState` concern the nodes whose
  parent chain ends at a root (`Grounded`). For input with no cycle and no dangling
  parent (`AllGrounded`), that is every node.

### Open state in the two copies

One might expect `initState` to open the active node's whole ancestor chain
and subtree; js-treeview's renderer expands every ancestor of the active node
through `isOpened`. `initState` in `app.js` does less:
- it opens only the active node's *direct* children;
- it opens only its *direct* parent.

`App.HigherAncestorsStayClosed` proves that an ancestor two or more levels above
the active node stays closed unless it is a root.
`TreeView.ExpandedIffAboveActive` proves what the renderer's `isOpened` does instead.

## Model

| member | source | states |
|---|---|---|
| `Records.Keys` | js-treeview-master/src/treeview.js:99 | the keys `Object.keys` reports after pass one: no id twice, and exactly the ids carried by some record |
| `Records.KeysInFirstOccurrenceOrder` | js-treeview-master/src/treeview.js:86-99 | keys are listed in the order in which their ids first occur in the input |
| `Records.LastWinsIsLastRecord` | js-treeview-master/src/treeview.js:86-97 | a repeated id holds the last record written under it |
| `Records.FirstIndex` | js-treeview-master/src/treeview.js:86-97 | the position of the first record carrying an id; no earlier record carries it |
| `Records.LastIndex` | js-treeview-master/src/treeview.js:86-97 | the position of the last record carrying an id; no later record carries it |
| `Hierarchy.WithParentMembers` | js-treeview-master/src/treeview.js:99-106 | a children list built in key order holds exactly the keys naming that parent, and none twice |
| `Hierarchy.FirstDangling` | js-treeview-master/src/treeview.js:102-103 | every key before the returned position has a parent reference that is absent or names a node; the key at it, if any, names no node |
| `Hierarchy.AllGroundedResolves` | js-treeview-master/src/treeview.js:102-103 | when every parent chain ends at a root, no parent reference dangles; the absence of dangling parents is part of that hypothesis, so this only restates it in key order |
| `Hierarchy.CompleteIsNested` | js-treeview-master/src/treeview.js:99-106 | children lists built from all keys agree with the parent references both ways: each node with a parent is listed under that parent, listed nodes name the listing node, and no list repeats a child |
| `Hierarchy.AncestorStep` | js-treeview-master/src/treeview.js:46-58 | a node's subtree is the node itself plus the subtrees of its children |
| `Hierarchy.WalkCovers` | js-treeview-master/src/treeview.js:155-168 | the pre-order walk of a list of subtrees visits exactly the nodes below one of them |
| `Hierarchy.WalkDistinct` | js-treeview-master/src/treeview.js:155-168 | the walk of distinct siblings visits no node twice; the walk is the renderer's recursion of `renderLeaf` over `children`, and `buildTree`'s over `childens` in `app.js` |
| `Hierarchy.RootAbove` | js-treeview-master/src/treeview.js:108-116 | a node lies below a parentless node iff its parent chain ends at a root |
| `Hierarchy.ForestWalkVisitsGroundedOnce` | js-treeview-master/src/treeview.js:99-116 | when every parent resolves, the walk from the parentless nodes visits each grounded node exactly once and no other node |
| `Hierarchy.ForestWalkVisitsEachOnce` | js-treeview-master/src/treeview.js:99-116 | with no cycle and no dangling parent (the hypothesis `AllGrounded`), the walk from the roots visits every node exactly once |
| `TreeView.HashById` | js-treeview-master/src/treeview.js:86-97 | pass one: keys in `Object.keys` order, one node per distinct id, built from the last record with that id, opened iff it is the active node, no children |
| `TreeView.HashingAt` | js-treeview-master/src/treeview.js:86-97 | after pass one over any prefix, each key holds the node of the last record carrying it |
| `TreeView.LinkToParents` | js-treeview-master/src/treeview.js:99-106 | pass two: fails with the first key in key order whose parent names no node; otherwise each node's children are the keys naming it, in key order, and exactly the nodes with a parent are marked ordered |
| `TreeView.LinkingAt` | js-treeview-master/src/treeview.js:99-106 | after linking any prefix of resolving keys, a node's children are its starting children followed by the prefix keys naming it, and it is ordered iff it already was or it is in the prefix and has a parent; from pass one's arena (empty children, nothing ordered) that is exactly the prefix keys naming it, and ordered iff listed with a parent |
| `TreeView.CollectRoots` | js-treeview-master/src/treeview.js:108-116 | pass three: the returned list is the unordered keys in key order; the hash keeps exactly the unordered nodes, unchanged |
| `TreeView.UnorderedAreParentless` | js-treeview-master/src/treeview.js:108-116 | when exactly the nodes with a parent are ordered, the top-level list is exactly the parentless keys in key order |
| `TreeView.CreateGenericTree` | js-treeview-master/src/treeview.js:84-117 | the whole function: the first dangling parent in key order, or the parentless nodes in key order over the assembled arena |
| `TreeView.HashedParents` | js-treeview-master/src/treeview.js:89-91 | the parent references stored by pass one are those of the last records |
| `TreeView.AttachedIsAssembled` | js-treeview-master/src/treeview.js:86-106 | one node after passes one and two is the assembled node |
| `TreeView.LinkedIsAssembled` | js-treeview-master/src/treeview.js:86-106 | passes one and two together build the assembled arena |
| `TreeView.AssembledMarksChildren` | js-treeview-master/src/treeview.js:104 | in the assembled arena, which `TreeView.LinkedIsAssembled` shows passes one and two build, a node is marked ordered iff it has a parent reference; the lemma itself unfolds `Assembled` |
| `TreeView.AssembledComplete` | js-treeview-master/src/treeview.js:99-106 | in the assembled arena, which `TreeView.LinkedIsAssembled` shows passes one and two build, the children lists hold, for each node, exactly the keys naming it, in key order; the lemma itself unfolds `Assembled` |
| `TreeView.AllGroundedAssemblesOk` | js-treeview-master/src/treeview.js:102-103 | input whose every parent chain ends at a root never hits a dangling parent, so assembly succeeds; the absence of dangling parents is part of that hypothesis |
| `TreeView.ForestWalkVisitsGrounded` | js-treeview-master/src/treeview.js:99-116 | the returned forest is well nested, and its pre-order walk visits each node whose parent chain ends at a root exactly once |
| `TreeView.AllGroundedForestWalkVisitsEachOnce` | js-treeview-master/src/treeview.js:99-116 | for input with no cycle and no dangling parent (the hypothesis `AllGrounded`), the pre-order walk of the returned forest visits every distinct id exactly once |
| `TreeView.IsOpened` | js-treeview-master/src/treeview.js:46-58 | `isOpened`: true iff the node is marked opened or some child is drawn expanded; defined on grounded nodes of a linked arena, where the recursion terminates |
| `TreeView.OpenedIffOpenBelow` | js-treeview-master/src/treeview.js:46-58 | `isOpened` holds iff the node or one of its descendants is marked opened |
| `TreeView.ExpandedIffAboveActive` | js-treeview-master/src/treeview.js:93 | with the first pass's flags, a node is drawn expanded iff the active node is that node or lies in its subtree |
| `App.HashById` | app.js:19-31 | pass one: one node per distinct id from the last record with it, opened iff active, not a folder, no children |
| `App.HashingAt` | app.js:19-31 | after pass one over any prefix, each key holds the node of the last record carrying it |
| `App.LinkToParents` | app.js:33-46 | pass two: the first dangling parent in key order fails; otherwise children lists are the keys naming each node in key order, nodes with a parent are ordered and nodes without one are opened |
| `App.LinkingAt` | app.js:33-46 | after any prefix of resolving keys, a node's `childens` are its starting ones followed by the prefix keys naming it; it is ordered iff it already was or is listed with a parent, and opened iff it already was or is listed without one; from pass one's arena that is: the prefix keys naming it, ordered iff listed with a parent, opened iff active or listed without one |
| `App.FolderingAt` | app.js:50-52 | after the folder marking of a prefix, a node is a folder iff it was one or is in the prefix and has children |
| `App.MarkFoldersAndCollect` | app.js:48-58 | pass three: every listed node with children becomes a folder, including nodes whose key is deleted; the top-level list is the unordered keys in key order; the hash keeps the others |
| `App.UnorderedAreParentless` | app.js:53-57 | when exactly the nodes with a parent are ordered, the top-level list is exactly the parentless keys in key order |
| `App.OrderedSplitsKeys` | app.js:53-57 | the deleted keys are exactly the listed ordered ones, the kept ones exactly the listed unordered ones |
| `App.KeptAreRoots` | app.js:53-57 | the hash ends holding exactly the top-level nodes |
| `App.OpenAround` | app.js:92-102 | the active node's visit opens it, each of its children and the parent it was reached from, and changes nothing else |
| `App.ReachedStep` | app.js:91-105 | visiting one more node: the active node opens around itself; any other node hands the search to its children |
| `App.Visit` | app.js:91-105 | the `forEach` callback leaves the arena as opening what the visits so far have reached |
| `App.InitState` | app.js:90-107 | `initState` on a level opens exactly the active node, its children and its parent when the active node lies below that level, and changes no other flag |
| `App.ReachedFromRoots` | app.js:87 | started on the top-level nodes, `initState` finds the active node iff its parent chain ends at a root |
| `App.LoadedIsReached` | app.js:87 | running `initState` on the assembled forest gives the final arena |
| `App.AssembledForest` | app.js:33-58 | with all parents resolving, the top-level list is the parentless keys, at depth 0, over a well-nested arena |
| `App.ArenaIsAssembled` | app.js:19-58 | the three passes together build the assembled arena |
| `App.AssembledComplete` | app.js:33-46 | in the assembled arena, which `App.ArenaIsAssembled` shows the three passes build, the `childens` lists hold, for each node, exactly the keys naming it, in key order; the lemma itself unfolds `Assembled` |
| `App.Load` | app.js:17-107 | the whole script: the first dangling parent in key order, or the parentless nodes in key order over the assembled arena after `initState` |
| `App.LoadedFlags` | app.js:26-99 | final flags, from lines 26, 41, 50-52 and 92-99: a node is a folder iff it has children; it is open iff it is active, a root, or (the active node lying below a root) a child or the parent of the active node |
| `App.HigherAncestorsStayClosed` | app.js:97-99 | an ancestor two or more levels above the active node that is not a root stays closed |

## Left out

- Network and asynchronous loading are not modelled: `httpGet`, `XMLHttpRequest`, `fetch`, `Promise.all` and `JSON.parse` are I/O. The decoded record list and the active id are parameters instead.
- DOM work is not modelled, because it only creates elements and sets classes or `hidden`. This covers `render`, `renderLeaf`, the toggle handler, `expand`, `collapse` and `buildTree`.
- `initSearch` is not modelled. It works on rendered text, Unicode case folding and DOM events.
- No event dispatch (subscribe, unsubscribe, emit) exists in either file, so none is modelled.
- The `forEach` helper of `treeview.js` is only a loop. The methods' `while` loops stand for it.
- Ids are strings, so `Object.keys` reports them in insertion order. JavaScript lists integer-like keys in numeric order first; that ordering is not modelled.
- Parent references are modelled by truthiness. A falsy `parentId` is `None`, so an id such as `0` or `""` used as a parent is read as no parent.
- `===` is modelled as equality of ids; mixing numbers and strings is not modelled. A missing `activeNodeId` is `None`, equal to no id.
- The hash is a plain dictionary. Keys that hit `Object.prototype` members (e.g. `constructor`) are not modelled.
- On a dangling parent the source throws after mutating some nodes. The model returns the error and drops the partially mutated arena, which no caller can observe.
- Shared node objects are ids into one arena. Deleting a key from the hash removes only the key; the node stays reachable from its parent's children list, as in the source.
- The unused `isOpened` local of `app.js` is not modelled, nor the commented-out code there.
- TreeView.IsOpened: defined only on nodes whose parent chain ends at a root, which are the only nodes the renderer reaches from the returned forest. On other nodes the JavaScript function is not modelled: there it loops forever when it follows children into a cycle of unopened nodes, returns `true` when it meets an opened node first (a node of a cycle whose member is active, say), and returns at once on a node below a cycle that has no children.
- App.InitState: stated only for arenas whose children lists and parent references agree, as the three passes leave them. On other object graphs the JavaScript recursion may not terminate.
- `isOpened` returns `undefined` when nothing below is opened; the model returns `false`, the falsy value the caller tests.
