/**
 * The page script `app.js`: its own copy of the forest assembly, which in
 * addition opens every root and marks the nodes that have children as
 * folders, followed by `initState`, which opens the active node, its
 * children and its parent.
 *
 * As in `TreeView`, node objects live in an arena keyed by id and a
 * `childens` array of object references is a sequence of ids.
 */
module App {
  import opened Records
  import opened Hierarchy

  /** A node object: the record's fields, `state.opened` (as `open`), `state.folder`,
    * `state.ordered` and `childens`. */
  datatype Node = Node(id: Id, name: string, parentId: Option<Id>,
                       open: bool, folder: bool, ordered: bool, childens: seq<Id>)

  /** `filteredTreeArr`, the top-level nodes, with every node object reachable from them. */
  datatype Forest = Forest(roots: seq<Id>, nodes: map<Id, Node>)

  function ParentMap(nodes: map<Id, Node>): Parents {
    map x | x in nodes :: nodes[x].parentId
  }

  function ChildMap(nodes: map<Id, Node>): Adjacency {
    map x | x in nodes :: nodes[x].childens
  }

  /** The node the first pass stores for record `r` when `active` is `activeNodeId`. */
  function Initial(r: Record, active: Option<Id>): Node {
    Node(r.id, r.name, r.parentId, active == Some(r.id), false, false, [])
  }

  // ---------------------------------------------------------------- pass one

  /** Pass one applied to the records in order. */
  function Hashing(rs: seq<Record>, active: Option<Id>): (t: map<Id, Node>)
    ensures t.Keys == Ids(rs)
  {
    if rs == [] then map[]
    else Hashing(rs[..|rs| - 1], active)[rs[|rs| - 1].id := Initial(rs[|rs| - 1], active)]
  }

  /** After pass one, a key holds the node built from the last record carrying it. */
  lemma {:induction false} HashingAt(rs: seq<Record>, active: Option<Id>, x: Id)
    requires x in Ids(rs)
    ensures Hashing(rs, active)[x] == Initial(rs[LastIndex(rs, x)], active)
  {
    var n := |rs| - 1;
    if rs[n].id != x {
      HashingAt(rs[..n], active, x);
    }
  }

  lemma HashingIsLastRecord(rs: seq<Record>, active: Option<Id>)
    ensures forall x :: x in Hashing(rs, active) ==> Hashing(rs, active)[x] == Initial(rs[LastIndex(rs, x)], active)
  {
    forall x | x in Hashing(rs, active)
      ensures Hashing(rs, active)[x] == Initial(rs[LastIndex(rs, x)], active)
    {
      HashingAt(rs, active, x);
    }
  }

  /** Pass one: one node per distinct id, holding the last record written under it,
    * closed unless it is the active node, not a folder, with no children. */
  method HashById(rs: seq<Record>, active: Option<Id>) returns (tree: map<Id, Node>, keys: seq<Id>)
    ensures keys == Keys(rs) && tree.Keys == Ids(rs)
    ensures forall x :: x in tree ==> tree[x] == Initial(rs[LastIndex(rs, x)], active)
  {
    tree, keys := map[], [];
    var i := 0;
    while i < |rs|
      invariant 0 <= i <= |rs|
      invariant tree == Hashing(rs[..i], active) && keys == Keys(rs[..i])
    {
      var r := rs[i];
      assert rs[..i + 1][..i] == rs[..i];
      if r.id !in tree {
        keys := keys + [r.id];
      }
      tree := tree[r.id := Initial(r, active)];
      i := i + 1;
    }
    assert rs[..i] == rs;
    HashingIsLastRecord(rs, active);
  }

  // ---------------------------------------------------------------- pass two

  /** Node `x` once the keys in `done` have been handled by pass two: the children
    * among them pushed, itself marked ordered if it has a parent, or opened if not. */
  function Attached(tree: map<Id, Node>, parent: Parents, done: seq<Id>, x: Id): Node
    requires x in tree
  {
    var n := tree[x];
    n.(childens := n.childens + WithParent(parent, done, Some(x)),
       ordered := n.ordered || (x in done && n.parentId.Some?),
       open := n.open || (x in done && n.parentId.None?))
  }

  /** One step of pass two: push `key` onto its parent's children and mark it ordered,
    * or open it when it has no parent. */
  function LinkOne(tree: map<Id, Node>, key: Id): (t: map<Id, Node>)
    requires key in tree
    ensures t.Keys == tree.Keys
  {
    var n := tree[key];
    if n.parentId.None? then tree[key := n.(open := true)]
    else if n.parentId.value in tree then
      var p := n.parentId.value;
      var t1 := tree[p := tree[p].(childens := tree[p].childens + [key])];
      t1[key := t1[key].(ordered := true)]
    else tree
  }

  /** Pass two applied to the keys in order. */
  function Linking(tree0: map<Id, Node>, keys: seq<Id>): (t: map<Id, Node>)
    requires forall k :: k in keys ==> k in tree0
    ensures t.Keys == tree0.Keys
  {
    if keys == [] then tree0
    else LinkOne(Linking(tree0, keys[..|keys| - 1]), keys[|keys| - 1])
  }

  /** One link step seen from node `x`. */
  lemma LinkOneAt(tree: map<Id, Node>, key: Id, x: Id)
    requires key in tree && x in tree
    requires tree[key].parentId.None? || tree[key].parentId.value in tree
    ensures LinkOne(tree, key)[x] ==
            tree[x].(childens := tree[x].childens + (if tree[key].parentId == Some(x) then [key] else []),
                     ordered := tree[x].ordered || (x == key && tree[key].parentId.Some?),
                     open := tree[x].open || (x == key && tree[key].parentId.None?))
  {
  }

  /** Handling one more key, seen from node `x`. */
  lemma AttachedStep(tree0: map<Id, Node>, done: seq<Id>, key: Id, x: Id)
    requires key in tree0 && x in tree0
    ensures var a := Attached(tree0, ParentMap(tree0), done, x);
            Attached(tree0, ParentMap(tree0), done + [key], x) ==
            a.(childens := a.childens + (if tree0[key].parentId == Some(x) then [key] else []),
               ordered := a.ordered || (x == key && tree0[key].parentId.Some?),
               open := a.open || (x == key && tree0[key].parentId.None?))
  {
    WithParentSnoc(ParentMap(tree0), done, key, Some(x));
  }

  /** Once every key resolves, linking leaves node `x` as `Attached` describes it. */
  lemma {:induction false} LinkingAt(tree0: map<Id, Node>, keys: seq<Id>, x: Id)
    requires x in tree0 && forall k :: k in keys ==> k in tree0 && Resolves(ParentMap(tree0), k)
    ensures Linking(tree0, keys)[x] == Attached(tree0, ParentMap(tree0), keys, x)
  {
    if keys != [] {
      var init, key := keys[..|keys| - 1], keys[|keys| - 1];
      var t := Linking(tree0, init);
      LinkingAt(tree0, init, x);
      LinkingAt(tree0, init, key);
      assert t[key].parentId == tree0[key].parentId;
      assert Resolves(ParentMap(tree0), key);
      LinkOneAt(t, key, x);
      assert keys == init + [key];
      AttachedStep(tree0, init, key, x);
    }
  }

  /**
   * Pass two: in key order, push each node with a parent onto that parent's
   * `childens` and mark it ordered, and open each node without one. The
   * first parent reference that names no node fails the whole call.
   */
  method LinkToParents(tree0: map<Id, Node>, keys: seq<Id>) returns (r: Result<map<Id, Node>>)
    requires forall k :: k in keys ==> k in tree0
    ensures var i := FirstDangling(ParentMap(tree0), keys);
            if i < |keys| then r == Err(DanglingParent(keys[i], tree0[keys[i]].parentId.value))
            else r.Ok? && r.value.Keys == tree0.Keys &&
                 forall x :: x in tree0 ==> r.value[x] == Attached(tree0, ParentMap(tree0), keys, x)
  {
    ghost var parent := ParentMap(tree0);
    var tree := tree0;
    var i := 0;
    while i < |keys|
      invariant 0 <= i <= FirstDangling(parent, keys)
      invariant tree == Linking(tree0, keys[..i])
    {
      var key := keys[i];
      assert keys[..i + 1][..i] == keys[..i];
      LinkingAt(tree0, keys[..i], key);
      FirstDanglingStep(parent, keys, i);
      var elem := tree[key];
      assert elem.parentId == parent[key];
      if elem.parentId.Some? {
        var p := elem.parentId.value;
        if p !in tree {
          return Err(DanglingParent(key, p));
        }
        tree := tree[p := tree[p].(childens := tree[p].childens + [key])];
        tree := tree[key := tree[key].(ordered := true)];
      } else {
        tree := tree[key := elem.(open := true)];
      }
      assert Resolves(parent, key);
      i := i + 1;
    }
    assert keys[..i] == keys;
    forall x | x in tree0
      ensures tree[x] == Attached(tree0, parent, keys, x)
    {
      LinkingAt(tree0, keys, x);
    }
    r := Ok(tree);
  }

  // -------------------------------------------------------------- pass three

  /** The folder marking of pass three applied to the keys in order. */
  function Foldering(tree: map<Id, Node>, keys: seq<Id>): (t: map<Id, Node>)
    requires forall k :: k in keys ==> k in tree
    ensures t.Keys == tree.Keys
  {
    if keys == [] then tree
    else
      var t := Foldering(tree, keys[..|keys| - 1]);
      var key := keys[|keys| - 1];
      if |t[key].childens| > 0 then t[key := t[key].(folder := true)] else t
  }

  /** After the folder marking, a listed node is a folder once it has children; nothing
    * else changes. */
  lemma {:induction false} FolderingAt(tree: map<Id, Node>, keys: seq<Id>, x: Id)
    requires x in tree && forall k :: k in keys ==> k in tree
    ensures Foldering(tree, keys)[x] ==
            tree[x].(folder := tree[x].folder || (x in keys && |tree[x].childens| > 0))
  {
    if keys != [] {
      var init, key := keys[..|keys| - 1], keys[|keys| - 1];
      FolderingAt(tree, init, x);
      FolderingAt(tree, init, key);
      assert keys == init + [key];
    }
  }

  /** The keys, in key order, of the nodes not marked ordered. */
  function UnorderedKeys(tree: map<Id, Node>, keys: seq<Id>): seq<Id> {
    if keys == [] then []
    else
      var last := keys[|keys| - 1];
      UnorderedKeys(tree, keys[..|keys| - 1]) + if last in tree && !tree[last].ordered then [last] else []
  }

  /** When exactly the nodes with a parent are marked ordered, the unordered keys are the
    * parentless ones. */
  lemma {:induction false} UnorderedAreParentless(tree: map<Id, Node>, keys: seq<Id>)
    requires forall k :: k in keys ==> k in tree && tree[k].ordered == tree[k].parentId.Some?
    ensures UnorderedKeys(tree, keys) == WithParent(ParentMap(tree), keys, None)
  {
    if keys != [] {
      UnorderedAreParentless(tree, keys[..|keys| - 1]);
    }
  }

  /** The keys of the nodes marked ordered. */
  function OrderedKeys(tree: map<Id, Node>, keys: seq<Id>): set<Id> {
    if keys == [] then {}
    else
      var last := keys[|keys| - 1];
      OrderedKeys(tree, keys[..|keys| - 1]) + if last in tree && tree[last].ordered then {last} else {}
  }

  /** The ordered keys and the unordered ones split the listed nodes between them. */
  lemma {:induction false} OrderedSplitsKeys(tree: map<Id, Node>, keys: seq<Id>)
    requires forall k :: k in keys ==> k in tree
    ensures forall x :: x in OrderedKeys(tree, keys) <==> x in keys && tree[x].ordered
    ensures forall x :: x in UnorderedKeys(tree, keys) <==> x in keys && !tree[x].ordered
  {
    if keys != [] {
      var init := keys[..|keys| - 1];
      OrderedSplitsKeys(tree, init);
      assert keys == init + [keys[|keys| - 1]];
    }
  }

  /**
   * Pass three: in key order, mark every node with children as a folder, then
   * delete it from the hash if it is ordered and collect it as a top-level
   * node otherwise. The node objects themselves stay, so the folder flag
   * also reaches the nested ones; `kept` is the set of keys left in the hash.
   */
  method MarkFoldersAndCollect(tree: map<Id, Node>, keys: seq<Id>)
    returns (arena: map<Id, Node>, roots: seq<Id>, kept: set<Id>)
    requires forall k :: k in keys ==> k in tree
    ensures arena.Keys == tree.Keys
    ensures forall x :: x in tree ==>
              arena[x] == tree[x].(folder := tree[x].folder || (x in keys && |tree[x].childens| > 0))
    ensures roots == UnorderedKeys(tree, keys)
    ensures kept == tree.Keys - OrderedKeys(tree, keys)
  {
    arena, roots, kept := tree, [], tree.Keys;
    var i := 0;
    while i < |keys|
      invariant 0 <= i <= |keys|
      invariant arena == Foldering(tree, keys[..i])
      invariant roots == UnorderedKeys(tree, keys[..i])
      invariant kept == tree.Keys - OrderedKeys(tree, keys[..i])
    {
      var key := keys[i];
      assert keys[..i + 1][..i] == keys[..i];
      FolderingAt(tree, keys[..i], key);
      var elem := arena[key];
      assert elem.childens == tree[key].childens && elem.ordered == tree[key].ordered;
      if |elem.childens| > 0 {
        elem := elem.(folder := true);
        arena := arena[key := elem];
      }
      if elem.ordered {
        kept := kept - {key};
      } else {
        roots := roots + [key];
      }
      i := i + 1;
    }
    assert keys[..i] == keys;
    forall x | x in tree
      ensures arena[x] == tree[x].(folder := tree[x].folder || (x in keys && |tree[x].childens| > 0))
    {
      FolderingAt(tree, keys, x);
    }
  }
  /** Once every node is listed, the hash ends holding exactly the top-level nodes. */
  lemma KeptAreRoots(tree: map<Id, Node>, keys: seq<Id>)
    requires forall k :: k in keys <==> k in tree
    ensures tree.Keys - OrderedKeys(tree, keys) == set x | x in UnorderedKeys(tree, keys)
  {
    OrderedSplitsKeys(tree, keys);
  }

  // --------------------------------------------------------------- initState

  /** The node objects with `open` set on every id of `s`, and nothing else changed. */
  function OpenAll(nodes: map<Id, Node>, s: set<Id>): map<Id, Node> {
    map x | x in nodes :: if x in s then nodes[x].(open := true) else nodes[x]
  }

  /** Opening nodes changes neither parent references nor children lists. */
  lemma OpenAllKeepsLinks(nodes: map<Id, Node>, s: set<Id>)
    ensures ParentMap(OpenAll(nodes, s)) == ParentMap(nodes)
    ensures ChildMap(OpenAll(nodes, s)) == ChildMap(nodes)
  {
    assert ParentMap(OpenAll(nodes, s)).Keys == ParentMap(nodes).Keys;
    assert ChildMap(OpenAll(nodes, s)).Keys == ChildMap(nodes).Keys;
  }

  /** Opening two sets in turn opens their union. */
  lemma OpenAllTwice(nodes: map<Id, Node>, s: set<Id>, t: set<Id>)
    ensures OpenAll(OpenAll(nodes, s), t) == OpenAll(nodes, s + t)
  {
    assert OpenAll(OpenAll(nodes, s), t).Keys == OpenAll(nodes, s + t).Keys;
  }

  /** Setting one node's flag is opening the singleton set. */
  lemma OpenOne(nodes: map<Id, Node>, x: Id)
    requires x in nodes
    ensures nodes[x := nodes[x].(open := true)] == OpenAll(nodes, {x})
  {
    assert nodes[x := nodes[x].(open := true)].Keys == OpenAll(nodes, {x}).Keys;
  }

  /** What `initState` opens around the active node `a`: `a` itself, its children and its parent. */
  function Opens(parent: Parents, adj: Adjacency, a: Id): set<Id>
    requires a in parent && a in adj
  {
    {a} + (set c | c in adj[a]) + if parent[a].Some? then {parent[a].value} else {}
  }

  /** Some subtree rooted at one of `level` holds `a`. */
  ghost predicate Finds(parent: Parents, level: seq<Id>, a: Id) {
    exists y :: y in level && AncestorOrSelf(parent, y, a)
  }

  /** The nodes `initState` opens when started on `level`. */
  ghost function Reached(parent: Parents, adj: Adjacency, level: seq<Id>, active: Option<Id>): set<Id> {
    if active.Some? && active.value in parent && active.value in adj && Finds(parent, level, active.value)
    then Opens(parent, adj, active.value)
    else {}
  }

  /** Visiting one more node of a level: the active node itself opens around it, any other
    * node passes the search on to its children. */
  lemma ReachedStep(parent: Parents, adj: Adjacency, level: seq<Id>, d: nat, i: nat, active: Option<Id>)
    requires Nested(parent, adj) && AtDepth(parent, level, d) && i < |level|
    ensures level[i] in parent && level[i] in adj
    ensures Reached(parent, adj, level[..i + 1], active) ==
            Reached(parent, adj, level[..i], active) +
            if active == Some(level[i]) then Opens(parent, adj, level[i])
            else Reached(parent, adj, adj[level[i]], active)
  {
    var el := level[i];
    assert Grounded(parent, el);
    assert forall y :: y in level[..i + 1] <==> y in level[..i] || y == el;
    if active.Some? {
      AncestorStep(parent, adj, el, active.value);
      if active.value == el {
        assert AncestorOrSelf(parent, el, el);
      }
    }
  }

  /** In a linked arena the children and the parent a node names are nodes. */
  lemma LinksPresent(nodes: map<Id, Node>, x: Id)
    requires Nested(ParentMap(nodes), ChildMap(nodes)) && x in nodes
    ensures forall c :: c in nodes[x].childens ==> c in nodes
    ensures nodes[x].parentId.Some? ==> nodes[x].parentId.value in nodes
  {
    var pm, cm := ParentMap(nodes), ChildMap(nodes);
    forall c | c in nodes[x].childens
      ensures c in nodes
    {
      assert c in cm[x] && c in pm;
    }
    if nodes[x].parentId.Some? {
      assert x in cm[pm[x].value];
    }
  }

  /** The active node's visit: open `el`, each of its children and, when there is one,
    * the node whose children list led to it. */
  method OpenAround(nodes: map<Id, Node>, el: Id, parent: Option<Id>) returns (out: map<Id, Node>)
    requires el in nodes && (forall c :: c in nodes[el].childens ==> c in nodes)
    requires parent.Some? ==> parent.value in nodes
    ensures out == OpenAll(nodes, {el} + (set c | c in nodes[el].childens) +
                                  if parent.Some? then {parent.value} else {})
  {
    OpenOne(nodes, el);
    out := nodes[el := nodes[el].(open := true)];
    var cs := out[el].childens;
    var j := 0;
    while j < |cs|
      invariant 0 <= j <= |cs|
      invariant out == OpenAll(nodes, {el} + set c | c in cs[..j])
    {
      OpenOne(out, cs[j]);
      OpenAllTwice(nodes, {el} + set c | c in cs[..j], {cs[j]});
      assert cs[..j + 1] == cs[..j] + [cs[j]];
      out := out[cs[j] := out[cs[j]].(open := true)];
      j := j + 1;
    }
    assert cs[..j] == cs;
    OpenAllTwice(nodes, {el} + set c | c in cs, if parent.Some? then {parent.value} else {});
    if parent.Some? {
      OpenOne(out, parent.value);
      out := out[parent.value := out[parent.value].(open := true)];
    }
  }

  /**
   * `initState`: walk the forest from `level`; on the active node, open it,
   * its children and the node whose children list led there, and go no
   * deeper; below every other node, carry on with its children. Every node
   * of `level` names `parent` as its parent, and sits at depth `d`.
   */
  method InitState(nodes: map<Id, Node>, level: seq<Id>, parent: Option<Id>, active: Option<Id>, ghost d: nat)
    returns (out: map<Id, Node>)
    requires Nested(ParentMap(nodes), ChildMap(nodes)) && AtDepth(ParentMap(nodes), level, d)
    requires forall x :: x in level ==> ParentMap(nodes)[x] == parent
    ensures out == OpenAll(nodes, Reached(ParentMap(nodes), ChildMap(nodes), level, active))
    decreases |ParentMap(nodes)| - d, 1
  {
    out := nodes;
    var i := 0;
    while i < |level|
      invariant 0 <= i <= |level|
      invariant out == OpenAll(nodes, Reached(ParentMap(nodes), ChildMap(nodes), level[..i], active))
    {
      out := Visit(nodes, out, level, i, parent, active, d);
      i := i + 1;
    }
    assert level[..i] == level;
  }

  /** The callback `initState` runs on `level[i]`, taking the flags from `out`, which
    * holds what the visits of the earlier nodes of `level` opened. */
  method Visit(ghost nodes: map<Id, Node>, out: map<Id, Node>, level: seq<Id>, i: nat,
               parent: Option<Id>, active: Option<Id>, ghost d: nat)
    returns (next: map<Id, Node>)
    requires Nested(ParentMap(nodes), ChildMap(nodes)) && AtDepth(ParentMap(nodes), level, d)
    requires forall x :: x in level ==> ParentMap(nodes)[x] == parent
    requires i < |level| && out == OpenAll(nodes, Reached(ParentMap(nodes), ChildMap(nodes), level[..i], active))
    ensures next == OpenAll(nodes, Reached(ParentMap(nodes), ChildMap(nodes), level[..i + 1], active))
    decreases |ParentMap(nodes)| - d, 0
  {
    ghost var pm, cm := ParentMap(nodes), ChildMap(nodes);
    ghost var done := Reached(pm, cm, level[..i], active);
    var el := level[i];
    OpenAllKeepsLinks(nodes, done);
    ReachedStep(pm, cm, level, d, i, active);
    if active == Some(el) {
      LinksPresent(out, el);
      next := OpenAround(out, el, parent);
      OpenAllTwice(nodes, done, Opens(pm, cm, el));
    } else {
      assert Grounded(pm, el);
      DepthBelowSize(pm, el, |pm|);
      ChildrenOneDeeper(pm, cm, el);
      next := InitState(out, out[el].childens, Some(el), active, d + 1);
      OpenAllTwice(nodes, done, Reached(pm, cm, cm[el], active));
    }
  }
  // ------------------------------------------------------------ the whole page

  /** The arena after the three passes: one node per distinct id, built from the last
    * record written under it, with its children in key order; roots and the active
    * node open, the nodes with children folders, the nodes with a parent ordered. */
  function Assembled(rs: seq<Record>, active: Option<Id>): map<Id, Node> {
    var last := LastWins(rs);
    map x | x in last ::
      var kids := WithParent(ParentOf(rs), Keys(rs), Some(x));
      Node(x, last[x].name, last[x].parentId, active == Some(x) || last[x].parentId.None?,
           |kids| > 0, last[x].parentId.Some?, kids)
  }

  /** The arena once `initState` has run from the top-level nodes: the active node, its
    * children and its parent are opened when the active node lies below a root. */
  ghost function Loaded(rs: seq<Record>, active: Option<Id>): map<Id, Node> {
    var nodes := Assembled(rs, active);
    OpenAll(nodes, if active.Some? && Grounded(ParentOf(rs), active.value)
                   then Opens(ParentOf(rs), ChildMap(nodes), active.value) else {})
  }

  /**
   * The page script from the decoded records to the state `buildTree` draws:
   * the three passes, then `initState` on the top-level nodes; or the first
   * dangling parent reference in key order.
   */
  method Load(rs: seq<Record>, active: Option<Id>) returns (r: Result<Forest>)
    ensures var i := FirstDangling(ParentOf(rs), Keys(rs));
            if i < |Keys(rs)| then r == Err(DanglingParent(Keys(rs)[i], ParentOf(rs)[Keys(rs)[i]].value))
            else r == Ok(Forest(WithParent(ParentOf(rs), Keys(rs), None), Loaded(rs, active)))
  {
    var tree0, keys := HashById(rs, active);
    HashedLastWins(rs, active, tree0);
    var linked := LinkToParents(tree0, keys);
    if linked.Err? {
      return Err(linked.error);
    }
    var tree := linked.value;
    var arena, roots, kept := MarkFoldersAndCollect(tree, keys);
    ArenaIsAssembled(rs, active, tree0, tree, arena);
    UnorderedSameFlags(tree, arena, keys);
    AssembledForest(rs, active);
    var nodes := InitState(arena, roots, None, active, 0);
    LoadedIsReached(rs, active);
    r := Ok(Forest(roots, nodes));
  }

  /** The top-level list depends on the ordered flags only. */
  lemma {:induction false} UnorderedSameFlags(t: map<Id, Node>, u: map<Id, Node>, keys: seq<Id>)
    requires forall k :: k in keys ==> k in t && k in u && t[k].ordered == u[k].ordered
    ensures UnorderedKeys(t, keys) == UnorderedKeys(u, keys)
  {
    if keys != [] {
      UnorderedSameFlags(t, u, keys[..|keys| - 1]);
    }
  }

  /** When every parent reference resolves, the assembled arena is a forest whose
    * top-level nodes are the parentless ones, in key order. */
  lemma AssembledForest(rs: seq<Record>, active: Option<Id>)
    requires FirstDangling(ParentOf(rs), Keys(rs)) == |Keys(rs)|
    ensures var nodes := Assembled(rs, active);
            ParentMap(nodes) == ParentOf(rs) &&
            UnorderedKeys(nodes, Keys(rs)) == WithParent(ParentOf(rs), Keys(rs), None) &&
            Nested(ParentOf(rs), ChildMap(nodes)) &&
            AtDepth(ParentOf(rs), WithParent(ParentOf(rs), Keys(rs), None), 0) &&
            forall x :: x in WithParent(ParentOf(rs), Keys(rs), None) ==> ParentOf(rs)[x] == None
  {
    var nodes := Assembled(rs, active);
    AssembledComplete(rs, active);
    UnorderedAreParentless(nodes, Keys(rs));
    ForestWalkVisitsGroundedOnce(ParentOf(rs), ChildMap(nodes), Keys(rs));
    WithParentMembers(ParentOf(rs), Keys(rs), None);
  }

  /** Started on the top-level nodes, `initState` finds the active node exactly when its
    * parent chain ends at a root. */
  lemma LoadedIsReached(rs: seq<Record>, active: Option<Id>)
    ensures var nodes := Assembled(rs, active);
            OpenAll(nodes, Reached(ParentOf(rs), ChildMap(nodes), WithParent(ParentOf(rs), Keys(rs), None), active)) ==
            Loaded(rs, active)
  {
    var nodes := Assembled(rs, active);
    assert ChildMap(nodes).Keys == ParentOf(rs).Keys;
    ReachedFromRoots(ParentOf(rs), ChildMap(nodes), Keys(rs), active);
  }

  /** From the parentless nodes the search meets every node whose parent chain ends at a root. */
  lemma ReachedFromRoots(parent: Parents, adj: Adjacency, keys: seq<Id>, active: Option<Id>)
    requires (forall k :: k in keys <==> k in parent) && adj.Keys == parent.Keys
    ensures Reached(parent, adj, WithParent(parent, keys, None), active) ==
            if active.Some? && Grounded(parent, active.value) then Opens(parent, adj, active.value) else {}
  {
    if active.Some? {
      RootAbove(parent, keys, active.value);
    }
  }

  /** Pass one stores, under each key, the node built from the last record carrying it. */
  lemma HashedLastWins(rs: seq<Record>, active: Option<Id>, tree0: map<Id, Node>)
    requires tree0.Keys == Ids(rs)
    requires forall x :: x in tree0 ==> tree0[x] == Initial(rs[LastIndex(rs, x)], active)
    ensures forall x :: x in tree0 ==> tree0[x] == Initial(LastWins(rs)[x], active)
    ensures ParentMap(tree0) == ParentOf(rs)
  {
    forall x | x in tree0
      ensures tree0[x] == Initial(LastWins(rs)[x], active)
      ensures ParentMap(tree0)[x] == ParentOf(rs)[x]
    {
      LastWinsIsLastRecord(rs, x);
    }
    assert ParentMap(tree0).Keys == ParentOf(rs).Keys;
  }

  /** Node `x` after the three passes is the assembled node. */
  lemma PassesAt(rs: seq<Record>, active: Option<Id>, tree0: map<Id, Node>, x: Id)
    requires x in tree0 && x in LastWins(rs) && tree0[x] == Initial(LastWins(rs)[x], active)
    ensures x in Assembled(rs, active)
    ensures var n := Attached(tree0, ParentOf(rs), Keys(rs), x);
            n.(folder := n.folder || (x in Keys(rs) && |n.childens| > 0)) == Assembled(rs, active)[x]
  {
    var kids := WithParent(ParentOf(rs), Keys(rs), Some(x));
    assert [] + kids == kids;
    assert x in Keys(rs);
  }

  /** The three passes together build the assembled arena. */
  lemma ArenaIsAssembled(rs: seq<Record>, active: Option<Id>, tree0: map<Id, Node>,
                         tree: map<Id, Node>, arena: map<Id, Node>)
    requires tree0.Keys == Ids(rs)
    requires forall x :: x in tree0 ==> tree0[x] == Initial(LastWins(rs)[x], active)
    requires tree.Keys == tree0.Keys
    requires forall x :: x in tree0 ==> tree[x] == Attached(tree0, ParentOf(rs), Keys(rs), x)
    requires arena.Keys == tree.Keys
    requires forall x :: x in tree ==>
               arena[x] == tree[x].(folder := tree[x].folder || (x in Keys(rs) && |tree[x].childens| > 0))
    ensures arena == Assembled(rs, active)
  {
    var want := Assembled(rs, active);
    assert want.Keys == arena.Keys;
    forall x | x in arena
      ensures arena[x] == want[x]
    {
      PassesAt(rs, active, tree0, x);
    }
    EqualAt(arena, want);
  }

  /** The assembled arena is complete: its children lists are exactly the nodes naming each
    * node as parent, in key order. */
  lemma AssembledComplete(rs: seq<Record>, active: Option<Id>)
    ensures ParentMap(Assembled(rs, active)) == ParentOf(rs)
    ensures Complete(ParentOf(rs), ChildMap(Assembled(rs, active)), Keys(rs))
  {
  }

  /** A node of the assembled arena, field by field. */
  lemma AssembledAt(rs: seq<Record>, active: Option<Id>, x: Id)
    requires x in Ids(rs)
    ensures x in Assembled(rs, active)
    ensures var n := Assembled(rs, active)[x];
            n.childens == WithParent(ParentOf(rs), Keys(rs), Some(x)) && n.parentId == ParentOf(rs)[x] &&
            (n.folder <==> |n.childens| > 0) &&
            (n.open <==> active == Some(x) || ParentOf(rs)[x].None?)
  {
  }

  /** One node after opening a set. */
  lemma OpenAllAt(nodes: map<Id, Node>, s: set<Id>, x: Id)
    requires x in nodes
    ensures x in OpenAll(nodes, s)
    ensures OpenAll(nodes, s)[x] == nodes[x].(open := nodes[x].open || x in s)
  {
  }

  /** What `initState` opens around `a`, one node at a time. */
  lemma OpensMembers(parent: Parents, adj: Adjacency, a: Id, x: Id)
    requires a in parent && a in adj
    ensures x in Opens(parent, adj, a) <==> x == a || x in adj[a] || parent[a] == Some(x)
  {
  }

  /**
   * The flags the page ends with: a node is a folder iff it has children; it
   * is open iff it is the active node, or a root, or, when the active node
   * lies below a root, a child or the parent of the active node.
   */
  lemma LoadedFlags(rs: seq<Record>, active: Option<Id>, x: Id)
    requires x in Ids(rs)
    ensures x in Loaded(rs, active)
    ensures Loaded(rs, active)[x].folder <==> |Loaded(rs, active)[x].childens| > 0
    ensures Loaded(rs, active)[x].open <==>
              active == Some(x) || ParentOf(rs)[x].None? ||
              (active.Some? && Grounded(ParentOf(rs), active.value) &&
               (ParentOf(rs)[x] == active || ParentOf(rs)[active.value] == Some(x)))
  {
    var parent, nodes := ParentOf(rs), Assembled(rs, active);
    var s := if active.Some? && Grounded(parent, active.value)
             then Opens(parent, ChildMap(nodes), active.value) else {};
    AssembledAt(rs, active, x);
    OpenAllAt(nodes, s, x);
    if active.Some? && Grounded(parent, active.value) {
      var a := active.value;
      AssembledAt(rs, active, a);
      OpensMembers(parent, ChildMap(nodes), a, x);
      WithParentMembers(parent, Keys(rs), active);
    }
  }

  /**
   * Unlike the renderer of js-treeview, which expands every ancestor of the
   * active node, the page leaves an ancestor two or more levels up closed
   * unless it is a root.
   */
  lemma HigherAncestorsStayClosed(rs: seq<Record>, active: Option<Id>, x: Id)
    requires active.Some? && AncestorOrSelf(ParentOf(rs), x, active.value)
    requires Depth(ParentOf(rs), x) + 2 <= Depth(ParentOf(rs), active.value)
    requires ParentOf(rs)[x].Some?
    ensures x in Loaded(rs, active) && !Loaded(rs, active)[x].open
  {
    var parent, a := ParentOf(rs), active.value;
    LoadedFlags(rs, active, x);
    DepthStep(parent, x);
    DepthStep(parent, a);
    assert x != a;
    assert parent[x] != active;
    assert parent[a] != Some(x);
  }
}
