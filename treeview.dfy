/**
 * `createGenericTree` and `isOpened` of js-treeview: the nested forest built
 * from the flat record list by three passes over a hash keyed by `_id`, and
 * the query the renderer uses to decide which leaves start expanded.
 *
 * Node objects live in an arena keyed by id; a `children` array holding
 * object references is a sequence of ids into that arena.
 */
module TreeView {
  import opened Records
  import opened Hierarchy

  /** A node object: the record's fields, `state.opened` (as `open`), `state.ordered` and `children`. */
  datatype Node = Node(id: Id, name: string, parentId: Option<Id>,
                       open: bool, ordered: bool, children: seq<Id>)

  /** The returned array of top-level nodes, with every node object reachable from them. */
  datatype Forest = Forest(roots: seq<Id>, nodes: map<Id, Node>)

  function ParentMap(nodes: map<Id, Node>): Parents {
    map x | x in nodes :: nodes[x].parentId
  }

  function ChildMap(nodes: map<Id, Node>): Adjacency {
    map x | x in nodes :: nodes[x].children
  }

  /** The node the first pass stores for record `r` when `active` is the active node's id. */
  function Initial(r: Record, active: Option<Id>): Node {
    Node(r.id, r.name, r.parentId, active == Some(r.id), false, [])
  }

  /** Pass one applied to the records in order. */
  function Hashing(rs: seq<Record>, active: Option<Id>): (t: map<Id, Node>)
    ensures t.Keys == Ids(rs)
  {
    if rs == [] then map[]
    else Hashing(rs[..|rs| - 1], active)[rs[|rs| - 1].id := Initial(rs[|rs| - 1], active)]
  }

  /** After pass one, a key holds the node built from the last record carrying it. */
  lemma {:induction false} HashingAt(rs: seq<Record>, active: Option<Id>, x: Id)
    requires x in Ids(rs)
    ensures Hashing(rs, active)[x] == Initial(rs[LastIndex(rs, x)], active)
  {
    var n := |rs| - 1;
    if rs[n].id != x {
      HashingAt(rs[..n], active, x);
    }
  }

  lemma HashingIsLastRecord(rs: seq<Record>, active: Option<Id>)
    ensures forall x :: x in Hashing(rs, active) ==> Hashing(rs, active)[x] == Initial(rs[LastIndex(rs, x)], active)
  {
    forall x | x in Hashing(rs, active)
      ensures Hashing(rs, active)[x] == Initial(rs[LastIndex(rs, x)], active)
    {
      HashingAt(rs, active, x);
    }
  }

  /** Pass one: one node per distinct id, holding the last record written under it. */
  method HashById(rs: seq<Record>, active: Option<Id>) returns (tree: map<Id, Node>, keys: seq<Id>)
    ensures keys == Keys(rs) && tree.Keys == Ids(rs)
    ensures forall x :: x in tree ==> tree[x] == Initial(rs[LastIndex(rs, x)], active)
  {
    tree, keys := map[], [];
    var i := 0;
    while i < |rs|
      invariant 0 <= i <= |rs|
      invariant tree == Hashing(rs[..i], active) && keys == Keys(rs[..i])
    {
      var r := rs[i];
      assert rs[..i + 1][..i] == rs[..i];
      if r.id !in tree {
        keys := keys + [r.id];
      }
      tree := tree[r.id := Initial(r, active)];
      i := i + 1;
    }
    assert rs[..i] == rs;
    HashingIsLastRecord(rs, active);
  }

  /** Node `x` once the keys in `done` have been pushed onto their parents' children. */
  function Attached(tree: map<Id, Node>, parent: Parents, done: seq<Id>, x: Id): Node
    requires x in tree
  {
    var n := tree[x];
    n.(children := n.children + WithParent(parent, done, Some(x)),
       ordered := n.ordered || (x in done && n.parentId.Some?))
  }

  /** One step of pass two: push `key` onto its parent's children and mark it ordered. */
  function LinkOne(tree: map<Id, Node>, key: Id): (t: map<Id, Node>)
    requires key in tree
    ensures t.Keys == tree.Keys
  {
    var n := tree[key];
    if n.parentId.Some? && n.parentId.value in tree then
      var p := n.parentId.value;
      var t1 := tree[p := tree[p].(children := tree[p].children + [key])];
      t1[key := t1[key].(ordered := true)]
    else tree
  }

  /** Pass two applied to the keys in order. */
  function Linking(tree0: map<Id, Node>, keys: seq<Id>): (t: map<Id, Node>)
    requires forall k :: k in keys ==> k in tree0
    ensures t.Keys == tree0.Keys
  {
    if keys == [] then tree0
    else LinkOne(Linking(tree0, keys[..|keys| - 1]), keys[|keys| - 1])
  }

  /** One link step seen from node `x`. */
  lemma LinkOneAt(tree: map<Id, Node>, key: Id, x: Id)
    requires key in tree && x in tree
    requires tree[key].parentId.None? || tree[key].parentId.value in tree
    ensures LinkOne(tree, key)[x] ==
            tree[x].(children := tree[x].children + (if tree[key].parentId == Some(x) then [key] else []),
                     ordered := tree[x].ordered || (x == key && tree[key].parentId.Some?))
  {
  }

  /** Attaching one more key, seen from node `x`. */
  lemma AttachedStep(tree0: map<Id, Node>, done: seq<Id>, key: Id, x: Id)
    requires key in tree0 && x in tree0
    ensures var a := Attached(tree0, ParentMap(tree0), done, x);
            Attached(tree0, ParentMap(tree0), done + [key], x) ==
            a.(children := a.children + (if tree0[key].parentId == Some(x) then [key] else []),
               ordered := a.ordered || (x == key && tree0[key].parentId.Some?))
  {
    WithParentSnoc(ParentMap(tree0), done, key, Some(x));
  }

  /** Once every key resolves, linking leaves node `x` as `Attached` describes it. */
  lemma {:induction false} LinkingAt(tree0: map<Id, Node>, keys: seq<Id>, x: Id)
    requires x in tree0 && forall k :: k in keys ==> k in tree0 && Resolves(ParentMap(tree0), k)
    ensures Linking(tree0, keys)[x] == Attached(tree0, ParentMap(tree0), keys, x)
  {
    if keys != [] {
      var init, key := keys[..|keys| - 1], keys[|keys| - 1];
      var t := Linking(tree0, init);
      LinkingAt(tree0, init, x);
      LinkingAt(tree0, init, key);
      assert t[key].parentId == tree0[key].parentId;
      assert Resolves(ParentMap(tree0), key);
      LinkOneAt(t, key, x);
      assert keys == init + [key];
      AttachedStep(tree0, init, key, x);
    }
  }

  /**
   * Pass two: in key order, push each node with a parent onto that parent's
   * children and mark it ordered. The first parent reference that names no
   * node fails the whole call.
   */
  method LinkToParents(tree0: map<Id, Node>, keys: seq<Id>) returns (r: Result<map<Id, Node>>)
    requires forall k :: k in keys ==> k in tree0
    ensures var i := FirstDangling(ParentMap(tree0), keys);
            if i < |keys| then r == Err(DanglingParent(keys[i], tree0[keys[i]].parentId.value))
            else r.Ok? && r.value.Keys == tree0.Keys &&
                 forall x :: x in tree0 ==> r.value[x] == Attached(tree0, ParentMap(tree0), keys, x)
  {
    ghost var parent := ParentMap(tree0);
    var tree := tree0;
    var i := 0;
    while i < |keys|
      invariant 0 <= i <= FirstDangling(parent, keys)
      invariant tree == Linking(tree0, keys[..i])
    {
      var key := keys[i];
      assert keys[..i + 1][..i] == keys[..i];
      LinkingAt(tree0, keys[..i], key);
      FirstDanglingStep(parent, keys, i);
      var elem := tree[key];
      assert elem.parentId == parent[key];
      if elem.parentId.Some? {
        var p := elem.parentId.value;
        if p !in tree {
          return Err(DanglingParent(key, p));
        }
        tree := tree[p := tree[p].(children := tree[p].children + [key])];
        tree := tree[key := tree[key].(ordered := true)];
      }
      assert Resolves(parent, key);
      i := i + 1;
    }
    assert keys[..i] == keys;
    forall x | x in tree0
      ensures tree[x] == Attached(tree0, parent, keys, x)
    {
      LinkingAt(tree0, keys, x);
    }
    r := Ok(tree);
  }

  /** The keys, in key order, of the nodes not marked ordered. */
  function UnorderedKeys(tree: map<Id, Node>, keys: seq<Id>): seq<Id> {
    if keys == [] then []
    else
      var last := keys[|keys| - 1];
      UnorderedKeys(tree, keys[..|keys| - 1]) + if last in tree && !tree[last].ordered then [last] else []
  }

  /** When exactly the nodes with a parent are marked ordered, the unordered keys are the
    * parentless ones. */
  lemma {:induction false} UnorderedAreParentless(tree: map<Id, Node>, keys: seq<Id>)
    requires forall k :: k in keys ==> k in tree && tree[k].ordered == tree[k].parentId.Some?
    ensures UnorderedKeys(tree, keys) == WithParent(ParentMap(tree), keys, None)
  {
    if keys != [] {
      UnorderedAreParentless(tree, keys[..|keys| - 1]);
    }
  }

  /**
   * Pass three: in key order, delete every ordered node from the hash and
   * collect the others as the top-level array.
   */
  method CollectRoots(tree: map<Id, Node>, keys: seq<Id>) returns (roots: seq<Id>, hash: map<Id, Node>)
    requires forall k :: k in keys ==> k in tree
    ensures roots == UnorderedKeys(tree, keys)
    ensures hash.Keys == tree.Keys - set k | k in keys && tree[k].ordered
    ensures forall x :: x in hash ==> hash[x] == tree[x]
  {
    roots, hash := [], tree;
    var i := 0;
    while i < |keys|
      invariant 0 <= i <= |keys|
      invariant roots == UnorderedKeys(tree, keys[..i])
      invariant hash.Keys == tree.Keys - set k | k in keys[..i] && tree[k].ordered
      invariant forall x :: x in hash ==> hash[x] == tree[x]
    {
      var key := keys[i];
      assert keys[..i + 1][..i] == keys[..i];
      assert forall k :: k in keys[..i + 1] <==> k in keys[..i] || k == key;
      if tree[key].ordered {
        hash := hash - {key};
      } else {
        roots := roots + [key];
      }
      i := i + 1;
    }
    assert keys[..i] == keys;
  }

  /** The arena `createGenericTree` leaves behind: one node per distinct id, built from
    * the last record written under it, with its children in key order. */
  function Assembled(rs: seq<Record>, active: Option<Id>): map<Id, Node> {
    var last := LastWins(rs);
    map x | x in last ::
      Node(x, last[x].name, last[x].parentId, active == Some(x), last[x].parentId.Some?,
           WithParent(ParentOf(rs), Keys(rs), Some(x)))
  }

  /**
   * The three passes together: the forest of parentless nodes, in key order,
   * over the assembled arena, or the first dangling parent reference in key
   * order.
   */
  method CreateGenericTree(rs: seq<Record>, active: Option<Id>) returns (r: Result<Forest>)
    ensures var i := FirstDangling(ParentOf(rs), Keys(rs));
            if i < |Keys(rs)| then r == Err(DanglingParent(Keys(rs)[i], ParentOf(rs)[Keys(rs)[i]].value))
            else r == Ok(Forest(WithParent(ParentOf(rs), Keys(rs), None), Assembled(rs, active)))
  {
    var tree0, keys := HashById(rs, active);
    HashedParents(rs, active, tree0);
    var linked := LinkToParents(tree0, keys);
    if linked.Err? {
      return Err(linked.error);
    }
    var tree := linked.value;
    var roots, hash := CollectRoots(tree, keys);
    LinkedIsAssembled(rs, active, tree0, tree);
    AssembledComplete(rs, active);
    AssembledMarksChildren(rs, active);
    UnorderedAreParentless(tree, keys);
    r := Ok(Forest(roots, tree));
  }

  /** The parent references pass one stores are those of the last records. */
  lemma HashedParents(rs: seq<Record>, active: Option<Id>, tree0: map<Id, Node>)
    requires tree0.Keys == Ids(rs)
    requires forall x :: x in tree0 ==> tree0[x] == Initial(rs[LastIndex(rs, x)], active)
    ensures ParentMap(tree0) == ParentOf(rs)
  {
    forall x | x in tree0
      ensures tree0[x].parentId == ParentOf(rs)[x]
    {
      LastWinsIsLastRecord(rs, x);
    }
  }

  /** Node `x` after passes one and two is the assembled node. */
  lemma AttachedIsAssembled(rs: seq<Record>, active: Option<Id>, tree0: map<Id, Node>, x: Id)
    requires x in tree0 && tree0.Keys == Ids(rs)
    requires tree0[x] == Initial(rs[LastIndex(rs, x)], active)
    ensures x in Assembled(rs, active)
    ensures Attached(tree0, ParentOf(rs), Keys(rs), x) == Assembled(rs, active)[x]
  {
    LastWinsIsLastRecord(rs, x);
    var kids := WithParent(ParentOf(rs), Keys(rs), Some(x));
    assert [] + kids == kids;
    assert x in Keys(rs);
  }

  /** Passes one and two together build the assembled arena. */
  lemma LinkedIsAssembled(rs: seq<Record>, active: Option<Id>, tree0: map<Id, Node>, tree: map<Id, Node>)
    requires tree0.Keys == Ids(rs)
    requires forall x :: x in tree0 ==> tree0[x] == Initial(rs[LastIndex(rs, x)], active)
    requires tree.Keys == tree0.Keys
    requires forall x :: x in tree0 ==> tree[x] == Attached(tree0, ParentOf(rs), Keys(rs), x)
    ensures tree == Assembled(rs, active)
  {
    var want := Assembled(rs, active);
    assert want.Keys == tree.Keys;
    forall x | x in tree
      ensures tree[x] == want[x]
    {
      AttachedIsAssembled(rs, active, tree0, x);
    }
    EqualAt(tree, want);
  }

  /** Exactly the nodes with a parent reference are marked ordered. */
  lemma AssembledMarksChildren(rs: seq<Record>, active: Option<Id>)
    ensures forall k :: k in Keys(rs) ==>
              k in Assembled(rs, active) && Assembled(rs, active)[k].ordered == Assembled(rs, active)[k].parentId.Some?
  {
  }

  /** The assembled arena is complete: its children lists are exactly the nodes naming each
    * node as parent, in key order. */
  lemma AssembledComplete(rs: seq<Record>, active: Option<Id>)
    ensures ParentMap(Assembled(rs, active)) == ParentOf(rs)
    ensures Complete(ParentOf(rs), ChildMap(Assembled(rs, active)), Keys(rs))
  {
  }

  /** Whenever the input's parent chains all end at roots, assembly succeeds. */
  lemma AllGroundedAssemblesOk(rs: seq<Record>)
    requires AllGrounded(ParentOf(rs))
    ensures FirstDangling(ParentOf(rs), Keys(rs)) == |Keys(rs)|
  {
    AllGroundedResolves(ParentOf(rs), Keys(rs));
  }
  /**
   * `isOpened`: a node is drawn expanded when it is itself marked open or
   * some child of it is drawn expanded. The search only terminates on
   * nodes whose parent chain ends at a root.
   */
  function IsOpened(nodes: map<Id, Node>, k: Id): bool
    requires Linked(ParentMap(nodes), ChildMap(nodes)) && Grounded(ParentMap(nodes), k)
    decreases |ParentMap(nodes)| - Depth(ParentMap(nodes), k)
  {
    ChildrenOneDeeper(ParentMap(nodes), ChildMap(nodes), k);
    nodes[k].open || exists c :: c in nodes[k].children && IsOpened(nodes, c)
  }

  /** A node is drawn expanded exactly when an open node lies in its subtree. */
  lemma {:induction false} OpenedIffOpenBelow(nodes: map<Id, Node>, k: Id)
    requires Nested(ParentMap(nodes), ChildMap(nodes)) && Grounded(ParentMap(nodes), k)
    ensures IsOpened(nodes, k) <==>
              exists x :: x in nodes && AncestorOrSelf(ParentMap(nodes), k, x) && nodes[x].open
    decreases |ParentMap(nodes)| - Depth(ParentMap(nodes), k)
  {
    var parent, adj := ParentMap(nodes), ChildMap(nodes);
    ChildrenOneDeeper(parent, adj, k);
    forall c | c in nodes[k].children
      ensures IsOpened(nodes, c) <==>
                exists x :: x in nodes && AncestorOrSelf(parent, c, x) && nodes[x].open
    {
      OpenedIffOpenBelow(nodes, c);
    }
    if IsOpened(nodes, k) {
      if nodes[k].open {
        assert AncestorOrSelf(parent, k, k);
      } else {
        var c :| c in nodes[k].children && IsOpened(nodes, c);
        var x :| x in nodes && AncestorOrSelf(parent, c, x) && nodes[x].open;
        AncestorOfChild(parent, adj, k, c, x);
      }
    }
    if x :| x in nodes && AncestorOrSelf(parent, k, x) && nodes[x].open {
      if x != k {
        var c := ChildTowards(parent, adj, k, x);
        assert IsOpened(nodes, c);
      }
    }
  }
  /**
   * With every parent reference resolving, the pre-order walk of the returned
   * forest visits each node whose parent chain ends at a root exactly once, and
   * no other node.
   */
  lemma ForestWalkVisitsGrounded(rs: seq<Record>, active: Option<Id>)
    requires FirstDangling(ParentOf(rs), Keys(rs)) == |Keys(rs)|
    ensures var nodes, roots := Assembled(rs, active), WithParent(ParentOf(rs), Keys(rs), None);
            Nested(ParentMap(nodes), ChildMap(nodes)) && AtDepth(ParentMap(nodes), roots, 0) &&
            Distinct(Walk(ParentMap(nodes), ChildMap(nodes), roots, 0)) &&
            forall x :: x in Walk(ParentMap(nodes), ChildMap(nodes), roots, 0) <==> Grounded(ParentOf(rs), x)
  {
    AssembledComplete(rs, active);
    ForestWalkVisitsGroundedOnce(ParentOf(rs), ChildMap(Assembled(rs, active)), Keys(rs));
  }

  /** For input with no cycle and no dangling parent, the pre-order walk of the forest visits every distinct id exactly once. */
  lemma AllGroundedForestWalkVisitsEachOnce(rs: seq<Record>, active: Option<Id>)
    requires AllGrounded(ParentOf(rs))
    ensures var nodes, roots := Assembled(rs, active), WithParent(ParentOf(rs), Keys(rs), None);
            Nested(ParentMap(nodes), ChildMap(nodes)) && AtDepth(ParentMap(nodes), roots, 0) &&
            Distinct(Walk(ParentMap(nodes), ChildMap(nodes), roots, 0)) &&
            forall x :: x in Walk(ParentMap(nodes), ChildMap(nodes), roots, 0) <==> x in Ids(rs)
  {
    AssembledComplete(rs, active);
    ForestWalkVisitsEachOnce(ParentOf(rs), ChildMap(Assembled(rs, active)), Keys(rs));
  }

  /**
   * With the initial flags of the first pass, a node of the forest is drawn
   * expanded exactly when the active node is that node or lies in its subtree.
   */
  lemma ExpandedIffAboveActive(rs: seq<Record>, active: Option<Id>, k: Id)
    requires FirstDangling(ParentOf(rs), Keys(rs)) == |Keys(rs)| && Grounded(ParentOf(rs), k)
    ensures ParentMap(Assembled(rs, active)) == ParentOf(rs)
    ensures Nested(ParentMap(Assembled(rs, active)), ChildMap(Assembled(rs, active)))
    ensures IsOpened(Assembled(rs, active), k) <==>
              active.Some? && AncestorOrSelf(ParentOf(rs), k, active.value)
  {
    var nodes := Assembled(rs, active);
    AssembledComplete(rs, active);
    CompleteIsNested(ParentOf(rs), ChildMap(nodes), Keys(rs));
    OpenedIffOpenBelow(nodes, k);
  }
}
