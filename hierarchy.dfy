/**
 * The parent relation of an arena of nodes addressed by id: depth, ancestors,
 * the children lists the assembly passes build, and the pre-order walk of a
 * forest.  Both assemblers (treeview.js and app.js) produce arenas that fit
 * the predicates here, so the forest facts are proved once.
 */
module Hierarchy {
  import opened Records

  /** Each node's `parentId`; `None` marks a root. */
  type Parents = map<Id, Option<Id>>

  /** Each node's list of children, by id. */
  type Adjacency = map<Id, seq<Id>>

  /** Concatenating two lists gives no repeated id when neither repeats one and they share none. */
  lemma DistinctConcat(a: seq<Id>, b: seq<Id>)
    requires Distinct(a) && Distinct(b)
    requires forall x :: x in a ==> x !in b
    ensures Distinct(a + b)
  {
    forall i, j | 0 <= i < j < |a + b|
      ensures (a + b)[i] != (a + b)[j]
    {
      if j >= |a| && i < |a| {
        assert (a + b)[i] in a && (a + b)[j] in b;
      }
    }
  }

  /** The keys, in key order, whose node names `p` as its parent. */
  function WithParent(parent: Parents, keys: seq<Id>, p: Option<Id>): seq<Id> {
    if keys == [] then []
    else
      var last := keys[|keys| - 1];
      WithParent(parent, keys[..|keys| - 1], p) + if last in parent && parent[last] == p then [last] else []
  }

  /** The filter keeps exactly the keys naming `p`, and repeats none that `keys` does not repeat. */
  lemma {:induction false} WithParentMembers(parent: Parents, keys: seq<Id>, p: Option<Id>)
    ensures forall x :: x in WithParent(parent, keys, p) <==> x in keys && x in parent && parent[x] == p
    ensures Distinct(keys) ==> Distinct(WithParent(parent, keys, p))
  {
    if keys != [] {
      var init, last := keys[..|keys| - 1], keys[|keys| - 1];
      WithParentMembers(parent, init, p);
      assert forall x :: x in keys <==> x in init || x == last;
      if Distinct(keys) {
        assert last !in init;
        DistinctConcat(WithParent(parent, init, p), if last in parent && parent[last] == p then [last] else []);
      }
    }
  }

  /** Filtering a longer prefix of the keys only appends the newly accepted key. */
  lemma WithParentSnoc(parent: Parents, keys: seq<Id>, k: Id, p: Option<Id>)
    ensures WithParent(parent, keys + [k], p) ==
            WithParent(parent, keys, p) + if k in parent && parent[k] == p then [k] else []
  {
    assert (keys + [k])[..|keys|] == keys;
  }

  /** The number of parent steps from `k` to a root, when at most `fuel` are needed. */
  function DepthIn(parent: Parents, k: Id, fuel: nat): (d: Option<nat>)
    ensures d.Some? ==> k in parent && d.value <= fuel
    ensures d.Some? && d.value == 0 <==> k in parent && parent[k].None?
    decreases fuel
  {
    if k !in parent then None
    else match parent[k]
      case None => Some(0)
      case Some(p) =>
        if fuel == 0 then None
        else match DepthIn(parent, p, fuel - 1)
          case None => None
          case Some(d) => Some(d + 1)
  }

  /** The parent chain of `k` ends at a root: following `parentId` from `k`
    * never meets a missing node or a cycle. */
  ghost predicate Grounded(parent: Parents, k: Id) {
    k in parent && DepthIn(parent, k, |parent|).Some?
  }

  /** Every node is grounded: the parent relation has no cycle and every
    * `parentId` names a node. */
  ghost predicate AllGrounded(parent: Parents) {
    forall k :: k in parent ==> Grounded(parent, k)
  }

  function Depth(parent: Parents, k: Id): (d: nat)
    requires Grounded(parent, k)
    ensures k in parent && d <= |parent|
  {
    DepthIn(parent, k, |parent|).value
  }

  /** More fuel does not change a depth that is already found. */
  lemma {:induction false} DepthInMonotone(parent: Parents, k: Id, f: nat, g: nat)
    requires f <= g && DepthIn(parent, k, f).Some?
    ensures DepthIn(parent, k, g) == DepthIn(parent, k, f)
    decreases f
  {
    match parent[k]
    case None =>
    case Some(p) => DepthInMonotone(parent, p, f - 1, g - 1);
  }

  /** A depth, once found, needs no more fuel than the depth itself. */
  lemma {:induction false} DepthInEnough(parent: Parents, k: Id, f: nat)
    requires DepthIn(parent, k, f).Some?
    ensures DepthIn(parent, k, DepthIn(parent, k, f).value) == DepthIn(parent, k, f)
    decreases f
  {
    match parent[k]
    case None =>
    case Some(p) => DepthInEnough(parent, p, f - 1);
  }

  /** The nodes met on the way from `k` up to its root, `k` first. */
  ghost function Chain(parent: Parents, k: Id, f: nat): (c: seq<Id>)
    requires DepthIn(parent, k, f).Some?
    ensures |c| == DepthIn(parent, k, f).value + 1
    ensures forall i :: 0 <= i < |c| ==>
              DepthIn(parent, c[i], f - i) == Some(DepthIn(parent, k, f).value - i)
    decreases f
  {
    if parent[k].None? then [k] else [k] + Chain(parent, parent[k].value, f - 1)
  }

  /** A sequence with no repeats drawn from a set is no longer than the set. */
  lemma {:induction false} DistinctWithin(s: seq<Id>, keys: set<Id>)
    requires Distinct(s) && forall x :: x in s ==> x in keys
    ensures |s| <= |keys|
  {
    if s != [] {
      assert forall x :: x in s[1..] ==> x in keys - {s[0]};
      DistinctWithin(s[1..], keys - {s[0]});
    }
  }

  /** A parent chain has no repeated node, so a depth is below the number of nodes. */
  lemma DepthBelowSize(parent: Parents, k: Id, f: nat)
    requires DepthIn(parent, k, f).Some?
    ensures DepthIn(parent, k, f).value < |parent|
  {
    var c := Chain(parent, k, f);
    forall i, j | 0 <= i < j < |c|
      ensures c[i] != c[j]
    {
      if c[i] == c[j] {
        DepthInMonotone(parent, c[j], f - j, f - i);
      }
    }
    DistinctWithin(c, parent.Keys);
  }

  /** A root has depth 0; any other grounded node has a grounded parent one level up. */
  lemma DepthStep(parent: Parents, c: Id)
    requires Grounded(parent, c)
    ensures parent[c].None? <==> Depth(parent, c) == 0
    ensures parent[c].Some? ==>
              Grounded(parent, parent[c].value) &&
              Depth(parent, c) == Depth(parent, parent[c].value) + 1
  {
    if parent[c].Some? {
      DepthInMonotone(parent, parent[c].value, |parent| - 1, |parent|);
    }
  }

  /** A node whose parent is grounded is grounded, one level below it. */
  lemma ChildGrounded(parent: Parents, c: Id)
    requires c in parent && parent[c].Some? && Grounded(parent, parent[c].value)
    ensures Grounded(parent, c) && Depth(parent, c) == Depth(parent, parent[c].value) + 1
  {
    var p := parent[c].value;
    DepthBelowSize(parent, p, |parent|);
    DepthInEnough(parent, p, |parent|);
    DepthInMonotone(parent, p, Depth(parent, p), |parent| - 1);
  }

  /** The ancestor `n` parent steps above `x`. */
  function Up(parent: Parents, x: Id, n: nat): (a: Id)
    requires Grounded(parent, x) && n <= Depth(parent, x)
    ensures Grounded(parent, a) && Depth(parent, a) == Depth(parent, x) - n
    decreases n
  {
    if n == 0 then x
    else
      DepthStep(parent, x);
      Up(parent, parent[x].value, n - 1)
  }

  /** `a` is `x` itself or lies on the parent chain of `x`. */
  ghost predicate AncestorOrSelf(parent: Parents, a: Id, x: Id) {
    Grounded(parent, a) && Grounded(parent, x) && Depth(parent, a) <= Depth(parent, x) &&
    Up(parent, x, Depth(parent, x) - Depth(parent, a)) == a
  }

  /** The ancestor one step further up is the parent of the ancestor. */
  lemma {:induction false} UpParent(parent: Parents, x: Id, n: nat)
    requires Grounded(parent, x) && n < Depth(parent, x)
    ensures parent[Up(parent, x, n)].Some?
    ensures Up(parent, x, n + 1) == parent[Up(parent, x, n)].value
    decreases n
  {
    DepthStep(parent, x);
    if n > 0 {
      UpParent(parent, parent[x].value, n - 1);
    }
    DepthStep(parent, Up(parent, x, n));
  }

  /** `parentId` of `k` is absent or names a node; dereferencing it does not fail. */
  predicate Resolves(parent: Parents, k: Id)
    requires k in parent
  {
    parent[k].None? || parent[k].value in parent
  }

  /** The position of the first key, in key order, whose parent reference does not resolve;
    * `|keys|` when every key resolves. */
  function FirstDangling(parent: Parents, keys: seq<Id>): (i: nat)
    requires forall k :: k in keys ==> k in parent
    ensures i <= |keys|
    ensures forall j :: 0 <= j < i ==> Resolves(parent, keys[j])
    ensures i < |keys| ==> !Resolves(parent, keys[i])
  {
    if keys == [] then 0
    else if !Resolves(parent, keys[0]) then 0
    else 1 + FirstDangling(parent, keys[1..])
  }

  /** Scanning in key order: a key that resolves moves the first dangling position past it,
    * one that does not is that position. */
  lemma FirstDanglingStep(parent: Parents, keys: seq<Id>, i: nat)
    requires (forall k :: k in keys ==> k in parent) && i < |keys| && i <= FirstDangling(parent, keys)
    ensures Resolves(parent, keys[i]) ==> i + 1 <= FirstDangling(parent, keys)
    ensures !Resolves(parent, keys[i]) ==> i == FirstDangling(parent, keys)
  {
  }

  /** When every parent chain ends at a root, no parent reference dangles; this is part
    * of what `AllGrounded` asks, so the lemma only unfolds it. */
  lemma AllGroundedResolves(parent: Parents, keys: seq<Id>)
    requires AllGrounded(parent) && forall k :: k in keys ==> k in parent
    ensures FirstDangling(parent, keys) == |keys|
  {
    var i := FirstDangling(parent, keys);
    if i < |keys| {
      DepthStep(parent, keys[i]);
    }
  }

  /** Every listed child names the listing node as its parent. */
  ghost predicate Linked(parent: Parents, adj: Adjacency) {
    adj.Keys == parent.Keys &&
    forall p, c :: p in adj && c in adj[p] ==> c in parent && parent[c] == Some(p)
  }

  /** Children lists and parent links agree both ways, and no list repeats a child. */
  ghost predicate Nested(parent: Parents, adj: Adjacency) {
    Linked(parent, adj) &&
    (forall c {:trigger adj[parent[c].value]} :: c in parent && parent[c].Some? ==>
       parent[c].value in adj && c in adj[parent[c].value]) &&
    (forall p {:trigger adj[p]} :: p in adj ==> Distinct(adj[p]))
  }

  /** `keys` lists every node once, and each node's children are exactly
    * the nodes naming it as parent, in key order. */
  ghost predicate Complete(parent: Parents, adj: Adjacency, keys: seq<Id>) {
    Distinct(keys) && (forall x :: x in keys <==> x in parent) &&
    adj.Keys == parent.Keys &&
    forall p {:trigger adj[p]} :: p in adj ==> adj[p] == WithParent(parent, keys, Some(p))
  }

  lemma CompleteIsNested(parent: Parents, adj: Adjacency, keys: seq<Id>)
    requires Complete(parent, adj, keys) && FirstDangling(parent, keys) == |keys|
    ensures Nested(parent, adj)
  {
    forall c | c in parent && parent[c].Some?
      ensures parent[c].value in adj && c in adj[parent[c].value]
    {
      var i :| 0 <= i < |keys| && keys[i] == c;
      assert Resolves(parent, keys[i]);
      var p := parent[c].value;
      WithParentMembers(parent, keys, Some(p));
      assert c in WithParent(parent, keys, Some(p));
    }
    forall p | p in adj
      ensures Distinct(adj[p])
      ensures forall c :: c in adj[p] ==> c in parent && parent[c] == Some(p)
    {
      WithParentMembers(parent, keys, Some(p));
    }
  }

  /** All of `ids` are nodes at depth `d`. */
  ghost predicate AtDepth(parent: Parents, ids: seq<Id>, d: nat) {
    forall x :: x in ids ==> Grounded(parent, x) && Depth(parent, x) == d
  }

  /** The children of a node lie one level below it. */
  lemma ChildrenOneDeeper(parent: Parents, adj: Adjacency, h: Id)
    requires Linked(parent, adj) && Grounded(parent, h)
    ensures AtDepth(parent, adj[h], Depth(parent, h) + 1)
  {
    forall c | c in adj[h]
      ensures Grounded(parent, c) && Depth(parent, c) == Depth(parent, h) + 1
    {
      ChildGrounded(parent, c);
    }
  }

  /**
   * The pre-order walk of the subtrees rooted at `ids` (all at depth `d`):
   * each node, then the walk of its children, then the walk of its later
   * siblings.
   */
  ghost function Walk(parent: Parents, adj: Adjacency, ids: seq<Id>, d: nat): seq<Id>
    requires Linked(parent, adj) && AtDepth(parent, ids, d)
    decreases |parent| - d, |ids|
  {
    if ids == [] then []
    else
      var h := ids[0];
      assert Depth(parent, h) == d;
      ChildrenOneDeeper(parent, adj, h);
      [h] + Walk(parent, adj, adj[h], d + 1) + Walk(parent, adj, ids[1..], d)
  }

  /** A node is above everything its children are above. */
  lemma AncestorOfChild(parent: Parents, adj: Adjacency, h: Id, c: Id, x: Id)
    requires Linked(parent, adj) && Grounded(parent, h) && c in adj[h]
    requires AncestorOrSelf(parent, c, x)
    ensures AncestorOrSelf(parent, h, x)
  {
    DepthStep(parent, c);
    UpParent(parent, x, Depth(parent, x) - Depth(parent, c));
  }

  /** Below a proper ancestor, the chain passes through one of its children. */
  lemma ChildTowards(parent: Parents, adj: Adjacency, h: Id, x: Id) returns (c: Id)
    requires Nested(parent, adj) && AncestorOrSelf(parent, h, x) && x != h
    ensures c in adj[h] && AncestorOrSelf(parent, c, x)
  {
    var n := Depth(parent, x) - Depth(parent, h) - 1;
    c := Up(parent, x, n);
    UpParent(parent, x, n);
    assert parent[c].value == h;
  }

  /** One step down: `x` is in the subtree of `h` iff it is `h` or in the subtree of a child of `h`. */
  lemma AncestorStep(parent: Parents, adj: Adjacency, h: Id, x: Id)
    requires Nested(parent, adj) && Grounded(parent, h)
    ensures AncestorOrSelf(parent, h, x) <==>
              x == h || exists c :: c in adj[h] && AncestorOrSelf(parent, c, x)
  {
    if c :| c in adj[h] && AncestorOrSelf(parent, c, x) {
      AncestorOfChild(parent, adj, h, c, x);
    }
    if AncestorOrSelf(parent, h, x) && x != h {
      var c := ChildTowards(parent, adj, h, x);
    }
  }

  /** The walk of `ids` visits `x` iff one of `ids` is an ancestor of `x` or `x` itself. */
  lemma {:induction false} WalkCovers(parent: Parents, adj: Adjacency, ids: seq<Id>, d: nat, x: Id)
    requires Nested(parent, adj) && AtDepth(parent, ids, d)
    ensures x in Walk(parent, adj, ids, d) <==> exists y :: y in ids && AncestorOrSelf(parent, y, x)
    decreases |parent| - d, |ids|
  {
    if ids == [] {
      assert Walk(parent, adj, ids, d) == [];
    } else {
      var h, t := ids[0], ids[1..];
      assert Depth(parent, h) == d;
      ChildrenOneDeeper(parent, adj, h);
      assert Walk(parent, adj, ids, d) ==
             [h] + Walk(parent, adj, adj[h], d + 1) + Walk(parent, adj, t, d);
      WalkCovers(parent, adj, adj[h], d + 1, x);
      WalkCovers(parent, adj, t, d, x);
      AncestorStep(parent, adj, h, x);
      assert forall y :: y in ids <==> y == h || y in t;
    }
  }

  /** Two distinct nodes at the same depth have no common descendant. */
  lemma SameLevelApart(parent: Parents, a: Id, b: Id, x: Id)
    requires AncestorOrSelf(parent, a, x)
    requires Grounded(parent, b) && Depth(parent, a) == Depth(parent, b) && a != b
    ensures !AncestorOrSelf(parent, b, x)
  {
  }

  /** A descendant of the first of some siblings is neither that node nor below a later sibling. */
  lemma BelowHeadOnly(parent: Parents, adj: Adjacency, h: Id, t: seq<Id>, d: nat, x: Id)
    requires Nested(parent, adj) && Grounded(parent, h) && Depth(parent, h) == d
    requires AtDepth(parent, t, d) && h !in t
    requires exists c :: c in adj[h] && AncestorOrSelf(parent, c, x)
    ensures x != h && AncestorOrSelf(parent, h, x)
    ensures forall y :: y in t ==> !AncestorOrSelf(parent, y, x)
  {
    ChildrenOneDeeper(parent, adj, h);
    AncestorStep(parent, adj, h, x);
    forall y | y in t
      ensures !AncestorOrSelf(parent, y, x)
    {
      SameLevelApart(parent, h, y, x);
    }
  }

  /** The walk of distinct siblings repeats no node once the walks below and beside the first one do not. */
  lemma WalkDistinctStep(parent: Parents, adj: Adjacency, h: Id, t: seq<Id>, d: nat)
    requires Nested(parent, adj) && Grounded(parent, h) && Depth(parent, h) == d
    requires AtDepth(parent, t, d) && h !in t
    requires AtDepth(parent, adj[h], d + 1)
    requires Distinct(Walk(parent, adj, adj[h], d + 1)) && Distinct(Walk(parent, adj, t, d))
    ensures AtDepth(parent, [h] + t, d)
    ensures Distinct(Walk(parent, adj, [h] + t, d))
  {
    var ids := [h] + t;
    assert ids[0] == h && ids[1..] == t;
    var below := Walk(parent, adj, adj[h], d + 1);
    var rest := Walk(parent, adj, t, d);
    assert Walk(parent, adj, ids, d) == [h] + below + rest;
    forall x | x in below
      ensures x != h && x !in rest
    {
      WalkCovers(parent, adj, adj[h], d + 1, x);
      BelowHeadOnly(parent, adj, h, t, d, x);
      WalkCovers(parent, adj, t, d, x);
    }
    WalkCovers(parent, adj, t, d, h);
    forall y | y in t
      ensures !AncestorOrSelf(parent, y, h)
    {
      SameLevelApart(parent, h, y, h);
    }
    DistinctConcat([h], below);
    DistinctConcat([h] + below, rest);
  }

  /** The walk of distinct siblings visits no node twice. */
  lemma {:induction false} WalkDistinct(parent: Parents, adj: Adjacency, ids: seq<Id>, d: nat)
    requires Nested(parent, adj) && AtDepth(parent, ids, d) && Distinct(ids)
    ensures Distinct(Walk(parent, adj, ids, d))
    decreases |parent| - d, |ids|
  {
    if ids != [] {
      var h := ids[0];
      assert Depth(parent, h) == d;
      ChildrenOneDeeper(parent, adj, h);
      WalkDistinct(parent, adj, adj[h], d + 1);
      WalkDistinct(parent, adj, ids[1..], d);
      assert ids == [h] + ids[1..];
      WalkDistinctStep(parent, adj, h, ids[1..], d);
    }
  }

  /**
   * When every parent reference resolves, the pre-order walk from the roots
   * visits every grounded node, and no other, exactly once.
   */
  lemma ForestWalkVisitsGroundedOnce(parent: Parents, adj: Adjacency, keys: seq<Id>)
    requires Complete(parent, adj, keys) && FirstDangling(parent, keys) == |keys|
    ensures Nested(parent, adj) && AtDepth(parent, WithParent(parent, keys, None), 0)
    ensures Distinct(Walk(parent, adj, WithParent(parent, keys, None), 0))
    ensures forall x :: x in Walk(parent, adj, WithParent(parent, keys, None), 0) <==> Grounded(parent, x)
  {
    CompleteIsNested(parent, adj, keys);
    var roots := WithParent(parent, keys, None);
    WithParentMembers(parent, keys, None);
    forall x | x in roots
      ensures Grounded(parent, x) && Depth(parent, x) == 0
    {
    }
    WalkDistinct(parent, adj, roots, 0);
    forall x
      ensures x in Walk(parent, adj, roots, 0) <==> Grounded(parent, x)
    {
      WalkCovers(parent, adj, roots, 0, x);
      RootAbove(parent, keys, x);
    }
  }

  /** A node lies below one of the parentless nodes iff its parent chain ends at a root. */
  lemma RootAbove(parent: Parents, keys: seq<Id>, x: Id)
    requires forall k :: k in keys <==> k in parent
    ensures (exists r :: r in WithParent(parent, keys, None) && AncestorOrSelf(parent, r, x)) <==>
            Grounded(parent, x)
  {
    if Grounded(parent, x) {
      var r := Up(parent, x, Depth(parent, x));
      DepthStep(parent, r);
      WithParentMembers(parent, keys, None);
      assert r in WithParent(parent, keys, None) && AncestorOrSelf(parent, r, x);
    }
  }

  /** When the arena has no cycle and no dangling parent, the pre-order walk from the roots visits every node exactly once. */
  lemma ForestWalkVisitsEachOnce(parent: Parents, adj: Adjacency, keys: seq<Id>)
    requires AllGrounded(parent) && Complete(parent, adj, keys)
    ensures Nested(parent, adj) && AtDepth(parent, WithParent(parent, keys, None), 0)
    ensures Distinct(Walk(parent, adj, WithParent(parent, keys, None), 0))
    ensures forall x :: x in Walk(parent, adj, WithParent(parent, keys, None), 0) <==> x in parent
  {
    AllGroundedResolves(parent, keys);
    ForestWalkVisitsGroundedOnce(parent, adj, keys);
  }
}
