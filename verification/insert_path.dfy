/**
 The descent loop of `insert` written as the loop it is: starting at the
 root, step left when the key is smaller than the current node's key and
 right otherwise, until an empty slot is reached. The recursive `Attach`
 of `AvlTree` is shown to put the new node exactly at that slot.
 */
module InsertPath {
  import opened StringOrder
  import opened AvlTree

  datatype Dir = GoLeft | GoRight

  /** The directions `insert` takes from the root of `t` for `key`. */
  function Descend(t: Tree, key: Key): seq<Dir>
  {
    match t
    case Empty => []
    case Node(l, k, _, _, r) =>
      if Less(key, k) then [GoLeft] + Descend(l, key) else [GoRight] + Descend(r, key)
  }

  /** The slot reached from the root of `t` along `path` (empty once the path leaves the tree). */
  function Subtree(t: Tree, path: seq<Dir>): Tree
  {
    if path == [] then t
    else match t
      case Empty => Empty
      case Node(l, _, _, _, r) => Subtree(if path[0] == GoLeft then l else r, path[1..])
  }

  /** `t` with the slot at `path` replaced by `s`. */
  function Graft(t: Tree, path: seq<Dir>, s: Tree): Tree
  {
    if path == [] then s
    else match t
      case Empty => Empty
      case Node(l, k, v, h, r) =>
        if path[0] == GoLeft then Node(Graft(l, path[1..], s), k, v, h, r)
        else Node(l, k, v, h, Graft(r, path[1..], s))
  }

  /** Every step of the descent leaves a node and goes left exactly when the key is smaller than that node's key. */
  ghost predicate FollowsOrder(t: Tree, key: Key, path: seq<Dir>)
  {
    forall i :: 0 <= i < |path| ==>
      Subtree(t, path[..i]).Node? && (path[i] == GoLeft <==> Less(key, Subtree(t, path[..i]).key))
  }

  lemma {:induction false} DescendFollowsOrder(t: Tree, key: Key)
    ensures FollowsOrder(t, key, Descend(t, key))
    ensures Subtree(t, Descend(t, key)) == Empty
  {
    match t
    case Empty =>
    case Node(l, k, _, _, r) =>
      var child := if Less(key, k) then l else r;
      var p := Descend(t, key);
      DescendFollowsOrder(child, key);
      assert p[1..] == Descend(child, key);
      forall i | 0 < i < |p|
        ensures Subtree(t, p[..i]) == Subtree(child, p[1..][..i - 1])
      {
        assert p[..i][1..] == p[1..][..i - 1];
      }
  }

  /**
   Lines 18-28 of `insert`: the loop that walks from the root to the empty
   slot. Every step leaves a node, goes left exactly when the key is smaller
   than that node's key, and the walk ends at an empty slot whose parent is
   the last node visited.
   */
  method FindSlot(t: Tree, key: Key) returns (path: seq<Dir>)
    ensures path == Descend(t, key)
    ensures Subtree(t, path) == Empty
    ensures FollowsOrder(t, key, path)
    ensures t.Node? ==> |path| > 0 && Subtree(t, path[..|path| - 1]).Node?
  {
    var current := t;
    path := [];
    while current.Node?
      invariant path + Descend(current, key) == Descend(t, key)
      decreases current
    {
      var d := if Less(key, current.key) then GoLeft else GoRight;
      var next := if d == GoLeft then current.left else current.right;
      assert Descend(current, key) == [d] + Descend(next, key);
      assert (path + [d]) + Descend(next, key) == path + ([d] + Descend(next, key));
      path := path + [d];
      current := next;
    }
    assert path == Descend(t, key);
    DescendFollowsOrder(t, key);
  }

  lemma {:induction false} GraftOwnSubtree(t: Tree, path: seq<Dir>)
    ensures Graft(t, path, Subtree(t, path)) == t
  {
    if path != [] {
      match t
      case Empty =>
      case Node(l, _, _, _, r) =>
        GraftOwnSubtree(if path[0] == GoLeft then l else r, path[1..]);
    }
  }

  /**
   Lines 36-40 of `insert`: starting at the new node's parent, `balanceNode`
   is applied to each ancestor in turn until the root has been done. The
   walk visits the prefixes of `path` from the longest proper one down to the
   empty one (the root), once each, and since `balanceNode` is the identity
   the tree comes out as it went in.
   */
  method BalanceWalk(t: Tree, path: seq<Dir>) returns (r: Tree, visited: seq<seq<Dir>>)
    ensures r == t
    ensures |visited| == |path|
    ensures forall j :: 0 <= j < |visited| ==> visited[j] == path[..|path| - 1 - j]
  {
    r := t;
    visited := [];
    var n := |path|;
    while n > 0
      invariant 0 <= n <= |path|
      invariant r == t
      invariant |visited| == |path| - n
      invariant forall j :: 0 <= j < |visited| ==> visited[j] == path[..|path| - 1 - j]
      decreases n
    {
      var at := path[..n - 1];
      GraftOwnSubtree(r, at);
      r := Graft(r, at, BalanceNode(Subtree(r, at)));
      visited := visited + [at];
      n := n - 1;
    }
  }

  /** The recursive `Attach` places the new node at the slot `Descend` reaches and changes nothing else. */
  lemma {:induction false} AttachIsGraft(t: Tree, key: Key, value: Value)
    ensures Attach(t, key, value) == Graft(t, Descend(t, key), NewNode(key, value))
    ensures Subtree(t, Descend(t, key)) == Empty
    ensures Subtree(Attach(t, key, value), Descend(t, key)) == NewNode(key, value)
  {
    match t
    case Empty =>
    case Node(l, k, _, _, r) =>
      var p := Descend(t, key);
      if Less(key, k) {
        AttachIsGraft(l, key, value);
        assert p[1..] == Descend(l, key);
      } else {
        AttachIsGraft(r, key, value);
        assert p[1..] == Descend(r, key);
      }
  }

  /**
   The slots the upward walk visits after an attachment are the new node's
   ancestors: along the descent path for `key`, every proper prefix leads to
   a node of the grown tree, and that node holds the key the old tree has
   there. `BalanceWalk` run on that path therefore calls `balanceNode` on
   nodes only, from the new node's parent up to the root.
   */
  lemma {:induction false} WalkVisitsAncestors(t: Tree, key: Key, value: Value)
    ensures forall i :: 0 <= i < |Descend(t, key)| ==>
      Subtree(t, Descend(t, key)[..i]).Node? &&
      Subtree(Attach(t, key, value), Descend(t, key)[..i]).Node? &&
      Subtree(Attach(t, key, value), Descend(t, key)[..i]).key == Subtree(t, Descend(t, key)[..i]).key
  {
    match t
    case Empty =>
    case Node(l, k, _, _, r) =>
      var child := if Less(key, k) then l else r;
      var p := Descend(t, key);
      WalkVisitsAncestors(child, key, value);
      assert p[1..] == Descend(child, key);
      assert Attach(t, key, value).key == k;
      assert Attach(t, key, value).left == if Less(key, k) then Attach(l, key, value) else l;
      assert Attach(t, key, value).right == if Less(key, k) then r else Attach(r, key, value);
      forall i | 0 < i < |p|
        ensures Subtree(t, p[..i]) == Subtree(child, p[1..][..i - 1])
        ensures Subtree(Attach(t, key, value), p[..i]) == Subtree(Attach(child, key, value), p[1..][..i - 1])
      {
        assert p[..i][1..] == p[1..][..i - 1];
      }
  }

  /**
   Lines 18-40 of `insert` once the key is known to be absent: find the
   empty slot, hang the new node there, then walk up from its parent. The
   walk visits exactly the new node's ancestors, nearest first, each a node
   holding the key it held before, and the result is the recursive `Attach`.
   */
  method AttachAndWalk(t: Tree, key: Key, value: Value) returns (r: Tree, visited: seq<seq<Dir>>)
    ensures r == Attach(t, key, value)
    ensures |visited| == |Descend(t, key)|
    ensures forall j :: 0 <= j < |visited| ==>
      visited[j] == Descend(t, key)[..|Descend(t, key)| - 1 - j]
    ensures forall j :: 0 <= j < |visited| ==>
      Subtree(t, visited[j]).Node? && Subtree(r, visited[j]).Node? &&
      Subtree(r, visited[j]).key == Subtree(t, visited[j]).key
  {
    var path := FindSlot(t, key);
    AttachIsGraft(t, key, value);
    var grown := Graft(t, path, NewNode(key, value));
    r, visited := BalanceWalk(grown, path);
    WalkVisitsAncestors(t, key, value);
  }

  /**
   A successful insert into a non-empty tree grafts the new leaf onto the
   previously empty slot at the end of the descent, below the last node
   visited; the upward walk of `BalanceNode` calls leaves everything else
   as it was.
   */
  lemma {:induction false} InsertAttachesAtSlot(t: Tree, key: Key, value: Value)
    requires t.Node? && IsBST(t) && key !in Keys(t)
    ensures Insert(t, key, value).ok
    ensures Insert(t, key, value).tree == Graft(t, Descend(t, key), NewNode(key, value))
    ensures |Descend(t, key)| > 0 && Subtree(t, Descend(t, key)) == Empty
  {
    AttachIsGraft(t, key, value);
  }
}
