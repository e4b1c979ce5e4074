/**
 The in-order key listing (left subtree, node, right subtree) as a second,
 independent description of the search-tree order: a tree is a search tree
 exactly when its in-order listing is strictly ascending.
 */
module InOrder {
  import opened StringOrder
  import opened AvlTree

  ghost function InOrderKeys(t: Tree): seq<Key>
  {
    match t
    case Empty => []
    case Node(l, k, _, _, r) => InOrderKeys(l) + [k] + InOrderKeys(r)
  }

  ghost predicate StrictlyAscending(s: seq<Key>)
  {
    forall i, j :: 0 <= i < j < |s| ==> Less(s[i], s[j])
  }

  lemma {:induction false} InOrderListsKeys(t: Tree)
    ensures forall x :: x in InOrderKeys(t) <==> x in Keys(t)
  {
    match t
    case Empty =>
    case Node(l, _, _, _, r) =>
      InOrderListsKeys(l);
      InOrderListsKeys(r);
  }

  /** Joining two ascending listings around a key that separates them gives an ascending listing. */
  lemma JoinAscending(a: seq<Key>, k: Key, b: seq<Key>)
    requires StrictlyAscending(a) && StrictlyAscending(b)
    requires forall x :: x in a ==> Less(x, k)
    requires forall y :: y in b ==> Less(k, y)
    ensures StrictlyAscending(a + [k] + b)
  {
    var s := a + [k] + b;
    forall i, j | 0 <= i < j < |s|
      ensures Less(s[i], s[j])
    {
      if j < |a| {
        assert s[i] == a[i] && s[j] == a[j];
      } else if i < |a| && j == |a| {
        assert s[i] == a[i];
      } else if i < |a| {
        assert s[i] == a[i] && s[j] == b[j - |a| - 1];
        LessTransitive(a[i], k, b[j - |a| - 1]);
      } else if i == |a| {
        assert s[j] == b[j - |a| - 1];
      } else {
        assert s[i] == b[i - |a| - 1] && s[j] == b[j - |a| - 1];
      }
    }
  }

  /** The parts of an ascending listing ascend, and the middle key separates them. */
  lemma SplitAscending(a: seq<Key>, k: Key, b: seq<Key>)
    requires StrictlyAscending(a + [k] + b)
    ensures StrictlyAscending(a) && StrictlyAscending(b)
    ensures forall x :: x in a ==> Less(x, k)
    ensures forall y :: y in b ==> Less(k, y)
  {
    var s := a + [k] + b;
    forall i, j | 0 <= i < j < |a| ensures Less(a[i], a[j]) {
      assert s[i] == a[i] && s[j] == a[j];
    }
    forall i, j | 0 <= i < j < |b| ensures Less(b[i], b[j]) {
      assert s[|a| + 1 + i] == b[i] && s[|a| + 1 + j] == b[j];
    }
    forall x | x in a ensures Less(x, k) {
      var i :| 0 <= i < |a| && a[i] == x;
      assert s[i] == x && s[|a|] == k;
    }
    forall y | y in b ensures Less(k, y) {
      var j :| 0 <= j < |b| && b[j] == y;
      assert s[|a| + 1 + j] == y && s[|a|] == k;
    }
  }

  /** Both directions: the search-tree invariant holds exactly when the in-order listing ascends. */
  lemma {:induction false} SearchTreeIffAscending(t: Tree)
    ensures IsBST(t) <==> StrictlyAscending(InOrderKeys(t))
  {
    match t
    case Empty =>
    case Node(l, k, _, _, r) =>
      SearchTreeIffAscending(l);
      SearchTreeIffAscending(r);
      InOrderListsKeys(l);
      InOrderListsKeys(r);
      if IsBST(t) {
        JoinAscending(InOrderKeys(l), k, InOrderKeys(r));
      }
      if StrictlyAscending(InOrderKeys(t)) {
        SplitAscending(InOrderKeys(l), k, InOrderKeys(r));
      }
  }
}
