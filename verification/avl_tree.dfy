/**
 The string-keyed search tree of `AVLTree`: nodes, insertion with its
 upward balancing walk, the case analysis of node removal, and the height
 query.

 A subtree slot (`AVLNode*` that may be null) is a `Tree`; the parent
 back-pointers are not represented: the walk from a new node back to the
 root is the unwinding of the recursive descent.
 */
module AvlTree {
  import opened StringOrder

  /** Largest value of a 64-bit `size_t`. */
  const SIZE_MAX: nat := 0xFFFF_FFFF_FFFF_FFFF

  /** `size_t`, the type of values and of stored heights. */
  type SizeT = n: nat | n <= SIZE_MAX

  type Key = string
  type Value = SizeT

  datatype Tree =
    | Empty
    | Node(left: Tree, key: Key, value: Value, height: SizeT, right: Tree)

  /** The boolean an operation reports, together with the resulting slot. */
  datatype Outcome = Outcome(ok: bool, tree: Tree)

  // ---------------------------------------------------------------------
  // Specification functions

  ghost function Keys(t: Tree): set<Key>
  {
    match t
    case Empty => {}
    case Node(l, k, _, _, r) => Keys(l) + {k} + Keys(r)
  }

  /** The key/value pairs held by the tree. */
  ghost function AsMap(t: Tree): map<Key, Value>
  {
    match t
    case Empty => map[]
    case Node(l, k, v, _, r) => (AsMap(l) + AsMap(r))[k := v]
  }

  /** Every key of the left subtree is smaller than the node's key, every key of the right subtree larger. */
  ghost predicate IsBST(t: Tree)
  {
    match t
    case Empty => true
    case Node(l, k, _, _, r) =>
      && IsBST(l) && IsBST(r)
      && (forall x :: x in Keys(l) ==> Less(x, k))
      && (forall x :: x in Keys(r) ==> Less(k, x))
  }

  /** Every stored height is the constructor's 1: no operation recomputes one. */
  ghost predicate HeightsAreOne(t: Tree)
  {
    match t
    case Empty => true
    case Node(l, _, _, h, r) => h == 1 && HeightsAreOne(l) && HeightsAreOne(r)
  }

  lemma {:induction false} AsMapKeys(t: Tree)
    ensures AsMap(t).Keys == Keys(t)
  {
    match t
    case Empty =>
    case Node(l, _, _, _, r) =>
      AsMapKeys(l);
      AsMapKeys(r);
  }

  // ---------------------------------------------------------------------
  // Map facts used by the entry-level contracts

  lemma UpdateLeftCommutes(a: map<Key, Value>, b: map<Key, Value>, key: Key, value: Value, k: Key, v: Value)
    requires key !in b && key != k
    ensures (a[key := value] + b)[k := v] == (a + b)[k := v][key := value]
  {
  }

  lemma UpdateRightCommutes(a: map<Key, Value>, b: map<Key, Value>, key: Key, value: Value, k: Key, v: Value)
    requires key != k
    ensures (a + b[key := value])[k := v] == (a + b)[k := v][key := value]
  {
  }

  lemma RemoveLeftCommutes(a: map<Key, Value>, b: map<Key, Value>, m: Key, k: Key, v: Value)
    requires m !in b && m != k
    ensures ((a - {m}) + b)[k := v] == (a + b)[k := v] - {m}
  {
  }

  lemma PromoteSuccessor(a: map<Key, Value>, b: map<Key, Value>, k: Key, v: Value, m: Key)
    requires k !in a && k !in b && m !in a && m in b
    ensures (a + (b - {m}))[m := b[m]] == (a + b)[k := v] - {k}
  {
  }

  /** Removing an entry added to two maps that lacked its key gives back their union. */
  lemma RemoveUpdatedPair(a: map<Key, Value>, b: map<Key, Value>, k: Key, v: Value)
    requires k !in a && k !in b
    ensures (a + b)[k := v] - {k} == a + b
  {
  }

  // ---------------------------------------------------------------------
  // Nodes

  /** `AVLNode(key, value)`: no children, height 1. */
  function NewNode(key: Key, value: Value): (n: Tree)
    ensures n.Node? && IsLeaf(n)
    ensures Keys(n) == {key} && AsMap(n) == map[key := value]
    ensures IsBST(n) && HeightsAreOne(n) && Height(n) == 1
  {
    Node(Empty, key, value, 1, Empty)
  }

  /** `numChildren`: how many of the two child slots are occupied. */
  function NumChildren(n: Tree): (c: nat)
    requires n.Node?
    ensures c <= 2
    ensures c == 0 <==> n.left == Empty && n.right == Empty
    ensures c == 2 <==> n.left.Node? && n.right.Node?
  {
    (if n.left.Node? then 1 else 0) + (if n.right.Node? then 1 else 0)
  }

  /** `isLeaf`: the node has no children. */
  predicate IsLeaf(n: Tree)
    requires n.Node?
    ensures IsLeaf(n) <==> n.left == Empty && n.right == Empty
  {
    NumChildren(n) == 0
  }

  /**
   `balanceNode` has an empty body, so it returns the slot unchanged. Its
   contract states only what any rebalancing must keep: the entries and the
   search order.
   */
  function BalanceNode(t: Tree): (b: Tree)
    ensures Keys(b) == Keys(t) && AsMap(b) == AsMap(t)
    ensures IsBST(t) ==> IsBST(b)
    ensures HeightsAreOne(t) ==> HeightsAreOne(b)
  {
    t
  }

  /** `getHeight` of the tree: 0 when empty, else the root's stored height. */
  function Height(t: Tree): (h: SizeT)
    ensures HeightsAreOne(t) ==> h <= 1 && (h == 0 <==> t == Empty)
  {
    match t
    case Empty => 0
    case Node(_, _, _, height, _) => height
  }

  // ---------------------------------------------------------------------
  // Lookup

  /** `contains`: descend by the key order until the key or an empty slot is met. */
  function Contains(t: Tree, key: Key): (found: bool)
    ensures found ==> key in Keys(t)
    ensures IsBST(t) ==> (found <==> key in Keys(t))
  {
    match t
    case Empty => false
    case Node(l, k, _, _, r) =>
      if key == k then true
      else if Less(key, k) then LessAsymmetric(key, k); Contains(l, key)
      else Contains(r, key)
  }

  // ---------------------------------------------------------------------
  // Insertion

  /**
   The descent of `insert` and the attachment of the new node: left when
   `key < current.key`, right otherwise, the new node at the empty slot
   reached; every ancestor is then passed to `BalanceNode` on the way back
   up, starting at the new node's parent.
   */
  function Attach(t: Tree, key: Key, value: Value): (r: Tree)
    ensures r.Node?
    ensures Keys(r) == Keys(t) + {key}
    ensures HeightsAreOne(t) ==> HeightsAreOne(r)
  {
    match t
    case Empty => NewNode(key, value)
    case Node(l, k, v, h, rt) =>
      if Less(key, k) then BalanceNode(Node(Attach(l, key, value), k, v, h, rt))
      else BalanceNode(Node(l, k, v, h, Attach(rt, key, value)))
  }

  lemma {:induction false} AttachKeepsOrder(t: Tree, key: Key, value: Value)
    ensures IsBST(t) && key !in Keys(t) ==> IsBST(Attach(t, key, value))
  {
    if IsBST(t) && key !in Keys(t) {
      match t
      case Empty =>
      case Node(l, k, v, h, r) =>
        if Less(key, k) {
          AttachKeepsOrder(l, key, value);
        } else {
          LessTotal(key, k);
          AttachKeepsOrder(r, key, value);
        }
    }
  }

  /** Attaching an absent key adds its entry and keeps every other key's value. */
  lemma {:induction false} AttachAddsEntry(t: Tree, key: Key, value: Value)
    ensures key !in Keys(t) ==> AsMap(Attach(t, key, value)) == AsMap(t)[key := value]
  {
    if key !in Keys(t) {
      match t
      case Empty =>
      case Node(l, k, v, h, r) =>
        AsMapKeys(r);
        AttachAddsEntry(l, key, value);
        AttachAddsEntry(r, key, value);
        if Less(key, k) {
          UpdateLeftCommutes(AsMap(l), AsMap(r), key, value, k, v);
        } else {
          UpdateRightCommutes(AsMap(l), AsMap(r), key, value, k, v);
        }
    }
  }

  /** `insert(key, value)`: refuses a present key, otherwise adds one entry. */
  function Insert(t: Tree, key: Key, value: Value): (r: Outcome)
    ensures !r.ok ==> r.tree == t
    ensures t == Empty ==> r == Outcome(true, NewNode(key, value))
    ensures key !in Keys(t) ==> r.ok
    ensures IsBST(t) ==> (r.ok <==> key !in Keys(t))
    ensures IsBST(t) ==> IsBST(r.tree) && Keys(r.tree) == Keys(t) + {key}
    ensures IsBST(t) && r.ok ==> AsMap(r.tree) == AsMap(t)[key := value]
    ensures HeightsAreOne(t) ==> HeightsAreOne(r.tree)
  {
    if Contains(t, key) then Outcome(false, t)
    else if t == Empty then Outcome(true, NewNode(key, value))
    else
      AttachKeepsOrder(t, key, value);
      AttachAddsEntry(t, key, value);
      Outcome(true, Attach(t, key, value))
  }

  // ---------------------------------------------------------------------
  // Removal

  /** The node reached from `t` by following left links until there is none. */
  function Leftmost(t: Tree): (m: Tree)
    requires t.Node?
    ensures m.Node? && m.left == Empty
    ensures m.key in Keys(t)
  {
    if t.left == Empty then t else Leftmost(t.left)
  }

  /** In a search tree the leftmost node holds the smallest key, with its own value. */
  lemma {:induction false} LeftmostIsMinimum(t: Tree)
    requires t.Node? && IsBST(t)
    ensures forall x :: x in Keys(t) && x != Leftmost(t).key ==> Less(Leftmost(t).key, x)
    ensures Leftmost(t).key in AsMap(t) && AsMap(t)[Leftmost(t).key] == Leftmost(t).value
  {
    AsMapKeys(t);
    var m := Leftmost(t).key;
    if t.left != Empty {
      LeftmostIsMinimum(t.left);
      AsMapKeys(t.left);
      AsMapKeys(t.right);
      forall x | x in Keys(t.right)
        ensures Less(m, x)
      {
        LessTransitive(m, t.key, x);
      }
      if m in Keys(t.right) {
        LessAsymmetric(m, t.key);
      }
      LessIrreflexive(m);
    }
  }

  /**
   `removeNode(current)`: a null slot gives false; a leaf is removed; a
   node with one child is replaced by that child (the right one if present);
   a node with two children stays in place and takes the key and value of
   the leftmost node of its right subtree, which is then removed.
   */
  function RemoveNode(slot: Tree): (r: Outcome)
    decreases slot, 1
    ensures r.ok <==> slot.Node?
    ensures slot == Empty ==> r.tree == Empty
    ensures slot.Node? && IsLeaf(slot) ==> r.tree == Empty
    ensures slot.Node? && NumChildren(slot) == 1 ==>
      r.tree == (if slot.right.Node? then slot.right else slot.left)
    ensures slot.Node? && NumChildren(slot) == 2 ==>
      && r.tree.Node? && r.tree.left == slot.left && r.tree.height == slot.height
      && r.tree.key == Leftmost(slot.right).key && r.tree.value == Leftmost(slot.right).value
      && Keys(r.tree.right) + {r.tree.key} == Keys(slot.right)
    ensures slot.Node? && NumChildren(slot) == 2 && IsBST(slot) ==> r.tree.key !in Keys(r.tree.right)
    ensures Keys(r.tree) <= Keys(slot)
    ensures HeightsAreOne(slot) ==> HeightsAreOne(r.tree)
  {
    match slot
    case Empty => Outcome(false, Empty)
    case Node(l, k, v, h, rt) =>
      if IsLeaf(slot) then Outcome(true, Empty)
      else if NumChildren(slot) == 1 then Outcome(true, if rt.Node? then rt else l)
      else
        var successor := Leftmost(rt);
        var rest := RemoveMin(rt);
        Outcome(true, BalanceNode(Node(l, successor.key, successor.value, h, rest)))
  }

  /**
   Deleting the in-order successor: the leftmost node of `t` is removed by
   `RemoveNode` (it has no left child, so only the leaf and one-child cases
   apply) and its ancestors are balanced on the way back up.
   */
  function RemoveMin(t: Tree): (r: Tree)
    requires t.Node?
    decreases t, 2
    ensures Keys(r) + {Leftmost(t).key} == Keys(t)
    ensures IsBST(t) ==> Leftmost(t).key !in Keys(r)
    ensures IsBST(t) ==> IsBST(r)
    ensures HeightsAreOne(t) ==> HeightsAreOne(r)
  {
    if t.left == Empty then LessIrreflexive(t.key); RemoveNode(t).tree
    else
      LeftmostBelowRoot(t);
      BalanceNode(Node(RemoveMin(t.left), t.key, t.value, t.height, t.right))
  }

  /** In a search tree, the leftmost key of the left subtree is neither the root's key nor a key of the right subtree. */
  lemma {:induction false} LeftmostBelowRoot(t: Tree)
    requires t.Node? && t.left.Node?
    ensures IsBST(t) ==> Leftmost(t.left).key != t.key && Leftmost(t.left).key !in Keys(t.right)
  {
    var m := Leftmost(t.left).key;
    if IsBST(t) {
      LessIrreflexive(t.key);
      if m in Keys(t.right) {
        LessAsymmetric(m, t.key);
      }
    }
  }

  lemma {:induction false} RemoveMinKeepsEntries(t: Tree)
    requires t.Node? && IsBST(t)
    ensures Leftmost(t).key !in Keys(RemoveMin(t))
    ensures AsMap(RemoveMin(t)) == AsMap(t) - {Leftmost(t).key}
  {
    var m := Leftmost(t).key;
    AsMapKeys(t.right);
    if t.left == Empty {
      LessIrreflexive(m);
      RemoveUpdatedPair(map[], AsMap(t.right), t.key, t.value);
      assert map[] + AsMap(t.right) == AsMap(t.right);
    } else {
      RemoveMinKeepsEntries(t.left);
      LeftmostIsMinimum(t);
      LessIrreflexive(m);
      if m in Keys(t.right) {
        LessAsymmetric(m, t.key);
      }
      RemoveLeftCommutes(AsMap(t.left), AsMap(t.right), m, t.key, t.value);
    }
  }

  /** The two-child case stays at the node and promotes the leftmost key of the right subtree. */
  lemma {:induction false} PromotionShape(slot: Tree)
    requires slot.Node? && NumChildren(slot) == 2
    ensures RemoveNode(slot).tree ==
      Node(slot.left, Leftmost(slot.right).key, Leftmost(slot.right).value, slot.height, RemoveMin(slot.right))
  {
  }

  /** The two-child case: the node with the successor's key orders its new subtrees. */
  lemma {:induction false} PromotionKeepsOrder(slot: Tree)
    requires slot.Node? && IsBST(slot) && NumChildren(slot) == 2
    ensures IsBST(RemoveNode(slot).tree)
  {
    var successor := Leftmost(slot.right);
    var m := successor.key;
    PromotionShape(slot);
    LeftmostIsMinimum(slot.right);
    RemoveMinKeepsEntries(slot.right);
    forall x | x in Keys(slot.left)
      ensures Less(x, m)
    {
      LessTransitive(x, slot.key, m);
    }
    assert IsBST(Node(slot.left, m, successor.value, slot.height, RemoveMin(slot.right)));
  }

  lemma {:induction false} PromotionKeys(slot: Tree)
    requires slot.Node? && IsBST(slot) && NumChildren(slot) == 2
    ensures Keys(RemoveNode(slot).tree) == Keys(slot) - {slot.key}
  {
    var m := Leftmost(slot.right).key;
    PromotionShape(slot);
    LessIrreflexive(slot.key);
    assert Keys(RemoveMin(slot.right)) + {m} == Keys(slot.right);
    assert slot.key !in Keys(slot.left) && slot.key !in Keys(slot.right);
  }

  /**
   The two-child case promotes the in-order successor: the smallest key of
   the node's subtree that is greater than the node's own key, with the value
   the subtree maps it to. The node's right subtree then holds the old right
   subtree's entries without the successor's.
   */
  lemma {:induction false} PromotedKeyIsSuccessor(slot: Tree)
    requires slot.Node? && IsBST(slot) && NumChildren(slot) == 2
    ensures RemoveNode(slot).tree.Node?
    ensures var m := RemoveNode(slot).tree.key;
      && m in Keys(slot) && Less(slot.key, m)
      && (forall x :: x in Keys(slot) && Less(slot.key, x) ==> x == m || Less(m, x))
    ensures var s := RemoveNode(slot).tree;
      s.key in AsMap(slot) && s.value == AsMap(slot)[s.key]
    ensures var s := RemoveNode(slot).tree;
      AsMap(s.right) == AsMap(slot.right) - {s.key}
  {
    var k := slot.key;
    var m := Leftmost(slot.right).key;
    PromotionShape(slot);
    LeftmostIsMinimum(slot.right);
    RemoveMinKeepsEntries(slot.right);
    AsMapKeys(slot.left);
    AsMapKeys(slot.right);
    forall x | x in Keys(slot) && Less(k, x)
      ensures x == m || Less(m, x)
    {
      if x == k {
        LessIrreflexive(k);
      } else if x in Keys(slot.left) {
        LessAsymmetric(x, k);
      }
    }
    if m in Keys(slot.left) {
      LessAsymmetric(m, k);
    }
    LessIrreflexive(k);
    assert m != k && m !in AsMap(slot.left);
  }

  /** The leaf and one-child cases: the slot ends up holding the keys of the two subtrees. */
  lemma {:induction false} SpliceKeepsOrder(slot: Tree)
    requires slot.Node? && IsBST(slot) && NumChildren(slot) < 2
    ensures IsBST(RemoveNode(slot).tree)
    ensures Keys(RemoveNode(slot).tree) == Keys(slot) - {slot.key}
  {
    LessIrreflexive(slot.key);
    assert slot.key !in Keys(slot.left) && slot.key !in Keys(slot.right);
    if slot.right.Node? {
      assert RemoveNode(slot).tree == slot.right && slot.left == Empty;
    } else {
      assert RemoveNode(slot).tree == slot.left && slot.right == Empty;
    }
  }

  /** Removing a node of a search tree keeps it a search tree and removes exactly that node's key. */
  lemma {:induction false} RemoveNodeKeepsOrder(slot: Tree)
    requires slot.Node? && IsBST(slot)
    ensures IsBST(RemoveNode(slot).tree)
    ensures Keys(RemoveNode(slot).tree) == Keys(slot) - {slot.key}
  {
    if NumChildren(slot) == 2 {
      PromotionKeepsOrder(slot);
      PromotionKeys(slot);
    } else {
      SpliceKeepsOrder(slot);
    }
  }

  /** The two-child case: promoting the successor removes exactly the node's own entry. */
  lemma {:induction false} PromotionKeepsEntries(slot: Tree)
    requires slot.Node? && IsBST(slot) && NumChildren(slot) == 2
    ensures AsMap(RemoveNode(slot).tree) == AsMap(slot) - {slot.key}
  {
    var k := slot.key;
    var m := Leftmost(slot.right).key;
    AsMapKeys(slot.left);
    AsMapKeys(slot.right);
    LessIrreflexive(k);
    LeftmostIsMinimum(slot.right);
    RemoveMinKeepsEntries(slot.right);
    if m in Keys(slot.left) {
      LessAsymmetric(m, k);
    }
    PromoteSuccessor(AsMap(slot.left), AsMap(slot.right), k, slot.value, m);
  }

  /** The leaf and one-child cases: the slot ends up holding exactly the entries of the two subtrees. */
  lemma {:induction false} SpliceKeepsEntries(slot: Tree)
    requires slot.Node? && NumChildren(slot) < 2
    ensures AsMap(RemoveNode(slot).tree) == AsMap(slot.left) + AsMap(slot.right)
  {
    if slot.right.Node? {
      assert RemoveNode(slot).tree == slot.right && slot.left == Empty;
      assert map[] + AsMap(slot.right) == AsMap(slot.right);
    } else {
      assert RemoveNode(slot).tree == slot.left && slot.right == Empty;
      assert AsMap(slot.left) + map[] == AsMap(slot.left);
    }
  }

  /** Removing a node of a search tree removes exactly that node's entry; every other key keeps its value. */
  lemma {:induction false} RemoveNodeKeepsEntries(slot: Tree)
    requires slot.Node? && IsBST(slot)
    ensures AsMap(RemoveNode(slot).tree) == AsMap(slot) - {slot.key}
  {
    if NumChildren(slot) == 2 {
      PromotionKeepsEntries(slot);
    } else {
      AsMapKeys(slot.left);
      AsMapKeys(slot.right);
      LessIrreflexive(slot.key);
      SpliceKeepsEntries(slot);
      RemoveUpdatedPair(AsMap(slot.left), AsMap(slot.right), slot.key, slot.value);
    }
  }
}
