/**
 The two-child case of `removeNode` copies the successor's value through a
 local `int` (AVLTree.cpp line 123) before storing it back into the
 `size_t` field. On a platform with a 32-bit `int` and a 64-bit `size_t`
 the conversion keeps only the low 32 bits as a signed number (the rule of
 C++20, and what mainstream compilers did before), and the store back
 sign-extends modulo 2^64. This module models that round trip and the
 removal that uses it; the rest of the model uses the corrected
 `AvlTree.RemoveNode`, which copies the value unchanged.
 */
module ValueNarrowing {
  import opened StringOrder
  import opened AvlTree

  const INT_MIN: int := -0x8000_0000
  const INT_MAX: int := 0x7FFF_FFFF
  const TWO_32: nat := 0x1_0000_0000
  const TWO_64: nat := 0x1_0000_0000_0000_0000

  /** `size_t` to 32-bit `int`: the low 32 bits, read as two's complement. */
  function ToInt(v: SizeT): (i: int)
    ensures INT_MIN <= i <= INT_MAX
    ensures (v - i) % TWO_32 == 0
  {
    var low := v % TWO_32;
    if low > INT_MAX then low - TWO_32 else low
  }

  /** 32-bit `int` to `size_t`: reduction modulo 2^64. */
  function ToSizeT(i: int): (v: SizeT)
    requires INT_MIN <= i <= INT_MAX
    ensures (v - i) % TWO_64 == 0
  {
    if i < 0 then i + TWO_64 else i
  }

  /** The value the two-child case stores: `size_t` through `int newValue` and back. */
  function PromotedValueAsWritten(v: SizeT): (p: SizeT)
    ensures p == v <==> v <= INT_MAX || v >= TWO_64 + INT_MIN
  {
    ToSizeT(ToInt(v))
  }

  /** `removeNode` as written: the corrected removal, except that a promoted value goes through `int`. */
  function RemoveNodeAsWritten(slot: Tree): (r: Outcome)
    ensures r.ok <==> slot.Node?
    ensures Keys(r.tree) == Keys(RemoveNode(slot).tree)
  {
    var r := RemoveNode(slot);
    if slot.Node? && NumChildren(slot) == 2 then
      Outcome(r.ok, r.tree.(value := PromotedValueAsWritten(r.tree.value)))
    else r
  }

  /** The removal as written departs from the corrected one exactly when a promoted value does not survive the narrowing. */
  lemma {:induction false} AsWrittenDiffersOnlyByNarrowing(slot: Tree)
    ensures RemoveNodeAsWritten(slot) == RemoveNode(slot) <==>
      slot == Empty || NumChildren(slot) < 2 || PromotedValueAsWritten(Leftmost(slot.right).value) == Leftmost(slot.right).value
  {
    if slot.Node? && NumChildren(slot) == 2 {
      var r := RemoveNode(slot);
      var v := Leftmost(slot.right).value;
      assert r.tree.value == v;
      assert RemoveNodeAsWritten(slot).tree == r.tree.(value := PromotedValueAsWritten(v));
    }
  }

  /**
   A counterexample: removing the root "b" of a three-node search tree
   whose successor "c" holds 2^32 leaves "c" holding 0, where the corrected
   removal keeps 2^32.
   */
  lemma NarrowingLosesSuccessorValue()
    ensures var slot := Node(NewNode("a", 1), "b", 2, 1, NewNode("c", TWO_32));
      && IsBST(slot)
      && AsMap(slot)["c"] == TWO_32
      && AsMap(RemoveNodeAsWritten(slot).tree)["c"] == 0
      && AsMap(RemoveNode(slot).tree)["c"] == TWO_32
  {
    var slot := Node(NewNode("a", 1), "b", 2, 1, NewNode("c", TWO_32));
    assert Less("a", "b") && Less("b", "c");
    assert IsBST(slot);
    RemoveNodeKeepsEntries(slot);
  }
}
