/**
 The worked examples of src/adapter.rs: its documentation example and its
 four unit tests, over bit vectors stored in 8-bit blocks, in the default
 block type, or in blocks of any width.
 */
module Scenarios {
  import opened Blocks
  import opened Adapter
  import opened Eager

  /** A bit vector holding `bits` in blocks of `w` bits (`bit_vec!`). */
  function Operand(bits: seq<bool>, w: nat): (v: View)
    requires w > 0
    ensures Valid(v) && Width(v) == w && Len(v) == |bits| && Eval(v) == bits
    ensures LeavesAgree(v)
  {
    PackHolds(bits, w);
    Leaf(bits, w, Pack(bits, w))
  }

  /** What the tests' `assert_0001` checks: length 4, the bits
      false, false, false, true, and the same bits once materialised, whether
      the copy reads the bit path or the block path. */
  ghost predicate Is0001(v: View)
    ensures Is0001(v) ==> Valid(v) && Len(v) == 4 && forall p :: 0 <= p < 4 ==> GetBit(v, p) == (p == 3)
  {
    && Valid(v)
    && Len(v) == 4
    && !GetBit(v, 0) && !GetBit(v, 1) && !GetBit(v, 2) && GetBit(v, 3)
    && Eval(v) == [false, false, false, true]
    && BlocksAgree(v)
  }

  /** `simple_not`: NOT of true, true, true, false, in blocks of any width
      (the test uses the default block type). */
  lemma SimpleNot(w: nat)
    requires w > 0
    ensures Is0001(BitsNot(Operand([true, true, true, false], w)))
  {
    var a := Operand([true, true, true, false], w);
    var v := BitsNot(a);
    assert Eval(v) == [false, false, false, true];
    AgreementFromLeaves(v);
  }

  /** `simple_and` (8-bit blocks) and the documentation example (the
      default block type): false, false, true, true AND false, true, false,
      true, in blocks of any width. */
  lemma SimpleAnd(w: nat)
    requires w > 0
    ensures Is0001(BitsAnd(Operand([false, false, true, true], w), Operand([false, true, false, true], w)))
  {
    var v := BitsAnd(Operand([false, false, true, true], w), Operand([false, true, false, true], w));
    assert Eval(v) == [false, false, false, true];
    AgreementFromLeaves(v);
  }

  /** `and_with_same_offset`: both operands sliced from position 1 to their
      end (`bit_slice(1..)`), in 8-bit blocks. */
  lemma AndWithSameOffset()
    ensures
      var a := Operand([true, false, false, true, true], 8);
      var b := Operand([true, false, true, false, true], 8);
      Is0001(BitsAnd(SliceFrom(a, 1), SliceFrom(b, 1)))
  {
    var a := Operand([true, false, false, true, true], 8);
    var b := Operand([true, false, true, false, true], 8);
    var v := BitsAnd(SliceFrom(a, 1), SliceFrom(b, 1));
    SliceFromIsEager(a, 1);
    SliceFromIsEager(b, 1);
    SliceFromLeavesAgree(a, 1);
    SliceFromLeavesAgree(b, 1);
    LazyIsEager(v);
    assert Eval(v) == [false, false, false, true];
    AgreementFromLeaves(v);
  }

  /** `and_with_different_offset`: one operand sliced from position 2, the
      other from position 1, so their bits start at different offsets. */
  lemma AndWithDifferentOffset()
    ensures
      var a := Operand([true, true, false, false, true, true], 8);
      var b := Operand([true, false, true, false, true], 8);
      Is0001(BitsAnd(SliceFrom(a, 2), SliceFrom(b, 1)))
  {
    var a := Operand([true, true, false, false, true, true], 8);
    var b := Operand([true, false, true, false, true], 8);
    var v := BitsAnd(SliceFrom(a, 2), SliceFrom(b, 1));
    SliceFromIsEager(a, 2);
    SliceFromIsEager(b, 1);
    SliceFromLeavesAgree(a, 2);
    SliceFromLeavesAgree(b, 1);
    LazyIsEager(v);
    assert Eval(v) == [false, false, false, true];
    AgreementFromLeaves(v);
  }

  /** The other operators on the operands of `simple_and`: OR gives
      false, true, true, true; XOR gives false, true, true, false; NOT of the
      first operand gives true, true, false, false. */
  lemma TruthTables()
    ensures
      var a := Operand([false, false, true, true], 8);
      var b := Operand([false, true, false, true], 8);
      && Eval(BitsOr(a, b)) == [false, true, true, true]
      && Eval(BitsXor(a, b)) == [false, true, true, false]
      && Eval(BitsNot(a)) == [true, true, false, false]
  {
    var a := Operand([false, false, true, true], 8);
    var b := Operand([false, true, false, true], 8);
    assert Eval(BitsOr(a, b)) == [false, true, true, true];
    assert Eval(BitsXor(a, b)) == [false, true, true, false];
    assert Eval(BitsNot(a)) == [true, true, false, false];
  }
}
