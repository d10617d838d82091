/**
 Laws of the logic adapters: identities that hold position by position for
 every well-formed operand, the reconciled length of the binary adapters,
 and the rule that slicing an adapter means slicing its operands.
 */
module Laws {
  import opened Blocks
  import opened Adapter

  /** Two views report the same length and the same bit at every position. */
  predicate SameBits(a: View, b: View)
    requires Valid(a) && Valid(b)
  {
    Len(a) == Len(b) && forall p :: 0 <= p < Len(a) ==> GetBit(a, p) == GetBit(b, p)
  }

  /** Negating twice gives back the operand, bit by bit and block by block. */
  lemma DoubleNegation(a: View)
    requires Valid(a)
    ensures SameBits(BitsNot(BitsNot(a)), a)
    ensures forall i: nat :: i * Width(a) < Len(a) ==> GetBlock(BitsNot(BitsNot(a)), i) == GetBlock(a, i)
  {
  }

  /** AND and OR of an operand with itself is the operand. */
  lemma Idempotent(a: View)
    requires Valid(a)
    ensures SameBits(BitsAnd(a, a), a) && SameBits(BitsOr(a, a), a)
  {
  }

  /** XOR of an operand with itself is all false over the operand's length. */
  lemma XorSelf(a: View)
    requires Valid(a)
    ensures Len(BitsXor(a, a)) == Len(a)
    ensures forall p :: 0 <= p < Len(a) ==> !GetBit(BitsXor(a, a), p)
  {
  }

  /** All three binary adapters report the same reconciled length: the
      smaller of the operand lengths. */
  lemma ReconciledLength(a: View, b: View)
    requires Valid(a) && Valid(b) && Width(a) == Width(b)
    ensures Len(BitsAnd(a, b)) == Len(BitsOr(a, b)) == Len(BitsXor(a, b)) == Min(Len(a), Len(b))
  {
    var pair := BinOp.New(a, b);
    assert pair.len == Min(Len(a), Len(b));
    assert BitsAnd(a, b) == Logic(AndOp, pair);
    assert BitsOr(a, b) == Logic(OrOp, pair);
    assert BitsXor(a, b) == Logic(XorOp, pair);
  }

  /** De Morgan: NOT (A AND B) is (NOT A) OR (NOT B), and NOT (A OR B) is
      (NOT A) AND (NOT B). */
  lemma DeMorgan(a: View, b: View)
    requires Valid(a) && Valid(b) && Width(a) == Width(b)
    ensures SameBits(BitsNot(BitsAnd(a, b)), BitsOr(BitsNot(a), BitsNot(b)))
    ensures SameBits(BitsNot(BitsOr(a, b)), BitsAnd(BitsNot(a), BitsNot(b)))
  {
  }

  /** The binary adapters do not depend on the order of their operands. */
  lemma Commutative(a: View, b: View)
    requires Valid(a) && Valid(b) && Width(a) == Width(b)
    ensures SameBits(BitsAnd(a, b), BitsAnd(b, a))
    ensures SameBits(BitsOr(a, b), BitsOr(b, a))
    ensures SameBits(BitsXor(a, b), BitsXor(b, a))
  {
  }

  /** Nesting binary adapters of one kind is associative, length included. */
  lemma Associative(a: View, b: View, c: View)
    requires Valid(a) && Valid(b) && Valid(c) && Width(a) == Width(b) == Width(c)
    ensures SameBits(BitsAnd(BitsAnd(a, b), c), BitsAnd(a, BitsAnd(b, c)))
    ensures SameBits(BitsOr(BitsOr(a, b), c), BitsOr(a, BitsOr(b, c)))
    ensures SameBits(BitsXor(BitsXor(a, b), c), BitsXor(a, BitsXor(b, c)))
  {
  }

  /** Slicing a NOT adapter is the NOT adapter over the sliced operand. */
  lemma SliceNot(a: View, start: nat, end: nat)
    requires Valid(a) && start <= end <= Len(a)
    ensures Slice(BitsNot(a), start, end) == BitsNot(Slice(a, start, end))
  {
  }

  /** Slicing a binary adapter is the adapter of the same kind over both
      operands sliced with the same range. */
  lemma SliceLogic(a: View, b: View, start: nat, end: nat)
    requires Valid(a) && Valid(b) && Width(a) == Width(b) && start <= end <= Min(Len(a), Len(b))
    ensures Slice(BitsAnd(a, b), start, end) == BitsAnd(Slice(a, start, end), Slice(b, start, end))
    ensures Slice(BitsOr(a, b), start, end) == BitsOr(Slice(a, start, end), Slice(b, start, end))
    ensures Slice(BitsXor(a, b), start, end) == BitsXor(Slice(a, start, end), Slice(b, start, end))
  {
  }

  /** Slicing and logic commute position by position: bit `p` of the sliced
      AND adapter is the AND of the operands' bits at `start + p`. */
  lemma SliceCommutes(a: View, b: View, start: nat, end: nat)
    requires Valid(a) && Valid(b) && Width(a) == Width(b) && start <= end <= Min(Len(a), Len(b))
    ensures Len(Slice(BitsAnd(a, b), start, end)) == end - start
    ensures forall p :: 0 <= p < end - start ==>
      GetBit(Slice(BitsAnd(a, b), start, end), p) == (GetBit(a, start + p) && GetBit(b, start + p))
  {
    forall p | 0 <= p < end - start
      ensures GetBit(Slice(BitsAnd(a, b), start, end), p) == (GetBit(a, start + p) && GetBit(b, start + p))
    {
      SliceBit(BitsAnd(a, b), start, end, p);
    }
  }

  /** Slicing from `start` to the end and slicing the bounded range
      `start..Len` report the same length and the same bits, although a
      binary adapter's operands are cut at different places: each one up to
      its own end, or both up to the adapter's length. */
  lemma SliceFromIsSlice(v: View, start: nat)
    requires Valid(v) && start <= Len(v)
    ensures SameBits(SliceFrom(v, start), Slice(v, start, Len(v)))
  {
    forall p | 0 <= p < Len(v) - start
      ensures GetBit(SliceFrom(v, start), p) == GetBit(Slice(v, start, Len(v)), p)
    {
      SliceFromBit(v, start, p);
      SliceBit(v, start, Len(v), p);
    }
  }

  /** Slicing an AND adapter from `start` slices each operand from `start`
      to its own end, so the longer operand keeps more bits than the
      adapter reports. */
  lemma SliceFromOperands(a: View, b: View, start: nat)
    requires Valid(a) && Valid(b) && Width(a) == Width(b) && start <= Min(Len(a), Len(b))
    ensures SliceFrom(BitsAnd(a, b), start) == BitsAnd(SliceFrom(a, start), SliceFrom(b, start))
    ensures Len(SliceFrom(BitsAnd(a, b), start).pair.op1) == Len(a) - start
    ensures Len(SliceFrom(BitsAnd(a, b), start).pair.op2) == Len(b) - start
  {
  }
}
