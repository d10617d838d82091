/**
 The lazy bit-wise logic adapters of src/adapter.rs.

 A `View` is anything that offers the read-only bit view: a length, a bit at
 every position below it, and a block of `Width` bits at every block index
 whose first bit is in range. A `Leaf` is an operand that the adapters do
 not look inside (a bit vector or a slice of one): its bits and its own
 blocks. `Not` is the NOT adapter over one operand; `Logic(op, pair)` is the
 AND, OR or XOR adapter over the two operands kept in the bookkeeping record
 `pair`, which caches the reported length.
 */
module Adapter {
  import opened Blocks

  datatype View =
    | Leaf(bits: seq<bool>, width: nat, blocks: seq<Block>)
    | Not(operand: View)
    | Logic(op: Op, pair: BinOp)

  /** The two operands of a binary adapter and the length it reports. */
  datatype BinOp = BinOp(op1: View, op2: View, len: nat) {

    /** Pairs two operands and caches the smaller of their lengths. */
    static function New(op1: View, op2: View): (b: BinOp)
      ensures b.op1 == op1 && b.op2 == op2
      ensures b.len <= Len(op1) && b.len <= Len(op2)
      ensures b.len == Len(op1) || b.len == Len(op2)
    {
      BinOp(op1, op2, Min(Len(op1), Len(op2)))
    }

    /** The bookkeeping invariant: operands of the same block width, and
        the cached length is the smaller operand length. */
    predicate Invariant()
      ensures Invariant() ==> len <= Len(op1) && len <= Len(op2)
      ensures Invariant() ==> len == Len(op1) || len == Len(op2)
    {
      Width(op1) == Width(op2) && len == Min(Len(op1), Len(op2))
    }

    /** The first operand's bit at the same position, not re-based. */
    function Bit1(p: nat): (b: bool)
      requires Valid(op1) && p < Len(op1)
      ensures b == GetBit(op1, p)
    {
      GetBit(op1, p)
    }

    /** The second operand's bit at the same position, not re-based. */
    function Bit2(p: nat): (b: bool)
      requires Valid(op2) && p < Len(op2)
      ensures b == GetBit(op2, p)
    {
      GetBit(op2, p)
    }

    /** The first operand's block at the same index. */
    function Block1(i: nat): (x: Block)
      requires Valid(op1) && i * Width(op1) < Len(op1)
      ensures x == GetBlock(op1, i) && |x| == Width(op1)
    {
      GetBlock(op1, i)
    }

    /** The second operand's block at the same index. */
    function Block2(i: nat): (y: Block)
      requires Valid(op2) && i * Width(op2) < Len(op2)
      ensures y == GetBlock(op2, i) && |y| == Width(op2)
    {
      GetBlock(op2, i)
    }
  }

  function Min(a: nat, b: nat): nat {
    if a <= b then a else b
  }

  /** A well-formed view: leaves have a correct block layout, and every
      binary adapter keeps its bookkeeping invariant. */
  predicate Valid(v: View)
    ensures Valid(v) && v.Logic? ==> Width(v.pair.op1) == Width(v.pair.op2)
    ensures Valid(v) && v.Logic? ==> v.pair.len <= Len(v.pair.op1) && v.pair.len <= Len(v.pair.op2)
  {
    match v
    case Leaf(bits, w, blocks) => BlockLayout(bits, w, blocks)
    case Not(o) => Valid(o)
    case Logic(_, pair) => Valid(pair.op1) && Valid(pair.op2) && pair.Invariant()
  }

  /** The block width of a view (its `Block` type): an adapter's blocks are
      its operand's; both operands of a binary adapter share it. */
  function Width(v: View): (w: nat)
    ensures v.Not? ==> w == Width(v.operand)
    ensures v.Logic? ==> w == Width(v.pair.op1)
  {
    match v
    case Leaf(_, w, _) => w
    case Not(o) => Width(o)
    case Logic(_, pair) => Width(pair.op1)
  }

  /** The reported bit length (`bit_len`): a NOT adapter asks its operand,
      a binary adapter answers with the length it cached. */
  function Len(v: View): (n: nat)
    ensures v.Not? ==> n == Len(v.operand)
    ensures v.Logic? ==> n == v.pair.len
  {
    match v
    case Leaf(bits, _, _) => |bits|
    case Not(o) => Len(o)
    case Logic(_, pair) => pair.len
  }

  /** The bit at position `p` (`get_bit`). */
  function GetBit(v: View, p: nat): (b: bool)
    requires Valid(v) && p < Len(v)
    ensures v.Not? ==> b == !GetBit(v.operand, p)
    ensures v.Logic? ==> b == Apply(v.op, GetBit(v.pair.op1, p), GetBit(v.pair.op2, p))
  {
    match v
    case Leaf(bits, _, _) => bits[p]
    case Not(o) => !GetBit(o, p)
    case Logic(op, pair) => Apply(op, pair.Bit1(p), pair.Bit2(p))
  }

  /** The block at index `i` (`get_block`); block `i` holds positions
      `i * Width(v)` up to `(i + 1) * Width(v)`, the first of them in range. */
  function GetBlock(v: View, i: nat): (r: Block)
    requires Valid(v) && i * Width(v) < Len(v)
    ensures |r| == Width(v)
  {
    match v
    case Leaf(bits, w, blocks) =>
      IndexBelow(i, |blocks|, w);
      blocks[i]
    case Not(o) => BlockNot(GetBlock(o, i))
    case Logic(op, pair) => BlockApply(op, pair.Block1(i), pair.Block2(i))
  }

  /** The view restricted to positions `start` up to `end` and re-based to
      start at 0 (`bit_slice` with the range `start..end`). A leaf is sliced
      by the operand's own slicing: its bit path is the sliced bits, and its
      block path re-packs the sliced part of the bits its blocks store. An
      adapter pushes the slice down to its operands and rebuilds an adapter
      of the same kind, recomputing the length of a binary one. */
  function Slice(v: View, start: nat, end: nat): (r: View)
    requires Valid(v) && start <= end <= Len(v)
    ensures Valid(r) && Width(r) == Width(v) && Len(r) == end - start
  {
    match v
    case Leaf(bits, w, blocks) =>
      FlattenLength(blocks, w);
      PackLayout(Flatten(blocks)[start..end], w);
      Leaf(bits[start..end], w, Pack(Flatten(blocks)[start..end], w))
    case Not(o) => Not(Slice(o, start, end))
    case Logic(op, pair) =>
      Logic(op, BinOp.New(Slice(pair.op1, start, end), Slice(pair.op2, start, end)))
  }

  /** Bit `p` of a sliced view is the original view's bit `start + p`. */
  lemma {:induction false} SliceBit(v: View, start: nat, end: nat, p: nat)
    requires Valid(v) && start <= end <= Len(v) && p < end - start
    ensures GetBit(Slice(v, start, end), p) == GetBit(v, start + p)
  {
    match v
    case Leaf(_, _, _) =>
    case Not(o) => SliceBit(o, start, end, p);
    case Logic(_, pair) =>
      SliceBit(pair.op1, start, end, p);
      SliceBit(pair.op2, start, end, p);
  }

  /** The position of bit `k` of block `i` in blocks of width `w`. */
  function Pos(i: nat, w: nat, k: nat): nat {
    i * w + k
  }

  /** Whether the block path agrees with the bit path: every in-range bit of
      every block equals the bit at that position. */
  ghost predicate BlocksAgree(v: View)
    requires Valid(v)
  {
    forall i: nat, k: nat :: k < Width(v) && Pos(i, Width(v), k) < Len(v) ==>
      GetBlock(v, i)[k] == GetBit(v, Pos(i, Width(v), k))
  }

  /** Whether every operand at the leaves of `v` has blocks that agree
      with its bits. */
  predicate LeavesAgree(v: View)
    requires Valid(v)
  {
    match v
    case Leaf(bits, w, blocks) => BlocksHold(bits, w, blocks)
    case Not(o) => LeavesAgree(o)
    case Logic(_, pair) => LeavesAgree(pair.op1) && LeavesAgree(pair.op2)
  }

  /** One point of `BlocksAgree`: bit `k` of block `i` is the bit at its
      position. */
  lemma BlockBit(v: View, i: nat, k: nat)
    requires Valid(v) && BlocksAgree(v) && k < Width(v) && Pos(i, Width(v), k) < Len(v)
    ensures GetBlock(v, i)[k] == GetBit(v, Pos(i, Width(v), k))
  {
  }

  /** Bit `k` of block `i` of a NOT adapter is the adapter's bit at that
      position, when the operand's blocks agree with its bits there. */
  lemma NotBlockBit(o: View, i: nat, k: nat)
    requires Valid(o) && BlocksAgree(o) && k < Width(o) && Pos(i, Width(o), k) < Len(o)
    ensures GetBlock(Not(o), i)[k] == GetBit(Not(o), Pos(i, Width(o), k))
  {
    var p := Pos(i, Width(o), k);
    BlockBit(o, i, k);
    assert GetBlock(Not(o), i) == BlockNot(GetBlock(o, i));
    assert GetBit(Not(o), p) == !GetBit(o, p);
  }

  /** The NOT adapter over a view is itself a view of the same length whose
      blocks agree with its bits whenever the operand's do. */
  lemma NotAgrees(o: View)
    requires Valid(o) && BlocksAgree(o)
    ensures Valid(Not(o)) && BlocksAgree(Not(o))
  {
    var v := Not(o);
    assert Width(v) == Width(o) && Len(v) == Len(o);
    forall i: nat, k: nat | k < Width(v) && Pos(i, Width(v), k) < Len(v)
      ensures GetBlock(v, i)[k] == GetBit(v, Pos(i, Width(v), k))
    {
      NotBlockBit(o, i, k);
    }
  }

  /** Bit `k` of block `i` of a binary adapter is the adapter's bit at that
      position, when the operands' blocks agree with their bits there. */
  lemma LogicBlockBit(op: Op, pair: BinOp, i: nat, k: nat)
    requires Valid(Logic(op, pair)) && BlocksAgree(pair.op1) && BlocksAgree(pair.op2)
    requires k < Width(pair.op1) && Pos(i, Width(pair.op1), k) < pair.len
    ensures GetBlock(Logic(op, pair), i)[k] == GetBit(Logic(op, pair), Pos(i, Width(pair.op1), k))
  {
    var p := Pos(i, Width(pair.op1), k);
    var x, y := pair.Block1(i), pair.Block2(i);
    BlockBit(pair.op1, i, k);
    BlockBit(pair.op2, i, k);
    assert GetBlock(Logic(op, pair), i)[k] == Apply(op, x[k], y[k]);
    assert GetBit(Logic(op, pair), p) == Apply(op, GetBit(pair.op1, p), GetBit(pair.op2, p));
  }

  /** A binary adapter's blocks agree with its bits whenever both operands'
      blocks agree with theirs. */
  lemma LogicAgrees(op: Op, pair: BinOp)
    requires Valid(Logic(op, pair)) && BlocksAgree(pair.op1) && BlocksAgree(pair.op2)
    ensures BlocksAgree(Logic(op, pair))
  {
    var v := Logic(op, pair);
    var w := Width(pair.op1);
    assert Width(v) == w && Len(v) == pair.len;
    forall i: nat, k: nat | k < w && Pos(i, w, k) < pair.len
      ensures GetBlock(v, i)[k] == GetBit(v, Pos(i, w, k))
    {
      LogicBlockBit(op, pair, i, k);
    }
  }

  /** A view whose every leaf operand has agreeing blocks has agreeing
      blocks: the block path of every adapter is correct. */
  lemma {:induction false} AgreementFromLeaves(v: View)
    requires Valid(v) && LeavesAgree(v)
    ensures BlocksAgree(v)
  {
    match v
    case Leaf(_, _, _) =>
      LeafAgreement(v);
    case Not(o) =>
      AgreementFromLeaves(o);
      NotAgrees(o);
    case Logic(op, pair) =>
      AgreementFromLeaves(pair.op1);
      AgreementFromLeaves(pair.op2);
      LogicAgrees(op, pair);
  }

  /** At a leaf, the blocks agree with the bits exactly when the blocks hold
      the bits in the sense of the block layout. */
  lemma LeafAgreement(v: View)
    requires v.Leaf? && Valid(v)
    ensures BlocksAgree(v) <==> BlocksHold(v.bits, v.width, v.blocks)
  {
    var w := v.width;
    if BlocksAgree(v) {
      forall i, k | 0 <= i < |v.blocks| && 0 <= k < w && i * w + k < |v.bits|
        ensures v.blocks[i][k] == v.bits[i * w + k]
      {
        BlockBit(v, i, k);
      }
    }
    if BlocksHold(v.bits, w, v.blocks) {
      forall i: nat, k: nat | k < w && Pos(i, w, k) < |v.bits|
        ensures GetBlock(v, i)[k] == GetBit(v, Pos(i, w, k))
      {
        IndexBelow(i, |v.blocks|, w);
      }
    }
  }

  /** Slicing keeps agreement at the leaves: an operand whose blocks hold
      its bits has slices whose blocks hold theirs. */
  lemma {:induction false} SliceLeavesAgree(v: View, start: nat, end: nat)
    requires Valid(v) && LeavesAgree(v) && start <= end <= Len(v)
    ensures LeavesAgree(Slice(v, start, end))
  {
    match v
    case Leaf(bits, w, blocks) =>
      FlattenLength(blocks, w);
      forall q | start <= q < end
        ensures Flatten(blocks)[q] == bits[q]
      {
        FlattenHoldsAt(bits, w, blocks, q);
      }
      assert Flatten(blocks)[start..end] == bits[start..end];
      PackHolds(bits[start..end], w);
    case Not(o) =>
      SliceLeavesAgree(o, start, end);
    case Logic(_, pair) =>
      SliceLeavesAgree(pair.op1, start, end);
      SliceLeavesAgree(pair.op2, start, end);
  }

  /** Slicing a view whose operands' blocks agree with their bits gives a
      view whose blocks agree with its bits. */
  lemma SliceAgrees(v: View, start: nat, end: nat)
    requires Valid(v) && LeavesAgree(v) && start <= end <= Len(v)
    ensures BlocksAgree(Slice(v, start, end))
  {
    SliceLeavesAgree(v, start, end);
    AgreementFromLeaves(Slice(v, start, end));
  }

  /** The view from position `start` to its end, re-based to start at 0
      (`bit_slice` with the range `start..`). Every operand gets the same
      range, so each one is sliced up to its own end, and a binary adapter
      recomputes its length from the two slices. */
  function SliceFrom(v: View, start: nat): (r: View)
    requires Valid(v) && start <= Len(v)
    ensures Valid(r) && Width(r) == Width(v) && Len(r) == Len(v) - start
  {
    match v
    case Leaf(bits, _, _) => Slice(v, start, |bits|)
    case Not(o) => Not(SliceFrom(o, start))
    case Logic(op, pair) =>
      Logic(op, BinOp.New(SliceFrom(pair.op1, start), SliceFrom(pair.op2, start)))
  }

  /** Bit `p` of a view sliced from `start` is the original's bit `start + p`. */
  lemma {:induction false} SliceFromBit(v: View, start: nat, p: nat)
    requires Valid(v) && start <= Len(v) && p < Len(v) - start
    ensures GetBit(SliceFrom(v, start), p) == GetBit(v, start + p)
  {
    match v
    case Leaf(bits, _, _) =>
    case Not(o) => SliceFromBit(o, start, p);
    case Logic(_, pair) =>
      SliceFromBit(pair.op1, start, p);
      SliceFromBit(pair.op2, start, p);
  }

  /** Slicing from a position keeps agreement at the leaves. */
  lemma {:induction false} SliceFromLeavesAgree(v: View, start: nat)
    requires Valid(v) && LeavesAgree(v) && start <= Len(v)
    ensures LeavesAgree(SliceFrom(v, start))
  {
    match v
    case Leaf(bits, _, _) => SliceLeavesAgree(v, start, |bits|);
    case Not(o) => SliceFromLeavesAgree(o, start);
    case Logic(_, pair) =>
      SliceFromLeavesAgree(pair.op1, start);
      SliceFromLeavesAgree(pair.op2, start);
  }

  // The extension surface (`BitsLogic`). The borrowing and the consuming
  // constructor of each operator build the same adapter, so each operator
  // has one constructor here.

  /** `bits_not`: the NOT adapter. */
  function BitsNot(o: View): (r: View)
    requires Valid(o)
    ensures Valid(r) && Width(r) == Width(o) && Len(r) == Len(o)
    ensures forall p :: 0 <= p < Len(o) ==> GetBit(r, p) == !GetBit(o, p)
    ensures forall i: nat :: i * Width(o) < Len(o) ==> GetBlock(r, i) == BlockNot(GetBlock(o, i))
  {
    Not(o)
  }

  /** `bits_and`: the AND adapter, as long as the shorter operand. */
  function BitsAnd(a: View, b: View): (r: View)
    requires Valid(a) && Valid(b) && Width(a) == Width(b)
    ensures Valid(r) && Width(r) == Width(a)
    ensures Len(r) <= Len(a) && Len(r) <= Len(b) && (Len(r) == Len(a) || Len(r) == Len(b))
    ensures forall p :: 0 <= p < Len(r) ==> GetBit(r, p) == (GetBit(a, p) && GetBit(b, p))
    ensures forall i: nat :: i * Width(r) < Len(r) ==>
      GetBlock(r, i) == BlockApply(AndOp, GetBlock(a, i), GetBlock(b, i))
  {
    Logic(AndOp, BinOp.New(a, b))
  }

  /** `bits_or`: the OR adapter, as long as the shorter operand. */
  function BitsOr(a: View, b: View): (r: View)
    requires Valid(a) && Valid(b) && Width(a) == Width(b)
    ensures Valid(r) && Width(r) == Width(a)
    ensures Len(r) <= Len(a) && Len(r) <= Len(b) && (Len(r) == Len(a) || Len(r) == Len(b))
    ensures forall p :: 0 <= p < Len(r) ==> GetBit(r, p) == (GetBit(a, p) || GetBit(b, p))
    ensures forall i: nat :: i * Width(r) < Len(r) ==>
      GetBlock(r, i) == BlockApply(OrOp, GetBlock(a, i), GetBlock(b, i))
  {
    Logic(OrOp, BinOp.New(a, b))
  }

  /** `bits_xor`: the XOR adapter, as long as the shorter operand. */
  function BitsXor(a: View, b: View): (r: View)
    requires Valid(a) && Valid(b) && Width(a) == Width(b)
    ensures Valid(r) && Width(r) == Width(a)
    ensures Len(r) <= Len(a) && Len(r) <= Len(b) && (Len(r) == Len(a) || Len(r) == Len(b))
    ensures forall p :: 0 <= p < Len(r) ==> GetBit(r, p) == (GetBit(a, p) != GetBit(b, p))
    ensures forall i: nat :: i * Width(r) < Len(r) ==>
      GetBlock(r, i) == BlockApply(XorOp, GetBlock(a, i), GetBlock(b, i))
  {
    Logic(XorOp, BinOp.New(a, b))
  }
}
