/**
 This module models the block type of a bit view: a fixed-width word whose
 bit `k` is element `k` (least significant bit first), together with the
 three binary operators and the complement that the logic views apply
 word-wise, and the packing of a bit sequence into blocks that a sliced
 operand uses.
 */
module Blocks {

  /** A block of a view: as many booleans as the view's block width. */
  type Block = seq<bool>

  /** The three binary operators of the logic views. */
  datatype Op = AndOp | OrOp | XorOp

  /** The operator applied to two bits (Rust `&`, `|`, `^` on `bool`). */
  function Apply(op: Op, a: bool, b: bool): bool {
    match op
    case AndOp => a && b
    case OrOp => a || b
    case XorOp => a != b
  }

  /** Word-wise complement of a block (Rust `!` on the block type). */
  function BlockNot(b: Block): Block {
    seq(|b|, k requires 0 <= k < |b| => !b[k])
  }

  /** The operator applied word-wise to two blocks of the same width. */
  function BlockApply(op: Op, x: Block, y: Block): Block
    requires |x| == |y|
  {
    seq(|x|, k requires 0 <= k < |x| => Apply(op, x[k], y[k]))
  }

  /** `n` copies of `false`: the padding of a partial last block. */
  function Falses(n: nat): (r: seq<bool>)
    ensures |r| == n && forall k :: 0 <= k < n ==> !r[k]
  {
    seq(n, _ => false)
  }

  /** Whether `blocks` is a correct block layout of `bits` for width `w`:
      exactly as many blocks of width `w` as are needed to hold every bit. */
  predicate BlockLayout(bits: seq<bool>, w: nat, blocks: seq<Block>) {
    && w > 0
    && |bits| <= |blocks| * w < |bits| + w
    && forall i :: 0 <= i < |blocks| ==> |blocks[i]| == w
  }

  /** Whether every in-range bit of every block equals the bit at that
      position of `bits` (bits past the end of `bits` are unconstrained). */
  predicate BlocksHold(bits: seq<bool>, w: nat, blocks: seq<Block>)
    requires BlockLayout(bits, w, blocks)
  {
    forall i, k :: 0 <= i < |blocks| && 0 <= k < w && i * w + k < |bits| ==>
      blocks[i][k] == bits[i * w + k]
  }

  /** The blocks of `bits` for width `w`, the last one padded with `false`. */
  function Pack(bits: seq<bool>, w: nat): seq<Block>
    requires w > 0
    decreases |bits|
  {
    if |bits| == 0 then []
    else if |bits| <= w then [bits + Falses(w - |bits|)]
    else [bits[..w]] + Pack(bits[w..], w)
  }

  /** Packing gives the block layout a bit view of width `w` must have. */
  lemma {:induction false} PackLayout(bits: seq<bool>, w: nat)
    requires w > 0
    ensures BlockLayout(bits, w, Pack(bits, w))
    decreases |bits|
  {
    if |bits| > w {
      PackLayout(bits[w..], w);
      MulSucc(|Pack(bits[w..], w)|, w);
    }
  }

  /** Bit `k` of packed block `i` is the bit at position `i * w + k`. */
  lemma {:induction false} PackAt(bits: seq<bool>, w: nat, i: nat, k: nat)
    requires w > 0 && k < w && i * w + k < |bits|
    ensures i < |Pack(bits, w)| && k < |Pack(bits, w)[i]|
    ensures Pack(bits, w)[i][k] == bits[i * w + k]
    decreases |bits|
  {
    if i > 0 {
      MulSucc(i - 1, w);
    }
    if |bits| > w {
      PackLayout(bits[w..], w);
      if i > 0 {
        PackAt(bits[w..], w, i - 1, k);
      }
    }
  }

  /** Packing gives blocks that hold the packed bits. */
  lemma PackHolds(bits: seq<bool>, w: nat)
    requires w > 0
    ensures BlockLayout(bits, w, Pack(bits, w)) && BlocksHold(bits, w, Pack(bits, w))
  {
    PackLayout(bits, w);
    forall i, k | 0 <= i < |Pack(bits, w)| && 0 <= k < w && i * w + k < |bits|
      ensures Pack(bits, w)[i][k] == bits[i * w + k]
    {
      PackAt(bits, w, i, k);
    }
  }

  /** The bits stored in `blocks`, block after block: what reading every
      bit of every block in order gives. */
  function Flatten(blocks: seq<Block>): seq<bool> {
    if |blocks| == 0 then [] else blocks[0] + Flatten(blocks[1..])
  }

  /** Bit `k` of block `i` of blocks all of width `w` is stored at
      position `i * w + k`. */
  lemma {:induction false} FlattenAt(blocks: seq<Block>, w: nat, i: nat, k: nat)
    requires forall j :: 0 <= j < |blocks| ==> |blocks[j]| == w
    requires i < |blocks| && k < w
    ensures i * w + k < |Flatten(blocks)|
    ensures Flatten(blocks)[i * w + k] == blocks[i][k]
    decreases |blocks|
  {
    var rest := Flatten(blocks[1..]);
    assert Flatten(blocks) == blocks[0] + rest;
    if i > 0 {
      var j := (i - 1) * w + k;
      FlattenAt(blocks[1..], w, i - 1, k);
      MulSucc(i - 1, w);
      assert i * w + k == |blocks[0]| + j;
    }
  }

  /** Blocks all of width `w` store `|blocks| * w` bits. */
  lemma {:induction false} FlattenLength(blocks: seq<Block>, w: nat)
    requires forall j :: 0 <= j < |blocks| ==> |blocks[j]| == w
    ensures |Flatten(blocks)| == |blocks| * w
    decreases |blocks|
  {
    if |blocks| > 0 {
      FlattenLength(blocks[1..], w);
      MulSucc(|blocks| - 1, w);
    }
  }

  /** When the blocks of a layout hold its bits, the bit the blocks store
      at an in-range position is the bit at that position. */
  lemma FlattenHoldsAt(bits: seq<bool>, w: nat, blocks: seq<Block>, q: nat)
    requires BlockLayout(bits, w, blocks) && BlocksHold(bits, w, blocks)
    requires q < |bits|
    ensures q < |Flatten(blocks)| && Flatten(blocks)[q] == bits[q]
  {
    var i, k := q / w, q % w;
    assert i * w + k == q;
    assert i * w < |blocks| * w;
    IndexBelow(i, |blocks|, w);
    FlattenAt(blocks, w, i, k);
  }

  /** One more block of width `w` adds `w` positions. */
  lemma MulSucc(j: nat, w: nat)
    ensures (j + 1) * w == j * w + w && j * w >= 0
  {
  }

  /** A block index whose first bit lies below `n * w` is smaller than `n`. */
  lemma IndexBelow(i: nat, n: nat, w: nat)
    requires i * w < n * w
    ensures i < n
  {
  }
}
