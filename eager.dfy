/**
 The eager meaning of a view: its bits materialised along the bit path,
 position by position. It is computed from the operands' bits alone and
 never consults the length a binary adapter caches, so it serves as an
 independent reference for the lazy adapters.
 */
module Eager {
  import opened Blocks
  import opened Adapter

  /** The two sequences combined position by position, as far as the
      shorter one reaches. */
  function Combine(op: Op, a: seq<bool>, b: seq<bool>): seq<bool> {
    seq(Min(|a|, |b|), k requires 0 <= k < Min(|a|, |b|) => Apply(op, a[k], b[k]))
  }

  /** The materialised bits of a view; it is exactly as long as the view
      reports, although it never reads a cached length. */
  function Eval(v: View): (r: seq<bool>)
    ensures Valid(v) ==> |r| == Len(v)
  {
    match v
    case Leaf(bits, _, _) => bits
    // `BlockNot` complements every element of any sequence of booleans,
    // here the whole materialised operand rather than one block.
    case Not(o) => BlockNot(Eval(o))
    case Logic(op, pair) => Combine(op, Eval(pair.op1), Eval(pair.op2))
  }

  /** The lazy adapter reports the length and the bits of its eager
      evaluation: the cached length is the reconciled length, and every
      query recomputes the right bit. */
  lemma {:induction false} LazyIsEager(v: View)
    requires Valid(v)
    ensures |Eval(v)| == Len(v)
    ensures forall p :: 0 <= p < Len(v) ==> GetBit(v, p) == Eval(v)[p]
  {
    match v
    case Leaf(_, _, _) =>
    case Not(o) =>
      LazyIsEager(o);
    case Logic(op, pair) =>
      LazyIsEager(pair.op1);
      LazyIsEager(pair.op2);
      forall p | 0 <= p < Len(v)
        ensures GetBit(v, p) == Eval(v)[p]
      {
        assert GetBit(v, p) == Apply(op, pair.Bit1(p), pair.Bit2(p));
      }
  }

  /** Slicing a view and then evaluating it gives the slice of its
      evaluation: pushing the slice down to the operands is correct. */
  lemma SliceIsEager(v: View, start: nat, end: nat)
    requires Valid(v) && start <= end <= Len(v)
    ensures |Eval(v)| == Len(v) && Eval(Slice(v, start, end)) == Eval(v)[start..end]
  {
    var r := Slice(v, start, end);
    LazyIsEager(v);
    LazyIsEager(r);
    forall p | 0 <= p < end - start
      ensures Eval(r)[p] == Eval(v)[start..end][p]
    {
      SliceBit(v, start, end, p);
    }
  }

  /** Evaluating a view sliced from `start` gives its evaluation from
      `start` on. */
  lemma SliceFromIsEager(v: View, start: nat)
    requires Valid(v) && start <= Len(v)
    ensures |Eval(v)| == Len(v) && Eval(SliceFrom(v, start)) == Eval(v)[start..]
  {
    var r := SliceFrom(v, start);
    LazyIsEager(v);
    LazyIsEager(r);
    forall p | 0 <= p < Len(v) - start
      ensures Eval(r)[p] == Eval(v)[start..][p]
    {
      SliceFromBit(v, start, p);
    }
  }
}
