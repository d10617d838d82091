/**
 The bridge between a machine-word block and the boolean-sequence blocks of
 the model, for the `u8` blocks the adapter tests use: the word operators
 `!`, `&`, `|` and `^` act on the bits of a word exactly as the word-wise
 block operators of the model do, and a word and its eight bits determine
 each other.
 */
module Words {
  import opened Blocks

  /** Bit `k` of a `u8`, counted from the least significant. */
  function WordBit(x: bv8, k: nat): bool
    requires k < 8
  {
    x & Mask(k) != 0
  }

  /** The `u8` with only bit `k` set. */
  function Mask(k: nat): bv8
    requires k < 8
  {
    [1, 2, 4, 8, 16, 32, 64, 128][k]
  }

  /** The bits of a `u8`, least significant first. */
  function WordBits(x: bv8): Block {
    seq(8, k requires 0 <= k < 8 => WordBit(x, k))
  }

  /** The `u8` whose bits, least significant first, are `b`. */
  function WordOf(b: Block): bv8
    requires |b| == 8
  {
    (if b[0] then 1 else 0) | (if b[1] then 2 else 0) |
    (if b[2] then 4 else 0) | (if b[3] then 8 else 0) |
    (if b[4] then 16 else 0) | (if b[5] then 32 else 0) |
    (if b[6] then 64 else 0) | (if b[7] then 128 else 0)
  }

  /** Reading a word's bits and packing them again gives the word. */
  lemma WordRoundTrip(x: bv8)
    ensures WordOf(WordBits(x)) == x
  {
  }

  /** Packing eight bits into a word and reading them back gives the bits. */
  lemma BitsRoundTrip(b: Block)
    requires |b| == 8
    ensures WordBits(WordOf(b)) == b
  {
  }

  /** The word complement complements every bit. */
  lemma NotWord(x: bv8)
    ensures WordBits(!x) == BlockNot(WordBits(x))
  {
    forall k | 0 <= k < 8
      ensures WordBit(!x, k) == !WordBit(x, k)
    {
    }
  }

  /** The word conjunction is the bit-wise conjunction. */
  lemma AndWord(x: bv8, y: bv8)
    ensures WordBits(x & y) == BlockApply(AndOp, WordBits(x), WordBits(y))
  {
    forall k | 0 <= k < 8
      ensures WordBit(x & y, k) == (WordBit(x, k) && WordBit(y, k))
    {
      AndBit(x, y, k);
    }
  }

  /** The word disjunction is the bit-wise disjunction. */
  lemma OrWord(x: bv8, y: bv8)
    ensures WordBits(x | y) == BlockApply(OrOp, WordBits(x), WordBits(y))
  {
    forall k | 0 <= k < 8
      ensures WordBit(x | y, k) == (WordBit(x, k) || WordBit(y, k))
    {
      OrBit(x, y, k);
    }
  }

  /** The word exclusive-or is the bit-wise exclusive-or. */
  lemma XorWord(x: bv8, y: bv8)
    ensures WordBits(x ^ y) == BlockApply(XorOp, WordBits(x), WordBits(y))
  {
    forall k | 0 <= k < 8
      ensures WordBit(x ^ y, k) == (WordBit(x, k) != WordBit(y, k))
    {
      XorBit(x, y, k);
    }
  }

  lemma AndBit(x: bv8, y: bv8, k: nat)
    requires k < 8
    ensures WordBit(x & y, k) == (WordBit(x, k) && WordBit(y, k))
  {
  }

  lemma OrBit(x: bv8, y: bv8, k: nat)
    requires k < 8
    ensures WordBit(x | y, k) == (WordBit(x, k) || WordBit(y, k))
  {
  }

  lemma XorBit(x: bv8, y: bv8, k: nat)
    requires k < 8
    ensures WordBit(x ^ y, k) == (WordBit(x, k) != WordBit(y, k))
  {
    var m := Mask(k);
    assert m == 1 || m == 2 || m == 4 || m == 8 || m == 16 || m == 32 || m == 64 || m == 128;
  }
}
