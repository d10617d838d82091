# Lazy bit-wise logic adapters of bv-rs

This project models the adapter layer of the `bv` crate (`src/adapter.rs`) and proves properties of it in Dafny. An adapter is a lazy view over one or two read-only bit-vector-likes. `BitsNot` complements its operand. `BitsAnd`, `BitsOr` and `BitsXor` combine two operands of the same block type. Each keeps its operands in a `BitsBinOp` record that caches the smaller operand length. A NOT adapter asks its operand for its length; a binary adapter reports the cached length. Every adapter answers `get_bit` and `get_block` by asking its operands again. Slicing an adapter slices its operands and rebuilds an adapter of the same kind.

## Files

- `blocks.dfy` (module `Blocks`): the block type, a word of `Width` booleans with the least significant bit first. It holds the operators `Op` (`AndOp`, `OrOp`, `XorOp`), their word-wise forms `BlockNot` and `BlockApply`, and `Pack`, which lays bits out in blocks.
- `adapter.dfy` (module `Adapter`): the core.
  - `View` is either a `Leaf` operand (its bits, its block width and its own blocks), `Not(operand)`, or `Logic(op, pair)`.
  - `pair` is a `BinOp(op1, op2, len)`, the `BitsBinOp` record.
  - `BinOp.New` and the accessors `Bit1`, `Bit2`, `Block1`, `Block2` model the record's associated functions.
  - `Valid` is well-formedness: operands of one block width, and a cached `len` equal to the smaller operand length.
  - `Len`, `GetBit` and `GetBlock` model `bit_len`, `get_bit` and `get_block`.
  - `Slice` models `bit_slice` with a bounded range `start..end`, and `SliceFrom` models it with a range `start..` that runs to the end.
  - `BitsNot`, `BitsAnd`, `BitsOr` and `BitsXor` are the `BitsLogic` constructors.
  - `BlocksAgree` says the block path matches the bit path. At a leaf it coincides with `BlocksHold` from `Blocks` (`LeafAgreement`).
- `eager.dfy` (module `Eager`): `Eval`, the bits of a view materialised along the bit path. It is computed from the operands' bits alone and ignores the cached length. It serves as an independent reference for the lazy views.
- `laws.dfy` (module `Laws`): identities between views: double negation, idempotence, XOR with itself, De Morgan, commutativity, associativity, and how slicing pushes down into an adapter.
- `words.dfy` (module `Words`): a bridge from `u8` words (`bv8`) to boolean blocks. It shows that `!`, `&`, `|` and `^` on a word act on its bits as `BlockNot` and `BlockApply` do.
- `scenarios.dfy` (module `Scenarios`): the documentation example and the unit tests of `src/adapter.rs`.

A range `start..end` is a pair of naturals. The bit at a position past the length and the block at an index past the last block are not modelled. They are preconditions (`p < Len(v)`, and `i * Width(v) < Len(v)`, which means the block has at least one bit in range). The adapters add no bounds handling of their own; whatever the operand does out of range is what the adapter does.

`Bit1` and `Bit2` call `GetBit` on the first or second operand, and `Block1` and `Block2` call `GetBlock` the same way. Each uses the position or index unchanged. What the adapters build from them is stated by the contracts of `BitsAnd`, `BitsOr` and `BitsXor`.

## Model

| member | source | states |
|---|---|---|
| `Adapter.BinOp.New` | src/adapter.rs:158-162 | Keeps both operands. The cached length is at most each operand's length and equals one of them, i.e. it is their minimum. |
| `Adapter.BinOp.Invariant` | src/adapter.rs:146-161 | The bookkeeping the record keeps: both operands have one block type, and the cached length is at most each operand's length and equal to one of them, i.e. their minimum. |
| `Adapter.Valid` | src/adapter.rs:197-199 | A well-formed view. Every binary adapter's operands share one block type, as the bound `U: Bits<Block = T::Block>` requires (here and at line 158). Its cached length is at most each operand's length. Leaves have a correct block layout. |
| `Adapter.Width` | src/adapter.rs:182-239 | The block type of a view. A NOT adapter's is its operand's (line 182). A binary adapter's is its first operand's (lines 201, 220, 239), which `Valid` makes the second's too. |
| `Adapter.BinOp.Bit1` | src/adapter.rs:164-166 | The first operand's bit at the same position, with no re-basing. |
| `Adapter.BinOp.Bit2` | src/adapter.rs:168-170 | The second operand's bit at the same position, with no re-basing. |
| `Adapter.BinOp.Block1` | src/adapter.rs:172-174 | The first operand's block at the same index, as wide as that operand's blocks. |
| `Adapter.BinOp.Block2` | src/adapter.rs:176-178 | The second operand's block at the same index, as wide as that operand's blocks. |
| `Adapter.Len` | src/adapter.rs:184-243 | A NOT adapter reports its operand's length (lines 184-186). A binary adapter reports its cached length (lines 203-205, 222-224, 241-243). That this cached length is the reconciled length is stated by `BinOp.New`, `BitsAnd` and `Eager.LazyIsEager`. |
| `Adapter.GetBit` | src/adapter.rs:188-247 | A NOT adapter's bit is the complement of its operand's bit (lines 188-190). A binary adapter's bit applies its operator to the two operands' bits at that position (lines 207-209, 226-228, 245-247). |
| `Adapter.GetBlock` | src/adapter.rs:192-251 | Every block of every view, at any depth of nesting, is exactly as wide as the view's block type. |
| `Adapter.Slice` | src/adapter.rs:254-307 | A leaf is sliced by the operand: its bits are sliced, and its blocks are re-packed from the sliced part of the bits they store. An adapter slices its operands with the same range. Slicing a well-formed view with `start <= end <= Len` gives a well-formed view. It has the same block width and length `end - start`. For binary adapters this means the length recomputed from the two sliced operands is again their minimum. |
| `Adapter.SliceBit` | src/adapter.rs:259-306 | Bit `p` of the sliced view is the original view's bit `start + p`. |
| `Adapter.NotBlockBit` | src/adapter.rs:188-194 | Bit `k` of block `i` of a NOT adapter equals the adapter's bit at `i * width + k`, provided the operand's blocks agree with its bits. |
| `Adapter.NotAgrees` | src/adapter.rs:188-194 | If the operand's blocks agree with its bits, the NOT adapter's blocks agree with the NOT adapter's bits. |
| `Adapter.LogicBlockBit` | src/adapter.rs:207-251 | Bit `k` of block `i` of a binary adapter equals the adapter's bit at `i * width + k`, provided both operands' blocks agree with their bits. |
| `Adapter.LogicAgrees` | src/adapter.rs:197-252 | If both operands' blocks agree with their bits, an AND, OR or XOR adapter's blocks agree with its bits. |
| `Adapter.AgreementFromLeaves` | src/adapter.rs:181-252 | Any nesting of adapters whose leaf operands have agreeing blocks has agreeing blocks itself. |
| `Adapter.SliceLeavesAgree` | src/adapter.rs:254-307 | If every operand of a view has blocks that hold its bits, so does every operand of its slice. |
| `Adapter.SliceAgrees` | src/adapter.rs:254-307 | If every operand of a view has blocks that agree with its bits, the sliced view's blocks agree with its bits. |
| `Adapter.SliceFrom` | src/adapter.rs:254-307 | Slicing a well-formed view with `start..` and `start <= Len` gives a well-formed view with the same block width and length `Len - start`. Every operand gets the same range, so each is cut at its own end, and a binary adapter recomputes its length from the two slices. |
| `Adapter.SliceFromBit` | src/adapter.rs:259-306 | Bit `p` of the view sliced from `start` is the original view's bit `start + p`. |
| `Adapter.SliceFromLeavesAgree` | src/adapter.rs:254-307 | If every operand of a view has blocks that hold its bits, so does every operand of its slice from `start`. |
| `Adapter.BitsNot` | src/adapter.rs:181-195 | The NOT adapter is well-formed and has the operand's width and length. Bit `p` is the complement of the operand's bit `p`. Block `i` is the word-wise complement of the operand's block `i`. |
| `Adapter.BitsAnd` | src/adapter.rs:197-214 | The AND adapter of two operands of one width is well-formed and as long as the shorter operand. Bit `p` is the conjunction of the operands' bits `p`. Block `i` is the word-wise conjunction of their blocks `i`. |
| `Adapter.BitsOr` | src/adapter.rs:216-233 | The same, with disjunction. |
| `Adapter.BitsXor` | src/adapter.rs:235-252 | The same, with exclusive-or. |
| `Eager.Eval` | src/adapter.rs:15-19 | The eagerly evaluated bits of a view, computed without the cached length. They are exactly as many as the view reports. |
| `Eager.LazyIsEager` | src/adapter.rs:181-252 | The length a view reports equals the length of its materialised bits. Every bit it reports equals the materialised bit. So the cached `len` is the reconciled length, and each lazy query recomputes the right value. |
| `Eager.SliceIsEager` | src/adapter.rs:254-307 | Materialising a sliced view gives the slice of the materialised view. |
| `Eager.SliceFromIsEager` | src/adapter.rs:254-307 | Materialising a view sliced from `start` gives the materialised view from `start` on. |
| `Laws.DoubleNegation` | src/adapter.rs:184-194 | NOT of NOT of a view has the view's length and bits. Every one of its blocks equals the view's block. |
| `Laws.Idempotent` | src/adapter.rs:207-228 | A AND A and A OR A have the length and the bits of A. |
| `Laws.XorSelf` | src/adapter.rs:241-247 | A XOR A has the length of A, and all its bits are false. |
| `Laws.ReconciledLength` | src/adapter.rs:159-161 | AND, OR and XOR of the same operands all report the minimum of the operand lengths. |
| `Laws.DeMorgan` | src/adapter.rs:188-228 | NOT (A AND B) reports the same length and bits as (NOT A) OR (NOT B). NOT (A OR B) likewise matches (NOT A) AND (NOT B). |
| `Laws.Commutative` | src/adapter.rs:197-252 | Swapping the operands of an AND, OR or XOR adapter changes neither its length nor its bits. |
| `Laws.Associative` | src/adapter.rs:197-252 | Nesting adapters of one kind either way gives the same length and bits. |
| `Laws.SliceNot` | src/adapter.rs:259-261 | Slicing a NOT adapter is the NOT adapter over the sliced operand. |
| `Laws.SliceLogic` | src/adapter.rs:273-306 | Slicing an AND, OR or XOR adapter is the adapter of the same kind over both operands sliced with the same range. |
| `Laws.SliceFromIsSlice` | src/adapter.rs:273-276 | Slicing with `start..` and slicing with `start..Len` give the same length and bits. A binary adapter's operands are cut differently in the two cases. |
| `Laws.SliceFromOperands` | src/adapter.rs:273-276 | Slicing an AND adapter with `start..` gives the AND adapter over both operands sliced with `start..`. Each operand keeps its own length minus `start`. |
| `Laws.SliceCommutes` | src/adapter.rs:273-276 | The sliced AND adapter has length `end - start`. Its bit `p` is the conjunction of the operands' bits at `start + p`. |
| `Words.WordRoundTrip` | src/adapter.rs:172-178 | Packing a `u8` block's eight bits back into a word gives the word. |
| `Words.BitsRoundTrip` | src/adapter.rs:172-178 | Reading back the bits of a word packed from eight bits gives those bits. So a `u8` block and a width-8 boolean block determine each other. |
| `Words.NotWord` | src/adapter.rs:192-194 | `!` on a `u8` block complements each of its bits. |
| `Words.AndWord` | src/adapter.rs:211-213 | `&` on two `u8` blocks is the bit-wise conjunction. |
| `Words.OrWord` | src/adapter.rs:230-232 | The word OR on two `u8` blocks is the bit-wise disjunction. |
| `Words.XorWord` | src/adapter.rs:249-251 | `^` on two `u8` blocks is the bit-wise exclusive-or. |
| `Scenarios.Operand` | src/adapter.rs:335-336 | A bit vector built from a list of bits in blocks of `w` bits is a well-formed view of that width and length. Its blocks agree with its bits, and it materialises to the list. |
| `Scenarios.Is0001` | src/adapter.rs:314-324 | What `assert_0001` checks: well-formed, length 4, bits 0 to 2 false and bit 3 true, and the materialised copy is false, false, false, true along both the bit path and the block path. Its contract restates the four bits as: bit `p` is set exactly when `p` is 3. |
| `Scenarios.SimpleNot` | src/adapter.rs:326-331 | For blocks of any width, including the test's default block type, NOT of true, true, true, false has length 4 and bits false, false, false, true. This holds lazily, materialised and along the block path. |
| `Scenarios.SimpleAnd` | src/adapter.rs:333-339 | For blocks of any width, false, false, true, true AND false, true, false, true has length 4 and bits false, false, false, true, lazily, materialised and along the block path. With 8-bit blocks this is the test. With the default block type it is the documentation example at lines 29-40. |
| `Scenarios.AndWithSameOffset` | src/adapter.rs:341-349 | Both operands sliced with `1..` and then ANDed give length 4 and false, false, false, true, along both paths. |
| `Scenarios.AndWithDifferentOffset` | src/adapter.rs:351-359 | Operands sliced with `2..` and `1..` and then ANDed give length 4 and false, false, false, true, along both paths. |
| `Scenarios.TruthTables` | src/adapter.rs:207-251 | On the operands of `simple_and`, OR materialises to false, true, true, true and XOR to false, true, true, false. NOT of the first operand materialises to true, true, false, false. |

## Left out

- `build.rs` detects the compiler version to emit configuration flags. It is build plumbing with no logic.
- The borrowing and consuming forms of each `BitsLogic` constructor (`bits_and` and `into_bits_and`, and so on) differ only in ownership, which has no effect on the result. Each operator has one constructor.
- The `Clone` and `Debug` derives are not modelled.
- `BitsBinOp` has no offset. The comment above it (src/adapter.rs:146-150) mentions an `off` field and an invariant below, but the struct (lines 151-156) holds only `op1`, `op2` and `len`. The model follows the struct.
- The `Bits` and `BitSliceable` traits and the concrete storage (`BitVec`, `BitSlice`, `bit_vec!`, `from_bits`) are not part of this model. An operand is a `Leaf`: its bits, its block width, and blocks that may or may not agree with its bits.
- Slicing a leaf stands for the operand's own `bit_slice`. The slice's bits are the sliced bits. Its blocks are the sliced part of the bits the operand's blocks store, re-packed, with the last block padded with `false`. Operands whose slices lay their blocks out differently are not covered.
- Out-of-range `get_bit` and `get_block` (a panic in the operand) are not modelled. They are excluded by preconditions, because the adapters inherit that behaviour and add none.
- Range types are modelled as `start..end` (`Slice`) and `start..` (`SliceFrom`); `..b`, `..` and the inclusive ranges are not modelled separately. On a leaf or a NOT adapter each of them selects the same bits as some `start..end`. On a binary adapter whose operands differ in length, a range without an upper bound is passed unchanged to both operands, so each is cut at its own end. `SliceFrom` models this for `start..`, and `Laws.SliceFromIsSlice` shows that it reports the same length and bits as `start..Len`. `..` is the case `start = 0`. For `..b` and `..=b` the operand ranges are bounded, so `Slice` models them exactly.
- `u64` positions and lengths and `usize` block indices are unbounded naturals. The adapter just forwards them and takes a minimum, so nothing in it can overflow.
- Only the `u8` block type is bridged to machine words (`Words`). Other block types are modelled only as boolean blocks of their width.
- Laziness, sharing and the absence of allocation are not observable in a value model. Every query is a function of the operands.
