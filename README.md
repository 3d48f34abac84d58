# Block-index skip structure

A Dafny model of the block index of `src/block.h`. Blocks form a tree: each block
links to its predecessor (`prev`) and to a "skip" ancestor. The skip links let
"ancestor at height h" run in logarithmic time (a bound not proved here). The
"last common ancestor" query uses it to equalise the two heights, then walks
back to the fork one block at a time. The design follows bitcoin's block index.

The model has three modules:

- `SkipHeight` (`skip_height.dfy`) covers `detail::reset_lowest_bit` and
  `detail::get_skip_height`. Heights are `size_t`, modelled as the integers
  0 .. 2^64 - 1. Unsigned wrap-around is written out as `WrapSub` and
  `WrapAdd`, and `&` is modelled by `BitAnd`. This makes
  `reset_lowest_bit(0) == 0` hold for the same reason as in the source:
  `0 - 1` wraps to all ones. It also makes the tie-break of `get_ancestor`
  (`TakeSkip`) step to the predecessor when the skip height is 1 and the
  target is 0, because there `height_skip - 2` wraps.
- `Ancestry` (`ancestry.dfy`) holds the blocks in an arena. An arena is a
  sequence of `Block` values whose `prev`, `skip` and `next` pointers are
  indices into the same sequence, and pointer equality becomes index equality.
  `WellFormed` states the invariants the constructor establishes. `IsAncestor`
  is the test suite's `is_ancestor`. `AncestorAt` is a reference walk along
  `prev` only. The module's lemmas are about the tree these links form.
- `BlockIndex` (`block.dfy`) holds the imperative operations:
  - `NewBlock`, the linking part of the constructor;
  - `GetAncestor`, the skip-following loop of `get_ancestor`, proved equal to
    `AncestorAt`;
  - `LastCommonAncestor`, proved to return the lowest common ancestor;
  - the class `Chain`, the store that owns the blocks. Its `Add` appends a
    constructed block, and its `SetNext` sets the `next` link the way outside
    code does.

`last_common_ancestor` ends in `assert(x == y)`, which might suggest that it
traps for blocks in different trees. It does not: once the two heights are
equalised, both walks pass their genesis blocks at the same step, so `x == y`
(both null) and the function returns `nullptr`. `LastCommonAncestor` proves
this: it returns `None` exactly when the two genesis blocks differ.

## Model

| member | source | states |
|---|---|---|
| `SkipHeight.WrapSub` | src/block.h:77 | unsigned `size_t` subtraction: the exact difference when it is not negative, otherwise the difference plus 2^64 |
| `SkipHeight.WrapAdd` | src/block.h:58 | unsigned `size_t` addition: the exact sum below 2^64, otherwise the sum minus 2^64 |
| `SkipHeight.BitAnd` | src/block.h:18 | the bitwise AND of two words is no larger than either operand |
| `SkipHeight.LowestSetBit` | src/block.h:17-19 | the lowest set bit of a positive x, as the power of two it stands for: a power of two between 1 and x that divides x and leaves an odd quotient |
| `SkipHeight.BitAndPredecessor` | src/block.h:18 | for x > 0, `x & (x - 1)` equals x minus its lowest set bit |
| `SkipHeight.ResetLowestBit` | src/block.h:16-19 | `detail::reset_lowest_bit`, `x & (x - 1)` with the wrapped subtraction; its properties are stated by `ResetLowestBitClearsLowest` |
| `SkipHeight.ResetLowestBitClearsLowest` | src/block.h:16-19 | `reset_lowest_bit` clears exactly the lowest set bit, maps 0 to 0 (through the wrapped `0 - 1`), never increases its argument and strictly decreases a non-zero one |
| `SkipHeight.GetSkipHeight` | src/block.h:21-29 | `detail::get_skip_height`, with `&`, `- 1` and `+ 1` on `size_t`; its bounds are stated by `SkipHeightBelow` |
| `SkipHeight.TakeSkip` | src/block.h:75-78 | the guard of `get_ancestor` that decides whether the walk follows the skip link, in unsigned arithmetic; its wrap case is stated by `SkipHeightOneStepsToPrev`, and `BlockIndex.GetAncestor` proves that the walk it steers is correct |
| `SkipHeight.SkipHeightBelow` | src/block.h:21-29 | `get_skip_height(h) <= h` for every h; it is 0 for h < 2 and strictly below h for h >= 1 |
| `SkipHeight.SkipHeightOneStepsToPrev` | src/block.h:75-78 | when the skip height is 1 and the target is 0, the unsigned `height_skip - 2` is 2^64 - 1 and the walk does not take the skip link, although the mathematical-integer guard would |
| `SkipHeight.WalkFromThreeToGenesis` | src/block.h:72-87 | from height 3 towards height 0 the skip heights are 1 and 0 and the walk steps to the predecessor |
| `Ancestry.IsAncestor` | tests/block_test.cpp:41-47 | an ancestor reached by `prev` links was created no later than the block |
| `Ancestry.AncestorAt` | src/block.h:65-90 | reference walk along `prev`: empty exactly when the height is above the block, otherwise an ancestor of the block at exactly that height |
| `Ancestry.IsCommonAncestor` | tests/block_test.cpp:49-53 | the test suite's `is_common_ancestor`: an ancestor of both blocks |
| `Ancestry.BlockOk` | src/block.h:53-61 | the fields the constructor fixes for one block: a genesis block has height 0 and no skip; otherwise the height is the predecessor's plus 1 and the skip is a `prev`-ancestor of the predecessor at `get_skip_height(height)`; preserved by `AppendKeepsWellFormed` |
| `Ancestry.WellFormed` | src/block.h:53-61 | every link points into the arena, `prev` and `skip` to earlier blocks, and every block satisfies `BlockOk`; established by `Chain.constructor` and kept by `Chain.Add` and `Chain.SetNext` |
| `Ancestry.IsLowestCommonAncestor` | tests/block_test.cpp:117-126 | the specification the test checks: a common ancestor of both blocks that every common ancestor lies below; its consequences are stated by `LowestCommonAncestorIsHighest` |
| `Ancestry.Genesis` | src/block.h:53-56 | every block has a genesis ancestor: height 0, no predecessor |
| `Ancestry.AncestorIsBelow` | src/block.h:57-58 | an ancestor sits no higher than its descendant, and a proper ancestor sits strictly lower |
| `Ancestry.AncestorTransitive` | tests/block_test.cpp:41-47 | an ancestor of an ancestor is an ancestor |
| `Ancestry.SkipIsProperAncestor` | src/block.h:57-61 | the skip link of a block points to an ancestor reachable by `prev` links, created earlier, at height `get_skip_height(height)`, strictly below the block |
| `Ancestry.AncestorsNest` | src/block.h:53-58 | the ancestors of a block form one chain: of two ancestors, the lower is an ancestor of the higher |
| `Ancestry.AncestorAtUnique` | src/block.h:65-90 | a block has exactly one ancestor at each height up to its own |
| `Ancestry.CommonAncestorIffSameGenesis` | src/block.h:126-129 | two blocks have a common ancestor exactly when they share a genesis block |
| `Ancestry.LowestCommonAncestorIsHighest` | tests/block_test.cpp:117-126 | the lowest common ancestor lies at or below both blocks, no common ancestor sits higher (in particular none at its height + 1), and it is unique |
| `Ancestry.AppendKeepsWellFormed` | src/block.h:53-61 | appending a block linked the way the constructor links it keeps every arena invariant |
| `Ancestry.SetNextKeepsWellFormed` | tests/block_test.cpp:78 | setting a `next` link to a block of the arena keeps every arena invariant |
| `BlockIndex.GetAncestor` | src/block.h:66-90 | returns the same block as the `prev`-only walk: null exactly when the height is above the block, otherwise the ancestor at exactly that height, and the block itself at its own height; the predecessor asserted at line 84 always exists |
| `BlockIndex.NewBlock` | src/block.h:53-61 | a block without predecessor is a genesis block (height 0, no skip, all hashes 0). Otherwise the block links to `prev`, its height is the predecessor's plus 1 (wrapping at 2^64), it copies the predecessor's hash, and its skip is an ancestor of the predecessor at `get_skip_height(height)`. `next` is null and the arena is only read |
| `BlockIndex.LastCommonAncestor` | src/block.h:119-130 | the result is a common ancestor of both blocks that every common ancestor lies below; it is null exactly when the two blocks have different genesis blocks |
| `BlockIndex.EqualizeKeepsCommonAncestors` | src/block.h:122-125 | replacing the higher block by its ancestor at the other block's height keeps the same common ancestors |
| `BlockIndex.StepKeepsCommonAncestors` | src/block.h:126-127 | two distinct blocks at one height have the same common ancestors as their predecessors, and none at height 0 |
| `BlockIndex.Chain.constructor` | tests/block_test.cpp:72 | a new store is empty and well-formed |
| `BlockIndex.Chain.Add` | src/block.h:53-61 | `new Block(prev)` appends a correctly linked block (`next` null, `my_hash`, `version`, `nonce` and `merkle_root_hash` 0, `prev_hash` 0 without a predecessor) and leaves every existing block, the predecessor included, unchanged |
| `BlockIndex.Chain.SetNext` | tests/block_test.cpp:78 | `parent->next = child` changes that one field and keeps the store well-formed |

## Left out

- The timestamp (`clock_type::now()`, src/block.h:62) is not modelled: it reads a clock and has no logical content.
- `messages` and its allocator are not modelled. Neither is the polymorphic payload hash of src/message_base.h. The core stores payloads but never computes with them.
- `version`, `nonce` and `merkle_root_hash` are opaque fields. The model only shows them initialised to 0.
- Later writes to `my_hash` by outside code are not modelled. So `prevHash == prev.myHash` is a postcondition of the constructor and not an arena invariant.
- `operator<<` (debug output) is not modelled, nor is the non-const `get_ancestor` overload, which only casts away `const`.
- The namespace macros and the `uint256_t` alias of src/xalgorand.h are not modelled. Hashes are opaque naturals.
- Memory ownership and deallocation are not modelled. The arena replaces raw pointers and their lifetime.
- Concurrency is not modelled. All operations are single-threaded reads, or updates of the store.
- The logarithmic bound on the number of hops `get_ancestor` takes is not proved. Correctness of the result is proved; its cost is not.
- Chain.Add: requires the predecessor's height to be below 2^64 - 1. At that height the source's `prev->height + 1` wraps to 0 and the arena invariants break. The same exclusion is part of `WellFormed` (through `BlockOk`), so it applies to every arena that `GetAncestor`, `LastCommonAncestor` and `NewBlock` accept. Reaching that height takes 2^64 live blocks, which a 64-bit address space cannot hold. `NewBlock` itself models the wrap.
- `Block()`, the no-argument constructor (src/block.h:48), is `NewBlock` with no predecessor.
