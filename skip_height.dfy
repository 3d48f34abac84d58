/** The skip-height heuristic of the block index (namespace `detail` of
    src/block.h). Heights are `size_t` in the source: unsigned 64-bit words,
    modelled as the integers 0 .. 2^64 - 1 with wrap-around written out where
    the source's arithmetic can leave that range. */
module SkipHeight {

  const Modulus: int := 0x1_0000_0000_0000_0000

  /** An unsigned 64-bit word (`size_t`). */
  type Size = x: int | 0 <= x < 0x1_0000_0000_0000_0000

  type Height = Size

  const MaxSize: Size := 0xFFFF_FFFF_FFFF_FFFF

  /** Unsigned subtraction: wraps around below 0. */
  function WrapSub(x: Size, y: Size): (r: Size)
    ensures x >= y ==> r == x - y
    ensures x < y ==> r == x - y + Modulus
  {
    (x - y) % Modulus
  }

  /** Unsigned addition: wraps around above 2^64 - 1. */
  function WrapAdd(x: Size, y: Size): (r: Size)
    ensures x + y < Modulus ==> r == x + y
    ensures x + y >= Modulus ==> r == x + y - Modulus
  {
    (x + y) % Modulus
  }

  /** Bitwise AND of two non-negative integers, bit by bit from the lowest. */
  function BitAnd(x: nat, y: nat): (r: nat)
    ensures r <= x && r <= y
    decreases x
  {
    if x == 0 || y == 0 then 0
    else 2 * BitAnd(x / 2, y / 2) + (if x % 2 == 1 && y % 2 == 1 then 1 else 0)
  }

  /** `x & (x - 1)` on `size_t`: at 0 the subtraction wraps to all ones, and
      `0 & ~0` is 0. */
  function ResetLowestBit(x: Size): Size {
    BitAnd(x, WrapSub(x, 1))
  }

  /** r is 1, 2, 4, 8, ... */
  predicate IsPowerOfTwo(r: nat)
    decreases r
  {
    r == 1 || (r > 1 && r % 2 == 0 && IsPowerOfTwo(r / 2))
  }

  /** Reference definition: the lowest set bit of x > 0, as the power of two
      it stands for: the power of two r that divides x and leaves an odd
      quotient (so bit log2(r) of x is set and every bit below it is clear). */
  function LowestSetBit(x: nat): (r: nat)
    requires x > 0
    ensures 1 <= r <= x
    ensures IsPowerOfTwo(r) && x % r == 0 && (x / r) % 2 == 1
    decreases x
  {
    if x % 2 == 1 then 1
    else
      var r' := LowestSetBit(x / 2);
      DoubleDivisor(x, r');
      2 * r'
  }

  /** If r divides x / 2 with an odd quotient, 2 * r divides an even x with
      the same quotient. */
  lemma DoubleDivisor(x: nat, r: nat)
    requires r > 0 && x % 2 == 0 && (x / 2) % r == 0 && ((x / 2) / r) % 2 == 1
    ensures x % (2 * r) == 0 && (x / (2 * r)) % 2 == 1
  {
    var q := (x / 2) / r;
    assert x / 2 == r * q;
    assert x == (2 * r) * q;
    ExactDivision(x, 2 * r, q);
  }

  /** A multiple of d divides by d exactly. */
  lemma ExactDivision(x: nat, d: nat, q: nat)
    requires d > 0 && x == d * q
    ensures x % d == 0 && x / d == q
  {
    var q', m := x / d, x % d;
    assert d * q' + m == d * q;
    if q' < q {
      var k := q - q';
      assert d * q == d * q' + d * k;
      MultipleAtLeast(d, k);
    }
  }

  lemma {:induction false} MultipleAtLeast(d: nat, k: nat)
    requires k >= 1
    ensures d * k >= d
    decreases k
  {
    if k > 1 {
      MultipleAtLeast(d, k - 1);
      assert d * k == d * (k - 1) + d;
    }
  }

  lemma {:induction false} BitAndSelf(x: nat)
    ensures BitAnd(x, x) == x
    decreases x
  {
    if x != 0 {
      BitAndSelf(x / 2);
    }
  }

  /** x & (x - 1) is x with its lowest set bit cleared. */
  lemma {:induction false} BitAndPredecessor(x: nat)
    requires x > 0
    ensures BitAnd(x, x - 1) == x - LowestSetBit(x)
    decreases x
  {
    if x % 2 == 1 {
      if x > 1 {
        assert (x - 1) / 2 == x / 2;
        BitAndSelf(x / 2);
      }
    } else {
      assert (x - 1) / 2 == x / 2 - 1 && (x - 1) % 2 == 1;
      BitAndPredecessor(x / 2);
    }
  }

  /** ResetLowestBit clears exactly the lowest set bit of x, and maps 0 to 0;
      so it never increases its argument and strictly decreases a non-zero one. */
  lemma ResetLowestBitClearsLowest(x: Size)
    ensures x == 0 ==> ResetLowestBit(x) == 0
    ensures x > 0 ==> ResetLowestBit(x) == x - LowestSetBit(x)
    ensures ResetLowestBit(x) <= x
    ensures x > 0 ==> ResetLowestBit(x) < x
  {
    if x > 0 {
      BitAndPredecessor(x);
    }
  }

  /** `h & 1` tests the lowest bit. */
  lemma BitAndOne(h: nat)
    ensures BitAnd(h, 1) == h % 2
  {
  }

  /** The height that a block at `height` points its skip link back to
      (the heuristic of bitcoin's chain code). */
  function GetSkipHeight(height: Height): Height {
    if height < 2 then 0
    else if BitAnd(height, 1) != 0 then
      WrapAdd(ResetLowestBit(ResetLowestBit(WrapSub(height, 1))), 1)
    else ResetLowestBit(height)
  }

  /** The skip target never lies above the block, lies strictly below it for
      every height from 1 on, and is 0 for heights 0 and 1. */
  lemma SkipHeightBelow(height: Height)
    ensures GetSkipHeight(height) <= height
    ensures height < 2 ==> GetSkipHeight(height) == 0
    ensures height >= 1 ==> GetSkipHeight(height) < height
  {
    if height >= 2 {
      BitAndOne(height);
      if height % 2 == 1 {
        ResetLowestBitClearsLowest(height - 1);
        ResetLowestBitClearsLowest(ResetLowestBit(height - 1));
      } else {
        ResetLowestBitClearsLowest(height);
      }
    }
  }

  /** The tie-break of `get_ancestor`: walking at height `walk` towards
      `target`, follow the skip link (when there is one) only if the
      predecessor's skip would not have been the better jump. The arithmetic is
      unsigned: `skip - 2` wraps when the skip height is 0 or 1. */
  predicate TakeSkip(walk: Height, target: Height) {
    var skip := GetSkipHeight(walk);
    var skipPrev := GetSkipHeight(WrapSub(walk, 1));
    skip == target || (skip > target && !(skipPrev < WrapSub(skip, 2) && skipPrev >= target))
  }

  /** At a skip height of 1 and target 0 the unsigned `1 - 2` wraps to
      2^64 - 1, so the walk steps to the predecessor; with mathematical
      integers (`1 - 2 == -1`) the guard would pick the skip link instead. */
  lemma SkipHeightOneStepsToPrev(walk: Height)
    requires GetSkipHeight(walk) == 1
    ensures WrapSub(GetSkipHeight(walk), 2) == MaxSize
    ensures !TakeSkip(walk, 0)
    ensures var skipPrev := GetSkipHeight(WrapSub(walk, 1));
            !(skipPrev < GetSkipHeight(walk) - 2 && skipPrev >= 0)
  {
    SkipHeightBelow(walk);
    SkipHeightBelow(walk - 1);
  }

  /** A witness that the requires of SkipHeightOneStepsToPrev can be met:
      height 3 is the smallest height whose skip height is 1, and walking from
      it towards the genesis steps to the predecessor. */
  lemma WalkFromThreeToGenesis()
    ensures GetSkipHeight(3) == 1 && GetSkipHeight(2) == 0
    ensures !TakeSkip(3, 0)
  {
    BitAndOne(3);
    assert ResetLowestBit(2) == 0;
    SkipHeightOneStepsToPrev(3);
  }
}
