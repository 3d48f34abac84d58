/** The block tree of src/block.h held in an arena: a sequence of blocks whose
    `prev`, `skip` and `next` pointers are indices into the same sequence.
    This module defines what a well-formed arena is, the ancestor relation
    (the `is_ancestor` predicate of tests/block_test.cpp), and the reference
    ancestor-at-height walk that follows `prev` links only. */
module Ancestry {
  import opened SkipHeight

  datatype Option<T> = None | Some(value: T)

  type Index = nat

  /** 256-bit hashes are opaque values here. */
  type Hash = nat

  datatype Block = Block(
    prev: Option<Index>,
    next: Option<Index>,
    skip: Option<Index>,
    height: Height,
    myHash: Hash,
    prevHash: Hash,
    version: nat,
    merkleRootHash: Hash,
    nonce: nat)

  /** Every link points into the arena, and `prev` and `skip` point to blocks
      created earlier (so following them always terminates). */
  ghost predicate Linked(a: seq<Block>) {
    forall i :: 0 <= i < |a| ==>
      && (a[i].prev.Some? ==> a[i].prev.value < i)
      && (a[i].skip.Some? ==> a[i].skip.value < i)
      && (a[i].next.Some? ==> a[i].next.value < |a|)
  }

  /** `anc` is reached from x by following `prev` zero or more times. */
  ghost predicate IsAncestor(a: seq<Block>, anc: Index, x: Index)
    requires Linked(a) && x < |a|
    ensures IsAncestor(a, anc, x) ==> anc <= x
    decreases x
  {
    anc == x || (a[x].prev.Some? && IsAncestor(a, anc, a[x].prev.value))
  }

  ghost predicate IsCommonAncestor(a: seq<Block>, c: Index, x: Index, y: Index)
    requires Linked(a) && x < |a| && y < |a|
  {
    IsAncestor(a, c, x) && IsAncestor(a, c, y)
  }

  /** The fields the Block constructor fixes: a genesis block has height 0 and
      no skip; any other block sits one above its predecessor (without wrapping
      past 2^64 - 1) and skips to an ancestor of the predecessor at height
      GetSkipHeight(height). */
  ghost predicate BlockOk(a: seq<Block>, i: Index)
    requires Linked(a) && i < |a|
  {
    match a[i].prev
    case None => a[i].height == 0 && a[i].skip.None?
    case Some(p) =>
      && a[p].height != MaxSize
      && a[i].height == a[p].height + 1
      && a[i].skip.Some?
      && a[a[i].skip.value].height == GetSkipHeight(a[i].height)
      && IsAncestor(a, a[i].skip.value, p)
  }

  ghost predicate WellFormed(a: seq<Block>) {
    Linked(a) && forall i :: 0 <= i < |a| ==> BlockOk(a, i)
  }

  /** Reference definition of `get_ancestor`: no block when the height is above
      x, otherwise walk `prev` one block at a time down to that height. */
  ghost function AncestorAt(a: seq<Block>, x: Index, h: Height): (r: Option<Index>)
    requires WellFormed(a) && x < |a|
    ensures r.None? <==> h > a[x].height
    ensures r.Some? ==> r.value <= x && a[r.value].height == h && IsAncestor(a, r.value, x)
    decreases x
  {
    assert BlockOk(a, x);
    if h > a[x].height then None
    else if h == a[x].height then Some(x)
    else AncestorAt(a, a[x].prev.value, h)
  }

  /** The genesis block of the tree that holds x. */
  ghost function Genesis(a: seq<Block>, x: Index): (g: Index)
    requires WellFormed(a) && x < |a|
    ensures g <= x && a[g].height == 0 && a[g].prev.None? && IsAncestor(a, g, x)
  {
    var g := AncestorAt(a, x, 0).value;
    assert BlockOk(a, g);
    g
  }

  /** r is the lowest common ancestor of x and y in the sense of the source's
      tests: a common ancestor of both that every common ancestor lies below. */
  ghost predicate IsLowestCommonAncestor(a: seq<Block>, r: Index, x: Index, y: Index)
    requires WellFormed(a) && x < |a| && y < |a|
  {
    && r < |a|
    && IsCommonAncestor(a, r, x, y)
    && forall c :: 0 <= c < |a| && IsCommonAncestor(a, c, x, y) ==> IsAncestor(a, c, r)
  }

  // ---------------------------------------------------------------------
  // Lemmas about the ancestor relation.

  /** An ancestor was created no later and sits no higher; a proper ancestor
      sits strictly lower. */
  lemma {:induction false} AncestorIsBelow(a: seq<Block>, c: Index, x: Index)
    requires WellFormed(a) && x < |a| && IsAncestor(a, c, x)
    ensures c <= x && a[c].height <= a[x].height
    ensures c != x ==> a[c].height < a[x].height
    decreases x
  {
    assert BlockOk(a, x);
    if c != x {
      var p := a[x].prev.value;
      AncestorIsBelow(a, c, p);
    }
  }

  lemma {:induction false} AncestorTransitive(a: seq<Block>, c: Index, d: Index, x: Index)
    requires Linked(a) && x < |a| && d < |a|
    requires IsAncestor(a, c, d) && IsAncestor(a, d, x)
    ensures IsAncestor(a, c, x)
    decreases x
  {
    if d != x {
      AncestorTransitive(a, c, d, a[x].prev.value);
    }
  }

  /** A skip link points to a proper ancestor, at the height GetSkipHeight
      chooses, which lies strictly below the block. */
  lemma SkipIsProperAncestor(a: seq<Block>, i: Index)
    requires WellFormed(a) && i < |a| && a[i].skip.Some?
    ensures var s := a[i].skip.value;
      && s < i && IsAncestor(a, s, i)
      && a[s].height == GetSkipHeight(a[i].height) < a[i].height
  {
    assert BlockOk(a, i);
    var s, p := a[i].skip.value, a[i].prev.value;
    AncestorTransitive(a, s, p, i);
    SkipHeightBelow(a[i].height);
  }

  /** The ancestors of one block form a chain ordered by height: of two
      ancestors of x, the lower one is an ancestor of the higher one. */
  lemma {:induction false} AncestorsNest(a: seq<Block>, c: Index, d: Index, x: Index)
    requires WellFormed(a) && x < |a|
    requires IsAncestor(a, c, x) && IsAncestor(a, d, x)
    requires a[c].height <= a[d].height
    ensures d < |a| && IsAncestor(a, c, d)
    decreases x
  {
    AncestorIsBelow(a, d, x);
    if d != x {
      AncestorIsBelow(a, c, x);
      if c == x {
        assert false;
      }
      AncestorsNest(a, c, d, a[x].prev.value);
    }
  }

  /** There is only one ancestor of x at any height, and AncestorAt finds it. */
  lemma AncestorAtUnique(a: seq<Block>, c: Index, x: Index)
    requires WellFormed(a) && x < |a| && IsAncestor(a, c, x)
    ensures AncestorAt(a, x, a[c].height) == Some(c)
  {
    AncestorIsBelow(a, c, x);
    var r := AncestorAt(a, x, a[c].height).value;
    AncestorsNest(a, c, r, x);
    AncestorIsBelow(a, c, r);
  }

  /** Two blocks share an ancestor exactly when they share a genesis block. */
  lemma CommonAncestorIffSameGenesis(a: seq<Block>, x: Index, y: Index)
    requires WellFormed(a) && x < |a| && y < |a|
    ensures (exists c :: 0 <= c < |a| && IsCommonAncestor(a, c, x, y)) <==> Genesis(a, x) == Genesis(a, y)
  {
    if c :| 0 <= c < |a| && IsCommonAncestor(a, c, x, y) {
      var g := Genesis(a, c);
      AncestorTransitive(a, g, c, x);
      AncestorTransitive(a, g, c, y);
      AncestorAtUnique(a, g, x);
      AncestorAtUnique(a, g, y);
    }
    if Genesis(a, x) == Genesis(a, y) {
      assert IsCommonAncestor(a, Genesis(a, x), x, y);
    }
  }

  /** The test-suite's check of a lowest common ancestor r: it lies at or below
      both blocks, and no common ancestor sits higher than r (in particular none
      at height r.height + 1). It is also the only such block. */
  lemma LowestCommonAncestorIsHighest(a: seq<Block>, r: Index, x: Index, y: Index)
    requires WellFormed(a) && x < |a| && y < |a|
    requires IsLowestCommonAncestor(a, r, x, y)
    ensures a[r].height <= a[x].height && a[r].height <= a[y].height
    ensures forall c :: 0 <= c < |a| && a[c].height > a[r].height ==> !IsCommonAncestor(a, c, x, y)
    ensures forall r' :: 0 <= r' < |a| && IsLowestCommonAncestor(a, r', x, y) ==> r' == r
  {
    AncestorIsBelow(a, r, x);
    AncestorIsBelow(a, r, y);
    forall c | 0 <= c < |a| && a[c].height > a[r].height
      ensures !IsCommonAncestor(a, c, x, y)
    {
      if IsCommonAncestor(a, c, x, y) {
        AncestorIsBelow(a, c, r);
      }
    }
    forall r' | 0 <= r' < |a| && IsLowestCommonAncestor(a, r', x, y)
      ensures r' == r
    {
      AncestorIsBelow(a, r, r');
      AncestorIsBelow(a, r', r);
    }
  }

  // ---------------------------------------------------------------------
  // Growing and updating the arena.

  /** The ancestor relation depends only on `prev` links, so it survives
      appending blocks and changing `next` or hash fields. */
  lemma {:induction false} AncestorFrame(a: seq<Block>, b: seq<Block>, c: Index, x: Index)
    requires Linked(a) && Linked(b) && x < |a| <= |b|
    requires forall i :: 0 <= i < |a| ==> b[i].prev == a[i].prev
    ensures IsAncestor(a, c, x) == IsAncestor(b, c, x)
    decreases x
  {
    if a[x].prev.Some? {
      AncestorFrame(a, b, c, a[x].prev.value);
    }
  }

  /** Blocks agree on everything the well-formedness of an arena looks at. */
  ghost predicate SameShape(x: Block, y: Block) {
    x.prev == y.prev && x.skip == y.skip && x.height == y.height
  }

  /** Changing only what well-formedness ignores, and adding blocks that are
      well-formed themselves, keeps an arena well-formed. */
  lemma WellFormedFrame(a: seq<Block>, b: seq<Block>)
    requires WellFormed(a) && Linked(b) && |a| <= |b|
    requires forall i :: 0 <= i < |a| ==> SameShape(a[i], b[i])
    requires forall i :: |a| <= i < |b| ==> BlockOk(b, i)
    ensures WellFormed(b)
  {
    forall i | 0 <= i < |a|
      ensures BlockOk(b, i)
    {
      assert BlockOk(a, i);
      if a[i].prev.Some? {
        AncestorFrame(a, b, a[i].skip.value, a[i].prev.value);
      }
    }
  }

  /** Appending a block that is linked the way the Block constructor links it
      keeps the arena well-formed. */
  lemma AppendKeepsWellFormed(a: seq<Block>, blk: Block)
    requires WellFormed(a)
    requires blk.next.None?
    requires blk.prev.None? ==> blk.height == 0 && blk.skip.None?
    requires blk.prev.Some? ==>
      var p := blk.prev.value;
      && p < |a|
      && a[p].height != MaxSize
      && blk.height == a[p].height + 1
      && blk.skip.Some? && blk.skip.value < |a|
      && a[blk.skip.value].height == GetSkipHeight(blk.height)
      && IsAncestor(a, blk.skip.value, p)
    ensures WellFormed(a + [blk])
  {
    var b := a + [blk];
    assert Linked(b);
    if blk.prev.Some? {
      AncestorFrame(a, b, blk.skip.value, blk.prev.value);
    }
    assert BlockOk(b, |a|);
    WellFormedFrame(a, b);
  }

  /** Setting a `next` link to a block of the arena keeps it well-formed. */
  lemma SetNextKeepsWellFormed(a: seq<Block>, parent: Index, child: Index)
    requires WellFormed(a) && parent < |a| && child < |a|
    ensures WellFormed(a[parent := a[parent].(next := Some(child))])
  {
    var b := a[parent := a[parent].(next := Some(child))];
    WellFormedFrame(a, b);
  }
}
