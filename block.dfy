/** The operations of `Block` in src/block.h over an arena of blocks: the
    constructor's linking, `get_ancestor`, `last_common_ancestor`, and the
    store that owns the blocks and sets their `next` links. */
module BlockIndex {
  import opened SkipHeight
  import opened Ancestry

  /** `Block::get_ancestor`: descend from block x to its ancestor at height h,
      preferring the skip link whenever TakeSkip says it does not overshoot a
      better jump. Returns None when h lies above x. */
  method GetAncestor(a: seq<Block>, x: Index, h: Height) returns (r: Option<Index>)
    requires WellFormed(a) && x < |a|
    ensures r == AncestorAt(a, x, h)
    ensures r.None? <==> h > a[x].height
    ensures r.Some? ==> r.value < |a| && a[r.value].height == h && IsAncestor(a, r.value, x)
    ensures h == a[x].height ==> r == Some(x)
  {
    if h > a[x].height {
      return None;
    }
    var walk: Index := x;
    var heightWalk: Height := a[x].height;
    while heightWalk > h
      invariant walk < |a| && a[walk].height == heightWalk
      invariant h <= heightWalk
      invariant IsAncestor(a, walk, x)
      decreases walk
    {
      assert BlockOk(a, walk);
      var heightSkip := GetSkipHeight(heightWalk);
      if a[walk].skip.Some? && TakeSkip(heightWalk, h) {
        // Only follow skip if the predecessor's skip isn't the better jump.
        var s := a[walk].skip.value;
        AncestorTransitive(a, s, a[walk].prev.value, walk);
        AncestorTransitive(a, s, walk, x);
        walk := s;
        heightWalk := heightSkip;
      } else {
        // The source's `assert(index_walk->prev)`: the walk is above h >= 0,
        // so it is no genesis block.
        assert a[walk].prev.Some?;
        var p := a[walk].prev.value;
        AncestorTransitive(a, p, walk, x);
        walk := p;
        heightWalk := heightWalk - 1;
      }
    }
    AncestorAtUnique(a, walk, x);
    r := Some(walk);
  }

  /** The linking part of `Block(Self *prev)`: every field starts at zero or
      null; with a predecessor the block sits one above it, copies its hash and
      skips to the predecessor's ancestor at GetSkipHeight(height). The
      predecessor (indeed the whole arena) is only read. */
  method NewBlock(a: seq<Block>, prev: Option<Index>) returns (b: Block)
    requires WellFormed(a)
    requires prev.Some? ==> prev.value < |a|
    ensures b.prev == prev && b.next.None?
    ensures b.myHash == 0 && b.version == 0 && b.merkleRootHash == 0 && b.nonce == 0
    ensures prev.None? ==> b.height == 0 && b.skip.None? && b.prevHash == 0
    ensures prev.Some? ==>
      var p := prev.value;
      && b.height == WrapAdd(a[p].height, 1)
      && (a[p].height < MaxSize ==> b.height == a[p].height + 1)
      && b.prevHash == a[p].myHash
      && b.skip.Some? && b.skip.value <= p
      && a[b.skip.value].height == GetSkipHeight(b.height)
      && IsAncestor(a, b.skip.value, p)
  {
    b := Block(prev, None, None, 0, 0, 0, 0, 0, 0);
    if prev.Some? {
      var p := prev.value;
      b := b.(height := WrapAdd(a[p].height, 1));
      b := b.(prevHash := a[p].myHash);
      SkipHeightBelow(b.height);
      var s := GetAncestor(a, p, GetSkipHeight(b.height));
      b := b.(skip := s);
    }
  }

  /** `last_common_ancestor`: bring the higher block down to the other's
      height, then step both back along `prev` until they meet. When the two
      blocks lie in different trees both walks run past their genesis blocks at
      the same step and the result is None. */
  method LastCommonAncestor(a: seq<Block>, x: Index, y: Index) returns (r: Option<Index>)
    requires WellFormed(a) && x < |a| && y < |a|
    ensures r.Some? ==> IsLowestCommonAncestor(a, r.value, x, y)
    ensures r.None? <==> Genesis(a, x) != Genesis(a, y)
  {
    var cx: Option<Index> := Some(x);
    var cy: Option<Index> := Some(y);
    if a[x].height > a[y].height {
      cx := GetAncestor(a, x, a[y].height);
      EqualizeKeepsCommonAncestors(a, x, y, cx.value);
    } else if a[y].height > a[x].height {
      cy := GetAncestor(a, y, a[x].height);
      EqualizeKeepsCommonAncestors(a, y, x, cy.value);
      forall c | 0 <= c < |a|
        ensures IsCommonAncestor(a, c, x, y) == IsCommonAncestor(a, c, cx.value, cy.value)
      {
        assert IsCommonAncestor(a, c, y, x) == IsCommonAncestor(a, c, cy.value, x);
      }
    }
    while cx != cy && cx.Some? && cy.Some?
      invariant cx.Some? ==> cx.value < |a|
      invariant cy.Some? ==> cy.value < |a|
      invariant cx.Some? <==> cy.Some?
      invariant cx.Some? ==> a[cx.value].height == a[cy.value].height
      invariant forall c :: 0 <= c < |a| ==>
        (IsCommonAncestor(a, c, x, y) <==> cx.Some? && IsCommonAncestor(a, c, cx.value, cy.value))
      decreases if cx.Some? then cx.value + 1 else 0
    {
      StepKeepsCommonAncestors(a, cx.value, cy.value);
      cx, cy := a[cx.value].prev, a[cy.value].prev;
    }
    // The source's `assert(x == y)`: the walks meet or both run out together.
    assert cx == cy;
    r := cx;
    CommonAncestorIffSameGenesis(a, x, y);
    if r.Some? {
      assert IsCommonAncestor(a, r.value, x, y);
    }
  }

  /** Replacing the higher block x by its ancestor at y's height loses no
      common ancestor. */
  lemma EqualizeKeepsCommonAncestors(a: seq<Block>, x: Index, y: Index, x': Index)
    requires WellFormed(a) && x < |a| && y < |a| && x' < |a|
    requires IsAncestor(a, x', x) && a[x'].height == a[y].height
    ensures forall c :: 0 <= c < |a| ==> (IsCommonAncestor(a, c, x, y) == IsCommonAncestor(a, c, x', y))
  {
    forall c | 0 <= c < |a|
      ensures IsCommonAncestor(a, c, x, y) == IsCommonAncestor(a, c, x', y)
    {
      if IsCommonAncestor(a, c, x, y) {
        AncestorIsBelow(a, c, y);
        AncestorsNest(a, c, x', x);
      }
      if IsCommonAncestor(a, c, x', y) {
        AncestorTransitive(a, c, x', x);
      }
    }
  }

  /** Two distinct blocks at the same height have the same common ancestors as
      their predecessors; at height 0 they have none. */
  lemma StepKeepsCommonAncestors(a: seq<Block>, x: Index, y: Index)
    requires WellFormed(a) && x < |a| && y < |a| && x != y
    requires a[x].height == a[y].height
    ensures a[x].prev.Some? <==> a[y].prev.Some?
    ensures a[x].prev.Some? ==> a[a[x].prev.value].height == a[a[y].prev.value].height
    ensures forall c :: 0 <= c < |a| ==>
      (IsCommonAncestor(a, c, x, y) <==>
        a[x].prev.Some? && IsCommonAncestor(a, c, a[x].prev.value, a[y].prev.value))
  {
    assert BlockOk(a, x) && BlockOk(a, y);
    forall c | 0 <= c < |a| && IsCommonAncestor(a, c, x, y)
      ensures c != x && c != y
    {
      if c == x {
        AncestorIsBelow(a, x, y);
      }
      if c == y {
        AncestorIsBelow(a, y, x);
      }
    }
  }

  /** The store that owns the blocks (the test suite's vector of blocks): it
      creates blocks through the constructor and sets `next` links afterwards. */
  class Chain {
    var blocks: seq<Block>

    ghost predicate Valid()
      reads this
    {
      WellFormed(blocks)
    }

    constructor ()
      ensures Valid() && blocks == []
    {
      blocks := [];
    }

    /** `new Block(prev)`: append a block linked as the constructor links it;
        no block already in the store changes. */
    method Add(prev: Option<Index>) returns (id: Index)
      requires Valid()
      requires prev.Some? ==> prev.value < |blocks| && blocks[prev.value].height < MaxSize
      modifies this
      ensures Valid()
      ensures id == |old(blocks)| && |blocks| == id + 1 && blocks[..id] == old(blocks)
      ensures blocks[id].prev == prev && blocks[id].next.None? && blocks[id].myHash == 0
      ensures blocks[id].version == 0 && blocks[id].nonce == 0 && blocks[id].merkleRootHash == 0
      ensures prev.None? ==> blocks[id].height == 0 && blocks[id].skip.None? && blocks[id].prevHash == 0
      ensures prev.Some? ==>
        var p := prev.value;
        var s := blocks[id].skip;
        && blocks[id].height == blocks[p].height + 1
        && blocks[id].prevHash == blocks[p].myHash
        && s.Some? && blocks[s.value].height == GetSkipHeight(blocks[id].height)
        && IsAncestor(blocks, s.value, id)
    {
      var b := NewBlock(blocks, prev);
      AppendKeepsWellFormed(blocks, b);
      ghost var a := blocks;
      id := |blocks|;
      blocks := blocks + [b];
      assert blocks[..id] == a;
      if prev.Some? {
        AncestorFrame(a, blocks, b.skip.value, prev.value);
      }
    }

    /** The outside code's `parent->next = child`. */
    method SetNext(parent: Index, child: Index)
      requires Valid() && parent < |blocks| && child < |blocks|
      modifies this
      ensures Valid()
      ensures blocks == old(blocks)[parent := old(blocks)[parent].(next := Some(child))]
    {
      SetNextKeepsWellFormed(blocks, parent, child);
      blocks := blocks[parent := blocks[parent].(next := Some(child))];
    }
  }
}
