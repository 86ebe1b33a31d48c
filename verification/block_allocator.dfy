/** The block allocator: extents in a growing list, split on use and never joined. */
module BlockAllocator {
  import opened Powers

  datatype Option<T> = None | Some(value: T)

  datatype Block = Block(offset: nat, size: nat, active: bool)

  ghost predicate Covers(b: Block, x: nat) {
    b.offset <= x < b.offset + b.size
  }

  ghost predicate Apart(a: Block, b: Block) {
    a.offset + a.size <= b.offset || b.offset + b.size <= a.offset
  }

  /** The extents are not empty, do not overlap, and cover exactly the bytes below `high`. */
  ghost predicate Tiling(blocks: seq<Block>, high: nat) {
    && (forall i | 0 <= i < |blocks| :: blocks[i].size > 0 && blocks[i].offset + blocks[i].size <= high)
    && (forall i, j | 0 <= i < j < |blocks| :: Apart(blocks[i], blocks[j]))
    && (forall x: nat | x < high :: Covered(blocks, x))
  }

  ghost predicate Covered(blocks: seq<Block>, x: nat) {
    exists i :: 0 <= i < |blocks| && Covers(blocks[i], x)
  }

  /** The end of the last extent. */
  function High(blocks: seq<Block>): nat {
    if blocks == [] then 0
    else
      var b := blocks[|blocks| - 1];
      var h := High(blocks[..|blocks| - 1]);
      if h > b.offset + b.size then h else b.offset + b.size
  }

  lemma {:induction false} TilingEndsAtHigh(blocks: seq<Block>, high: nat)
    requires Tiling(blocks, high)
    ensures High(blocks) == high
  {
    HighBounds(blocks);
    if high > 0 {
      assert Covered(blocks, high - 1);
    } else if blocks != [] {
      assert blocks[0].size > 0;
    }
  }

  lemma {:induction false} HighBounds(blocks: seq<Block>)
    ensures forall i | 0 <= i < |blocks| :: blocks[i].offset + blocks[i].size <= High(blocks)
    ensures High(blocks) == 0 || exists i :: 0 <= i < |blocks| && High(blocks) == blocks[i].offset + blocks[i].size
  {
    if blocks != [] {
      HighBounds(blocks[..|blocks| - 1]);
    }
  }

  function Max(a: nat, b: nat): (m: nat)
    ensures m >= a && m >= b && (m == a || m == b)
  {
    if a > b then a else b
  }

  /** What is in use. */
  ghost function Live(blocks: seq<Block>): set<(nat, nat)> {
    set i | 0 <= i < |blocks| && blocks[i].active :: (blocks[i].offset, blocks[i].size)
  }

  /** The power of two above the number: twice the largest power that does not exceed it. */
  function NextPowerOfTwo(n: nat): (r: nat)
    requires n > 0
    ensures n < r <= 2 * n && exists k: nat :: r == Pow2(k)
  {
    Pow2Double(0);
    assert 2 == Pow2(1);
    PowerAbove(n, 0)
  }

  function PowerAbove(n: nat, k: nat): (r: nat)
    requires n > 0 && Pow2(k) <= 2 * n
    ensures n < r <= 2 * n && exists j: nat :: r == Pow2(j)
    decreases 2 * n - Pow2(k)
  {
    Pow2Double(k);
    if Pow2(k) > n then Pow2(k) else PowerAbove(n, k + 1)
  }

  // ---------------------------------------------------------------- steps on the list

  lemma {:induction false} SetActive(blocks: seq<Block>, high: nat, i: nat, active: bool)
    requires Tiling(blocks, high) && i < |blocks|
    ensures Tiling(blocks[i := blocks[i].(active := active)], high)
  {
    var after := blocks[i := blocks[i].(active := active)];
    forall x: nat | x < high
      ensures Covered(after, x)
    {
      assert Covered(blocks, x);
      var j :| 0 <= j < |blocks| && Covers(blocks[j], x);
      assert Covers(after[j], x);
    }
  }

  /** Exactly one extent starts at a given byte. */
  lemma {:induction false} SameOffset(blocks: seq<Block>, high: nat, i: nat, j: nat)
    requires Tiling(blocks, high) && i < |blocks| && j < |blocks| && blocks[i].offset == blocks[j].offset
    ensures i == j
  {
    assert i < j ==> Apart(blocks[i], blocks[j]);
    assert j < i ==> Apart(blocks[j], blocks[i]);
  }

  lemma {:induction false} LiveActivated(blocks: seq<Block>, high: nat, i: nat)
    requires Tiling(blocks, high) && i < |blocks| && !blocks[i].active
    ensures Live(blocks[i := blocks[i].(active := true)]) == Live(blocks) + {(blocks[i].offset, blocks[i].size)}
  {
    var after := blocks[i := blocks[i].(active := true)];
    forall r | r in Live(blocks)
      ensures r in Live(after)
    {
      var j :| 0 <= j < |blocks| && blocks[j].active && (blocks[j].offset, blocks[j].size) == r;
      assert after[j] == blocks[j];
    }
    assert after[i].active;
    assert (blocks[i].offset, blocks[i].size) in Live(after);
  }

  lemma {:induction false} LiveReleased(blocks: seq<Block>, high: nat, i: nat)
    requires Tiling(blocks, high) && i < |blocks| && blocks[i].active
    ensures Live(blocks[i := blocks[i].(active := false)]) == Live(blocks) - {(blocks[i].offset, blocks[i].size)}
  {
    var after := blocks[i := blocks[i].(active := false)];
    forall r | r in Live(blocks) && r != (blocks[i].offset, blocks[i].size)
      ensures r in Live(after)
    {
      var j :| 0 <= j < |blocks| && blocks[j].active && (blocks[j].offset, blocks[j].size) == r;
      assert after[j] == blocks[j];
    }
    forall r | r in Live(after)
      ensures r in Live(blocks) && r != (blocks[i].offset, blocks[i].size)
    {
      var j :| 0 <= j < |after| && after[j].active && (after[j].offset, after[j].size) == r;
      assert j != i && after[j] == blocks[j];
      if r == (blocks[i].offset, blocks[i].size) {
        SameOffset(blocks, high, i, j);
      }
    }
  }

  /** A free extent gives its first part to a new block. */
  function Split(blocks: seq<Block>, i: nat, size: nat): seq<Block>
    requires i < |blocks| && size < blocks[i].size
  {
    var b := blocks[i];
    blocks[i := b.(offset := b.offset + size, size := b.size - size)] + [Block(b.offset, size, true)]
  }

  lemma {:induction false} SplitKeepsTiling(blocks: seq<Block>, high: nat, i: nat, size: nat)
    requires Tiling(blocks, high) && i < |blocks| && 0 < size < blocks[i].size
    ensures Tiling(Split(blocks, i, size), high)
  {
    var after := Split(blocks, i, size);
    var n := |blocks|;
    forall p, q | 0 <= p < q < |after|
      ensures Apart(after[p], after[q])
    {
      if q < n {
        assert Apart(blocks[p], blocks[q]);
      } else if p < i {
        assert Apart(blocks[p], blocks[i]);
      } else if p > i {
        assert Apart(blocks[i], blocks[p]);
      }
    }
    forall x: nat | x < high
      ensures Covered(after, x)
    {
      assert Covered(blocks, x);
      var j :| 0 <= j < n && Covers(blocks[j], x);
      if j == i && x < blocks[i].offset + size {
        assert Covers(after[n], x);
      } else {
        assert Covers(after[j], x);
      }
    }
  }

  lemma {:induction false} LiveSplit(blocks: seq<Block>, i: nat, size: nat)
    requires i < |blocks| && !blocks[i].active && size < blocks[i].size
    ensures Live(Split(blocks, i, size)) == Live(blocks) + {(blocks[i].offset, size)}
  {
    var after := Split(blocks, i, size);
    forall r | r in Live(blocks)
      ensures r in Live(after)
    {
      var j :| 0 <= j < |blocks| && blocks[j].active && (blocks[j].offset, blocks[j].size) == r;
      assert after[j] == blocks[j];
    }
    assert after[|blocks|] == Block(blocks[i].offset, size, true);
    forall r | r in Live(after)
      ensures r in Live(blocks) || r == (blocks[i].offset, size)
    {
      var j :| 0 <= j < |after| && after[j].active && (after[j].offset, after[j].size) == r;
      if j < |blocks| {
        assert after[j] == blocks[j];
      }
    }
  }

  lemma {:induction false} AppendKeepsTiling(blocks: seq<Block>, high: nat, size: nat)
    requires Tiling(blocks, high) && size > 0
    ensures Tiling(blocks + [Block(high, size, true)], high + size)
    ensures Live(blocks + [Block(high, size, true)]) == Live(blocks) + {(high, size)}
  {
    var after := blocks + [Block(high, size, true)];
    forall x: nat | x < high + size
      ensures Covered(after, x)
    {
      if x < high {
        assert Covered(blocks, x);
        var j :| 0 <= j < |blocks| && Covers(blocks[j], x);
        assert Covers(after[j], x);
      } else {
        assert Covers(after[|blocks|], x);
      }
    }
    forall r | r in Live(blocks)
      ensures r in Live(after)
    {
      var j :| 0 <= j < |blocks| && blocks[j].active && (blocks[j].offset, blocks[j].size) == r;
      assert after[j] == blocks[j];
    }
    assert after[|blocks|] == Block(high, size, true);
    forall r | r in Live(after)
      ensures r in Live(blocks) || r == (high, size)
    {
      var j :| 0 <= j < |after| && after[j].active && (after[j].offset, after[j].size) == r;
      if j < |blocks| {
        assert after[j] == blocks[j];
      }
    }
  }

  /** Bytes in a free extent belong to no live one. */
  lemma {:induction false} FreeIsNotLive(blocks: seq<Block>, high: nat, i: nat, size: nat)
    requires Tiling(blocks, high) && i < |blocks| && !blocks[i].active && size <= blocks[i].size
    ensures forall r | r in Live(blocks) :: OutOf(r, blocks[i].offset, size)
  {
    forall r | r in Live(blocks)
      ensures OutOf(r, blocks[i].offset, size)
    {
      var j :| 0 <= j < |blocks| && blocks[j].active && (blocks[j].offset, blocks[j].size) == r;
      if i < j {
        assert Apart(blocks[i], blocks[j]);
      } else {
        assert Apart(blocks[j], blocks[i]);
      }
    }
  }

  lemma {:induction false} BeyondIsNotLive(blocks: seq<Block>, high: nat, size: nat)
    requires Tiling(blocks, high)
    ensures forall r | r in Live(blocks) :: OutOf(r, high, size)
  {
  }

  ghost predicate OutOf(r: (nat, nat), offset: nat, size: nat) {
    r.0 + r.1 <= offset || offset + size <= r.0
  }

  /** A free extent that is large enough. */
  ghost predicate Reusable(blocks: seq<Block>, size: nat) {
    exists i :: 0 <= i < |blocks| && !blocks[i].active && blocks[i].size >= size
  }

  /** The first free extent that is large enough. */
  ghost predicate FirstFit(blocks: seq<Block>, size: nat, i: nat) {
    && i < |blocks| && !blocks[i].active && blocks[i].size >= size
    && forall j | 0 <= j < i :: blocks[j].active || blocks[j].size < size
  }

  /** A reusable extent is reused from its start; what is left of it stays free in its place. */
  ghost function Reused(blocks: seq<Block>, i: nat, size: nat): seq<Block>
    requires i < |blocks| && size <= blocks[i].size
  {
    if blocks[i].size == size then blocks[i := blocks[i].(active := true)] else Split(blocks, i, size)
  }

  class Allocator {
    var blocks: seq<Block>
    var maxSize: nat

    constructor (initialMaxSize: nat)
      ensures Valid() && blocks == [] && maxSize == initialMaxSize
    {
      blocks, maxSize := [], initialMaxSize;
    }

    ghost predicate Valid()
      reads this
    {
      Tiling(blocks, High(blocks))
    }

    /** Gives out an extent of the power of two above the request, from the first free extent that is large enough, or
        behind the last. `expandable` answers whether the space can be expanded. A new extent stays within the space
        unless the request fits behind the last extent and the rounded request does not. */
    method Allocate(bytes: nat, expandable: bool) returns (r: Option<nat>)
      requires Valid() && bytes > 0
      modifies this
      ensures Valid()
      ensures Reusable(old(blocks), NextPowerOfTwo(bytes)) ==> exists i: nat ::
                && FirstFit(old(blocks), NextPowerOfTwo(bytes), i) && r == Some(old(blocks)[i].offset)
                && blocks == Reused(old(blocks), i, NextPowerOfTwo(bytes))
      ensures Reusable(old(blocks), NextPowerOfTwo(bytes)) ==> maxSize == old(maxSize) && High(blocks) == High(old(blocks))
      ensures r == None <==>
                !Reusable(old(blocks), NextPowerOfTwo(bytes)) && High(old(blocks)) + bytes > old(maxSize) && !expandable
      ensures r == None ==> blocks == old(blocks) && maxSize == old(maxSize)
      ensures r.Some? && !Reusable(old(blocks), NextPowerOfTwo(bytes)) ==>
                var size, end := NextPowerOfTwo(bytes), High(old(blocks));
                && r.value == end && blocks == old(blocks) + [Block(end, size, true)]
                && maxSize == if end + bytes <= old(maxSize) then old(maxSize) else Max(2 * old(maxSize), old(maxSize) + size)
      ensures r.Some? ==>
                var size := NextPowerOfTwo(bytes);
                && Live(blocks) == Live(old(blocks)) + {(r.value, size)}
                && (forall e | e in Live(old(blocks)) :: OutOf(e, r.value, size))
      ensures r.Some? && High(old(blocks)) <= old(maxSize) ==>
                var size, end := NextPowerOfTwo(bytes), High(old(blocks));
                High(blocks) > maxSize <==> !Reusable(old(blocks), size) && end + bytes <= old(maxSize) < end + size
    {
      hide Tiling, Live, NextPowerOfTwo, Split, Reused, Reusable, OutOf;
      var roundedSize := NextPowerOfTwo(bytes);
      var farthestEnd := 0;
      var i := 0;
      assert blocks[..0] == [];
      while i < |blocks|
        invariant 0 <= i <= |blocks| && blocks == old(blocks) && maxSize == old(maxSize) && farthestEnd == High(blocks[..i])
        invariant forall j | 0 <= j < i :: blocks[j].active || blocks[j].size < roundedSize
      {
        var block := blocks[i];
        HighStep(blocks, i);
        farthestEnd := if farthestEnd > block.offset + block.size then farthestEnd else block.offset + block.size;
        if !block.active && block.size >= roundedSize {
          IsReusable(blocks, i, roundedSize);
          assert FirstFit(blocks, roundedSize, i);
          var offset := UseFree(i, roundedSize);
          r := Some(offset);
          return;
        }
        i := i + 1;
      }
      assert blocks[..i] == blocks;
      NotReusable(blocks, roundedSize);
      if farthestEnd + bytes > maxSize {
        if !expandable {
          return None;
        }
        maxSize := Max(maxSize * 2, maxSize + roundedSize);
      }
      AddBlock(farthestEnd, roundedSize);
      r := Some(farthestEnd);
    }

    /** Gives out a free extent, or its first part. */
    method UseFree(i: nat, size: nat) returns (offset: nat)
      requires Valid() && i < |blocks| && !blocks[i].active && blocks[i].size >= size > 0
      modifies `blocks
      ensures Valid() && High(blocks) == High(old(blocks)) && Live(blocks) == Live(old(blocks)) + {(offset, size)}
      ensures offset == old(blocks)[i].offset && blocks == Reused(old(blocks), i, size)
      ensures forall e | e in Live(old(blocks)) :: OutOf(e, offset, size)
    {
      hide Tiling, Live, Split, High, OutOf;
      ghost var high := High(blocks);
      var block := blocks[i];
      FreeIsNotLive(blocks, high, i, size);
      offset := block.offset;
      if block.size == size {
        SetActive(blocks, high, i, true);
        LiveActivated(blocks, high, i);
        blocks := blocks[i := block.(active := true)];
      } else {
        SplitKeepsTiling(blocks, high, i, size);
        LiveSplit(blocks, i, size);
        SplitIs(blocks, i, size);
        blocks := blocks[i := block.(offset := block.offset + size, size := block.size - size)];
        blocks := blocks + [Block(block.offset, size, true)];
      }
      TilingEndsAtHigh(blocks, high);
    }

    /** Adds an extent behind the last one. */
    method AddBlock(end: nat, size: nat)
      requires Valid() && end == High(blocks) && size > 0
      modifies `blocks
      ensures Valid() && blocks == old(blocks) + [Block(end, size, true)]
      ensures High(blocks) == end + size && Live(blocks) == Live(old(blocks)) + {(end, size)}
      ensures forall e | e in Live(old(blocks)) :: OutOf(e, end, size)
    {
      hide Tiling, Live, High, OutOf;
      AppendKeepsTiling(blocks, end, size);
      BeyondIsNotLive(blocks, end, size);
      blocks := blocks + [Block(end, size, true)];
      TilingEndsAtHigh(blocks, end + size);
    }

    /** Frees the live extent that starts at the offset; fails exactly if there is none. */
    method Free(offset: nat) returns (ok: bool)
      requires Valid()
      modifies this`blocks
      ensures Valid() && High(blocks) == High(old(blocks))
      ensures ok <==> exists size: nat :: (offset, size) in Live(old(blocks))
      ensures !ok ==> blocks == old(blocks)
      ensures ok ==> exists size: nat :: (offset, size) in Live(old(blocks)) && Live(blocks) == Live(old(blocks)) - {(offset, size)}
      ensures ok ==> exists i :: 0 <= i < |old(blocks)| && old(blocks)[i].active && old(blocks)[i].offset == offset
                                 && blocks == old(blocks)[i := old(blocks)[i].(active := false)]
    {
      ghost var high := High(blocks);
      hide Tiling, High;
      var i := 0;
      while i < |blocks|
        invariant 0 <= i <= |blocks| && blocks == old(blocks)
        invariant forall j | 0 <= j < i :: !(blocks[j].active && blocks[j].offset == offset)
      {
        if blocks[i].active && blocks[i].offset == offset {
          SetActive(blocks, high, i, false);
          LiveReleased(blocks, high, i);
          assert (offset, blocks[i].size) in Live(blocks);
          blocks := blocks[i := blocks[i].(active := false)];
          TilingEndsAtHigh(blocks, high);
          return true;
        }
        i := i + 1;
      }
      ok := false;
    }
  }

  lemma {:induction false} HighStep(blocks: seq<Block>, i: nat)
    requires i < |blocks|
    ensures var h, e := High(blocks[..i]), blocks[i].offset + blocks[i].size; High(blocks[..i + 1]) == if h > e then h else e
  {
    assert blocks[..i + 1][..i] == blocks[..i];
  }

  lemma {:induction false} IsReusable(blocks: seq<Block>, i: nat, size: nat)
    requires i < |blocks| && !blocks[i].active && blocks[i].size >= size
    ensures Reusable(blocks, size)
  {
  }

  lemma {:induction false} NotReusable(blocks: seq<Block>, size: nat)
    requires forall j | 0 <= j < |blocks| :: blocks[j].active || blocks[j].size < size
    ensures !Reusable(blocks, size)
  {
  }

  lemma {:induction false} SplitIs(blocks: seq<Block>, i: nat, size: nat)
    requires i < |blocks| && size < blocks[i].size
    ensures var b := blocks[i];
            Split(blocks, i, size) == blocks[i := b.(offset := b.offset + size, size := b.size - size)] + [Block(b.offset, size, true)]
  {
  }

  /** An exact power of two is given out beyond the space: four bytes of four end at eight. */
  method PowerOfTwoOutgrows() returns (granted: bool, end: nat, space: nat)
    ensures granted && end > 4 == space
  {
    hide NextPowerOfTwo, Live;
    var allocator := new Allocator(4);
    FourIsRoundedToEight();
    NothingReusable(8);
    var r := allocator.Allocate(4, false);
    granted, end, space := r.Some?, High(allocator.blocks), allocator.maxSize;
  }

  /** A freed extent is given out again, and a part of it to a smaller request: in a space of eight bytes that cannot
      grow, one of eight, again, and one of two after freeing. */
  method FreedIsReused() returns (first: Option<nat>, again: Option<nat>, full: Option<nat>, part: Option<nat>)
    ensures first == Some(0) && full == None && again == Some(0) && part == Some(0)
  {
    hide NextPowerOfTwo, Live, Tiling, High, Reusable, FirstFit, Reused;
    var allocator := new Allocator(8);
    RoundedToEight();
    NothingReusable(8);
    OneBlock(Block(0, 8, true), 8);
    OneBlock(Block(0, 8, false), 8);
    OneBlock(Block(0, 8, false), 2);
    first := allocator.Allocate(5, false);
    assert allocator.blocks == [Block(0, 8, true)];
    full := allocator.Allocate(5, false);
    var freed := allocator.Free(0);
    assert allocator.blocks == [Block(0, 8, false)];
    again := allocator.Allocate(5, false);
    assert allocator.blocks == [Block(0, 8, true)];
    freed := allocator.Free(0);
    assert allocator.blocks == [Block(0, 8, false)];
    part := allocator.Allocate(1, false);
  }

  /** What is known of a space with one extent. */
  lemma OneBlock(b: Block, size: nat)
    ensures High([b]) == b.offset + b.size
    ensures Reusable([b], size) <==> !b.active && b.size >= size
    ensures forall i: nat | FirstFit([b], size, i) :: i == 0
    ensures b.size == size ==> Reused([b], 0, size) == [b.(active := true)]
  {
    assert [b][..0] == [];
    assert [b][0] == b;
  }

  lemma {:induction false} RoundedToEight()
    ensures NextPowerOfTwo(5) == 8 && NextPowerOfTwo(1) == 2
  {
    assert Pow2(0) == 1 && Pow2(1) == 2 && Pow2(2) == 4 && Pow2(3) == 8;
    assert PowerAbove(5, 2) == PowerAbove(5, 3) == 8;
    assert PowerAbove(5, 0) == PowerAbove(5, 1) == PowerAbove(5, 2);
    assert PowerAbove(1, 0) == PowerAbove(1, 1) == 2;
  }

  lemma NothingReusable(size: nat)
    ensures High([]) == 0 && !Reusable([], size)
  {
  }

  lemma {:induction false} FourIsRoundedToEight()
    ensures NextPowerOfTwo(4) == 8
  {
    assert Pow2(0) == 1 && Pow2(1) == 2 && Pow2(2) == 4 && Pow2(3) == 8;
    assert PowerAbove(4, 2) == PowerAbove(4, 3) == 8;
    assert PowerAbove(4, 0) == PowerAbove(4, 1) == PowerAbove(4, 2);
  }
}
