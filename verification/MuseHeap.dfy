/** The heap inside a MUSE segment: blocks behind five-byte headers that tile a
    stretch of memory, their first-fit search and their split. Memory appears
    here only as the header that can be read at each address. */
module MuseHeap {
  import opened CTypes

  const HEADER_SIZE: nat := 5

  /** `t_heapMetadata` */
  datatype Header = Header(size: uint32, free: bool)

  type Memory = nat -> Header

  // ----- Tiling

  /** Walking the headers from `a` lands exactly on `a + length`. */
  predicate Tiles(m: Memory, a: nat, length: nat)
    decreases length
  {
    length == 0 ||
    (HEADER_SIZE + m(a).size <= length
     && Tiles(m, a + HEADER_SIZE + m(a).size, length - HEADER_SIZE - m(a).size))
  }

  /** The headers met on that walk. */
  function Blocks(m: Memory, a: nat, length: nat): seq<Header>
    requires Tiles(m, a, length)
    decreases length
  {
    if length == 0 then []
    else [m(a)] + Blocks(m, a + HEADER_SIZE + m(a).size, length - HEADER_SIZE - m(a).size)
  }

  function TotalSize(blocks: seq<Header>): nat {
    if blocks == [] then 0 else HEADER_SIZE + blocks[0].size + TotalSize(blocks[1..])
  }

  lemma {:induction false} BlocksFill(m: Memory, a: nat, length: nat)
    requires Tiles(m, a, length)
    ensures TotalSize(Blocks(m, a, length)) == length
    decreases length
  {
    if length == 0 {
    } else {
      var next := HEADER_SIZE + m(a).size;
      BlocksFill(m, a + next, length - next);
    }
  }

  /** The same headers can be read within the `length` bytes from `a` on. */
  ghost predicate Agree(m: Memory, n: Memory, a: nat, length: nat) {
    forall i: nat :: a <= i && i + HEADER_SIZE <= a + length ==> m(i) == n(i)
  }

  lemma {:induction false} AgreeingTiles(m: Memory, n: Memory, a: nat, length: nat)
    requires Tiles(m, a, length) && Agree(m, n, a, length)
    ensures Tiles(n, a, length) && Blocks(n, a, length) == Blocks(m, a, length)
    decreases length
  {
    if length == 0 {
    } else {
      var next := HEADER_SIZE + m(a).size;
      AgreeingTiles(m, n, a + next, length - next);
    }
  }

  // ----- First fit

  predicate FitsIn(h: Header, req: uint32) {
    h.free && req < h.size
  }

  /** Offset of the first header whose block fits, or -1. */
  function FirstFit(blocks: seq<Header>, req: uint32): int {
    if blocks == [] then -1
    else if FitsIn(blocks[0], req) then 0
    else
      var k := FirstFit(blocks[1..], req);
      if k < 0 then -1 else HEADER_SIZE + blocks[0].size + k
  }

  lemma AllocatedNeverFits(size: uint32, req: uint32)
    ensures FirstFit([Header(size, false)], req) == -1
  {
    assert [Header(size, false)][1..] == [];
  }

  /** Size of the first block that fits, or -1. */
  function FirstFitSize(blocks: seq<Header>, req: uint32): int {
    if blocks == [] then -1
    else if FitsIn(blocks[0], req) then blocks[0].size
    else FirstFitSize(blocks[1..], req)
  }

  /** The header of what is left of a block once `req` bytes are cut from it. */
  function Remainder(size: uint32, req: uint32): Header {
    Header(ToUint32(size - req - HEADER_SIZE), true)
  }

  /** The list with the first fitting block replaced by an allocated one and by
      the rest of it. */
  function SplitFirstFit(blocks: seq<Header>, req: uint32): seq<Header> {
    if blocks == [] then []
    else if FitsIn(blocks[0], req) then [Header(req, false), Remainder(blocks[0].size, req)] + blocks[1..]
    else [blocks[0]] + SplitFirstFit(blocks[1..], req)
  }

  lemma {:induction false} FirstFitIsHeader(m: Memory, a: nat, length: nat, req: uint32)
    requires Tiles(m, a, length) && FirstFit(Blocks(m, a, length), req) >= 0
    ensures var k := FirstFit(Blocks(m, a, length), req);
            && IsBlock(m, a, length, k)
            && k + HEADER_SIZE + m(a + k).size <= length
            && FitsIn(m(a + k), req)
            && m(a + k).size == FirstFitSize(Blocks(m, a, length), req)
    decreases length
  {
    if FitsIn(m(a), req) {
    } else {
      var next := HEADER_SIZE + m(a).size;
      FirstFitIsHeader(m, a + next, length - next, req);
    }
  }

  /** A split with room for the second header conserves the total size. */
  lemma {:induction false} SplitConservesSize(blocks: seq<Header>, req: uint32)
    requires FirstFitSize(blocks, req) >= req + HEADER_SIZE
    ensures TotalSize(SplitFirstFit(blocks, req)) == TotalSize(blocks)
  {
    var cut := SplitFirstFit(blocks, req);
    if FitsIn(blocks[0], req) {
      assert cut[1..] == [cut[1]] + blocks[1..];
      assert cut[1..][1..] == blocks[1..];
    } else {
      SplitConservesSize(blocks[1..], req);
      assert cut[1..] == SplitFirstFit(blocks[1..], req);
    }
  }

  /** The search as the code bounds it: it goes on while the offset does not
      exceed the segment's size, so that it may read one header past the last
      block. The offset of the first header it accepts, or -1. */
  function InclusiveWalk(m: Memory, a: nat, length: nat, off: nat, req: uint32): int
    decreases length + HEADER_SIZE - off
  {
    if off > length then -1
    else if FitsIn(m(a + off), req) then off
    else InclusiveWalk(m, a, length, off + HEADER_SIZE + m(a + off).size, req)
  }

  /** From any block on, it finds the first fit; without one, what can be read at
      the segment's size decides. */
  lemma {:induction false} WalkFindsFirstFit(m: Memory, a: nat, length: nat, off: nat, req: uint32)
    requires off <= length && Tiles(m, a + off, length - off)
    ensures var k := FirstFit(Blocks(m, a + off, length - off), req);
            InclusiveWalk(m, a, length, off, req)
            == (if k >= 0 then off + k else if FitsIn(m(a + length), req) then length else -1)
    decreases length - off
  {
    if off == length {
      assert InclusiveWalk(m, a, length, off + HEADER_SIZE + m(a + off).size, req) == -1;
    } else if !FitsIn(m(a + off), req) {
      WalkFindsFirstFit(m, a, length, off + HEADER_SIZE + m(a + off).size, req);
    }
  }

  /** The inclusive bound gives another answer than a strict one exactly when no
      block fits and the bytes at the segment's size read as a header that does. */
  lemma BoundMattersIff(m: Memory, a: nat, length: nat, req: uint32)
    requires Tiles(m, a, length)
    ensures InclusiveWalk(m, a, length, 0, req) != FirstFit(Blocks(m, a, length), req)
       <==> FirstFit(Blocks(m, a, length), req) < 0 && FitsIn(m(a + length), req)
  {
    WalkFindsFirstFit(m, a, length, 0, req);
    if FirstFit(Blocks(m, a, length), req) >= 0 {
      FirstFitIsHeader(m, a, length, req);
    }
  }

  /** The offset after a header at `off`, which the code adds in `uint32_t` and
      keeps in an `int`. */
  function NextOffset(off: nat, size: uint32): int {
    ToInt32(ToUint32(off + HEADER_SIZE + size))
  }

  lemma NextWithoutWrap(off: nat, size: uint32)
    requires off + HEADER_SIZE + size <= INT_MAX
    ensures NextOffset(off, size) == off + HEADER_SIZE + size
  {
  }

  /** All headers that the walk reads lie in the first `top` bytes; and the one
      past the last block, if it is read and not accepted, does not lead back. */
  predicate WalkStaysIn(m: Memory, a: nat, length: nat, req: uint32, top: nat)
    requires Tiles(m, a, length)
  {
    var k := FirstFit(Blocks(m, a, length), req);
    if k >= 0 then a + k + HEADER_SIZE <= top
    else
      && a + length + HEADER_SIZE <= top
      && (!FitsIn(m(a + length), req) ==> NextOffset(length, m(a + length).size) > length)
  }

  // ----- The split in memory

  /** `n` differs from `m` as the walk's two writes at `p` make it differ. */
  ghost predicate SplitAt(m: Memory, n: Memory, p: nat, req: uint32) {
    && n(p) == Header(req, false)
    && n(p + HEADER_SIZE + req) == Remainder(m(p).size, req)
    && forall i: nat :: i + HEADER_SIZE <= p || p + 2 * HEADER_SIZE + req <= i ==> n(i) == m(i)
  }

  lemma SplitFront(m: Memory, n: Memory, a: nat, length: nat, req: uint32)
    requires Tiles(m, a, length) && 0 < length <= INT_MAX && FitsIn(m(a), req)
    requires SplitAt(m, n, a, req)
    ensures Tiles(n, a, length) <==> req + HEADER_SIZE <= m(a).size
    ensures req + HEADER_SIZE <= m(a).size ==>
              Blocks(n, a, length) == SplitFirstFit(Blocks(m, a, length), req)
  {
    var size := m(a).size;
    var second := a + HEADER_SIZE + req;
    var left := length - HEADER_SIZE - req;
    assert Tiles(n, a, length) <==> Tiles(n, second, left);
    if req + HEADER_SIZE <= size {
      var next := HEADER_SIZE + size;
      AgreeingTiles(m, n, a + next, length - next);
      assert n(second).size == size - req - HEADER_SIZE;
      assert Tiles(n, second, left);
      assert Blocks(n, second, left) == [n(second)] + Blocks(n, a + next, length - next);
    } else {
      assert n(second).size == size - req - HEADER_SIZE + 0x1_0000_0000;
      assert !Tiles(n, second, left);
    }
  }

  /** A split of the first fitting block leaves the segment tiled exactly when the
      block has room for the second header; the list of blocks then changes in
      that one place. */
  lemma {:induction false} SplitKeepsTiling(m: Memory, n: Memory, a: nat, length: nat, req: uint32)
    requires Tiles(m, a, length) && length <= INT_MAX
    requires FirstFit(Blocks(m, a, length), req) >= 0
    requires SplitAt(m, n, a + FirstFit(Blocks(m, a, length), req), req)
    ensures Tiles(n, a, length) <==> req + HEADER_SIZE <= FirstFitSize(Blocks(m, a, length), req)
    ensures Tiles(n, a, length) ==>
              Blocks(n, a, length) == SplitFirstFit(Blocks(m, a, length), req)
    decreases length
  {
    FirstFitIsHeader(m, a, length, req);
    if FitsIn(m(a), req) {
      SplitFront(m, n, a, length, req);
    } else {
      var next := HEADER_SIZE + m(a).size;
      SplitKeepsTiling(m, n, a + next, length - next, req);
      assert n(a) == m(a);
    }
  }

  // ----- Single blocks

  /** A header stands `off` bytes after `a` on the walk. */
  predicate IsBlock(m: Memory, a: nat, length: nat, off: nat)
    requires Tiles(m, a, length)
    decreases length
  {
    length > 0 &&
    (off == 0 ||
     var next := HEADER_SIZE + m(a).size;
     next <= off && IsBlock(m, a + next, length - next, off - next))
  }

  lemma {:induction false} BlockWithin(m: Memory, a: nat, length: nat, off: nat)
    requires Tiles(m, a, length) && IsBlock(m, a, length, off)
    ensures off + HEADER_SIZE + m(a + off).size <= length
    decreases length
  {
    if off == 0 {
    } else {
      var next := HEADER_SIZE + m(a).size;
      BlockWithin(m, a + next, length - next, off - next);
    }
  }

  /** Two blocks of a segment do not overlap. */
  lemma {:induction false} BlocksApart(m: Memory, a: nat, length: nat, off: nat, other: nat)
    requires Tiles(m, a, length) && off < other
    requires IsBlock(m, a, length, off) && IsBlock(m, a, length, other)
    ensures off + HEADER_SIZE + m(a + off).size <= other
    decreases length
  {
    if off == 0 {
    } else {
      var next := HEADER_SIZE + m(a).size;
      BlocksApart(m, a + next, length - next, off - next, other - next);
    }
  }

  lemma {:induction false} AgreeingBlocks(m: Memory, n: Memory, a: nat, length: nat, off: nat)
    requires Tiles(m, a, length) && Tiles(n, a, length) && Agree(m, n, a, length)
    requires IsBlock(m, a, length, off)
    ensures IsBlock(n, a, length, off)
    decreases length
  {
    if off == 0 {
    } else {
      var next := HEADER_SIZE + m(a).size;
      AgreeingBlocks(m, n, a + next, length - next, off - next);
    }
  }

  lemma SplitFrontKeepsBlocks(m: Memory, n: Memory, a: nat, length: nat, req: uint32, off: nat)
    requires Tiles(m, a, length) && Tiles(n, a, length) && 0 < length <= INT_MAX
    requires FitsIn(m(a), req) && req + HEADER_SIZE <= m(a).size && SplitAt(m, n, a, req)
    requires off > 0 && IsBlock(m, a, length, off)
    ensures IsBlock(n, a, length, off) && n(a + off) == m(a + off)
  {
    var next := HEADER_SIZE + m(a).size;
    var second, left := a + HEADER_SIZE + req, length - HEADER_SIZE - req;
    AgreeingBlocksAfterSplit(m, n, a, length, req, off);
    assert n(second).size == m(a).size - req - HEADER_SIZE;
    assert IsBlock(n, second, left, off - HEADER_SIZE - req);
  }

  lemma AgreeingBlocksAfterSplit(m: Memory, n: Memory, a: nat, length: nat, req: uint32, off: nat)
    requires Tiles(m, a, length) && 0 < length
    requires req + HEADER_SIZE <= m(a).size && SplitAt(m, n, a, req)
    requires off > 0 && IsBlock(m, a, length, off)
    ensures var next := HEADER_SIZE + m(a).size;
            && next <= off
            && Tiles(n, a + next, length - next)
            && IsBlock(n, a + next, length - next, off - next)
            && n(a + off) == m(a + off)
  {
    var next := HEADER_SIZE + m(a).size;
    AgreeingTiles(m, n, a + next, length - next);
    AgreeingBlocks(m, n, a + next, length - next, off - next);
    BlockWithin(m, a + next, length - next, off - next);
  }

  lemma FirstFitSkips(m: Memory, a: nat, length: nat, req: uint32)
    requires Tiles(m, a, length) && FirstFit(Blocks(m, a, length), req) > 0
    ensures var next := HEADER_SIZE + m(a).size;
            && length > 0 && next <= length
            && FirstFit(Blocks(m, a + next, length - next), req) == FirstFit(Blocks(m, a, length), req) - next >= 0
            && FirstFitSize(Blocks(m, a + next, length - next), req) == FirstFitSize(Blocks(m, a, length), req)
  {
    assert !FitsIn(m(a), req);
  }

  /** A split leaves every block where it was, and all but the one it cuts with
      the header they had. */
  lemma {:induction false} SplitKeepsBlocks(m: Memory, n: Memory, a: nat, length: nat, req: uint32, off: nat)
    requires Tiles(m, a, length) && Tiles(n, a, length) && length <= INT_MAX
    requires FirstFit(Blocks(m, a, length), req) >= 0
    requires req + HEADER_SIZE <= FirstFitSize(Blocks(m, a, length), req)
    requires SplitAt(m, n, a + FirstFit(Blocks(m, a, length), req), req)
    requires IsBlock(m, a, length, off)
    ensures IsBlock(n, a, length, off)
    ensures off != FirstFit(Blocks(m, a, length), req) ==> n(a + off) == m(a + off)
    decreases length
  {
    var k := FirstFit(Blocks(m, a, length), req);
    FirstFitIsHeader(m, a, length, req);
    if off == 0 {
    } else {
      if k == 0 {
        SplitFrontKeepsBlocks(m, n, a, length, req, off);
      } else {
        FirstFitSkips(m, a, length, req);
        assert n(a) == m(a);
        var next := HEADER_SIZE + m(a).size;
        SplitKeepsBlocks(m, n, a + next, length - next, req, off - next);
      }
    }
  }

  // ----- Which header is accepted

  /** The first fit stands at a free block of more than the wanted size, and no
      block before it is one; without a first fit no block at all is. */
  lemma {:induction false} FirstFitByFields(m: Memory, a: nat, length: nat, req: uint32)
    requires Tiles(m, a, length)
    ensures var k := FirstFit(Blocks(m, a, length), req);
            && (k >= 0 ==> IsBlock(m, a, length, k) && m(a + k).free && req < m(a + k).size)
            && (forall off: nat :: IsBlock(m, a, length, off) && (k < 0 || off < k) ==>
                  !(m(a + off).free && req < m(a + off).size))
    decreases length
  {
    if length == 0 || FitsIn(m(a), req) {
    } else {
      var next := HEADER_SIZE + m(a).size;
      FirstFitByFields(m, a + next, length - next, req);
      var k, rest := FirstFit(Blocks(m, a, length), req), FirstFit(Blocks(m, a + next, length - next), req);
      forall off: nat | IsBlock(m, a, length, off) && (k < 0 || off < k)
        ensures !(m(a + off).free && req < m(a + off).size)
      {
        if off > 0 {
          assert IsBlock(m, a + next, length - next, off - next);
        }
      }
    }
  }

  /** The walk may read a header there: in front of a block, or at the segment's size. */
  predicate ReadAt(m: Memory, a: nat, length: nat, off: nat)
    requires Tiles(m, a, length)
  {
    off == length || IsBlock(m, a, length, off)
  }

  /** The walk accepts the first header it may read that is free and has more than the
      wanted size; it answers -1 if none of them is and has. */
  lemma AnswerByFields(m: Memory, a: nat, length: nat, req: uint32)
    requires Tiles(m, a, length)
    ensures var k := InclusiveWalk(m, a, length, 0, req);
            && (k >= 0 ==> ReadAt(m, a, length, k) && m(a + k).free && req < m(a + k).size)
            && (k < 0 ==> k == -1)
            && (forall off: nat :: ReadAt(m, a, length, off) && (k < 0 || off < k) ==>
                  !(m(a + off).free && req < m(a + off).size))
  {
    var f := FirstFit(Blocks(m, a, length), req);
    FirstFitByFields(m, a, length, req);
    WalkFindsFirstFit(m, a, length, 0, req);
    if f >= 0 {
      BlockWithin(m, a, length, f);
    }
  }

  /** So its answer is `k` exactly if such a header is read there and none before it. */
  lemma AcceptedIff(m: Memory, a: nat, length: nat, req: uint32, k: nat)
    requires Tiles(m, a, length)
    ensures InclusiveWalk(m, a, length, 0, req) == k
       <==> && ReadAt(m, a, length, k) && m(a + k).free && req < m(a + k).size
            && forall off: nat :: ReadAt(m, a, length, off) && off < k ==>
                 !(m(a + off).free && req < m(a + off).size)
  {
    AnswerByFields(m, a, length, req);
  }

  lemma RefusedIff(m: Memory, a: nat, length: nat, req: uint32)
    requires Tiles(m, a, length)
    ensures InclusiveWalk(m, a, length, 0, req) == -1
       <==> forall off: nat :: ReadAt(m, a, length, off) ==> !(m(a + off).free && req < m(a + off).size)
  {
    AnswerByFields(m, a, length, req);
  }

  // ----- Allocated blocks

  /** An allocated block of `size` bytes stands `off` bytes into a tiled segment. */
  ghost predicate Held(m: Memory, a: nat, length: nat, off: nat, size: uint32) {
    Tiles(m, a, length) && IsBlock(m, a, length, off) && m(a + off) == Header(size, false)
  }

  /** The first fit of a request has room for the second header. */
  ghost predicate Fits(m: Memory, a: nat, length: nat, req: uint32) {
    && length <= INT_MAX
    && Tiles(m, a, length)
    && FirstFit(Blocks(m, a, length), req) >= 0
    && FirstFitSize(Blocks(m, a, length), req) >= req + HEADER_SIZE
  }

  function FitAddress(m: Memory, a: nat, length: nat, req: uint32): nat
    requires Tiles(m, a, length) && FirstFit(Blocks(m, a, length), req) >= 0
  {
    a + FirstFit(Blocks(m, a, length), req)
  }

  /** Allocated blocks survive a split, with their sizes. */
  lemma HeldAfterSplit(m: Memory, n: Memory, a: nat, length: nat, req: uint32, off: nat, size: uint32)
    requires Fits(m, a, length, req) && Tiles(n, a, length)
    requires SplitAt(m, n, FitAddress(m, a, length, req), req)
    requires Held(m, a, length, off, size)
    ensures Held(n, a, length, off, size)
  {
    FirstFitIsHeader(m, a, length, req);
    SplitKeepsBlocks(m, n, a, length, req, off);
  }

  /** The block that was cut was free, and is now an allocated one of the wanted
      size. */
  lemma CutBlockIsHeld(m: Memory, n: Memory, a: nat, length: nat, req: uint32)
    requires Fits(m, a, length, req) && Tiles(n, a, length)
    requires SplitAt(m, n, FitAddress(m, a, length, req), req)
    ensures Held(n, a, length, FirstFit(Blocks(m, a, length), req), req)
    ensures m(FitAddress(m, a, length, req)).free
  {
    FirstFitIsHeader(m, a, length, req);
    SplitKeepsBlocks(m, n, a, length, req, FirstFit(Blocks(m, a, length), req));
  }

  /** Allocated blocks survive whatever happens outside their segment. */
  lemma HeldIfAgreeing(m: Memory, n: Memory, a: nat, length: nat, off: nat, size: uint32)
    requires Held(m, a, length, off, size) && Tiles(n, a, length) && Agree(m, n, a, length)
    ensures Held(n, a, length, off, size)
  {
    BlockWithin(m, a, length, off);
    AgreeingBlocks(m, n, a, length, off);
  }

  /** Everything that a split writes lies in the block it cuts, apart from every
      allocated one. */
  lemma HeldUnwritten(m: Memory, a: nat, length: nat, req: uint32, off: nat, size: uint32)
    requires Fits(m, a, length, req) && Held(m, a, length, off, size)
    ensures var k := FirstFit(Blocks(m, a, length), req);
            && k + 2 * HEADER_SIZE + req <= length
            && (off + HEADER_SIZE + size <= k || k + 2 * HEADER_SIZE + req <= off)
  {
    var k := FirstFit(Blocks(m, a, length), req);
    FirstFitIsHeader(m, a, length, req);
    if off < k {
      BlocksApart(m, a, length, off, k);
    } else {
      BlocksApart(m, a, length, k, off);
    }
  }

  lemma HeldWithin(m: Memory, a: nat, length: nat, off: nat, size: uint32)
    requires Held(m, a, length, off, size)
    ensures off + HEADER_SIZE + size <= length
  {
    BlockWithin(m, a, length, off);
  }

  lemma HeldApart(m: Memory, a: nat, length: nat, off: nat, size: uint32, off': nat, size': uint32)
    requires Held(m, a, length, off, size) && Held(m, a, length, off', size') && off < off'
    ensures off + HEADER_SIZE + size <= off'
  {
    BlocksApart(m, a, length, off, off');
  }
}
