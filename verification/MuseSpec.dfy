/** The MUSE allocator as a state machine: pages of a byte memory are given to
    segments, one per process, and each segment is a heap of blocks. */
module MuseSpec {
  import opened CTypes
  import opened Bytes
  import opened MuseHeap

  // ----- Headers in bytes

  function HeaderBytes(h: Header): (b: seq<byte>)
    ensures |b| == HEADER_SIZE
  {
    Le32(h.size) + [if h.free then 1 else 0]
  }

  function HeaderAt(mem: seq<byte>, a: nat): Header
    requires a + HEADER_SIZE <= |mem|
  {
    Header(WordAt(mem, a), mem[a + 4] != 0)
  }

  /** `memcpy` of a header into memory. */
  function Put(mem: seq<byte>, a: nat, h: Header): (r: seq<byte>)
    requires a + HEADER_SIZE <= |mem|
    ensures |r| == |mem|
    ensures forall i :: 0 <= i < |mem| && !(a <= i < a + HEADER_SIZE) ==> r[i] == mem[i]
  {
    mem[..a] + HeaderBytes(h) + mem[a + HEADER_SIZE..]
  }

  lemma PutThenRead(mem: seq<byte>, a: nat, h: Header)
    requires a + HEADER_SIZE <= |mem|
    ensures HeaderAt(Put(mem, a, h), a) == h
  {
    var r := Put(mem, a, h);
    assert forall i :: 0 <= i < HEADER_SIZE ==> r[a + i] == HeaderBytes(h)[i];
    assert r[a..a + WORD_SIZE] == Le32(h.size);
    Le32ReadBack(r, a, h.size);
  }

  lemma SameHeader(mem: seq<byte>, other: seq<byte>, a: nat)
    requires a + HEADER_SIZE <= |mem| == |other|
    requires forall i :: a <= i < a + HEADER_SIZE ==> mem[i] == other[i]
    ensures HeaderAt(mem, a) == HeaderAt(other, a)
  {
  }

  /** The headers that can be read from a byte memory. */
  function Reader(mem: seq<byte>): Memory {
    (a: nat) => if a + HEADER_SIZE <= |mem| then HeaderAt(mem, a) else Header(0, false)
  }

  /** A header in memory: four bytes of size, the lowest first, and a flag. */
  lemma HeaderByBytes(mem: seq<byte>, a: nat)
    requires a + 5 <= |mem|
    ensures Reader(mem)(a).size
         == mem[a] + 256 * (mem[a + 1] as int) + 65536 * (mem[a + 2] as int) + 16777216 * (mem[a + 3] as int)
    ensures Reader(mem)(a).free <==> mem[a + 4] != 0
  {
  }

  /** `m` gives the headers of `mem`. */
  ghost predicate Decodes(m: Memory, mem: seq<byte>) {
    forall a: nat {:trigger HeaderAt(mem, a)} :: a + HEADER_SIZE <= |mem| ==> m(a) == HeaderAt(mem, a)
  }

  /** The memories differ at most from `a` up to `b`. */
  predicate SameOutside(mem: seq<byte>, other: seq<byte>, a: int, b: int) {
    |mem| == |other| && forall i :: 0 <= i < |mem| && !(a <= i < b) ==> mem[i] == other[i]
  }

  lemma ReadersAgree(mem: seq<byte>, other: seq<byte>, a: nat, b: nat)
    requires SameOutside(mem, other, a, b)
    ensures forall i: nat :: i + HEADER_SIZE <= a || b <= i ==> Reader(mem)(i) == Reader(other)(i)
  {
    forall i: nat | (i + HEADER_SIZE <= a || b <= i) && i + HEADER_SIZE <= |mem|
      ensures HeaderAt(mem, i) == HeaderAt(other, i)
    {
      SameHeader(mem, other, i);
    }
  }

  /** The two headers that every successful allocation writes: an allocated block
      of `req` bytes at `p`, and a free one behind it. */
  function Cut(mem: seq<byte>, p: nat, req: uint32, rest: Header): (r: seq<byte>)
    requires p + 2 * HEADER_SIZE + req <= |mem|
    ensures SameOutside(mem, r, p, p + 2 * HEADER_SIZE + req)
  {
    Put(Put(mem, p, Header(req, false)), p + HEADER_SIZE + req, rest)
  }

  /** Those headers, byte by byte; nothing else is written. */
  lemma CutByBytes(mem: seq<byte>, p: nat, req: uint32, rest: Header)
    requires p + 10 + req <= |mem|
    ensures var r := Cut(mem, p, req, rest);
            && |r| == |mem|
            && r[p..p + 5] == Le32(req) + [0]
            && r[p + 5 + req..p + 10 + req] == Le32(rest.size) + [if rest.free then 1 else 0]
            && (forall i :: 0 <= i < |mem| && !(p <= i < p + 5) && !(p + 5 + req <= i < p + 10 + req) ==>
                  r[i] == mem[i])
  {
    var first := Put(mem, p, Header(req, false));
    assert first[p..p + 5] == Le32(req) + [0];
    var r := Cut(mem, p, req, rest);
    assert forall i :: p <= i < p + 5 ==> r[i] == first[i];
    assert r[p..p + 5] == first[p..p + 5];
  }

  lemma CutThenRead(mem: seq<byte>, p: nat, req: uint32, rest: Header)
    requires p + 2 * HEADER_SIZE + req <= |mem|
    ensures Reader(Cut(mem, p, req, rest))(p) == Header(req, false)
    ensures Reader(Cut(mem, p, req, rest))(p + HEADER_SIZE + req) == rest
    ensures forall i: nat :: i + HEADER_SIZE <= p || p + 2 * HEADER_SIZE + req <= i ==>
              Reader(mem)(i) == Reader(Cut(mem, p, req, rest))(i)
  {
    var first := Put(mem, p, Header(req, false));
    PutThenRead(mem, p, Header(req, false));
    PutThenRead(first, p + HEADER_SIZE + req, rest);
    SameHeader(first, Cut(mem, p, req, rest), p);
    ReadersAgree(mem, Cut(mem, p, req, rest), p, p + 2 * HEADER_SIZE + req);
  }

  /** The headers of an allocation in an existing segment are those of a split. */
  lemma CutIsSplit(mem: seq<byte>, p: nat, req: uint32)
    requires p + 2 * HEADER_SIZE + req <= |mem|
    ensures SplitAt(Reader(mem), Reader(Cut(mem, p, req, Remainder(Reader(mem)(p).size, req))), p, req)
  {
    CutThenRead(mem, p, req, Remainder(Reader(mem)(p).size, req));
  }

  // ----- The allocator's state

  /** A stretch of memory from `start` on, `length` being its `tamanio`; empty if
      memory had run out when its process came. */
  datatype Segment = Empty | Segment(start: nat, length: nat)

  /** `used` frames of `page` bytes, out of `total`, are taken. */
  datatype State = State(page: nat, total: nat, mem: seq<byte>, used: nat, segments: map<int, Segment>)

  predicate Below(g: Segment, end: nat) {
    g.Segment? ==> 0 < g.length && g.start + g.length < end
  }

  predicate Disjoint(g: Segment, h: Segment) {
    g.Segment? && h.Segment? ==> g.start + g.length < h.start || h.start + h.length < g.start
  }

  predicate Tiled(mem: seq<byte>, g: Segment) {
    g.Segment? ==> Tiles(Reader(mem), g.start, g.length)
  }

  predicate Owns(s: State, id: int) {
    id in s.segments && s.segments[id].Segment?
  }

  /** Size of `n` pages together. */
  function PageBytes(n: nat, page: nat): nat {
    if n == 0 then 0 else PageBytes(n - 1, page) + page
  }

  /** First byte after the frames in use. */
  function Top(s: State): nat {
    PageBytes(s.used, s.page)
  }

  /** Segments lie apart from each other within the frames in use, and the
      headers of each lead from its first byte to its size. */
  ghost predicate Sound(s: State) {
    && s.page > 0 && s.used <= s.total && |s.mem| <= INT_MAX
    && (forall id :: id in s.segments ==>
          && Below(s.segments[id], Top(s))
          && Below(s.segments[id], |s.mem|)
          && Tiled(s.mem, s.segments[id]))
    && (forall i, j :: i in s.segments && j in s.segments && i != j ==>
          Disjoint(s.segments[i], s.segments[j]))
  }

  /** Bytes left over in the last page of `size` bytes; never none, since the C
      code takes one page more than the quotient. */
  function SpareOf(page: nat, size: nat): (spare: nat)
    requires page > 0
    ensures 1 <= spare <= page
  {
    if size < page then page - size else SpareOf(page, size - page)
  }

  /** Pages taken for `size` bytes. */
  function PagesOf(page: nat, size: nat): (n: nat)
    requires page > 0
    ensures n > 0
  {
    if size < page then 1 else PagesOf(page, size - page) + 1
  }

  /** Bytes left over in the pages of a new segment once the first block stands. */
  function Spare(page: nat, req: uint32): (spare: nat)
    requires page > 0
    ensures 1 <= spare <= page
  {
    SpareOf(page, req + HEADER_SIZE)
  }

  /** `cantidad_paginas_necesarias` */
  function PagesFor(page: nat, req: uint32): (n: nat)
    requires page > 0
    ensures n > 0
  {
    PagesOf(page, req + HEADER_SIZE)
  }

  lemma {:induction false} PageBytesIsProduct(n: nat, page: nat)
    ensures PageBytes(n, page) == n * page
  {
    if n == 0 {
    } else {
      PageBytesIsProduct(n - 1, page);
      assert (n - 1) * page + page == n * page;
    }
  }

  lemma {:induction false} PageBytesAdd(n: nat, k: nat, page: nat)
    ensures PageBytes(n + k, page) == PageBytes(n, page) + PageBytes(k, page)
  {
    if k == 0 {
    } else {
      PageBytesAdd(n, k - 1, page);
    }
  }

  /** The pages taken hold the bytes and what is left over. */
  lemma {:induction false} PagesHold(page: nat, size: nat)
    requires page > 0
    ensures PageBytes(PagesOf(page, size), page) == size + SpareOf(page, size)
  {
    if size < page {
    } else {
      PagesHold(page, size - page);
    }
  }

  /** Counting pages is C's integer division and one more. */
  lemma {:induction false} PagesOfIsQuotient(page: nat, size: nat)
    requires page > 0
    ensures PagesOf(page, size) == size / page + 1
  {
    if size < page {
      QuotientIs(size, page, 0, size);
    } else {
      PagesOfIsQuotient(page, size - page);
      QuotientIs(size, page, (size - page) / page + 1, (size - page) % page);
    }
  }

  /** `tamanio` of a new segment: the last byte of its pages is not counted. */
  function LengthFor(page: nat, req: uint32): nat
    requires page > 0
  {
    req + HEADER_SIZE + Spare(page, req) - 1
  }

  predicate Available(s: State, req: uint32)
    requires s.page > 0
  {
    s.used + PagesFor(s.page, req) <= s.total
  }

  /** The pages of a new process's segment are counted in an int, and the second
      header, the last bytes written, is within `memoria`. */
  predicate NewInBounds(s: State, req: uint32) {
    && s.page > 0
    && (Available(s, req) ==>
          && LengthFor(s.page, req) < INT_MAX
          && Top(s) + 2 * HEADER_SIZE + req <= |s.mem|)
  }

  /** `asignar_dir_memoria`: a segment of its own for a new process, answered
      with an address; or an empty one if frames have run out. */
  function NewSegment(s: State, id: int, req: uint32): (State, int)
    requires NewInBounds(s, req)
  {
    if !Available(s, req) then (s.(segments := s.segments[id := Empty]), -1)
    else
      var rest := Header(ToUint32(Spare(s.page, req) - HEADER_SIZE - 1), true);
      (s.(mem := Cut(s.mem, Top(s), req, rest),
          used := s.used + PagesFor(s.page, req),
          segments := s.segments[id := Segment(Top(s), LengthFor(s.page, req))]),
       Top(s) + HEADER_SIZE)
  }

  predicate Walkable(s: State, id: int) {
    Owns(s, id) && Tiled(s.mem, s.segments[id])
  }

  function SegmentBlocks(s: State, id: int): seq<Header>
    requires Walkable(s, id)
  {
    Blocks(Reader(s.mem), s.segments[id].start, s.segments[id].length)
  }

  /** Offset of the first fitting block of a process's segment, or -1. */
  function BlockFitOf(s: State, id: int, req: uint32): int
    requires Walkable(s, id)
  {
    FirstFit(SegmentBlocks(s, id), req)
  }

  function BlockSizeOf(s: State, id: int, req: uint32): int
    requires Walkable(s, id)
  {
    FirstFitSize(SegmentBlocks(s, id), req)
  }

  /** What the walk reads past the last block. */
  function StrayHeader(s: State, id: int): Header
    requires Owns(s, id)
  {
    Reader(s.mem)(s.segments[id].start + s.segments[id].length)
  }

  /** Offset of the header that the walk accepts, or -1. */
  function FitOf(s: State, id: int, req: uint32): int
    requires Walkable(s, id)
  {
    InclusiveWalk(Reader(s.mem), s.segments[id].start, s.segments[id].length, 0, req)
  }

  lemma FitIsBlockOrStray(s: State, id: int, req: uint32)
    requires Walkable(s, id)
    ensures FitOf(s, id, req)
         == (if BlockFitOf(s, id, req) >= 0 then BlockFitOf(s, id, req)
             else if FitsIn(StrayHeader(s, id), req) then s.segments[id].length else -1)
  {
    WalkFindsFirstFit(Reader(s.mem), s.segments[id].start, s.segments[id].length, 0, req);
  }

  /** It is the first header the walk may read that is free and has more than the
      wanted size. */
  lemma FitByFields(s: State, id: int, req: uint32)
    requires Walkable(s, id)
    ensures var k, m, g := FitOf(s, id, req), Reader(s.mem), s.segments[id];
            && k >= -1
            && (k >= 0 ==> ReadAt(m, g.start, g.length, k) && m(g.start + k).free && req < m(g.start + k).size)
            && (forall off: nat :: ReadAt(m, g.start, g.length, off) && (k < 0 || off < k) ==>
                  !(m(g.start + off).free && req < m(g.start + off).size))
  {
    AnswerByFields(Reader(s.mem), s.segments[id].start, s.segments[id].length, req);
  }

  /** The walk stays within `memoria`, and so does the second header of a cut. */
  predicate CutInBounds(s: State, id: int, req: uint32) {
    && Walkable(s, id)
    && WalkStaysIn(Reader(s.mem), s.segments[id].start, s.segments[id].length, req, |s.mem|)
    && (FitOf(s, id, req) >= 0 ==>
          s.segments[id].start + FitOf(s, id, req) + 2 * HEADER_SIZE + req <= |s.mem|)
  }

  /** `recorer_segmento_espacio_libre`: a cut at the first header that the walk
      accepts, answered with an offset in the process's segment. */
  function CutSegment(s: State, id: int, req: uint32): (State, int)
    requires CutInBounds(s, id, req)
  {
    var k := FitOf(s, id, req);
    if k < 0 then (s, -1)
    else
      var p := s.segments[id].start + k;
      (s.(mem := Cut(s.mem, p, req, Remainder(Reader(s.mem)(p).size, req))), k + HEADER_SIZE)
  }

  /** The answer leads behind the first header the walk may read that is free and has
      more than the wanted size; it is -1 if there is none. */
  ghost predicate AnswersWalk(s: State, id: int, req: uint32, answer: int)
    requires Walkable(s, id)
  {
    var m, g := Reader(s.mem), s.segments[id];
    && (answer == -1 || answer >= 5)
    && (answer >= 5 ==>
          && ReadAt(m, g.start, g.length, answer - 5)
          && m(g.start + answer - 5).free && req < m(g.start + answer - 5).size)
    && (forall off: nat :: ReadAt(m, g.start, g.length, off) && (answer == -1 || off < answer - 5) ==>
          !(m(g.start + off).free && req < m(g.start + off).size))
  }

  lemma AnswerInSegment(s: State, id: int, req: uint32)
    requires CutInBounds(s, id, req)
    ensures AnswersWalk(s, id, req, CutSegment(s, id, req).1)
  {
    FitByFields(s, id, req);
  }

  /** What the C code needs to stay within `memoria` and its page list: the
      request is an int, the headers it reads and writes are inside, and the
      process has pages to walk. */
  predicate InBounds(s: State, id: int, req: uint32) {
    && req + HEADER_SIZE <= INT_MAX
    && if id in s.segments then CutInBounds(s, id, req) else NewInBounds(s, req)
  }

  /** The server's `malloc`: the new state, and the answer. */
  function Alloc(s: State, id: int, req: uint32): (State, int)
    requires InBounds(s, id, req)
  {
    if id in s.segments then CutSegment(s, id, req) else NewSegment(s, id, req)
  }

  predicate Succeeds(s: State, id: int, req: uint32)
    requires InBounds(s, id, req)
  {
    if id in s.segments then FitOf(s, id, req) >= 0 else Available(s, req)
  }

  /** Offset in its segment of the block that a successful request is given. */
  function GrantOf(s: State, id: int, req: uint32): nat
    requires InBounds(s, id, req) && Succeeds(s, id, req)
  {
    if id in s.segments then FitOf(s, id, req) else 0
  }

  /** Address of the header of that block. */
  function Target(s: State, id: int, req: uint32): nat
    requires InBounds(s, id, req) && Succeeds(s, id, req)
  {
    if id in s.segments then s.segments[id].start + FitOf(s, id, req) else Top(s)
  }

  /** What remains of the last page of a new segment, which is a real frame, holds
      a header or (since its last byte is never used) is nothing at all; in the
      latter case the header written all the same is within `memoria`. */
  predicate NewHasRoom(s: State, req: uint32) {
    && s.page > 0
    && (Available(s, req) ==>
          && Top(s) + LengthFor(s.page, req) < |s.mem|
          && (Spare(s.page, req) >= 6 || (Spare(s.page, req) == 1 && Top(s) + 2 * HEADER_SIZE + req <= |s.mem|)))
  }

  /** What remains of the first block that fits holds a header; if none fits,
      neither does what is read past the last one, and the walk ends there. */
  predicate CutHasRoom(s: State, id: int, req: uint32) {
    && Walkable(s, id)
    && WalkStaysIn(Reader(s.mem), s.segments[id].start, s.segments[id].length, req, |s.mem|)
    && if BlockFitOf(s, id, req) >= 0 then BlockSizeOf(s, id, req) >= req + HEADER_SIZE
       else !FitsIn(StrayHeader(s, id), req)
  }

  /** The condition under which a request leaves the heap in order. */
  predicate HasRoom(s: State, id: int, req: uint32) {
    && req + HEADER_SIZE <= INT_MAX
    && if id in s.segments then CutHasRoom(s, id, req) else NewHasRoom(s, req)
  }

  // ----- The layout of a new segment

  /** The layout of a segment with spare bytes is the split of one free block that
      would fill it. */
  lemma LayoutIsSplit(after: Memory, a: nat, length: nat, req: uint32)
    requires req + HEADER_SIZE < length <= INT_MAX
    requires after(a) == Header(req, false)
    requires after(a + HEADER_SIZE + req) == Remainder(length - HEADER_SIZE, req)
    ensures Tiles(after, a, length) <==> req + 2 * HEADER_SIZE <= length
    ensures Tiles(after, a, length) ==>
              Blocks(after, a, length) == [Header(req, false), Header(length - 2 * HEADER_SIZE - req, true)]
  {
    var whole: Memory := (i: nat) => if i == a then Header(length - HEADER_SIZE, true) else after(i);
    assert Tiles(whole, a, length);
    assert Blocks(whole, a, length) == [whole(a)];
    SplitFront(whole, after, a, length, req);
  }

  /** A fresh segment is tiled exactly when the spare bytes of its last page are
      one or at least six. */
  lemma FirstLayoutTiles(after: Memory, a: nat, length: nat, req: uint32, spare: nat)
    requires length == HEADER_SIZE + req + spare - 1 <= INT_MAX && spare > 0
    requires after(a) == Header(req, false)
    requires after(a + HEADER_SIZE + req) == Header(ToUint32(spare - HEADER_SIZE - 1), true)
    ensures Tiles(after, a, length) <==> spare == 1 || spare >= 6
    ensures spare >= 6 ==>
              Blocks(after, a, length) == [Header(req, false), Header(spare - HEADER_SIZE - 1, true)]
  {
    if spare > 1 {
      LayoutIsSplit(after, a, length, req);
    } else {
      assert Tiles(after, a + HEADER_SIZE + req, 0);
    }
  }
}
