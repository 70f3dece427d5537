/** What allocation requests do to a sound memory, one by one and in sequence. */
module MuseRuns {
  import opened CTypes
  import opened Bytes
  import opened MuseHeap
  import opened MuseSpec

  // ----- Segments

  /** A segment keeps its tiling when nothing is written inside it. */
  lemma UntouchedSegment(mem: seq<byte>, after: seq<byte>, g: Segment, from: nat, to: nat)
    requires g.Segment? && Tiled(mem, g) && SameOutside(mem, after, from, to)
    requires g.start + g.length <= from || to <= g.start
    ensures Tiled(after, g)
    ensures Agree(Reader(mem), Reader(after), g.start, g.length)
  {
    ReadersAgree(mem, after, from, to);
    AgreeingTiles(Reader(mem), Reader(after), g.start, g.length);
  }

  /** A new segment starts where the used frames ended, and is tiled exactly with
      one spare byte or at least six; with six or more it consists of the allocated
      block and a free one. */
  lemma NewSegmentTiled(s: State, id: int, req: uint32)
    requires Sound(s) && InBounds(s, id, req) && id !in s.segments && Succeeds(s, id, req)
    ensures var r, g := Alloc(s, id, req).0, Segment(Top(s), LengthFor(s.page, req));
            && r.segments == s.segments[id := g]
            && (Tiled(r.mem, g) <==> Spare(s.page, req) == 1 || Spare(s.page, req) >= 6)
            && Reader(r.mem)(g.start) == Header(req, false)
            && (Spare(s.page, req) >= 6 ==>
                  SegmentBlocks(r, id) == [Header(req, false), Header(Spare(s.page, req) - 6, true)])
  {
    var spare, length := Spare(s.page, req), LengthFor(s.page, req);
    var rest := Header(ToUint32(spare - HEADER_SIZE - 1), true);
    var after := Cut(s.mem, Top(s), req, rest);
    assert Alloc(s, id, req).0.mem == after;
    FreshCutTiles(s.mem, Top(s), length, req, spare);
  }

  lemma FreshCutTiles(mem: seq<byte>, a: nat, length: nat, req: uint32, spare: nat)
    requires a + 2 * HEADER_SIZE + req <= |mem|
    requires length == HEADER_SIZE + req + spare - 1 <= INT_MAX && spare > 0
    ensures var after := Reader(Cut(mem, a, req, Header(ToUint32(spare - HEADER_SIZE - 1), true)));
            && after(a) == Header(req, false)
            && (Tiles(after, a, length) <==> spare == 1 || spare >= 6)
            && (spare >= 6 ==>
                  Blocks(after, a, length) == [Header(req, false), Header(spare - HEADER_SIZE - 1, true)])
  {
    var rest := Header(ToUint32(spare - HEADER_SIZE - 1), true);
    CutThenRead(mem, a, req, rest);
    FirstLayoutTiles(Reader(Cut(mem, a, req, rest)), a, length, req, spare);
  }

  /** The frames of a new segment end above all others. */
  lemma TopAfterNewSegment(s: State, id: int, req: uint32)
    requires Sound(s) && InBounds(s, id, req) && id !in s.segments && Succeeds(s, id, req)
    ensures Top(Alloc(s, id, req).0) == Top(s) + LengthFor(s.page, req) + 1
  {
    PageBytesAdd(s.used, PagesFor(s.page, req), s.page);
    PagesHold(s.page, req + HEADER_SIZE);
  }

  lemma FirstFitCut(mem: seq<byte>, a: nat, length: nat, req: uint32, p: nat)
    requires Tiles(Reader(mem), a, length) && length <= INT_MAX
    requires FirstFit(Blocks(Reader(mem), a, length), req) >= 0
    requires p == FitAddress(Reader(mem), a, length, req) && p + 2 * HEADER_SIZE + req <= |mem|
    ensures var m := Reader(mem);
            var n := Reader(Cut(mem, p, req, Remainder(m(p).size, req)));
            && SplitAt(m, n, p, req)
            && (Tiles(n, a, length) <==> FirstFitSize(Blocks(m, a, length), req) >= req + HEADER_SIZE)
            && (Tiles(n, a, length) ==> Blocks(n, a, length) == SplitFirstFit(Blocks(m, a, length), req))
  {
    CutIsSplit(mem, p, req);
    SplitKeepsTiling(Reader(mem), Reader(Cut(mem, p, req, Remainder(Reader(mem)(p).size, req))), a, length, req);
  }

  lemma AllocInSegment(s: State, id: int, req: uint32)
    requires InBounds(s, id, req) && id in s.segments && Succeeds(s, id, req)
    ensures var p := Target(s, id, req);
            Alloc(s, id, req).0 == s.(mem := Cut(s.mem, p, req, Remainder(Reader(s.mem)(p).size, req)))
    ensures Alloc(s, id, req).1 == GrantOf(s, id, req) + HEADER_SIZE
  {
  }

  /** A block cut in a segment keeps it tiled exactly when the rest of it holds the
      second header, and then changes the list of blocks in one place. */
  lemma OldSegmentTiled(s: State, id: int, req: uint32)
    requires Sound(s) && InBounds(s, id, req) && id in s.segments && BlockFitOf(s, id, req) >= 0
    ensures Succeeds(s, id, req) && GrantOf(s, id, req) == BlockFitOf(s, id, req)
    ensures var r := Alloc(s, id, req).0;
            && r.segments == s.segments
            && (Walkable(r, id) <==> BlockSizeOf(s, id, req) >= req + HEADER_SIZE)
            && (Walkable(r, id) ==> SegmentBlocks(r, id) == SplitFirstFit(SegmentBlocks(s, id), req))
  {
    var g := s.segments[id];
    FitIsBlockOrStray(s, id, req);
    assert Below(g, |s.mem|);
    AllocInSegment(s, id, req);
    FirstFitCut(s.mem, g.start, g.length, req, g.start + FitOf(s, id, req));
  }

  // ----- Grants, in bytes

  lemma FirstGrantInNumbers(s: State, req: uint32)
    requires s.page > 0
    ensures PagesFor(s.page, req) == (req + 5) / s.page + 1
    ensures Top(s) == s.used * s.page
    ensures LengthFor(s.page, req) == ((req + 5) / s.page + 1) * s.page - 1
    ensures Spare(s.page, req) == ((req + 5) / s.page + 1) * s.page - req - 5
  {
    PagesOfIsQuotient(s.page, req + HEADER_SIZE);
    PagesHold(s.page, req + HEADER_SIZE);
    PageBytesIsProduct(PagesFor(s.page, req), s.page);
    PageBytesIsProduct(s.used, s.page);
  }

  /** The first request of a process, in numbers: it takes one page more than the
      quotient, right behind the frames in use, or is refused if not as many are left. */
  lemma FirstGrant(s: State, id: int, req: uint32)
    requires InBounds(s, id, req) && id !in s.segments
    ensures var needed := (req + 5) / s.page + 1;
            var (r, answer) := Alloc(s, id, req);
            && r.page == s.page && r.total == s.total
            && (s.used + needed > s.total ==>
                  answer == -1 && r.mem == s.mem && r.used == s.used && r.segments == s.segments[id := Empty])
            && (s.used + needed <= s.total ==>
                  && answer == s.used * s.page + 5
                  && r.used == s.used + needed
                  && r.segments == s.segments[id := Segment(s.used * s.page, needed * s.page - 1)])
  {
    FirstGrantInNumbers(s, req);
  }

  /** And in bytes: a header of the wanted size at the first page, and behind that block
      a free one of what its pages spare, less six; nothing else is written. */
  lemma FirstGrantWrites(s: State, id: int, req: uint32)
    requires InBounds(s, id, req) && id !in s.segments && Succeeds(s, id, req)
    ensures var r, p := Alloc(s, id, req).0, Alloc(s, id, req).1 - 5;
            && |r.mem| == |s.mem| && 0 <= p && p + 10 + req <= |s.mem|
            && r.mem[p..p + 5] == Le32(req) + [0]
            && r.mem[p + 5 + req..p + 10 + req]
               == Le32(ToUint32(((req + 5) / s.page + 1) * s.page - req - 11)) + [1]
            && (forall i :: 0 <= i < |s.mem| && !(p <= i < p + 5) && !(p + 5 + req <= i < p + 10 + req) ==>
                  r.mem[i] == s.mem[i])
  {
    FirstGrantInNumbers(s, req);
    CutByBytes(s.mem, Top(s), req, Header(ToUint32(Spare(s.page, req) - HEADER_SIZE - 1), true));
  }

  /** Where a further request is granted: behind the first header the walk may read
      that is free and has more than the wanted size, or nowhere if there is none. */
  lemma FurtherGrant(s: State, id: int, req: uint32)
    requires InBounds(s, id, req) && id in s.segments
    ensures Walkable(s, id)
    ensures var answer, m, g := Alloc(s, id, req).1, Reader(s.mem), s.segments[id];
            && (answer == -1 || answer >= 5)
            && (answer >= 5 ==>
                  && ReadAt(m, g.start, g.length, answer - 5)
                  && m(g.start + answer - 5).free && req < m(g.start + answer - 5).size)
            && (forall off: nat :: ReadAt(m, g.start, g.length, off) && (answer == -1 || off < answer - 5) ==>
                  !(m(g.start + off).free && req < m(g.start + off).size))
  {
    AnswerInSegment(s, id, req);
  }

  /** What it writes: that header is marked as taken with the wanted size, and the rest
      of its size less five goes to a free header behind the block. A refused request
      changes nothing. */
  lemma FurtherGrantWrites(s: State, id: int, req: uint32)
    requires InBounds(s, id, req) && id in s.segments
    ensures var (r, answer) := Alloc(s, id, req);
            && r.page == s.page && r.total == s.total && r.used == s.used && r.segments == s.segments
            && (answer == -1 ==> r.mem == s.mem)
            && (answer >= 5 ==>
                  var p := s.segments[id].start + answer - 5;
                  && |r.mem| == |s.mem| && p + 10 + req <= |s.mem|
                  && r.mem[p..p + 5] == Le32(req) + [0]
                  && r.mem[p + 5 + req..p + 10 + req] == Le32(ToUint32(Reader(s.mem)(p).size - req - 5)) + [1]
                  && (forall i :: 0 <= i < |s.mem| && !(p <= i < p + 5) && !(p + 5 + req <= i < p + 10 + req) ==>
                        r.mem[i] == s.mem[i]))
  {
    if Succeeds(s, id, req) {
      var p := Target(s, id, req);
      AllocInSegment(s, id, req);
      CutByBytes(s.mem, p, req, Remainder(Reader(s.mem)(p).size, req));
    }
  }

  // ----- Room

  /** With room, a cut is made in a block of the segment. */
  lemma CutWithRoom(s: State, id: int, req: uint32)
    requires Sound(s) && InBounds(s, id, req) && HasRoom(s, id, req) && id in s.segments && Succeeds(s, id, req)
    ensures var m, n, g := Reader(s.mem), Reader(Alloc(s, id, req).0.mem), s.segments[id];
            && Fits(m, g.start, g.length, req) && Tiles(n, g.start, g.length)
            && FitAddress(m, g.start, g.length, req) == Target(s, id, req)
            && SplitAt(m, n, Target(s, id, req), req)
    ensures Alloc(s, id, req).0.segments == s.segments
  {
    var g := s.segments[id];
    FitIsBlockOrStray(s, id, req);
    assert Below(g, |s.mem|);
    AllocInSegment(s, id, req);
    FirstFitCut(s.mem, g.start, g.length, req, Target(s, id, req));
  }

  /** A request that has room in a sound memory stays within bounds. */
  lemma RoomIsInBounds(s: State, id: int, req: uint32)
    requires Sound(s) && HasRoom(s, id, req)
    ensures InBounds(s, id, req)
    ensures id in s.segments ==> FitOf(s, id, req) == BlockFitOf(s, id, req)
  {
    if id in s.segments {
      var g := s.segments[id];
      FitIsBlockOrStray(s, id, req);
      if BlockFitOf(s, id, req) >= 0 {
        FirstFitIsHeader(Reader(s.mem), g.start, g.length, req);
        assert Below(g, |s.mem|);
      }
    }
  }

  /** If the frames of a new segment are real, its second header is within `memoria`
      exactly when the last page spares the bytes for it or enough of `memoria`
      follows that page. */
  lemma SecondHeaderInside(s: State, req: uint32)
    requires s.page > 0 && |s.mem| <= INT_MAX && Available(s, req)
    requires PageBytes(s.used + PagesFor(s.page, req), s.page) <= |s.mem|
    ensures var left := |s.mem| - PageBytes(s.used + PagesFor(s.page, req), s.page);
            NewInBounds(s, req) <==> Spare(s.page, req) >= HEADER_SIZE || left >= HEADER_SIZE - Spare(s.page, req)
  {
    PageBytesAdd(s.used, PagesFor(s.page, req), s.page);
    PagesHold(s.page, req + HEADER_SIZE);
  }

  /** With room, all writes of a request miss every other process's segment. */
  lemma WritesMissOthers(s: State, id: int, req: uint32, other: int)
    requires Sound(s) && InBounds(s, id, req) && HasRoom(s, id, req) && Succeeds(s, id, req)
    requires other != id && Owns(s, other)
    ensures var g, p := s.segments[other], Target(s, id, req);
            g.start + g.length <= p || p + 2 * HEADER_SIZE + req <= g.start
  {
    if id in s.segments {
      var h := s.segments[id];
      FitIsBlockOrStray(s, id, req);
      FirstFitIsHeader(Reader(s.mem), h.start, h.length, req);
      assert Disjoint(h, s.segments[other]);
    } else {
      assert Below(s.segments[other], Top(s));
    }
  }

  lemma OthersStayTiled(s: State, id: int, req: uint32, other: int)
    requires Sound(s) && InBounds(s, id, req) && HasRoom(s, id, req) && Succeeds(s, id, req)
    requires other != id && Owns(s, other)
    ensures var g, r := s.segments[other], Alloc(s, id, req).0;
            Tiled(r.mem, g) && Agree(Reader(s.mem), Reader(r.mem), g.start, g.length)
  {
    var p := Target(s, id, req);
    WritesMissOthers(s, id, req, other);
    UntouchedSegment(s.mem, Alloc(s, id, req).0.mem, s.segments[other], p, p + 2 * HEADER_SIZE + req);
  }

  // ----- Soundness

  lemma RoomMakesSound(s: State, id: int, req: uint32)
    requires Sound(s) && HasRoom(s, id, req)
    ensures InBounds(s, id, req) && Sound(Alloc(s, id, req).0)
  {
    RoomIsInBounds(s, id, req);
    if Succeeds(s, id, req) {
      var r := Alloc(s, id, req).0;
      forall other | other != id && Owns(s, other) ensures Tiled(r.mem, s.segments[other]) {
        OthersStayTiled(s, id, req, other);
      }
      if id in s.segments {
        OldSegmentTiled(s, id, req);
      } else {
        NewSegmentTiled(s, id, req);
        TopAfterNewSegment(s, id, req);
        forall other | other in s.segments ensures Disjoint(s.segments[other], r.segments[id]) {
          assert Below(s.segments[other], Top(s));
        }
      }
    }
  }

  // ----- Allocations

  /** Process `id` holds an allocated block of `size` bytes, `off` bytes into its
      segment. */
  ghost predicate Holds(s: State, id: int, off: nat, size: uint32) {
    Owns(s, id) && Held(Reader(s.mem), s.segments[id].start, s.segments[id].length, off, size)
  }

  lemma HoldsWithin(s: State, id: int, off: nat, size: uint32)
    requires Sound(s) && Holds(s, id, off, size)
    ensures off + HEADER_SIZE + size <= s.segments[id].length
    ensures s.segments[id].start + off + HEADER_SIZE + size <= |s.mem|
  {
    MuseHeap.HeldWithin(Reader(s.mem), s.segments[id].start, s.segments[id].length, off, size);
    assert Below(s.segments[id], |s.mem|);
  }

  /** Header and contents of a block, byte by byte. */
  ghost function BytesOf(s: State, id: int, off: nat, size: uint32): seq<byte>
    requires Sound(s) && Holds(s, id, off, size)
  {
    HoldsWithin(s, id, off, size);
    s.mem[s.segments[id].start + off..s.segments[id].start + off + HEADER_SIZE + size]
  }

  lemma FirstAnswerIsHeld(s: State, id: int, req: uint32)
    requires Sound(s) && InBounds(s, id, req) && HasRoom(s, id, req) && Succeeds(s, id, req) && id !in s.segments
    ensures Holds(Alloc(s, id, req).0, id, 0, req)
  {
    NewSegmentTiled(s, id, req);
  }

  lemma CutAnswerIsHeld(s: State, id: int, req: uint32)
    requires Sound(s) && InBounds(s, id, req) && HasRoom(s, id, req) && Succeeds(s, id, req) && id in s.segments
    ensures Holds(Alloc(s, id, req).0, id, GrantOf(s, id, req), req)
  {
    var g := s.segments[id];
    CutWithRoom(s, id, req);
    CutBlockIsHeld(Reader(s.mem), Reader(Alloc(s, id, req).0.mem), g.start, g.length, req);
  }

  lemma TargetWasFree(s: State, id: int, req: uint32)
    requires Sound(s) && InBounds(s, id, req) && Succeeds(s, id, req) && id in s.segments
    ensures forall size :: !Holds(s, id, GrantOf(s, id, req), size)
  {
    FitByFields(s, id, req);
  }

  /** A successful request with room is granted an allocated block of exactly the
      wanted size in the process's segment, which nobody held before. */
  lemma GrantIsHeld(s: State, id: int, req: uint32)
    requires Sound(s) && InBounds(s, id, req) && HasRoom(s, id, req) && Succeeds(s, id, req)
    ensures Holds(Alloc(s, id, req).0, id, GrantOf(s, id, req), req)
    ensures forall size :: !Holds(s, id, GrantOf(s, id, req), size)
  {
    if id in s.segments {
      CutAnswerIsHeld(s, id, req);
      TargetWasFree(s, id, req);
    } else {
      FirstAnswerIsHeld(s, id, req);
    }
  }

  /** It is answered with the first byte after that block's header: its address for a
      new segment, its offset in the segment otherwise. */
  lemma AnswerIsHeld(s: State, id: int, req: uint32)
    requires Sound(s) && InBounds(s, id, req) && HasRoom(s, id, req) && Succeeds(s, id, req)
    ensures Holds(Alloc(s, id, req).0, id, GrantOf(s, id, req), req)
    ensures Alloc(s, id, req).1 == GrantOf(s, id, req) + HEADER_SIZE + (if id in s.segments then 0 else Top(s))
  {
    GrantIsHeld(s, id, req);
    if id in s.segments {
      AllocInSegment(s, id, req);
    }
  }

  /** The memory is sound after the request, and what it was granted is a block of
      the process's own segment. */
  ghost predicate KeepsOrder(s: State, id: int, req: uint32)
    requires InBounds(s, id, req)
  {
    && Sound(Alloc(s, id, req).0)
    && (Succeeds(s, id, req) ==> Holds(Alloc(s, id, req).0, id, GrantOf(s, id, req), req))
  }

  lemma NoRoomNoOrder(s: State, id: int, req: uint32)
    requires Sound(s) && InBounds(s, id, req) && !HasRoom(s, id, req)
    ensures !KeepsOrder(s, id, req)
  {
    var r := Alloc(s, id, req).0;
    if id !in s.segments {
      NewSegmentTiled(s, id, req);
      assert !Below(r.segments[id], |r.mem|) || !Tiled(r.mem, r.segments[id]);
    } else if BlockFitOf(s, id, req) >= 0 {
      OldSegmentTiled(s, id, req);
      assert !Walkable(r, id);
    } else {
      var g := s.segments[id];
      FitIsBlockOrStray(s, id, req);
      if Holds(r, id, g.length, req) {
        MuseHeap.HeldWithin(Reader(r.mem), g.start, g.length, g.length, req);
      }
    }
  }

  /** A request keeps the memory in order exactly when it has room; the code does
      not check that. */
  lemma OrderIffRoom(s: State, id: int, req: uint32)
    requires Sound(s) && InBounds(s, id, req)
    ensures KeepsOrder(s, id, req) <==> HasRoom(s, id, req)
  {
    if HasRoom(s, id, req) {
      RoomMakesSound(s, id, req);
      if Succeeds(s, id, req) {
        GrantIsHeld(s, id, req);
      }
    } else {
      NoRoomNoOrder(s, id, req);
    }
  }

  /** The target of a request lies apart from every held block. */
  lemma TargetApart(s: State, id: int, req: uint32, owner: int, off: nat, size: uint32)
    requires Sound(s) && InBounds(s, id, req) && HasRoom(s, id, req) && Succeeds(s, id, req)
    requires Holds(s, owner, off, size)
    ensures var from, p := s.segments[owner].start + off, Target(s, id, req);
            from + HEADER_SIZE + size <= p || p + 2 * HEADER_SIZE + req <= from
  {
    var g := s.segments[owner];
    if owner != id {
      HoldsWithin(s, owner, off, size);
      WritesMissOthers(s, id, req, owner);
    } else {
      FitIsBlockOrStray(s, id, req);
      MuseHeap.HeldUnwritten(Reader(s.mem), g.start, g.length, req, off, size);
    }
  }

  lemma OwnBlockStays(s: State, id: int, req: uint32, off: nat, size: uint32)
    requires Sound(s) && InBounds(s, id, req) && HasRoom(s, id, req) && Succeeds(s, id, req)
    requires Holds(s, id, off, size)
    ensures Holds(Alloc(s, id, req).0, id, off, size)
    ensures Alloc(s, id, req).0.segments[id] == s.segments[id]
  {
    var r, g := Alloc(s, id, req).0, s.segments[id];
    CutWithRoom(s, id, req);
    HeldAfterSplit(Reader(s.mem), Reader(r.mem), g.start, g.length, req, off, size);
  }

  lemma OthersBlockStays(s: State, id: int, req: uint32, owner: int, off: nat, size: uint32)
    requires Sound(s) && InBounds(s, id, req) && HasRoom(s, id, req) && Succeeds(s, id, req)
    requires owner != id && Holds(s, owner, off, size)
    ensures Holds(Alloc(s, id, req).0, owner, off, size)
    ensures Alloc(s, id, req).0.segments[owner] == s.segments[owner]
  {
    var r, g := Alloc(s, id, req).0, s.segments[owner];
    OthersStayTiled(s, id, req, owner);
    HeldIfAgreeing(Reader(s.mem), Reader(r.mem), g.start, g.length, off, size);
  }

  lemma SameSlice(mem: seq<byte>, other: seq<byte>, p: nat, q: nat, from: nat, to: nat)
    requires SameOutside(mem, other, from, to) && p <= q <= |mem|
    requires q <= from || to <= p
    ensures mem[p..q] == other[p..q]
  {
  }

  lemma SameBytes(s: State, r: State, id: int, off: nat, size: uint32, from: nat, to: nat)
    requires Sound(s) && Sound(r) && Holds(s, id, off, size) && Holds(r, id, off, size)
    requires r.segments[id] == s.segments[id] && SameOutside(s.mem, r.mem, from, to)
    requires var a := s.segments[id].start + off; a + HEADER_SIZE + size <= from || to <= a
    ensures BytesOf(r, id, off, size) == BytesOf(s, id, off, size)
  {
    HoldsWithin(s, id, off, size);
    var p := s.segments[id].start + off;
    SameSlice(s.mem, r.mem, p, p + HEADER_SIZE + size, from, to);
  }

  /** No request touches a block that is held: it stays where it is, with its
      size and every byte of its contents. */
  lemma AllocKeepsHeld(s: State, id: int, req: uint32, owner: int, off: nat, size: uint32)
    requires Sound(s) && HasRoom(s, id, req) && Holds(s, owner, off, size)
    ensures InBounds(s, id, req)
    ensures Sound(Alloc(s, id, req).0) && Holds(Alloc(s, id, req).0, owner, off, size)
    ensures BytesOf(Alloc(s, id, req).0, owner, off, size) == BytesOf(s, owner, off, size)
  {
    RoomMakesSound(s, id, req);
    var r := Alloc(s, id, req).0;
    if Succeeds(s, id, req) {
      if owner == id {
        OwnBlockStays(s, id, req, off, size);
      } else {
        OthersBlockStays(s, id, req, owner, off, size);
      }
      TargetApart(s, id, req, owner, off, size);
      var p := Target(s, id, req);
      SameBytes(s, r, owner, off, size, p, p + 2 * HEADER_SIZE + req);
    } else {
      SameBytes(s, r, owner, off, size, 0, 0);
    }
  }

  /** Two different blocks that are held, of one process or of two, share no byte. */
  lemma HeldBlocksApart(s: State, id: int, off: nat, size: uint32, other: int, off': nat, size': uint32)
    requires Sound(s) && Holds(s, id, off, size) && Holds(s, other, off', size')
    requires id != other || off != off'
    ensures var p, q := s.segments[id].start + off, s.segments[other].start + off';
            p + HEADER_SIZE + size <= q || q + HEADER_SIZE + size' <= p
  {
    var g, m := s.segments[id], Reader(s.mem);
    HoldsWithin(s, id, off, size);
    HoldsWithin(s, other, off', size');
    if id != other {
      assert Disjoint(g, s.segments[other]);
    } else if off < off' {
      HeldApart(m, g.start, g.length, off, size, off', size');
    } else {
      HeldApart(m, g.start, g.length, off', size', off, size);
    }
  }

  // ----- Requests without room

  /** With pages of 16 bytes a first request of 9 is granted, but the header meant
      for the two spare bytes does not fit them and the tiling is lost. */
  lemma TightPageBreaksTiling(s: State, id: int)
    requires s.page == 16 && s.total == 2 && s.used == 0 && |s.mem| == 32 && s.segments == map[]
    ensures Sound(s) && InBounds(s, id, 9) && Succeeds(s, id, 9)
    ensures !Sound(Alloc(s, id, 9).0)
  {
    assert Spare(16, 9) == 2 && PagesFor(16, 9) == 1 && LengthFor(16, 9) == 15;
    NewSegmentTiled(s, id, 9);
    assert !Tiled(Alloc(s, id, 9).0.mem, Alloc(s, id, 9).0.segments[id]);
  }

  /** With one spare byte the second header's size wraps. */
  lemma WrappedLayout(mem: seq<byte>, a: nat, req: uint32)
    requires a + 2 * HEADER_SIZE + req <= |mem|
    ensures var m := Reader(Cut(mem, a, req, Header(ToUint32(-5), true)));
            && Tiles(m, a, req + HEADER_SIZE)
            && Blocks(m, a, req + HEADER_SIZE) == [Header(req, false)]
            && m(a + req + HEADER_SIZE) == Header(0xFFFF_FFFB, true)
  {
    CutThenRead(mem, a, req, Header(ToUint32(-5), true));
  }

  /** A first request that leaves one spare byte has room, but the size of its second
      header wraps to 0xFFFFFFFB free bytes. */
  lemma OneSpareByteWraps(s: State, id: int, req: uint32)
    requires Sound(s) && id !in s.segments && HasRoom(s, id, req) && Available(s, req) && Spare(s.page, req) == 1
    ensures InBounds(s, id, req) && Sound(Alloc(s, id, req).0)
    ensures var r := Alloc(s, id, req).0;
            && r.segments[id] == Segment(Top(s), req + HEADER_SIZE)
            && SegmentBlocks(r, id) == [Header(req, false)]
            && StrayHeader(r, id) == Header(0xFFFF_FFFB, true)
  {
    RoomMakesSound(s, id, req);
    WrappedLayout(s.mem, Top(s), req);
  }

  /** So every further request of that process is granted bytes that start four
      bytes behind its frames. */
  lemma LaterRequestLeavesSegment(s: State, id: int, req: uint32, later: uint32)
    requires Sound(s) && id !in s.segments && HasRoom(s, id, req) && Available(s, req) && Spare(s.page, req) == 1
    requires later + HEADER_SIZE <= INT_MAX
    ensures InBounds(s, id, req)
    ensures var r := Alloc(s, id, req).0;
            && !HasRoom(r, id, later)
            && (InBounds(r, id, later) ==>
                  && Alloc(r, id, later).1 == r.segments[id].length + HEADER_SIZE
                  && Target(r, id, later) + HEADER_SIZE == Top(r) + 4)
  {
    OneSpareByteWraps(s, id, req);
    TopAfterNewSegment(s, id, req);
    var r := Alloc(s, id, req).0;
    FitIsBlockOrStray(r, id, later);
    AllocatedNeverFits(req, later);
  }

  /** In a server with 4096 bytes of memory, pages of 32 and 1024 bytes of swap, a
      process is granted 26 and then 4 bytes, and the next process 20: the second
      and the third share the bytes from 37 to 39. */
  lemma GrantsOverlap(s: State, id: int, next: int)
    requires s.page == 32 && s.total == 160 && s.used == 0 && |s.mem| == 4096 && s.segments == map[] && id != next
    ensures Sound(s) && InBounds(s, id, 26)
    ensures var r := Alloc(s, id, 26).0;
            && r.segments[id].start == 0
            && InBounds(r, id, 4) && Alloc(r, id, 4).1 == 36
            && InBounds(Alloc(r, id, 4).0, next, 20) && Alloc(Alloc(r, id, 4).0, next, 20).1 == 37
  {
    assert Spare(32, 26) == 1 && PagesFor(32, 26) == 1 && PagesFor(32, 20) == 1 && LengthFor(32, 20) == 31;
    OneSpareByteWraps(s, id, 26);
    var r := Alloc(s, id, 26).0;
    FitIsBlockOrStray(r, id, 4);
    assert PageBytes(1, 32) == 32;
  }

  // ----- The header past the last block

  /** The header that a four-byte size below 2^24 hides when it is read one byte
      early: allocated, with the size shifted by that byte. */
  lemma ReadOneByteEarly(mem: seq<byte>, p: nat)
    requires p + 1 + HEADER_SIZE <= |mem| && HeaderAt(mem, p + 1).size < 0x100_0000
    ensures HeaderAt(mem, p) == Header(mem[p] + 256 * HeaderAt(mem, p + 1).size, false)
  {
  }

  /** The segment of `other` starts in the frame after those of `id`. */
  predicate FollowedBy(s: State, id: int, other: int) {
    Owns(s, id) && Owns(s, other) && s.segments[other].start == s.segments[id].start + s.segments[id].length + 1
  }

  lemma NeighbourIsRead(s: State, id: int, other: int)
    requires Sound(s) && FollowedBy(s, id, other) && |s.mem| <= 0x7F_0000
    ensures var g := s.segments[id];
            && g.start + g.length + HEADER_SIZE <= |s.mem|
            && !StrayHeader(s, id).free
            && NextOffset(g.length, StrayHeader(s, id).size) > g.length
  {
    var g, h := s.segments[id], s.segments[other];
    assert Below(h, |s.mem|) && Tiled(s.mem, h);
    assert Reader(s.mem)(h.start).size + HEADER_SIZE <= h.length;
    ReadOneByteEarly(s.mem, g.start + g.length);
    NextWithoutWrap(g.length, StrayHeader(s, id).size);
  }

  /** In a memory of less than eight megabytes the segment in the next frame guards
      its neighbour: a request then has room if and only if the first fitting block,
      should there be one, holds the second header. */
  lemma NeighbourGuards(s: State, id: int, req: uint32, other: int)
    requires Sound(s) && FollowedBy(s, id, other) && |s.mem| <= 0x7F_0000 && req + HEADER_SIZE <= INT_MAX
    ensures HasRoom(s, id, req)
       <==> BlockFitOf(s, id, req) >= 0 ==> BlockSizeOf(s, id, req) >= req + HEADER_SIZE
  {
    var g := s.segments[id];
    NeighbourIsRead(s, id, other);
    if BlockFitOf(s, id, req) >= 0 {
      FirstFitIsHeader(Reader(s.mem), g.start, g.length, req);
    }
  }

  /** A segment is followed by another one or ends the frames in use. */
  ghost predicate Settled(s: State, id: int)
    requires Owns(s, id)
  {
    s.segments[id].start + s.segments[id].length + 1 == Top(s) || exists other :: FollowedBy(s, id, other)
  }

  ghost predicate Packed(s: State) {
    forall id :: Owns(s, id) ==> Settled(s, id)
  }

  lemma SettledStays(s: State, id: int, req: uint32, j: int)
    requires Sound(s) && InBounds(s, id, req) && Owns(s, j) && Settled(s, j)
    ensures Owns(Alloc(s, id, req).0, j) && Settled(Alloc(s, id, req).0, j)
  {
    var r := Alloc(s, id, req).0;
    if exists other :: FollowedBy(s, j, other) {
      var other :| FollowedBy(s, j, other);
      assert FollowedBy(r, j, other);
    } else if id !in s.segments && Available(s, req) {
      assert FollowedBy(r, j, id);
    }
  }

  lemma AllocKeepsPacked(s: State, id: int, req: uint32)
    requires Sound(s) && InBounds(s, id, req) && Packed(s)
    ensures Packed(Alloc(s, id, req).0)
  {
    var r := Alloc(s, id, req).0;
    forall j | Owns(r, j) ensures Settled(r, j) {
      if Owns(s, j) {
        SettledStays(s, id, req, j);
      } else {
        TopAfterNewSegment(s, id, req);
      }
    }
  }

  // ----- Runs

  datatype Request = Request(id: int, size: uint32)

  /** Every request of the sequence has room when it comes. */
  ghost predicate Served(s: State, requests: seq<Request>)
    requires Sound(s)
    decreases |requests|
  {
    requests == [] ||
    var q := requests[0];
    && HasRoom(s, q.id, q.size)
    && (RoomMakesSound(s, q.id, q.size); Served(Alloc(s, q.id, q.size).0, requests[1..]))
  }

  ghost function Run(s: State, requests: seq<Request>): State
    requires Sound(s) && Served(s, requests)
    decreases |requests|
  {
    if requests == [] then s
    else
      var q := requests[0];
      RoomMakesSound(s, q.id, q.size);
      Run(Alloc(s, q.id, q.size).0, requests[1..])
  }

  /** Over any sequence of requests by any processes, memory stays sound and every
      block keeps its place, its size and its contents. */
  lemma {:induction false} RunKeepsHeld(s: State, requests: seq<Request>, owner: int, off: nat, size: uint32)
    requires Sound(s) && Served(s, requests) && Holds(s, owner, off, size)
    ensures Sound(Run(s, requests)) && Holds(Run(s, requests), owner, off, size)
    ensures BytesOf(Run(s, requests), owner, off, size) == BytesOf(s, owner, off, size)
    decreases |requests|
  {
    if requests == [] {
    } else {
      var q := requests[0];
      AllocKeepsHeld(s, q.id, q.size, owner, off, size);
      RunKeepsHeld(Alloc(s, q.id, q.size).0, requests[1..], owner, off, size);
    }
  }

  lemma {:induction false} RunKeepsPacked(s: State, requests: seq<Request>)
    requires Sound(s) && Served(s, requests) && Packed(s)
    ensures Sound(Run(s, requests)) && Packed(Run(s, requests)) && |Run(s, requests).mem| == |s.mem|
    decreases |requests|
  {
    if requests == [] {
    } else {
      var q := requests[0];
      RoomMakesSound(s, q.id, q.size);
      AllocKeepsPacked(s, q.id, q.size);
      RunKeepsPacked(Alloc(s, q.id, q.size).0, requests[1..]);
    }
  }

  /** After any run only the segment in the last frames in use can be left by what it
      is granted: for every other process a request has room as soon as its first
      fitting block, if it has one, holds the second header. */
  lemma OnlyLastSegmentAtRisk(s: State, requests: seq<Request>, id: int, req: uint32)
    requires Sound(s) && Packed(s) && Served(s, requests) && |s.mem| <= 0x7F_0000 && req + HEADER_SIZE <= INT_MAX
    requires var r := Run(s, requests);
             Owns(r, id) && r.segments[id].start + r.segments[id].length + 1 != Top(r)
    ensures var r := Run(s, requests);
            && Sound(r)
            && (HasRoom(r, id, req) <==> BlockFitOf(r, id, req) >= 0 ==> BlockSizeOf(r, id, req) >= req + HEADER_SIZE)
  {
    RunKeepsPacked(s, requests);
    var r := Run(s, requests);
    assert Settled(r, id);
    var other :| FollowedBy(r, id, other);
    NeighbourGuards(r, id, req, other);
  }

  /** A process with a segment that has no pages is not heard again, and stays that
      way whatever the others ask for. */
  lemma {:induction false} EmptyStaysEmpty(s: State, requests: seq<Request>, id: int)
    requires Sound(s) && Served(s, requests) && id in s.segments && s.segments[id] == Empty
    ensures id in Run(s, requests).segments && Run(s, requests).segments[id] == Empty
    ensures forall q :: q in requests ==> q.id != id
    decreases |requests|
  {
    if requests == [] {
    } else {
      var q := requests[0];
      RoomMakesSound(s, q.id, q.size);
      EmptyStaysEmpty(Alloc(s, q.id, q.size).0, requests[1..], id);
      assert requests == [q] + requests[1..];
    }
  }

  /** A process whose first request found no free frames is answered -1 and left with
      such a segment for good. */
  lemma RefusedProcessIsLockedOut(s: State, id: int, req: uint32, requests: seq<Request>)
    requires Sound(s) && InBounds(s, id, req) && id !in s.segments && !Succeeds(s, id, req)
    ensures Alloc(s, id, req).1 == -1 && Sound(Alloc(s, id, req).0)
    ensures Served(Alloc(s, id, req).0, requests) ==>
              var r := Run(Alloc(s, id, req).0, requests);
              id in r.segments && r.segments[id] == Empty && forall q :: q in requests ==> q.id != id
  {
    RoomMakesSound(s, id, req);
    if Served(Alloc(s, id, req).0, requests) {
      EmptyStaysEmpty(Alloc(s, id, req).0, requests, id);
    }
  }
}
