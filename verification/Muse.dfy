/** The MUSE server's memory: byte array, frame and page vectors, and the segment
    of each process. */
module Muse {
  import opened CTypes
  import opened Bytes
  import opened MuseHeap
  import opened MuseSpec

  /** `t_vector_atributo_paginas` */
  datatype PageEntry = PageEntry(free: bool, frame: int, present: bool, used: int, modified: int)

  /** `t_nodo_segmento`; `pages` holds the page-vector index of each page. */
  class SegmentNode {
    var base: int
    var tamanio: int
    var pages: seq<int>

    /** `crear_nodo_segmento` */
    constructor ()
      ensures base == 0 && tamanio == 0 && pages == []
    {
      base, tamanio, pages := 0, 0, [];
    }
  }

  class Server {
    const pageSize: nat
    const memoria: array<byte>
    const frames: array<bool>
    const entries: array<PageEntry>
    var processes: map<int, SegmentNode>
    ghost var used: nat
    ghost var nodes: set<SegmentNode>
    ghost var segments: map<int, Segment>

    /** Occupied frames and occupied page entries are the same prefix of their
        vectors, and entry `i` maps to frame `i`. */
    ghost predicate Prefix()
      reads this, frames, entries
    {
      && pageSize > 0
      && used <= frames.Length == entries.Length
      && (forall i :: 0 <= i < frames.Length ==> (frames[i] <==> i >= used))
      && (forall i :: 0 <= i < entries.Length ==> (entries[i].free <==> i >= used))
      && (forall i :: 0 <= i < used ==> entries[i].frame == i)
    }

    /** A segment's pages are consecutive frames in use. */
    ghost predicate Consecutive(node: SegmentNode)
      reads this`used, node
    {
      && node.base == 0
      && node.tamanio == (if node.pages == [] then 0 else PageBytes(|node.pages|, pageSize) - 1)
      && node.tamanio < INT_MAX
      && (node.pages != [] ==> 0 <= node.pages[0] && node.pages[0] + |node.pages| <= used)
      && (forall i :: 0 <= i < |node.pages| ==> node.pages[i] == node.pages[0] + i)
    }

    ghost function View(node: SegmentNode): Segment
      reads node
    {
      if node.pages == [] || node.pages[0] < 0 || node.tamanio < 0 then Empty
      else Segment(PageBytes(node.pages[0], pageSize), node.tamanio)
    }

    /** `segments` is what the processes' nodes stand for. */
    ghost predicate Valid()
      reads this, frames, entries, nodes
    {
      && Prefix()
      && (forall node :: node in nodes ==> Consecutive(node))
      && processes.Keys == segments.Keys
      && (forall id :: id in processes ==> processes[id] in nodes && View(processes[id]) == segments[id])
    }

    ghost function Abs(): State
      reads this, memoria
    {
      State(pageSize, frames.Length, memoria[..], used, segments)
    }

    /** `muse_init` */
    constructor (memorySize: nat, swapSize: nat, pageSize: nat)
      requires 0 < pageSize && memorySize <= INT_MAX
      ensures Valid() && fresh(memoria) && fresh(frames) && fresh(entries)
      ensures this.pageSize == pageSize && memoria.Length == memorySize
      ensures frames.Length == memorySize / pageSize + swapSize / pageSize
      ensures used == 0 && processes == map[] && segments == map[]
      ensures Sound(Abs())
    {
      var total := memorySize / pageSize + swapSize / pageSize;
      this.pageSize := pageSize;
      memoria := new byte[memorySize];
      frames := new bool[total](_ => true);
      entries := new PageEntry[total](_ => PageEntry(true, -1, true, 0, 0));
      processes, nodes, segments := map[], {}, map[];
      used := 0;
    }

    // ----- Frames and pages

    /** `asignarFrameLibre` */
    method FreeFrame() returns (frame: int)
      requires Prefix()
      ensures frame == if used < frames.Length then used else -1
    {
      frame := -1;
      var i := 0;
      while i < frames.Length
        invariant 0 <= i <= frames.Length && i <= used && frame == -1
      {
        if frames[i] {
          frame := i;
          break;
        }
        i := i + 1;
      }
    }

    /** `asignarIndiceVectorLibre` */
    method FreeEntry() returns (page: int)
      requires Prefix()
      ensures page == if used < entries.Length then used else -1
    {
      page := -1;
      var i := 0;
      while i < entries.Length
        invariant 0 <= i <= entries.Length && i <= used && page == -1
      {
        if entries[i].free {
          page := i;
          break;
        }
        i := i + 1;
      }
    }

    /** `existe_memoria_parar_paginas` */
    method HasPages(needed: int) returns (found: bool)
      requires Prefix() && needed > 0
      ensures found <==> used + needed <= frames.Length
    {
      var i, count := 0, 0;
      while i < frames.Length
        invariant 0 <= i <= frames.Length
        invariant count == (if i <= used then 0 else i - used) && count < needed
      {
        if frames[i] {
          count := count + 1;
        }
        if count == needed {
          break;
        }
        i := i + 1;
      }
      return count == needed;
    }

    /** `cambiar_estado_pagina` */
    method SetFree(frame: nat, free: bool)
      requires frame < frames.Length
      modifies frames
      ensures frames[..] == old(frames[..])[frame := free]
    {
      frames[frame] := free;
    }

    /** The loop of `asignar_dir_memoria` that fills the list of pages. */
    method TakePages(node: SegmentNode, needed: nat) returns (first: int, last: int)
      requires Prefix() && node.pages == [] && 0 < needed && used + needed <= frames.Length
      modifies node`pages, frames, entries, this`used
      ensures Prefix() && used == old(used) + needed
      ensures |node.pages| == needed && forall i :: 0 <= i < needed ==> node.pages[i] == old(used) + i
      ensures first == old(used) && last == old(used) + needed - 1
    {
      first, last := -1, -1;
      var i := 0;
      while i < needed
        invariant 0 <= i <= needed && Prefix() && used == old(used) + i
        invariant |node.pages| == i && forall j :: 0 <= j < i ==> node.pages[j] == old(used) + j
        invariant i > 0 ==> first == old(used) && last == old(used) + i - 1
      {
        last := FreeFrame();
        var index := FreeEntry();
        SetFree(last, false);
        entries[index] := entries[index].(frame := last, free := false);
        used := used + 1;
        node.pages := node.pages + [index];
        if i == 0 {
          first := last;
        }
        i := i + 1;
      }
    }

    // ----- Headers

    method ReadHeader(a: nat) returns (h: Header)
      requires a + HEADER_SIZE <= memoria.Length
      ensures h == HeaderAt(memoria[..], a)
    {
      h := HeaderAt(memoria[..], a);
    }

    method WriteHeader(a: nat, h: Header)
      requires a + HEADER_SIZE <= memoria.Length
      modifies memoria
      ensures memoria[..] == Put(old(memoria[..]), a, h)
    {
      var bytes := HeaderBytes(h);
      forall i | 0 <= i < HEADER_SIZE {
        memoria[a + i] := bytes[i];
      }
    }

    // ----- Requests

    /** The segment of a refused process has no page for the walk to begin with. */
    lemma EmptyHasNoPages(id: int)
      requires Valid() && id in processes
      ensures segments[id] == Empty <==> processes[id].pages == []
    {
      assert Consecutive(processes[id]);
    }

    /** Both headers of an allocation. */
    method WriteCut(p: nat, req: uint32, rest: Header)
      requires Valid() && p + 2 * HEADER_SIZE + req <= memoria.Length
      modifies memoria
      ensures Valid() && Abs() == old(Abs()).(mem := Cut(old(memoria[..]), p, req, rest))
    {
      WriteHeader(p, Header(req, false));
      WriteHeader(p + HEADER_SIZE + req, rest);
    }

    /** The two headers of a fresh segment; the second one's address is computed
        from the last page. */
    method LayOut(first: nat, last: int, needed: nat, req: uint32)
      requires Valid() && needed == PagesFor(pageSize, req) && last == first + needed - 1
      requires PageBytes(first, pageSize) + 2 * HEADER_SIZE + req <= memoria.Length
      modifies memoria
      ensures Valid()
      ensures Abs() == old(Abs()).(mem := Cut(old(memoria[..]), PageBytes(first, pageSize), req,
                                              Header(ToUint32(Spare(pageSize, req) - HEADER_SIZE - 1), true)))
    {
      SecondHeader(first, last, needed, pageSize, req);
      var spare := needed * pageSize - req - HEADER_SIZE;
      var next := last * pageSize + (pageSize - spare);
      WriteHeader(first * pageSize, Header(req, false));
      WriteHeader(next, Header(ToUint32(spare - HEADER_SIZE - 1), true));
    }

    /** Pages and size of a fresh segment; the other segments see no change. */
    method Reserve(node: SegmentNode, needed: nat, ghost req: uint32) returns (first: int, last: int)
      requires Valid() && node !in nodes && node.base == 0 && node.pages == []
      requires needed == PagesFor(pageSize, req) && used + needed <= frames.Length
      requires LengthFor(pageSize, req) < INT_MAX
      modifies node`pages, node`tamanio, frames, entries, this`used
      ensures Valid() && Abs() == old(Abs()).(used := old(used) + needed)
      ensures Consecutive(node) && View(node) == Segment(PageBytes(old(used), pageSize), LengthFor(pageSize, req))
      ensures first == old(used) && last == first + needed - 1
    {
      first, last := TakePages(node, needed);
      node.tamanio := needed * pageSize - 1;
      PagesHold(pageSize, req + HEADER_SIZE);
      PageBytesIsProduct(needed, pageSize);
    }

    /** `asignar_dir_memoria` */
    method AssignMemory(node: SegmentNode, req: uint32) returns (answer: int)
      requires Valid() && node !in nodes && node.base == 0 && node.tamanio == 0 && node.pages == []
      requires req + HEADER_SIZE <= INT_MAX && NewInBounds(Abs(), req)
      modifies node`pages, node`tamanio, memoria, frames, entries, this`used
      ensures Valid() && Consecutive(node)
      ensures forall id :: (Abs().(segments := old(Abs()).segments[id := View(node)]), answer)
                           == NewSegment(old(Abs()), id, req)
      ensures segments == old(segments)
    {
      var needed := (req + HEADER_SIZE) / pageSize + 1;
      PagesOfIsQuotient(pageSize, req + HEADER_SIZE);
      var available := HasPages(needed);
      if !available {
        return -1;
      }
      var first, last := Reserve(node, needed, req);
      LayOut(first, last, needed, req);
      PageBytesIsProduct(first, pageSize);
      return first * pageSize + HEADER_SIZE;
    }

    /** Page of an offset in a segment, and the position in that page. */
    method Locate(offset: nat) returns (page: int, position: int)
      requires pageSize > 0
      ensures Located(offset, pageSize, page, position)
    {
      page := offset / pageSize;
      position := offset - page * pageSize;
      PageBytesIsProduct(page, pageSize);
    }

    /** The walk's address: the index of the page serves as its frame. */
    method AddressOf(node: SegmentNode, page: nat, position: nat, ghost offset: nat) returns (p: nat)
      requires Consecutive(node) && node.pages != [] && offset <= node.tamanio
      requires Located(offset, pageSize, page, position)
      ensures p == PageBytes(node.pages[0], pageSize) + offset
    {
      PageAddress(node.pages[0], |node.pages|, offset, pageSize, page, position);
      var frame := node.pages[page];
      p := frame * pageSize + position;
    }

    /** The reading part of the walk: address, offset and contents of the header that
        it accepts. */
    method FindFit(node: SegmentNode, ghost m: Memory, ghost start: nat, req: uint32)
      returns (found: bool, p: nat, offset: int, heap: Header)
      requires Consecutive(node) && node.pages != [] && pageSize > 0
      requires start == PageBytes(node.pages[0], pageSize)
      requires Decodes(m, memoria[..]) && Tiles(m, start, node.tamanio)
      requires WalkStaysIn(m, start, node.tamanio, req, memoria.Length)
      ensures found <==> InclusiveWalk(m, start, node.tamanio, 0, req) >= 0
      ensures found ==> offset == InclusiveWalk(m, start, node.tamanio, 0, req)
      ensures found ==> p == start + offset && heap == m(p)
      ensures found ==> ReadAt(m, start, node.tamanio, offset) && heap.free && req < heap.size
      ensures forall off: nat :: ReadAt(m, start, node.tamanio, off) && (!found || off < offset) ==>
                !(m(start + off).free && req < m(start + off).size)
    {
      LastOffset(|node.pages|, pageSize);
      var lastPage := node.tamanio / pageSize + 1;
      var page, position := 0, 0;
      found, p, offset, heap := false, 0, 0, Header(0, false);
      while offset <= lastPage * pageSize - 1
        invariant 0 <= offset && (offset <= node.tamanio ==> Located(offset, pageSize, page, position))
        invariant !found && Searching(m, start, node.tamanio, offset, req)
        decreases node.tamanio - offset
      {
        SearchStep(m, start, node.tamanio, offset, req, memoria.Length);
        p := AddressOf(node, page, position, offset);
        heap := ReadHeader(p);
        if heap.free && req < heap.size {
          found := true;
          break;
        }
        offset := NextOffset(offset, heap.size);
        page, position := Locate(offset);
      }
      AnswerByFields(m, start, node.tamanio, req);
    }

    /** The reading part of the walk, for a process that has a segment. */
    method FindFitOf(id: int, req: uint32) returns (found: bool, p: nat, offset: int, heap: Header)
      requires Valid() && CutInBounds(Abs(), id, req)
      ensures found <==> FitOf(Abs(), id, req) >= 0
      ensures found ==> offset == FitOf(Abs(), id, req)
      ensures found ==> p == segments[id].start + offset && heap == Reader(memoria[..])(p)
    {
      ReaderDecodes(memoria[..]);
      found, p, offset, heap := FindFit(processes[id], Reader(memoria[..]), segments[id].start, req);
    }

    /** The walk and its two writes. */
    method CutFirst(id: int, req: uint32) returns (answer: int)
      requires Valid() && CutInBounds(Abs(), id, req)
      modifies memoria
      ensures Valid() && (Abs(), answer) == CutSegment(old(Abs()), id, req)
    {
      ghost var s := Abs();
      var found, p, offset, heap := FindFitOf(id, req);
      CutResult(s, id, req, p);
      if !found {
        return -1;
      }
      WriteCut(p, req, Remainder(heap.size, req));
      return offset + HEADER_SIZE;
    }

    /** `recorer_segmento_espacio_libre` */
    method FindSpace(id: int, req: uint32) returns (answer: int)
      requires Valid() && CutInBounds(Abs(), id, req)
      modifies memoria
      ensures Valid() && (Abs(), answer) == CutSegment(old(Abs()), id, req)
      ensures old(AnswersWalk(Abs(), id, req, answer))
    {
      AnswerInSegment(Abs(), id, req);
      answer := CutFirst(id, req);
    }

    /** The branch for a process without a segment. */
    method FirstSegment(id: int, req: uint32) returns (answer: int)
      requires Valid() && id !in processes && req + HEADER_SIZE <= INT_MAX && NewInBounds(Abs(), req)
      modifies this`processes, this`nodes, this`segments, this`used, memoria, frames, entries
      ensures Valid() && (Abs(), answer) == NewSegment(old(Abs()), id, req)
    {
      var node := new SegmentNode();
      answer := AssignMemory(node, req);
      AddSegment(id, node);
    }

    method AddSegment(id: int, node: SegmentNode)
      requires Valid() && Consecutive(node)
      modifies this`processes, this`nodes, this`segments
      ensures Valid() && Abs() == old(Abs()).(segments := old(Abs()).segments[id := View(node)])
    {
      processes := processes[id := node];
      nodes := nodes + {node};
      segments := segments[id := View(node)];
    }

    /** The server's answer to a MALLOC request. */
    method Malloc(id: int, tam: uint32) returns (ptr: uint32)
      requires Valid() && InBounds(Abs(), id, tam)
      modifies this`processes, this`nodes, this`segments, this`used, memoria, frames, entries
      ensures Valid() && Abs() == Alloc(old(Abs()), id, tam).0
      ensures ptr == ToUint32(Alloc(old(Abs()), id, tam).1)
    {
      var answer: int;
      if id !in processes {
        answer := FirstSegment(id, tam);
      } else {
        answer := FindSpace(id, tam);
      }
      return ToUint32(answer);
    }
  }

  /** The last page's frame and the bytes before its spare ones address the byte
      right after the first block. */
  lemma SecondHeader(first: nat, last: int, needed: nat, page: nat, req: uint32)
    requires page > 0 && needed == PagesFor(page, req) && last == first + needed - 1
    ensures first * page == PageBytes(first, page)
    ensures needed * page - req - HEADER_SIZE == Spare(page, req)
    ensures last * page + (page - Spare(page, req)) == PageBytes(first, page) + HEADER_SIZE + req
  {
    PagesHold(page, req + HEADER_SIZE);
    PageBytesIsProduct(first, page);
    PageBytesIsProduct(needed, page);
    PageBytesIsProduct(first + needed, page);
    PageBytesAdd(first, needed, page);
    assert last * page + page == (first + needed) * page;
  }

  lemma ReaderDecodes(mem: seq<byte>)
    ensures Decodes(Reader(mem), mem)
  {
  }

  lemma CutResult(s: State, id: int, req: uint32, p: nat)
    requires CutInBounds(s, id, req)
    requires FitOf(s, id, req) >= 0 ==> p == s.segments[id].start + FitOf(s, id, req)
    ensures FitOf(s, id, req) < 0 ==> CutSegment(s, id, req) == (s, -1)
    ensures FitOf(s, id, req) >= 0 ==>
              && p + 2 * HEADER_SIZE + req <= |s.mem|
              && CutSegment(s, id, req)
                 == (s.(mem := Cut(s.mem, p, req, Remainder(Reader(s.mem)(p).size, req))),
                     FitOf(s, id, req) + HEADER_SIZE)
  {
  }

  predicate Located(offset: nat, size: nat, page: int, position: int) {
    0 <= page && 0 <= position < size && PageBytes(page, size) + position == offset
  }

  /** Page and position lead to the linear address, because frames are consecutive. */
  lemma PageAddress(first: nat, count: nat, offset: nat, size: nat, page: nat, position: nat)
    requires Located(offset, size, page, position) && offset < PageBytes(count, size)
    ensures page < count
    ensures (first + page) * size + position == PageBytes(first, size) + offset
  {
    PageBytesAdd(first, page, size);
    PageBytesIsProduct(first + page, size);
    if page >= count {
      PageBytesAdd(count, page - count, size);
    }
  }

  /** The walk's last offset, computed from the segment's size in whole pages, is
      that size. */
  lemma LastOffset(n: nat, page: nat)
    requires n > 0 && page > 0
    ensures ((PageBytes(n, page) - 1) / page + 1) * page - 1 == PageBytes(n, page) - 1
  {
    PageBytesIsProduct(n, page);
    PageBytesIsProduct(n - 1, page);
    QuotientIs(PageBytes(n, page) - 1, page, n - 1, page - 1);
  }

  /** The walk from `offset` on gives the answer of the whole walk; it stands at a
      header, at the segment's size or past it. */
  ghost predicate Searching(m: Memory, a: nat, length: nat, offset: nat, req: uint32)
    requires Tiles(m, a, length)
  {
    && InclusiveWalk(m, a, length, 0, req) == InclusiveWalk(m, a, length, offset, req)
    && (offset <= length ==>
          && Tiles(m, a + offset, length - offset)
          && var k, rest := FirstFit(Blocks(m, a, length), req), FirstFit(Blocks(m, a + offset, length - offset), req);
             k == if rest < 0 then -1 else offset + rest)
  }

  lemma StepInside(m: Memory, a: nat, length: nat, offset: nat, req: uint32)
    requires Tiles(m, a, length) && length <= INT_MAX && offset < length
    requires Searching(m, a, length, offset, req)
    ensures HEADER_SIZE <= length - offset
    ensures FitsIn(m(a + offset), req) ==> FirstFit(Blocks(m, a, length), req) == offset
    ensures !FitsIn(m(a + offset), req) ==>
              var next := NextOffset(offset, m(a + offset).size);
              next > offset && Searching(m, a, length, next, req)
  {
    if !FitsIn(m(a + offset), req) {
      NextWithoutWrap(offset, m(a + offset).size);
    }
  }

  lemma SearchStep(m: Memory, a: nat, length: nat, offset: nat, req: uint32, top: nat)
    requires Tiles(m, a, length) && length <= INT_MAX && offset <= length
    requires WalkStaysIn(m, a, length, req, top) && Searching(m, a, length, offset, req)
    ensures a + offset + HEADER_SIZE <= top
    ensures FitsIn(m(a + offset), req) ==> InclusiveWalk(m, a, length, 0, req) == offset
    ensures !FitsIn(m(a + offset), req) ==>
              var next := NextOffset(offset, m(a + offset).size);
              next > offset && Searching(m, a, length, next, req)
  {
    if offset < length {
      StepInside(m, a, length, offset, req);
    } else {
      assert InclusiveWalk(m, a, length, offset + HEADER_SIZE + m(a + offset).size, req) == -1;
    }
  }
}
