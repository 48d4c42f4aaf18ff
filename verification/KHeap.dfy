/** The kernel heap: best fit with alignment, in-band headers, lazily backed pages. */
module KHeap {
  import opened Common
  import opened FreeBlocks
  import opened HeapLayout
  import opened HeapMemory
  import opened HeapRequest
  import opened RbShape

  // `Misplaced` is an address outside the block that was found: the 32-bit test was wrong about it.
  datatype Allocation = Payload(addr: nat) | Misplaced(addr: nat) | OutOfMemory | NoTreeNode

  datatype Release = Freed | Invalid | NoNode

  lemma MergedWord(b: Block)
    requires InHeap(b)
    ensures Word(b)
  {
    HeapBounds();
  }

  lemma MinusSize(free: set<Block>, a: set<Block>, b: set<Block>)
    ensures |free - a - b| <= |free|
  {
    assert free - a - b <= free;
    SubsetSize(free - a - b, free);
  }

  lemma ReclaimBounds(b: Block, left: Option<Block>, right: Option<Block>)
    requires InHeap(b) && (left.Some? ==> left.value.End() == b.start && InHeap(left.value))
    requires right.Some? ==> b.End() == right.value.start && InHeap(right.value)
    ensures var lo, hi := GetAligned(ReclaimFrom(b, left), 12), RoundDown(ReclaimTo(b, right), PAGE);
      && lo == RoundUp(ReclaimFrom(b, left), PAGE)
      && KERNEL_HEAP_BEGIN <= lo && hi <= KERNEL_HEAP_END && lo % PAGE == 0 && hi % PAGE == 0
  {
    HeapBounds();
    var from, to := ReclaimFrom(b, left), ReclaimTo(b, right);
    assert KERNEL_HEAP_BEGIN <= from && to <= KERNEL_HEAP_END;
    assert from <= KERNEL_HEAP_END by { RoundDownFacts(b.start, PAGE); }
    Aligned12(from);
    RoundUpFacts(from, PAGE);
    RoundDownFacts(to, PAGE);
  }

  lemma Aligned12(a: nat)
    requires 0 < a <= KERNEL_HEAP_END
    ensures GetAligned(a, 12) == RoundUp(a, PAGE)
  {
    AlignedInHeap(a, 12);
    Pow2Values();
    hide Pow2, GetAligned, RoundUp;
  }

  // What the unmapping loop of `kfree` may count on.
  lemma ReclaimFacts(free: set<Block>, live: map<nat, Live>, p: nat, left: Option<Block>, right: Option<Block>)
    requires Tiling(free, live) && p in live
    requires LeftOf(free, live[p].blk, left) && RightOf(free, live[p].blk, right)
    ensures (left.Some? ==> left.value.End() == live[p].blk.start)
    ensures (right.Some? ==> live[p].blk.End() == right.value.start)
    ensures var b := live[p].blk;
      var lo, hi := GetAligned(ReclaimFrom(b, left), 12), RoundDown(ReclaimTo(b, right), PAGE);
      && lo == RoundUp(ReclaimFrom(b, left), PAGE)
      && KERNEL_HEAP_BEGIN <= lo && hi <= KERNEL_HEAP_END && lo % PAGE == 0 && hi % PAGE == 0
      && (forall v: nat :: lo / PAGE <= v < hi / PAGE ==> PageInside(v, Merged(b, left, right)))
      && (forall q :: q in live && q != p ==> Disjoint(Merged(b, left, right), live[q].blk))
      && Tiling(Released(free, b, left, right), live - {p})
  {
    var b := live[p].blk;
    ReleaseTiling(free, live, p, left, right);
    TilingLive(Released(free, b, left, right), live - {p}, Merged(b, left, right));
    ReclaimBounds(b, left, right);
    forall v: nat | Reclaimed(v, b, left, right) ensures PageInside(v, Merged(b, left, right)) {
      ReclaimSafe(b, left, right, v);
    }
  }

  lemma TilingLive(free: set<Block>, live: map<nat, Live>, b: Block)
    requires Tiling(free, live) && b in free
    ensures forall q :: q in live ==> Disjoint(b, live[q].blk)
  {
  }

  lemma LiveHeader(mem: map<nat, nat>, pages: map<nat, Backing>, live: map<nat, Live>, p: nat)
    requires LiveKept(mem, pages, live) && LiveOk(live) && p in live
    ensures p >= HEADER && HoldsHeader(mem, p - HEADER, live[p].blk) && InHeap(live[p].blk) && Word(live[p].blk)
  {
    HeapBounds();
  }

  lemma PagesBetween(begin: nat, end: nat)
    requires KERNEL_HEAP_BEGIN <= begin && end <= KERNEL_HEAP_END
    ensures KERNEL_HEAP_BEGIN / PAGE <= begin / PAGE && end / PAGE <= KERNEL_HEAP_END / PAGE
  {
  }

  // What `kfree` reads in front of a payload, and that its tests let it pass.
  lemma HeaderRead(mem: map<nat, nat>, pages: map<nat, Backing>, free: set<Block>, live: map<nat, Live>, p: nat)
    requires Tiling(free, live) && LiveKept(mem, pages, live) && p in live
    ensures p >= HEADER && forall i :: p - HEADER <= i < p ==> i in mem
    ensures ReadHeader(mem, p - HEADER) == live[p].blk && FreeOk(free) && InHeap(live[p].blk)
    ensures live[p].blk.start >= KERNEL_HEAP_BEGIN && Add32(live[p].blk.start, live[p].blk.size) <= KERNEL_HEAP_END
    ensures forall f :: f in free ==> Disjoint(f, live[p].blk)
  {
    hide Tiling, FreeOk, LiveOk, LiveKept, HoldsHeader, HeaderByte, ReadHeader, Disjoint;
    TilingFreeOk(free, live);
    LiveHeader(mem, pages, live, p);
    StoredByte(mem, p - HEADER, live[p].blk, 0);
    HeaderRoundTrip(mem, p - HEADER, live[p].blk);
    HeapBounds();
    NoOverlap(free, live, p);
  }

  lemma NoOverlap(free: set<Block>, live: map<nat, Live>, p: nat)
    requires Tiling(free, live) && p in live
    ensures forall f :: f in free ==> Disjoint(f, live[p].blk)
  {
  }

  lemma JoinedEnd(free: set<Block>, b: Block, left: Option<Block>)
    requires FreeOk(free) && InHeap(b) && LeftOf(free, b, left)
    ensures Merged(b, left, None).End() == b.End()
    ensures Add32(Merged(b, left, None).start, Merged(b, left, None).size) == b.End()
  {
    HeapBounds();
  }

  lemma PageUp(b: Block)
    requires InHeap(b)
    ensures GetAligned(b.End(), 12) == RoundUp(b.End(), PAGE)
  {
    Aligned12(b.End());
  }

  lemma TilingFreeOk(free: set<Block>, live: map<nat, Live>)
    requires Tiling(free, live)
    ensures FreeOk(free) && LiveOk(live)
  {
  }

  lemma FreeInHeap(free: set<Block>, b: Block)
    requires FreeOk(free) && b in free
    ensures InHeap(b) && |free - {b}| + 1 == |free|
  {
  }

  lemma InHeapPart(b: Block, c: Block)
    requires InHeap(b) && c.start == b.start && b.start < c.End() <= b.End()
    ensures InHeap(c)
  {
  }

  ghost function FrontRest(lo: nat, start: nat): set<Block>
    requires lo <= start
  {
    if start - lo > 3 * HEADER then {Block(lo, start - lo - HEADER)} else {}
  }

  lemma CarveParts(got: Block, start: nat, size: nat)
    requires InHeap(got) && got.start + HEADER <= start && start + size <= got.End()
    ensures var c := Carve(got, start, size);
      && |OptSet(c.tail)| <= 1
      && Rests(c) == OptSet(c.tail) + FrontRest(got.start, start) && OptSet(c.tail) !! FrontRest(got.start, start)
      && c.blk.start == (if start - got.start > 3 * HEADER then start - HEADER else got.start)
      && start + size <= c.blk.End() <= got.End()
  {
  }

  lemma RestsApart(free: set<Block>, tail: set<Block>, front: set<Block>, rests: set<Block>)
    requires rests == tail + front && tail !! front && rests !! free
    ensures tail !! free && front !! free + tail && free + rests == (free + tail) + front
    ensures |free + tail| == |free| + |tail|
  {
  }

  lemma SumsExact(got: Block, start: nat, size: nat)
    requires InHeap(got) && got.start + HEADER <= start && start + size <= got.End()
    ensures Add32(start, size) == start + size && Add32(got.start, got.size) == got.End()
    ensures Add32(start + size, 2 * HEADER) == start + size + 2 * HEADER
  {
    HeapBounds();
  }

  lemma RestsAreWords(got: Block, start: nat, size: nat)
    requires InHeap(got) && got.start + HEADER <= start && start + size <= got.End()
    ensures forall b :: b in Rests(Carve(got, start, size)) ==> Word(b)
  {
    HeapBounds();
  }

  lemma IsAccepted(free: set<Block>, got: Block, size: nat, palign: nat)
    requires FirstAccepted(free, got, size, palign)
    ensures got in free && Requested(got, size) && Accepts(got, size, palign)
  {
  }

  lemma BestFitFits(free: set<Block>, live: map<nat, Live>, got: Block, size: nat, palign: nat)
    requires Tiling(free, live) && BestFit(free, got, size, palign)
    ensures got in free && InHeap(got) && got.start + HEADER <= PayloadAt(got, palign)
    ensures PayloadAt(got, palign) + size <= got.End()
  {
    RoundUpFacts(got.start + HEADER, Pow2(palign));
  }

  // The pages of a payload and its header lie in the heap.
  lemma PageBounds(got: Block, start: nat, size: nat)
    requires InHeap(got) && got.start + HEADER <= start && start + size <= got.End()
    ensures var lo, hi := RoundDown(start - HEADER, PAGE), GetAligned(Add32(start, size), 12);
      hi == RoundUp(start + size, PAGE) && KERNEL_HEAP_BEGIN <= lo <= start - HEADER
          && start + size <= hi <= KERNEL_HEAP_END && lo % PAGE == 0 && hi % PAGE == 0
  {
    HeapBounds();
    hide Pow2, RoundUp, RoundDown, GetAligned;
    Aligned12(start + size);
    RoundDownFacts(start - HEADER, PAGE);
    RoundUpFacts(start + size, PAGE);
    RoundUpLeast(start + size, PAGE, KERNEL_HEAP_END);
  }

  class KernelHeap {
    const idx: FreeIndex
    var mem: map<nat, nat>
    var pages: map<nat, Backing>
    ghost var live: map<nat, Live>

    ghost predicate Valid()
      reads this, idx, idx.Repr
    {
      idx.Valid() && this !in idx.Repr &&
      Tiling(idx.blocks, live) && PagesOk(pages) && MemOk(mem, pages) && LiveKept(mem, pages, live)
    }

    // `kheap_init`: one free block, and page tables for the whole heap with nothing mapped.
    constructor ()
      ensures Valid() && live == map[] && idx.blocks == {WHOLE} && fresh(idx.Repr)
      ensures mem == map[] && forall v :: v in pages ==> !pages[v].allocable
    {
      hide FreeIndex.Valid;
      var ix := new FreeIndex();
      assert WHOLE !in ix.blocks && |ix.blocks| == 0;
      var ok := ix.Add(WHOLE);
      idx, mem, pages, live := ix, map[], map[], map[];
      new;
      MakeTables();
      InitialTiling();
    }

    method MakeTables()
      requires pages == map[]
      modifies this`pages
      ensures PagesOk(pages) && forall v :: v in pages ==> !pages[v].allocable
    {
      var v := KERNEL_HEAP_BEGIN / PAGE;
      while v < KERNEL_HEAP_END / PAGE
        invariant v >= KERNEL_HEAP_BEGIN / PAGE
        invariant forall u :: KERNEL_HEAP_BEGIN / PAGE <= u < v ==> u in pages
        invariant forall u :: u in pages ==> pages[u] == Backing(false, false)
      {
        pages := pages[v := Backing(false, false)];
        v := v + 1;
      }
    }

    // ---- the page operations the heap uses ----

    // `lazy_alloc_interval(begin, end, false, true, false)`.
    method LazyAllocInterval(begin: nat, end: nat)
      requires PagesOk(pages) && KERNEL_HEAP_BEGIN <= begin && end <= KERNEL_HEAP_END && begin % PAGE == 0
      requires end % PAGE == 0
      modifies this`pages
      ensures PagesOk(pages) && PagesGrow(old(pages), pages) && Backed(pages, begin, end)
      ensures SameOutside(old(pages), pages, begin / PAGE, end / PAGE)
    {
      var v := begin / PAGE;
      while v < end / PAGE
        invariant begin / PAGE <= v && (v <= end / PAGE || v == begin / PAGE)
        invariant PagesOk(pages) && PagesGrow(old(pages), pages) && SameOutside(old(pages), pages, begin / PAGE, v)
        invariant forall u :: begin / PAGE <= u < v ==> u in pages && pages[u].allocable
      {
        if !pages[v].present {
          pages := pages[v := pages[v].(allocable := true)];
        }
        v := v + 1;
      }
    }

    // `free_interval(begin, end)`: present pages are unmapped, and their bytes are lost.
    method FreeInterval(begin: nat, end: nat)
      requires PagesOk(pages) && MemOk(mem, pages)
      requires KERNEL_HEAP_BEGIN <= begin && end <= KERNEL_HEAP_END && begin % PAGE == 0 && end % PAGE == 0
      modifies this`pages, this`mem
      ensures PagesOk(pages) && MemOk(mem, pages)
      ensures Unmapped(old(pages), pages, begin / PAGE, end / PAGE)
      ensures Forgotten(old(mem), mem, begin / PAGE, end / PAGE)
    {
      hide PagesOk, MemOk, Unmapped, Forgotten;
      var v := begin / PAGE;
      PagesBetween(begin, end);
      NothingFreed(pages, mem, v);
      while v < end / PAGE
        invariant begin / PAGE <= v && (v <= end / PAGE || v == begin / PAGE)
        invariant PagesOk(pages) && MemOk(mem, pages)
        invariant Unmapped(old(pages), pages, begin / PAGE, v) && Forgotten(old(mem), mem, begin / PAGE, v)
      {
        PageFreed(old(pages), pages, old(mem), mem, begin / PAGE, v);
        if pages[v].present {
          pages := pages[v := Backing(false, false)];
          mem := map a | a in mem && a / PAGE != v :: mem[a];
        }
        v := v + 1;
      }
      if end / PAGE < v { EmptyRange(old(pages), pages, old(mem), mem, v, end / PAGE); }
    }

    // The fault handler gives an allocable page a frame, whose contents are not known.
    method Touch(a: nat)
      requires a / PAGE in pages && pages[a / PAGE].allocable && MemOk(mem, pages) && PagesOk(pages)
      modifies this`pages
      ensures PagesGrow(old(pages), pages) && MemOk(mem, pages) && PagesOk(pages)
      ensures pages == old(pages)[a / PAGE := Backing(true, true)]
    {
      pages := pages[a / PAGE := Backing(true, true)];
    }

    // `memcpy` of a header to `a`.
    method WriteHeader(a: nat, b: Block)
      requires Backed(pages, a, a + HEADER) && MemOk(mem, pages) && PagesOk(pages)
      modifies this`pages, this`mem
      ensures mem == old(mem) + HeaderBytes(a, b) && MemOk(mem, pages) && PagesOk(pages) && PagesGrow(old(pages), pages)
      ensures SameOutside(old(pages), pages, a / PAGE, (a + HEADER - 1) / PAGE + 1)
    {
      hide HeaderBytes;
      HeaderKeys(a, b);
      Touch(a);
      Touch(a + HEADER - 1);
      mem := mem + HeaderBytes(a, b);
    }

    // ---- kmalloc ----

    // The retry loop: the least free block by (size, start) that is requested and accepted.
    method Search(size: nat, palign: nat) returns (ptr: Node?<Block>, ghost at: nat, got: Block, start: nat)
      requires idx.Valid() && FreeOk(idx.blocks) && size < WORD && palign < 32
      ensures ptr == null ==> forall f :: f in idx.blocks && Requested(f, size) ==> !Accepts(f, size, palign)
      ensures ptr != null ==>
        && FreeIndex.At(idx.treeSize, ptr, at) && ptr.key == got && FirstAccepted(idx.blocks, got, size, palign)
        && start == StartIn(got, palign)
    {
      hide FreeIndex.Valid, FreeIndex.At, GetAligned, SizeRank;
      var req := Block(0, Add32(size, HEADER));
      ghost var req0 := req;
      got, start := req, 0;
      FreeIndex.WordRanks(idx.blocks);
      while true
        invariant Word(req) && SizeRank(req0) <= SizeRank(req)
        invariant forall f :: f in idx.blocks && Requested(f, size) && SizeRank(f) < SizeRank(req) ==>
            !Accepts(f, size, palign)
        decreases Candidates(idx.blocks, req)
      {
        ptr, at := idx.FindFit(req);
        if ptr == null {
          return;
        }
        got := ptr.key;
        start := GetAligned(Add32(got.start, HEADER), palign);
        if Add32(start, size) > Add32(got.start, got.size) {
          req := got;
          req := Block(Add32(req.start, 1), req.size);
          NextRank(got);
          assert got in Candidates(idx.blocks, got) && got !in Candidates(idx.blocks, req);
          continue;
        }
        return;
      }
    }

    // Cuts the free rest after the payload off `got0`.
    method CutTail(got0: Block, start: nat, size: nat) returns (ok: bool, got: Block)
      requires idx.Valid() && InHeap(got0) && got0.start + HEADER <= start && start + size <= got0.End()
      requires OptSet(Carve(got0, start, size).tail) !! idx.blocks
      modifies idx.Repr
      ensures ok ==> idx.Valid() && fresh(idx.Repr - old(idx.Repr))
      ensures ok ==> idx.blocks == old(idx.blocks) + OptSet(Carve(got0, start, size).tail)
      ensures ok ==> got.start == got0.start && got.End() == Carve(got0, start, size).blk.End()
      ensures !ok ==> |old(idx.blocks)| >= 511
    {
      hide FreeIndex.Valid;
      SumsExact(got0, start, size);
      RestsAreWords(got0, start, size);
      got, ok := got0, true;
      if Add32(Add32(start, size), 2 * HEADER) < Add32(got.start, got.size) {
        var nblk := Block(Add32(start, size), got.start + got.size - Add32(start, size));
        got := got.(size := got.size - nblk.size);
        ok := idx.Add(nblk);
      }
    }

    // Cuts the free rest before the header off `got0`.
    method CutFront(got0: Block, start: nat) returns (ok: bool, got: Block)
      requires idx.Valid() && InHeap(got0) && got0.start + HEADER <= start <= got0.End()
      requires FrontRest(got0.start, start) !! idx.blocks
      modifies idx.Repr
      ensures ok ==> idx.Valid() && fresh(idx.Repr - old(idx.Repr))
      ensures ok ==> idx.blocks == old(idx.blocks) + FrontRest(got0.start, start)
      ensures ok ==>
        got.start == (if start - got0.start > 3 * HEADER then start - HEADER else got0.start) && got.End() == got0.End()
      ensures !ok ==> |old(idx.blocks)| >= 511
    {
      hide FreeIndex.Valid;
      HeapBounds();
      got, ok := got0, true;
      if start - got.start > 3 * HEADER {
        var nblk := Block(got.start, start - got.start - HEADER);
        got := Block(got.start + nblk.size, got.size - nblk.size);
        ok := idx.Add(nblk);
      }
    }

    // Takes the block out of both trees and puts back what the payload leaves of it.
    method TakeAndCarve(ptr: Node<Block>, ghost at: nat, got0: Block, start: nat, size: nat)
      returns (ok: bool, got: Block)
      requires idx.Valid() && Tiling(idx.blocks, live) && FreeIndex.At(idx.treeSize, ptr, at) && ptr.key == got0
      requires got0 in idx.blocks
      requires got0.start + HEADER <= start && start + size <= got0.End()
      modifies idx.Repr
      ensures ok ==> idx.Valid() && fresh(idx.Repr - old(idx.Repr))
      ensures ok ==>
        idx.blocks == old(idx.blocks) - {got0} + Rests(Carve(got0, start, size)) && got == Carve(got0, start, size).blk
      ensures !ok ==> |old(idx.blocks)| >= 511
    {
      hide FreeIndex.Valid, FreeIndex.At, Tiling, Carve, Rests, FreeOk, InHeap, OptSet, FrontRest;
      CarveTiling(idx.blocks, live, got0, start, size);
      TilingFreeOk(idx.blocks, live);
      FreeInHeap(idx.blocks, got0);
      CarveParts(got0, start, size);
      ghost var c, front := Carve(got0, start, size), FrontRest(got0.start, start);
      RestsApart(idx.blocks - {got0}, OptSet(c.tail), front, Rests(c));
      idx.TakeBySize(ptr, at, got0);
      ok, got := CutTail(got0, start, size);
      if ok {
        InHeapPart(got0, got);
        ok, got := CutFront(got, start);
      }
    }

    // Makes the pages of the payload allocable and stores the header in front of it.
    method PlaceHeader(got: Block, start: nat, size: nat, blk: Block)
      requires PagesOk(pages) && MemOk(mem, pages) && LiveKept(mem, pages, live)
      requires InHeap(got) && got.start + HEADER <= start && start + size <= got.End()
      requires start !in live && LiveOk(live[start := Live(blk, size)])
      modifies this`pages, this`mem
      ensures PagesOk(pages) && MemOk(mem, pages) && LiveKept(mem, pages, live[start := Live(blk, size)])
      ensures PayloadsKept(old(mem), mem, live) && mem == old(mem) + HeaderBytes(start - HEADER, blk)
      ensures SameOutside(old(pages), pages, (start - HEADER) / PAGE, RoundUp(start + size, PAGE) / PAGE)
    {
      hide LiveOk, Backed, LiveKept, PayloadsKept, HoldsHeader, HeaderBytes, PagesOk, PagesGrow, SameOutside;
      PageBounds(got, start, size);
      LazyAllocInterval(RoundDown(start - HEADER, PAGE), GetAligned(Add32(start, size), 12));
      BackedInside(pages, start, size, RoundDown(start - HEADER, PAGE), GetAligned(Add32(start, size), 12));
      ghost var grown := pages;
      WriteHeader(start - HEADER, blk);
      KmallocKeeps(old(mem), old(pages), grown, pages, live, start, size, blk);
      OutsideBoth(old(pages), grown, pages, start, size);
    }

    // The second half of `kmalloc`, once the block is found.
    method Allocate(ptr: Node<Block>, ghost at: nat, got: Block, start: nat, size: nat) returns (ok: bool)
      requires Valid() && FreeIndex.At(idx.treeSize, ptr, at) && ptr.key == got && got in idx.blocks
      requires got.start + HEADER <= start && start + size <= got.End()
      modifies this, idx.Repr
      ensures !ok ==> |old(idx.blocks)| >= 511
      ensures ok ==> Valid() && fresh(idx.Repr - old(idx.Repr))
      ensures ok ==> live == old(live)[start := Live(Carve(got, start, size).blk, size)] && start !in old(live)
      ensures ok ==> idx.blocks == old(idx.blocks) - {got} + Rests(Carve(got, start, size))
      ensures ok ==> PayloadsKept(old(mem), mem, old(live))
      ensures ok ==> mem == old(mem) + HeaderBytes(start - HEADER, Carve(got, start, size).blk)
      ensures ok ==> SameOutside(old(pages), pages, (start - HEADER) / PAGE, RoundUp(start + size, PAGE) / PAGE)
    {
      hide FreeIndex.Valid, FreeIndex.At, Tiling, LiveKept, PayloadsKept, Carve, Rests, MemOk, PagesOk, LiveOk,
          FreeOk, InHeap;
      hide HeaderBytes, SameOutside;
      CarveTiling(idx.blocks, live, got, start, size);
      TilingFreeOk(idx.blocks, live);
      FreeInHeap(idx.blocks, got);
      TilingFreeOk(idx.blocks - {got} + Rests(Carve(got, start, size)),
          live[start := Live(Carve(got, start, size).blk, size)]);
      var blk;
      ok, blk := TakeAndCarve(ptr, at, got, start, size);
      if ok {
        PlaceHeader(got, start, size, blk);
        live := live[start := Live(blk, size)];
      }
    }

    ghost function State(): HeapState
      reads this, idx
    {
      HeapState(idx.blocks, live)
    }

    // `kmalloc`.  Nothing is said about the heap once an address was misplaced.
    method Kmalloc(size: nat, palign: nat) returns (r: Allocation, ghost got: Block)
      requires Valid() && size < WORD && palign < 32
      modifies this, idx.Repr
      ensures r.OutOfMemory? <==> forall f :: f in old(idx.blocks) && Requested(f, size) ==> !Accepts(f, size, palign)
      ensures r.OutOfMemory? ==> forall f :: f in old(idx.blocks) ==> !Fits(f, size, palign)
      ensures !r.OutOfMemory? ==>
        FirstAccepted(old(idx.blocks), got, size, palign) && (r.Misplaced? <==> !Sound(got, size, palign))
      ensures Safe(size, palign) ==>
        !r.Misplaced? && (r.OutOfMemory? <==> forall f :: f in old(idx.blocks) ==> !Fits(f, size, palign))
      ensures r.Misplaced? ==> r.addr == StartIn(got, palign) && !Fits(got, size, palign)
      ensures r.NoTreeNode? ==> |old(idx.blocks)| >= 511
      ensures r.Payload? ==>
        Valid() && fresh(idx.Repr - old(idx.Repr)) && Mallocs(old(State()), State(), size, palign, got)
      ensures r.Payload? ==>
        r.addr == PayloadAt(got, palign) && r.addr !in old(live) && r.addr in live && r.addr >= HEADER
      ensures r.Payload? ==>
        FirstAligned(r.addr, got, palign) && live[r.addr].size == size && Tight(live[r.addr].blk, r.addr, size)
      ensures r.Payload? ==> PayloadsKept(old(mem), mem, old(live))
      ensures r.Payload? ==> mem == old(mem) + HeaderBytes(r.addr - HEADER, live[r.addr].blk)
      ensures r.Payload? ==> SameOutside(old(pages), pages, (r.addr - HEADER) / PAGE,
        RoundUp(r.addr + size, PAGE) / PAGE)
    {
      hide FreeIndex.Valid, FreeIndex.At, Tiling, Fits, PayloadAt, LiveKept, PayloadsKept, FreeOk, Carve, Rests;
      hide HeaderBytes, SameOutside, FirstAccepted, Sound, StartIn, Accepts, Requested, BestFit, Safe;
      hide FirstAligned, Tight;
      TilingFreeOk(idx.blocks, live);
      if Safe(size, palign) { SafeServed(idx.blocks, size, palign); }
      ghost var at;
      var ptr, blk, start;
      ptr, at, blk, start := Search(size, palign);
      got := blk;
      if ptr == null {
        NoneFits(idx.blocks, size, palign);
        return OutOfMemory, got;
      }
      IsAccepted(idx.blocks, got, size, palign);
      AcceptedFits(idx.blocks, got, size, palign);
      if !Sound(blk, size, palign) {
        return Misplaced(start), got;
      }
      BestFitFits(idx.blocks, live, got, size, palign);
      ghost var before := State();
      var ok := Allocate(ptr, at, blk, start, size);
      if ok { MallocsTight(before, State(), size, palign, got); }
      r := if ok then Payload(start) else NoTreeNode;
    }

    // What a caller may do with its payload: every byte of it can be stored to, and nothing else
    // is affected.
    method Store(p: nat, off: nat, val: nat)
      requires Valid() && p in live && off < live[p].size
      modifies this`mem, this`pages
      ensures Valid() && live == old(live) && mem == old(mem)[p + off := val]
      ensures PayloadsKept(old(mem), mem, live - {p})
    {
      hide FreeIndex.Valid, Tiling, LiveOk, LiveKept, MemOk, PagesOk, PayloadsKept;
      TilingFreeOk(idx.blocks, live);
      PayloadBacked(mem, pages, live, p, off);
      ghost var grown := pages;
      Touch(p + off);
      PagesStillKept(mem, grown, pages, live);
      StoreKeeps(mem, pages, live, p, off, val);
      mem := mem[p + off := val];
    }

    // ---- kfree ----

    // Joins `blk` with a free block that ends where it starts; not ok when they overlap.
    method JoinLeft(blk: Block) returns (ok: bool, joined: Block, freeStart: nat, ghost left: Option<Block>)
      requires idx.Valid() && FreeOk(idx.blocks) && InHeap(blk)
      modifies idx.Repr
      ensures idx.Valid() && idx.Repr == old(idx.Repr)
      ensures !ok ==> exists f :: f in old(idx.blocks) && !Disjoint(f, blk)
      ensures ok ==> LeftOf(old(idx.blocks), blk, left) && idx.blocks == old(idx.blocks) - OptSet(left)
      ensures ok ==> joined == Merged(blk, left, None) && freeStart == ReclaimFrom(blk, left)
      ensures ok ==> forall f :: f in old(idx.blocks) && StartRank(f) <= StartRank(blk) ==> Disjoint(f, blk)
    {
      hide FreeIndex.Valid, FreeIndex.At, StartRank, RoundDown;
      ok, joined, freeStart, left := true, blk, blk.start, None;
      var ptr;
      ghost var at;
      ptr, at := idx.FindBefore(blk);
      BeforeDecides(idx.blocks, blk, if ptr == null then None else Some(ptr.key));
      if ptr != null {
        var got := ptr.key;
        HeapBounds();
        if Add32(got.start, got.size) > blk.start {
          ok := false;
          return;
        }
        if Add32(got.start, got.size) == blk.start {
          freeStart := Max(RoundDown(freeStart, PAGE), got.start);
          left := Some(got);
          idx.TakeByStart(ptr, at, got);
          joined := Block(got.start, blk.size + got.size);
        }
      }
    }

    // Joins the block with a free block that starts where it ends; not ok when they overlap.
    method JoinRight(blk: Block, joined0: Block, ghost free: set<Block>, ghost left: Option<Block>)
      returns (ok: bool, joined: Block, freeEnd: nat, ghost right: Option<Block>)
      requires idx.Valid() && FreeOk(free) && InHeap(blk) && LeftOf(free, blk, left)
      requires idx.blocks == free - OptSet(left)
      requires joined0 == Merged(blk, left, None)
      requires forall f :: f in free && StartRank(f) <= StartRank(blk) ==> Disjoint(f, blk)
      modifies idx.Repr
      ensures idx.Valid() && idx.Repr == old(idx.Repr)
      ensures !ok ==> exists f :: f in free && !Disjoint(f, blk)
      ensures ok ==> RightOf(free, blk, right) && idx.blocks == free - OptSet(left) - OptSet(right)
      ensures ok ==> joined == Merged(blk, left, right) && freeEnd == ReclaimTo(blk, right)
      ensures ok ==> forall f :: f in free ==> Disjoint(f, blk)
    {
      hide FreeIndex.Valid, FreeIndex.At, StartRank, RoundUp;
      ok, joined, freeEnd, right := true, joined0, blk.End(), None;
      var ptr;
      ghost var at;
      ptr, at := idx.FindAfter(joined);
      AfterDecides(free, blk, left, if ptr == null then None else Some(ptr.key));
      if ptr != null {
        var got := ptr.key;
        HeapBounds();
        JoinedEnd(free, blk, left);
        if Add32(joined.start, joined.size) > got.start {
          ok := false;
          return;
        }
        if Add32(joined.start, joined.size) == got.start {
          PageUp(blk);
          freeEnd := Min(GetAligned(freeEnd, 12), Add32(joined.start, joined.size));
          right := Some(got);
          idx.TakeByStart(ptr, at, got);
          joined := joined.(size := joined.size + got.size);
        }
      }
    }

    // The tests and the joining of `kfree`, for any nonempty block of the heap: it is refused
    // exactly when it overlaps a free block.
    method ReleaseBlock(blk: Block)
      returns (r: Release, freeStart: nat, freeEnd: nat, ghost left: Option<Block>, ghost right: Option<Block>)
      requires idx.Valid() && FreeOk(idx.blocks) && InHeap(blk)
      modifies idx.Repr
      ensures r.Invalid? <==> exists f :: f in old(idx.blocks) && !Disjoint(f, blk)
      ensures r.NoNode? ==> |old(idx.blocks)| >= 511
      ensures r.Freed? ==> idx.Valid() && fresh(idx.Repr - old(idx.Repr))
      ensures r.Freed? ==> LeftOf(old(idx.blocks), blk, left) && RightOf(old(idx.blocks), blk, right)
      ensures r.Freed? ==> idx.blocks == Released(old(idx.blocks), blk, left, right)
      ensures r.Freed? ==> freeStart == ReclaimFrom(blk, left) && freeEnd == ReclaimTo(blk, right)
    {
      hide FreeIndex.Valid, ReclaimFrom, ReclaimTo, LeftOf, RightOf, Merged, OptSet;
      ghost var free := idx.blocks;
      freeEnd, right := 0, None;
      var ok, joined;
      ok, joined, freeStart, left := JoinLeft(blk);
      if !ok { return Invalid, freeStart, freeEnd, left, right; }
      ok, joined, freeEnd, right := JoinRight(blk, joined, free, left);
      if !ok { return Invalid, freeStart, freeEnd, left, right; }
      ReleaseFreeOk(free, blk, left, right);
      MergedWord(joined);
      MinusSize(free, OptSet(left), OptSet(right));
      ok := idx.Add(joined);
      r := if ok then Freed else NoNode;
    }

    method Kfree(addr: nat) returns (r: Release, ghost left: Option<Block>, ghost right: Option<Block>)
      requires Valid() && addr in live
      modifies this, idx.Repr
      ensures r.Freed? || (r.NoNode? && |old(idx.blocks)| >= 511)
      ensures r.Freed? ==> Valid() && fresh(idx.Repr - old(idx.Repr)) && live == old(live) - {addr}
      ensures r.Freed? ==> var blk := old(live[addr].blk);
        && Frees(old(State()), State(), addr, left, right)
        && Unmapped(old(pages), pages, RoundUp(ReclaimFrom(blk, left), PAGE) / PAGE,
              RoundDown(ReclaimTo(blk, right), PAGE) / PAGE)
        && Forgotten(old(mem), mem, RoundUp(ReclaimFrom(blk, left), PAGE) / PAGE,
              RoundDown(ReclaimTo(blk, right), PAGE) / PAGE)
      ensures r.Freed? ==> PayloadsKept(old(mem), mem, live)
    {
      hide FreeIndex.Valid, Tiling, LiveKept, PayloadsKept, HoldsHeader, ReclaimFrom, ReclaimTo, LeftOf, RightOf,
          Released, Unmapped, Forgotten, Merged, PageInside, Disjoint, GetAligned, RoundUp, RoundDown, FreeOk, InHeap,
          PagesOk, MemOk, Add32;
      left, right := None, None;
      HeaderRead(mem, pages, idx.blocks, live, addr);
      var blk := ReadHeader(mem, addr - HEADER);
      if blk.start < KERNEL_HEAP_BEGIN || Add32(blk.start, blk.size) > KERNEL_HEAP_END {
        return Invalid, left, right;
      }
      var freeStart, freeEnd;
      r, freeStart, freeEnd, left, right := ReleaseBlock(blk);
      if r.Freed? {
        ReleaseTiling(old(idx.blocks), live, addr, left, right);
        Reclaim(addr, freeStart, freeEnd, old(idx.blocks), left, right);
        live := live - {addr};
      }
    }

    // The last lines of `kfree`: the whole pages that became free are given back.
    method Reclaim(addr: nat, freeStart: nat, freeEnd: nat, ghost free: set<Block>, ghost left: Option<Block>,
            ghost right: Option<Block>)
      requires PagesOk(pages) && MemOk(mem, pages) && LiveKept(mem, pages, live) && Tiling(free, live) && addr in live
      requires LeftOf(free, live[addr].blk, left) && RightOf(free, live[addr].blk, right)
      requires freeStart == ReclaimFrom(live[addr].blk, left) && freeEnd == ReclaimTo(live[addr].blk, right)
      modifies this`pages, this`mem
      ensures PagesOk(pages) && MemOk(mem, pages) && LiveKept(mem, pages, live - {addr})
      ensures Unmapped(old(pages), pages, RoundUp(freeStart, PAGE) / PAGE, RoundDown(freeEnd, PAGE) / PAGE)
      ensures Forgotten(old(mem), mem, RoundUp(freeStart, PAGE) / PAGE, RoundDown(freeEnd, PAGE) / PAGE)
      ensures PayloadsKept(old(mem), mem, live - {addr})
    {
      hide Tiling, LiveKept, PayloadsKept, MemOk, PagesOk, ReclaimFrom, ReclaimTo, LeftOf, RightOf, Unmapped,
          Forgotten, Merged, PageInside, Disjoint, GetAligned, RoundUp, RoundDown;
      TilingFreeOk(free, live);
      ReclaimFacts(free, live, addr, left, right);
      FreeInterval(GetAligned(freeStart, 12), RoundDown(freeEnd, PAGE));
      KfreeKeeps(old(mem), mem, old(pages), pages, live, addr, Merged(live[addr].blk, left, right),
          GetAligned(freeStart, 12) / PAGE, RoundDown(freeEnd, PAGE) / PAGE);
    }
  }
}
