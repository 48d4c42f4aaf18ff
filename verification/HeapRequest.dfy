/** What `kmalloc` asks of a free block, in 32-bit arithmetic, and what a request and a release do to
    the free and the live blocks. */
module HeapRequest {
  import opened Common
  import opened FreeBlocks
  import opened HeapLayout

  // ---- 32-bit arithmetic ----

  // The largest size whose block size does not wrap around.
  const MAX_SIZE := WORD - 1 - HEADER

  // `kmalloc` adds the header to the size exactly when the size is small enough.
  lemma RequestExact(size: nat)
    requires size < WORD
    ensures Add32(size, HEADER) == size + HEADER <==> size <= MAX_SIZE
  {
  }

  // An oversized request wraps to a tiny one: 2^32 - 1 asks for a block of 7 bytes.
  lemma RequestWraps()
    ensures Add32(WORD - 1, HEADER) == 7
  {
  }

  // No sum, alignment or comparison of `kmalloc` wraps for the blocks it looks at.
  lemma NoWrap(got: Block, size: nat, palign: nat)
    requires InHeap(got) && palign <= 22 && size + HEADER <= got.size
    ensures var start := PayloadAt(got, palign);
      && GetAligned(Add32(got.start, HEADER), palign) == start
      && Add32(start, size) == start + size
      && got.start + HEADER <= start
      && Add32(got.start, got.size) == got.End()
      && (start + size <= got.End() ==> Add32(Add32(start, size), 2 * HEADER) == start + size + 2 * HEADER)
  {
    HeapBounds();
    AlignExact(palign);
    Pow2Monotone(palign, 22);
    Pow2Values();
    RoundUpFacts(got.start + HEADER, Pow2(palign));
  }

  // Where the payload would start in a free block, as the code computes it.
  function StartIn(b: Block, palign: nat): nat {
    GetAligned(Add32(b.start, HEADER), palign)
  }

  // The test of the retry loop.
  predicate Accepts(b: Block, size: nat, palign: nat) {
    Add32(StartIn(b, palign), size) <= Add32(b.start, b.size)
  }

  // The payload ends inside the address space, or so far past its end that the wrapped sum is still
  // behind the block.
  predicate Sound(b: Block, size: nat, palign: nat) {
    PayloadAt(b, palign) + size < WORD || PayloadAt(b, palign) + size - WORD > b.End()
  }

  // For every alignment the code can shift by, the start is the exact one modulo 2^32.
  lemma StartExact(b: Block, palign: nat)
    requires InHeap(b) && palign < 32
    ensures b.start + HEADER <= PayloadAt(b, palign) <= WORD && StartIn(b, palign) == PayloadAt(b, palign) % WORD
  {
    HeapBounds();
    WordMultiple(palign);
    RoundedWord(b.start + HEADER, palign);
    hide Pow2, GetAligned, RoundUp;
    RoundUpFacts(b.start + HEADER, Pow2(palign));
    RoundUpLeast(b.start + HEADER, Pow2(palign), WORD);
  }

  lemma RoundedWord(a: nat, palign: nat)
    ensures GetAligned(a, palign) == RoundUp(a, Pow2(palign)) % WORD
  {
    hide Pow2;
  }

  // The test tells whether the payload fits exactly when the sum it compares does not wrap into or
  // before the block: for every block of the heap, every size and every alignment.
  lemma FitTestExact(b: Block, size: nat, palign: nat)
    requires InHeap(b) && palign < 32 && size < WORD
    ensures (Accepts(b, size, palign) <==> Fits(b, size, palign)) <==> Sound(b, size, palign)
    ensures !Sound(b, size, palign) ==> Accepts(b, size, palign) && !Fits(b, size, palign)
  {
    HeapBounds();
    StartExact(b, palign);
    EndExact(b);
    hide StartIn, PayloadAt, Add32;
    WrappedSum(PayloadAt(b, palign), size, b.End());
  }

  lemma EndExact(b: Block)
    requires InHeap(b)
    ensures Add32(b.start, b.size) == b.End() <= KERNEL_HEAP_END < WORD
  {
  }

  lemma WrappedSum(p: nat, size: nat, end: nat)
    requires p <= WORD && size < WORD && end < WORD
    ensures Add32(p % WORD, size) == if p + size < WORD then p + size else p + size - WORD
  {
  }

  // An oversized request is served from every block in which the payload would start at all.
  lemma OversizeServed(b: Block, size: nat, palign: nat)
    requires InHeap(b) && palign < 32 && MAX_SIZE < size < WORD && PayloadAt(b, palign) <= b.End()
    ensures !Sound(b, size, palign)
  {
    HeapBounds();
    StartExact(b, palign);
    hide StartIn, PayloadAt;
  }

  // With 8 MB alignment a request for 16 bytes is served at address 0.
  lemma ServedAtZero()
    ensures var b := Block(0xFF80_0000, 0x40_0000);
      && InHeap(b) && Requested(b, 16) && StartIn(b, 23) == 0 && !Sound(b, 16, 23)
      && FirstAccepted({b}, b, 16, 23) && !Fits(b, 16, 23)
  {
    HeapBounds();
    var b := Block(0xFF80_0000, 0x40_0000);
    Pow2Values();
    assert PayloadAt(b, 23) == WORD;
    StartExact(b, 23);
    FitTestExact(b, 16, 23);
  }

  // ---- the search ----

  // Not below the first request of the loop.
  predicate Requested(b: Block, size: nat) {
    SizeRank(Block(0, Add32(size, HEADER))) <= SizeRank(b)
  }

  // The least block by (size, start) that the loop accepts.
  ghost predicate FirstAccepted(free: set<Block>, got: Block, size: nat, palign: nat) {
    && got in free && Requested(got, size) && Accepts(got, size, palign)
    && forall f :: f in free && Requested(f, size) && Accepts(f, size, palign) ==> SizeRank(got) <= SizeRank(f)
  }

  ghost function Candidates(free: set<Block>, req: Block): set<Block> {
    set f | f in free && SizeRank(req) <= SizeRank(f)
  }

  lemma NextRank(b: Block)
    requires InHeap(b)
    ensures var b' := Block(Add32(b.start, 1), b.size);
      Word(b') && SizeRank(b') == SizeRank(b) + 1
  {
  }

  ghost predicate BestFit(free: set<Block>, got: Block, size: nat, palign: nat) {
    && got in free && Fits(got, size, palign)
    && forall f :: f in free && Fits(f, size, palign) ==> SizeRank(got) <= SizeRank(f)
  }

  // The block that is accepted first is the best fit, unless the test is wrong about it.
  lemma AcceptedFits(free: set<Block>, got: Block, size: nat, palign: nat)
    requires FreeOk(free) && size < WORD && palign < 32 && FirstAccepted(free, got, size, palign)
    ensures Sound(got, size, palign) ==>
      BestFit(free, got, size, palign) && StartIn(got, palign) == PayloadAt(got, palign)
    ensures !Sound(got, size, palign) ==> !Fits(got, size, palign)
  {
    hide SizeRank, Accepts, Fits, Sound;
    FitTestExact(got, size, palign);
    if Sound(got, size, palign) {
      StartInside(got, size, palign);
      forall f | f in free && Fits(f, size, palign) ensures SizeRank(got) <= SizeRank(f) {
        FittingAccepted(f, size, palign);
      }
    }
  }

  lemma StartInside(b: Block, size: nat, palign: nat)
    requires InHeap(b) && palign < 32 && Fits(b, size, palign)
    ensures StartIn(b, palign) == PayloadAt(b, palign)
  {
    HeapBounds();
    StartExact(b, palign);
    hide StartIn, PayloadAt;
  }

  // A block in which the payload fits is requested and accepted.
  lemma FittingAccepted(b: Block, size: nat, palign: nat)
    requires InHeap(b) && size < WORD && palign < 32 && Fits(b, size, palign)
    ensures Requested(b, size) && Accepts(b, size, palign)
  {
    HeapBounds();
    StartExact(b, palign);
    FitTestExact(b, size, palign);
    hide StartIn, PayloadAt, Accepts;
    RanksAreTheOrders(Block(0, Add32(size, HEADER)), b);
  }

  // When no block is accepted the payload fits in none.
  lemma NoneFits(free: set<Block>, size: nat, palign: nat)
    requires FreeOk(free) && size < WORD && palign < 32
    requires forall f :: f in free && Requested(f, size) ==> !Accepts(f, size, palign)
    ensures forall f :: f in free ==> !Fits(f, size, palign)
  {
    hide Requested, Accepts, Fits;
    forall f | f in free ensures !Fits(f, size, palign) {
      if Fits(f, size, palign) { FittingAccepted(f, size, palign); }
    }
  }

  // ---- which requests are safe ----

  // The largest payload the heap can hold.
  const MAX_PAYLOAD := KERNEL_HEAP_END - KERNEL_HEAP_BEGIN - HEADER

  // A payload that ends with the heap, moved up to the alignment, ends inside the address space; a
  // payload that the heap cannot hold is not looked for, or would start nowhere in the heap.
  predicate Safe(size: nat, palign: nat) {
    if size <= MAX_PAYLOAD then RoundUp(KERNEL_HEAP_END - size, Pow2(palign)) + size < WORD
    else size <= MAX_SIZE || palign > 28
  }

  // Which requests the test is right about, whatever block of the heap it meets.
  lemma SafeExact(size: nat, palign: nat)
    requires size < WORD && palign < 32
    ensures (forall b :: InHeap(b) && Requested(b, size) ==> Sound(b, size, palign)) <==> Safe(size, palign)
  {
    hide Safe, Sound, Requested;
    if Safe(size, palign) {
      forall b | InHeap(b) && Requested(b, size) ensures Sound(b, size, palign) {
        SafeSound(b, size, palign);
      }
    } else {
      var b := UnsafeBlock(size, palign);
    }
  }

  lemma SafeSound(b: Block, size: nat, palign: nat)
    requires InHeap(b) && Requested(b, size) && size < WORD && palign < 32 && Safe(size, palign)
    ensures Sound(b, size, palign)
  {
    HeapBounds();
    hide Pow2, RoundUp;
    var m := Pow2(palign);
    if size <= MAX_SIZE {
      RanksAreTheOrders(Block(0, Add32(size, HEADER)), b);
      RoundUpFacts(KERNEL_HEAP_END - size, m);
      RoundUpLeast(b.start + HEADER, m, RoundUp(KERNEL_HEAP_END - size, m));
    } else {
      FarStart(b, palign);
    }
  }

  // The heap has no address with an alignment of more than 2^28.
  lemma FarStart(b: Block, palign: nat)
    requires InHeap(b) && 28 < palign < 32
    ensures PayloadAt(b, palign) == WORD
  {
    HeapBounds();
    Pow2Values();
    Pow2Monotone(29, palign);
    WordMultiple(palign);
    hide Pow2, RoundUp;
    RoundUpFacts(b.start + HEADER, Pow2(palign));
    RoundUpLeast(b.start + HEADER, Pow2(palign), WORD);
    SameMultiple(PayloadAt(b, palign), WORD, Pow2(palign));
  }

  // A block about which the test is wrong: the last one that is large enough, or the whole heap.
  lemma UnsafeBlock(size: nat, palign: nat) returns (b: Block)
    requires size < WORD && palign < 32 && !Safe(size, palign)
    ensures InHeap(b) && Requested(b, size) && !Sound(b, size, palign)
  {
    hide Sound, Requested;
    if size <= MAX_PAYLOAD {
      b := Block(KERNEL_HEAP_END - size - HEADER, size + HEADER);
      LastRequested(b, size);
      LastUnsound(b, size, palign);
    } else {
      b := WHOLE;
      HeapHolds(palign);
      WholeRequested(size);
      OversizeServed(b, size, palign);
    }
  }

  lemma LastRequested(b: Block, size: nat)
    requires size <= MAX_PAYLOAD && b == Block(KERNEL_HEAP_END - size - HEADER, size + HEADER)
    ensures InHeap(b) && Requested(b, size)
  {
    HeapBounds();
    RanksAreTheOrders(b, Block(0, Add32(size, HEADER)));
    hide SizeRank, StartRank;
  }

  lemma WholeRequested(size: nat)
    requires MAX_SIZE < size < WORD
    ensures InHeap(WHOLE) && Requested(WHOLE, size)
  {
    HeapBounds();
    RanksAreTheOrders(WHOLE, Block(0, Add32(size, HEADER)));
    hide SizeRank, StartRank;
  }

  lemma LastUnsound(b: Block, size: nat, palign: nat)
    requires InHeap(b) && b.start + HEADER + size == KERNEL_HEAP_END && palign < 32 && !Safe(size, palign)
    requires size <= MAX_PAYLOAD
    ensures !Sound(b, size, palign)
  {
    HeapBounds();
    StartExact(b, palign);
    assert PayloadAt(b, palign) == RoundUp(KERNEL_HEAP_END - size, Pow2(palign));
    hide RoundUp, Pow2, StartIn, PayloadAt;
  }

  lemma HeapHolds(palign: nat)
    requires palign <= 28
    ensures PayloadAt(WHOLE, palign) <= WHOLE.End()
  {
    HeapBounds();
    Pow2Values();
    Pow2Divides(palign, 28);
    MultipleOf(0x1000_0000, 15, Pow2(palign));
    hide Pow2, RoundUp;
    RoundUpLeast(WHOLE.start + HEADER, Pow2(palign), 0xF000_0000);
  }

  // Alignments up to 4 MB are safe for all sizes up to 2^32 - 9.
  lemma UsualSafe(size: nat, palign: nat)
    requires size <= MAX_SIZE && palign <= 22
    ensures Safe(size, palign)
  {
    HeapBounds();
    Pow2Monotone(palign, 22);
    Pow2Values();
    hide Pow2, RoundUp;
    if size <= MAX_PAYLOAD { RoundUpFacts(KERNEL_HEAP_END - size, Pow2(palign)); }
  }

  // For a safe request nothing is accepted exactly when nothing fits.
  lemma SafeServed(free: set<Block>, size: nat, palign: nat)
    requires FreeOk(free) && size < WORD && palign < 32 && Safe(size, palign)
    ensures forall f :: f in free && Requested(f, size) ==> Sound(f, size, palign)
    ensures (forall f :: f in free && Requested(f, size) ==> !Accepts(f, size, palign)) <==>
            forall f :: f in free ==> !Fits(f, size, palign)
  {
    hide Accepts, Fits, Sound, Safe, Requested;
    forall f | f in free && Requested(f, size)
      ensures Sound(f, size, palign) && (Accepts(f, size, palign) <==> Fits(f, size, palign))
    {
      SafeSound(f, size, palign);
      FitTestExact(f, size, palign);
    }
    if forall f :: f in free && Requested(f, size) ==> !Accepts(f, size, palign) {
      NoneFits(free, size, palign);
    }
  }

  // ---- what the operations do ----

  datatype HeapState = HeapState(free: set<Block>, live: map<nat, Live>)

  // A `kmalloc(size, palign)` that is served from the block `got`.
  ghost predicate Mallocs(s: HeapState, s': HeapState, size: nat, palign: nat, got: Block) {
    && BestFit(s.free, got, size, palign)
    && got.start + HEADER <= PayloadAt(got, palign) && PayloadAt(got, palign) + size <= got.End()
    && var c := Carve(got, PayloadAt(got, palign), size);
      s' == HeapState(s.free - {got} + Rests(c), s.live[PayloadAt(got, palign) := Live(c.blk, size)])
  }

  // A `kfree(addr)` that joins the neighbours `left` and `right`.
  ghost predicate Frees(s: HeapState, s': HeapState, addr: nat, left: Option<Block>, right: Option<Block>) {
    && addr in s.live && LeftOf(s.free, s.live[addr].blk, left) && RightOf(s.free, s.live[addr].blk, right)
    && s' == HeapState(Released(s.free, s.live[addr].blk, left, right), s.live - {addr})
  }

  // ---- what a served request takes and leaves ----

  // A live block holds its header and its payload, and at most two headers more on either side.
  predicate Tight(b: Block, p: nat, size: nat) {
    && b.start <= p - HEADER <= b.start + 2 * HEADER
    && p + size <= b.End() <= p + size + 2 * HEADER
  }

  // Block `r` is one of the two parts of `got` that the live block `b` leaves.
  predicate LeftOver(r: Block, got: Block, b: Block) {
    || (got.start < b.start && r.start == got.start && r.End() == b.start)
    || (b.End() < got.End() && r.start == b.End() && r.End() == got.End())
  }

  // The payload starts at the first aligned address behind a header.
  predicate FirstAligned(p: nat, got: Block, palign: nat) {
    p % Pow2(palign) == 0 && got.start + HEADER <= p < got.start + HEADER + Pow2(palign)
  }

  // A served request takes a tight block out of the one that was found.  It ends where the payload
  // does, or where that block ended; and it leaves free all that is in front and behind, in parts
  // that could hold more than two headers.
  lemma MallocsTight(s: HeapState, s': HeapState, size: nat, palign: nat, got: Block)
    requires Mallocs(s, s', size, palign, got) && FreeOk(s.free)
    ensures var p := PayloadAt(got, palign);
      && FirstAligned(p, got, palign) && p in s'.live && s'.live[p].size == size
      && var b := s'.live[p].blk;
      && Tight(b, p, size) && got.start <= b.start && b.End() <= got.End()
      && (b.start == p - HEADER || b.start == got.start) && (b.End() == p + size || b.End() == got.End())
      && (forall f :: f in s'.free <==> (f in s.free && f != got) || LeftOver(f, got, b))
      && (forall f :: LeftOver(f, got, b) ==> f.size > 2 * HEADER)
      && (forall q :: q != p ==> (q in s'.live <==> q in s.live) && (q in s.live ==> s'.live[q] == s.live[q]))
  {
    HeapBounds();
    RoundUpFacts(got.start + HEADER, Pow2(palign));
    hide Pow2, RoundUp;
  }
}
