/** Runs of `kmalloc` and `kfree` on the shared heap, where they lead, and the limits of the range
    test of `kfree`. */
module HeapRuns {
  import opened Common
  import opened FreeBlocks
  import opened HeapLayout
  import opened HeapRequest

  const START := HeapState({WHOLE}, map[])

  ghost predicate Step(s: HeapState, s': HeapState) {
    || (exists size, palign, got :: Mallocs(s, s', size, palign, got))
    || (exists addr, left, right :: Frees(s, s', addr, left, right))
  }

  ghost predicate Run(states: seq<HeapState>) {
    states != [] && states[0] == START && forall i :: 0 <= i < |states| - 1 ==> Step(states[i], states[i + 1])
  }

  lemma StepTiles(s: HeapState, s': HeapState)
    requires Tiling(s.free, s.live) && Step(s, s')
    ensures Tiling(s'.free, s'.live)
  {
    hide Tiling, Rests, Carve, LeftOf, RightOf, Released, BestFit, PayloadAt;
    if exists size, palign, got :: Mallocs(s, s', size, palign, got) {
      var size, palign, got :| Mallocs(s, s', size, palign, got);
      BestFitIn(s.free, got, size, palign);
      CarveTiling(s.free, s.live, got, PayloadAt(got, palign), size);
    } else {
      var addr, left, right :| Frees(s, s', addr, left, right);
      ReleaseTiling(s.free, s.live, addr, left, right);
    }
  }

  lemma BestFitIn(free: set<Block>, got: Block, size: nat, palign: nat)
    requires BestFit(free, got, size, palign)
    ensures got in free
  {
  }

  // In every state of every run free and live blocks tile the heap; whenever nothing is live the
  // free set is the single initial block, whatever the order of the releases was.
  lemma {:induction false} RunTiles(states: seq<HeapState>, i: nat)
    requires Run(states) && i < |states|
    ensures Tiling(states[i].free, states[i].live)
    ensures states[i].live == map[] ==> states[i] == START
  {
    if i == 0 {
      InitialTiling();
    } else {
      RunTiles(states, i - 1);
      StepTiles(states[i - 1], states[i - 1 + 1]);
    }
    if states[i].live == map[] { NothingLive(states[i].free); }
  }

  ghost predicate FreedBy(s: HeapState, s': HeapState, p: nat) {
    exists left, right :: Frees(s, s', p, left, right)
  }

  // A live block stays where it is, with its size, until it is freed itself.
  lemma LiveStays(s: HeapState, s': HeapState, p: nat)
    requires Tiling(s.free, s.live) && Step(s, s') && p in s.live
    ensures (p in s'.live && s'.live[p] == s.live[p]) || FreedBy(s, s', p)
  {
    hide Tiling, Rests, Carve, LeftOf, RightOf, Released, BestFit, PayloadAt;
    if exists size, palign, got :: Mallocs(s, s', size, palign, got) {
      var size, palign, got :| Mallocs(s, s', size, palign, got);
      BestFitIn(s.free, got, size, palign);
      CarveTiling(s.free, s.live, got, PayloadAt(got, palign), size);
    }
  }

  // Over every run a live block stays where it is, with its size, until it is freed itself.
  lemma {:induction false} LiveOverRun(states: seq<HeapState>, i: nat, j: nat, p: nat)
    requires Run(states) && i <= j < |states| && p in states[i].live
    requires forall k :: i <= k < j ==> !FreedBy(states[k], states[k + 1], p)
    ensures p in states[j].live && states[j].live[p] == states[i].live[p]
    decreases j
  {
    hide FreedBy, Step;
    if i < j {
      LiveOverRun(states, i, j - 1, p);
      RunTiles(states, j - 1);
      LiveStays(states[j - 1], states[j - 1 + 1], p);
    }
  }

  // Over every run each live block is tight: besides its header it wastes at most 4 * HEADER bytes.
  lemma {:induction false} RunTight(states: seq<HeapState>, i: nat, p: nat)
    requires Run(states) && i < |states| && p in states[i].live
    ensures var l := states[i].live[p]; Tight(l.blk, p, l.size) && l.size + HEADER <= l.blk.size <= l.size + 5 * HEADER
  {
    if i > 0 {
      RunTiles(states, i - 1);
      StepTight(states[i - 1], states[i - 1 + 1], p);
      if p in states[i - 1].live && states[i - 1].live[p] == states[i].live[p] { RunTight(states, i - 1, p); }
    }
  }

  lemma StepTight(s: HeapState, s': HeapState, p: nat)
    requires Tiling(s.free, s.live) && Step(s, s') && p in s'.live
    ensures (p in s.live && s.live[p] == s'.live[p]) || Tight(s'.live[p].blk, p, s'.live[p].size)
  {
    hide Tiling, Rests, Carve, LeftOf, RightOf, Released, BestFit, PayloadAt, Tight;
    if exists size, palign, got :: Mallocs(s, s', size, palign, got) {
      var size, palign, got :| Mallocs(s, s', size, palign, got);
      FreeAllOk(s.free, s.live);
      MallocsTight(s, s', size, palign, got);
    }
  }

  lemma FreeAllOk(free: set<Block>, live: map<nat, Live>)
    requires Tiling(free, live)
    ensures FreeOk(free)
  {
  }

  // ---- where runs lead ----

  // A run that serves a request of 16 bytes at address 0: one request that leaves the last 4 MB free,
  // and one with an alignment of 8 MB.
  lemma ZeroReached() returns (s: HeapState, last: Block)
    ensures Mallocs(START, s, 0xFBF_FFF8, 0, WHOLE) && Run([START, s])
    ensures s.free == {last} && FirstAccepted(s.free, last, 16, 23) && StartIn(last, 23) == 0 && !Fits(last, 16, 23)
  {
    HeapBounds();
    last := Block(0xFF80_0000, 0x40_0000);
    s := AfterFirst(0xFBF_FFF8, last);
    ServedAtZero();
  }

  // A first request without alignment takes the front of the heap.
  lemma AfterFirst(size: nat, rest: Block) returns (s: HeapState)
    requires HEADER + size + 2 * HEADER < KERNEL_HEAP_END - KERNEL_HEAP_BEGIN
    requires rest == Block(KERNEL_HEAP_BEGIN + HEADER + size, KERNEL_HEAP_END - KERNEL_HEAP_BEGIN - HEADER - size)
    ensures s.free == {rest}
    ensures s.live == map[KERNEL_HEAP_BEGIN + HEADER := Live(Block(KERNEL_HEAP_BEGIN, HEADER + size), size)]
    ensures Mallocs(START, s, size, 0, WHOLE) && Run([START, s])
  {
    HeapBounds();
    var p := KERNEL_HEAP_BEGIN + HEADER;
    assert PayloadAt(WHOLE, 0) == p;
    var blk := Block(KERNEL_HEAP_BEGIN, HEADER + size);
    s := HeapState({rest}, map[p := Live(blk, size)]);
    assert Carve(WHOLE, p, size) == Carving(Some(rest), None, blk);
    assert Mallocs(START, s, size, 0, WHOLE);
  }

  // A run after which a page is kept although all of it is free: one request that ends in the middle
  // of the second page, and its release.
  lemma MissReached() returns (s: HeapState, rest: Block)
    ensures Mallocs(START, s, 0x17F8, 0, WHOLE) && Frees(s, START, KERNEL_HEAP_BEGIN + HEADER, None, Some(rest))
    ensures Run([START, s, START]) && KERNEL_HEAP_BEGIN + HEADER in s.live
    ensures var b, v := s.live[KERNEL_HEAP_BEGIN + HEADER].blk, KERNEL_HEAP_BEGIN / PAGE + 1;
      && PageInside(v, WHOLE) && WHOLE == Merged(b, None, Some(rest)) && PageMeets(v, b)
      && !Reclaimed(v, b, None, Some(rest))
  {
    HeapBounds();
    rest := Block(KERNEL_HEAP_BEGIN + 0x1800, KERNEL_HEAP_END - KERNEL_HEAP_BEGIN - 0x1800);
    s := AfterFirst(0x17F8, rest);
    var b := Block(KERNEL_HEAP_BEGIN, 0x1800);
    assert LeftOf(s.free, b, None) && RightOf(s.free, b, Some(rest));
    assert Released(s.free, b, None, Some(rest)) == {WHOLE};
    assert Frees(s, START, KERNEL_HEAP_BEGIN + HEADER, None, Some(rest));
  }

  // ---- the range test ----

  // The range test of `kfree` is right exactly when it does not accept a block whose end wraps.
  lemma RangeTestExact(b: Block)
    requires Word(b)
    ensures (KERNEL_HEAP_BEGIN <= b.start && Add32(b.start, b.size) <= KERNEL_HEAP_END
             <==> KERNEL_HEAP_BEGIN <= b.start && b.End() <= KERNEL_HEAP_END)
      <==> !(KERNEL_HEAP_BEGIN <= b.start && WORD <= b.End() <= WORD + KERNEL_HEAP_END)
  {
  }

  // Such a block: it starts in the heap and runs past the end of the address space.
  lemma RangeTestWraps()
    ensures var b := Block(0xF000_0000, 0x1000_0010);
      Word(b) && KERNEL_HEAP_BEGIN <= b.start && Add32(b.start, b.size) <= KERNEL_HEAP_END && !InHeap(b)
  {
    HeapBounds();
  }
}
