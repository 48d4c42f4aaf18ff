/** Headers in the memory of the heap, the pages behind it, and what keeps both for live blocks. */
module HeapMemory {
  import opened Common
  import opened FreeBlocks
  import opened HeapLayout

  // ---- headers in memory ----

  // Byte `k` of a header: the start, then the size.
  function HeaderByte(b: Block, k: nat): nat
    requires k < HEADER
  {
    WordByte(if k < 4 then b.start else b.size, k % 4)
  }

  function Word32(mem: map<nat, nat>, a: nat): nat
    requires a in mem && a + 1 in mem && a + 2 in mem && a + 3 in mem
  {
    mem[a] + mem[a + 1] * 0x100 + mem[a + 2] * 0x1_0000 + mem[a + 3] * 0x100_0000
  }

  function ReadHeader(mem: map<nat, nat>, a: nat): Block
    requires forall i :: a <= i < a + HEADER ==> i in mem
  {
    Block(Word32(mem, a), Word32(mem, a + 4))
  }

  ghost predicate HoldsHeader(mem: map<nat, nat>, a: nat, b: Block) {
    forall i :: a <= i < a + HEADER ==> i in mem && mem[i] == HeaderByte(b, i - a)
  }

  function HeaderBytes(a: nat, b: Block): map<nat, nat> {
    map[a := HeaderByte(b, 0), a + 1 := HeaderByte(b, 1), a + 2 := HeaderByte(b, 2), a + 3 := HeaderByte(b, 3),
        a + 4 := HeaderByte(b, 4), a + 5 := HeaderByte(b, 5), a + 6 := HeaderByte(b, 6), a + 7 := HeaderByte(b, 7)]
  }

  lemma HeaderKeys(a: nat, b: Block)
    ensures forall i :: i in HeaderBytes(a, b) ==> i / PAGE == a / PAGE || i / PAGE == (a + HEADER - 1) / PAGE
  {
    hide HeaderByte;
  }

  lemma HeaderStored(mem: map<nat, nat>, a: nat, b: Block)
    ensures HoldsHeader(mem + HeaderBytes(a, b), a, b)
  {
    hide HeaderByte;
  }

  lemma HeaderRoundTrip(mem: map<nat, nat>, a: nat, b: Block)
    requires Word(b) && HoldsHeader(mem, a, b)
    ensures ReadHeader(mem, a) == b
  {
    hide HoldsHeader;
    StoredByte(mem, a, b, 0);
    StoredByte(mem, a, b, 1);
    StoredByte(mem, a, b, 2);
    StoredByte(mem, a, b, 3);
    StoredByte(mem, a, b, 4);
    StoredByte(mem, a, b, 5);
    StoredByte(mem, a, b, 6);
    StoredByte(mem, a, b, 7);
    hide WordByte;
    WordBack(mem, a, b.start);
    WordBack(mem, a + 4, b.size);
  }

  lemma StoredByte(mem: map<nat, nat>, a: nat, b: Block, k: nat)
    requires HoldsHeader(mem, a, b) && k < HEADER
    ensures a + k in mem && mem[a + k] == WordByte(if k < 4 then b.start else b.size, k % 4)
    ensures forall i :: a <= i < a + HEADER ==> i in mem
  {
    hide WordByte;
    assert mem[a + k] == HeaderByte(b, a + k - a);
  }

  lemma WordBack(mem: map<nat, nat>, a: nat, w: nat)
    requires w < WORD && a in mem && a + 1 in mem && a + 2 in mem && a + 3 in mem
    requires mem[a] == WordByte(w, 0) && mem[a + 1] == WordByte(w, 1)
    requires mem[a + 2] == WordByte(w, 2) && mem[a + 3] == WordByte(w, 3)
    ensures Word32(mem, a) == w
  {
    WordDigits(w);
    hide WordByte;
  }

  // ---- pages behind the heap ----

  // The two flags of a page-table entry that matter here.
  datatype Backing = Backing(allocable: bool, present: bool)

  ghost predicate PagesOk(pages: map<nat, Backing>) {
    forall v :: KERNEL_HEAP_BEGIN / PAGE <= v < KERNEL_HEAP_END / PAGE ==>
        v in pages && (pages[v].present ==> pages[v].allocable)
  }

  // Every page that meets [lo, hi) may be touched.
  ghost predicate Backed(pages: map<nat, Backing>, lo: nat, hi: nat) {
    forall v :: lo / PAGE <= v && v * PAGE < hi ==> v in pages && pages[v].allocable
  }

  // No page is taken away.
  ghost predicate PagesGrow(old_: map<nat, Backing>, pages: map<nat, Backing>) {
    forall v :: v in old_ ==>
        v in pages && (old_[v].allocable ==> pages[v].allocable) && (old_[v].present ==> pages[v].present)
  }

  // Pages outside [lo, hi) are as before.
  ghost predicate SameOutside(old_: map<nat, Backing>, pages: map<nat, Backing>, lo: int, hi: int) {
    forall v :: v in old_ && !(lo <= v < hi) ==> v in pages && pages[v] == old_[v]
  }

  // Unmapping leaves a page that has no frame as it is.
  function Unmap(p: Backing): Backing {
    if p.present then Backing(false, false) else p
  }

  // Pages [lo, hi) are unmapped, and the others are as before.
  ghost predicate Unmapped(old_: map<nat, Backing>, pages: map<nat, Backing>, lo: nat, hi: nat) {
    forall v :: v in old_ ==> v in pages && pages[v] == if lo <= v < hi then Unmap(old_[v]) else old_[v]
  }

  // The bytes of pages [lo, hi) are lost, and the others are as before.
  ghost predicate Forgotten(old_: map<nat, nat>, mem: map<nat, nat>, lo: nat, hi: nat) {
    && (forall a :: a in mem <==> a in old_ && !(lo <= a / PAGE < hi))
    && (forall a :: a in mem ==> mem[a] == old_[a])
  }

  lemma NothingFreed(pages: map<nat, Backing>, mem: map<nat, nat>, lo: nat)
    ensures Unmapped(pages, pages, lo, lo) && Forgotten(mem, mem, lo, lo)
  {
  }

  lemma EmptyRange(pages0: map<nat, Backing>, pages: map<nat, Backing>, mem0: map<nat, nat>, mem: map<nat, nat>,
          lo: nat, hi: nat)
    requires Unmapped(pages0, pages, lo, lo) && Forgotten(mem0, mem, lo, lo) && hi <= lo
    ensures Unmapped(pages0, pages, lo, hi) && Forgotten(mem0, mem, lo, hi)
  {
  }

  // One more page freed.
  lemma PageFreed(pages0: map<nat, Backing>, pages: map<nat, Backing>, mem0: map<nat, nat>, mem: map<nat, nat>, lo: nat,
          v: nat)
    requires PagesOk(pages) && MemOk(mem, pages) && Unmapped(pages0, pages, lo, v) && Forgotten(mem0, mem, lo, v)
    requires lo <= v && KERNEL_HEAP_BEGIN / PAGE <= v < KERNEL_HEAP_END / PAGE && PagesOk(pages0)
    ensures v in pages
    ensures var pages' := if pages[v].present then pages[v := Backing(false, false)] else pages;
      var mem' := if pages[v].present then (map a | a in mem && a / PAGE != v :: mem[a]) else mem;
      && PagesOk(pages') && MemOk(mem', pages')
      && Unmapped(pages0, pages', lo, v + 1) && Forgotten(mem0, mem', lo, v + 1)
  {
  }

  // Bytes are known only in present pages.
  ghost predicate MemOk(mem: map<nat, nat>, pages: map<nat, Backing>) {
    forall a :: a in mem ==> a / PAGE in pages && pages[a / PAGE].present
  }

  ghost predicate LiveKept(mem: map<nat, nat>, pages: map<nat, Backing>, live: map<nat, Live>) {
    forall p :: p in live && p >= HEADER ==>
      HoldsHeader(mem, p - HEADER, live[p].blk) && Backed(pages, p - HEADER, p + live[p].size)
  }

  // The bytes of [lo, hi) are the same in both memories.
  ghost predicate SameBytes(m: map<nat, nat>, m': map<nat, nat>, lo: nat, hi: nat) {
    forall a :: lo <= a < hi ==> (a in m <==> a in m') && (a in m ==> m[a] == m'[a])
  }

  // No payload changes.
  ghost predicate PayloadsKept(m: map<nat, nat>, m': map<nat, nat>, live: map<nat, Live>) {
    forall p :: p in live ==> SameBytes(m, m', p, p + live[p].size)
  }

  // ---- what the operations keep ----

  lemma PayloadBacked(mem: map<nat, nat>, pages: map<nat, Backing>, live: map<nat, Live>, p: nat, off: nat)
    requires LiveKept(mem, pages, live) && LiveOk(live) && p in live && off < live[p].size
    ensures (p + off) / PAGE in pages && pages[(p + off) / PAGE].allocable
  {
    assert p >= HEADER;
    assert (p - HEADER) / PAGE <= (p + off) / PAGE && (p + off) / PAGE * PAGE < p + live[p].size;
  }

  lemma PagesStillKept(mem: map<nat, nat>, pages: map<nat, Backing>, pages': map<nat, Backing>, live: map<nat, Live>)
    requires LiveKept(mem, pages, live) && PagesGrow(pages, pages')
    ensures LiveKept(mem, pages', live)
  {
    hide HoldsHeader, Backed, PagesGrow;
    forall p | p in live && p >= HEADER ensures Backed(pages', p - HEADER, p + live[p].size) {
      BackedGrows(pages, pages', p - HEADER, p + live[p].size);
    }
  }

  lemma StoreKeeps(mem: map<nat, nat>, pages: map<nat, Backing>, live: map<nat, Live>, p: nat, off: nat, val: nat)
    requires LiveKept(mem, pages, live) && LiveOk(live) && MemOk(mem, pages) && p in live && off < live[p].size
    requires (p + off) / PAGE in pages && pages[(p + off) / PAGE].present
    ensures var mem' := mem[p + off := val];
      MemOk(mem', pages) && LiveKept(mem', pages, live) && PayloadsKept(mem, mem', live - {p})
  {
    hide HoldsHeader, Backed, SameBytes, LiveOk, LiveKept;
    var mem' := mem[p + off := val];
    forall q | q in live && q >= HEADER
      ensures HoldsHeader(mem', q - HEADER, live[q].blk) && Backed(pages, q - HEADER, q + live[q].size)
    {
      LiveParts(mem, pages, live, q);
      LiveApart(live, p, q);
      ByteElsewhere(mem, p + off, val, q - HEADER, q);
      HeaderSame(mem, mem', q - HEADER, live[q].blk);
    }
    forall q | q in live && q != p ensures SameBytes(mem, mem', q, q + live[q].size) {
      LiveApart(live, p, q);
      ByteElsewhere(mem, p + off, val, q, q + live[q].size);
    }
    LiveAgain(mem', pages, live);
  }

  lemma LiveParts(mem: map<nat, nat>, pages: map<nat, Backing>, live: map<nat, Live>, q: nat)
    requires LiveKept(mem, pages, live) && q in live && q >= HEADER
    ensures HoldsHeader(mem, q - HEADER, live[q].blk) && Backed(pages, q - HEADER, q + live[q].size)
  {
  }

  lemma LiveAgain(mem: map<nat, nat>, pages: map<nat, Backing>, live: map<nat, Live>)
    requires forall q :: q in live && q >= HEADER ==>
      HoldsHeader(mem, q - HEADER, live[q].blk) && Backed(pages, q - HEADER, q + live[q].size)
    ensures LiveKept(mem, pages, live)
  {
  }

  // The payload of `p` meets no header, and no payload of another block.
  lemma LiveApart(live: map<nat, Live>, p: nat, q: nat)
    requires LiveOk(live) && p in live && q in live
    ensures q >= HEADER && (q <= p || p + live[p].size <= q - HEADER)
    ensures p != q ==> q + live[q].size <= p || p + live[p].size <= q
  {
    if p != q { assert Disjoint(live[p].blk, live[q].blk); }
  }

  lemma ByteElsewhere(mem: map<nat, nat>, a: nat, val: nat, lo: nat, hi: nat)
    requires a < lo || hi <= a
    ensures SameBytes(mem, mem[a := val], lo, hi)
  {
  }

  // Pages that lie inside `m` do not meet a range outside it.
  lemma PageOutside(m: Block, a: nat, e: nat, v: nat)
    requires a < e && (e <= m.start || m.End() <= a) && PageInside(v, m)
    ensures !(a / PAGE <= v && v * PAGE < e)
  {
  }

  lemma ForgetSafe(mem: map<nat, nat>, mem': map<nat, nat>, pages: map<nat, Backing>, pages': map<nat, Backing>,
          lo: nat, hi: nat, m: Block, a: nat, e: nat)
    requires Unmapped(pages, pages', lo, hi) && Forgotten(mem, mem', lo, hi)
    requires forall v: nat :: lo <= v < hi ==> PageInside(v, m)
    requires e <= m.start || m.End() <= a
    ensures SameBytes(mem, mem', a, e)
    ensures a < e && Backed(pages, a, e) ==> Backed(pages', a, e)
  {
    hide PageInside;
    forall i | a <= i < e ensures (i in mem <==> i in mem') && (i in mem ==> mem[i] == mem'[i]) {
      if lo <= i / PAGE < hi { PageOutside(m, a, e, i / PAGE); }
    }
    if a < e && Backed(pages, a, e) {
      forall v | a / PAGE <= v && v * PAGE < e ensures v in pages' && pages'[v].allocable {
        if lo <= v < hi { PageOutside(m, a, e, v); }
      }
    }
  }

  lemma RegionsOutside(live: map<nat, Live>, p: nat, m: Block)
    requires LiveOk(live) && forall q :: q in live && q != p ==> Disjoint(m, live[q].blk)
    ensures forall q :: q in live && q != p ==> q >= HEADER && (q + live[q].size <= m.start || m.End() <= q - HEADER)
  {
  }

  // What stays live keeps its header, its payload and its pages.
  lemma KfreeKeeps(mem: map<nat, nat>, mem': map<nat, nat>, pages: map<nat, Backing>, pages': map<nat, Backing>,
          live: map<nat, Live>, p: nat, m: Block, lo: nat, hi: nat)
    requires LiveKept(mem, pages, live) && LiveOk(live) && p in live
    requires forall q :: q in live && q != p ==> Disjoint(m, live[q].blk)
    requires forall v: nat :: lo <= v < hi ==> PageInside(v, m)
    requires Unmapped(pages, pages', lo, hi) && Forgotten(mem, mem', lo, hi)
    ensures LiveKept(mem', pages', live - {p}) && PayloadsKept(mem, mem', live - {p})
  {
    hide PageInside, Unmapped, Forgotten, HoldsHeader, Backed, SameBytes, Disjoint, LiveOk;
    var live' := live - {p};
    RegionsOutside(live, p, m);
    forall q | q in live' && q >= HEADER
      ensures HoldsHeader(mem', q - HEADER, live'[q].blk) && Backed(pages', q - HEADER, q + live'[q].size)
    {
      ForgetSafe(mem, mem', pages, pages', lo, hi, m, q - HEADER, q + live[q].size);
      ForgetSafe(mem, mem', pages, pages', lo, hi, m, q - HEADER, q);
      HeaderSame(mem, mem', q - HEADER, live[q].blk);
    }
    forall q | q in live' ensures SameBytes(mem, mem', q, q + live'[q].size) {
      ForgetSafe(mem, mem', pages, pages', lo, hi, m, q, q + live[q].size);
    }
  }

  lemma KmallocKeeps(mem: map<nat, nat>, pages0: map<nat, Backing>, pages1: map<nat, Backing>,
          pages2: map<nat, Backing>, live: map<nat, Live>, start: nat, size: nat, blk: Block)
    requires LiveKept(mem, pages0, live) && start !in live && LiveOk(live[start := Live(blk, size)]) && start >= HEADER
    requires PagesGrow(pages0, pages1) && PagesGrow(pages1, pages2) && Backed(pages1, start - HEADER, start + size)
    ensures var mem' := mem + HeaderBytes(start - HEADER, blk);
      LiveKept(mem', pages2, live[start := Live(blk, size)]) && PayloadsKept(mem, mem', live)
  {
    hide HeaderBytes, HoldsHeader, Backed, SameBytes, LiveOk, LiveKept, PagesGrow;
    var live', mem' := live[start := Live(blk, size)], mem + HeaderBytes(start - HEADER, blk);
    HeaderStored(mem, start - HEADER, blk);
    BackedGrows(pages1, pages2, start - HEADER, start + size);
    forall p | p in live' && p >= HEADER
      ensures HoldsHeader(mem', p - HEADER, live'[p].blk) && Backed(pages2, p - HEADER, p + live'[p].size)
    {
      if p != start { HeaderStays(mem, pages0, pages1, pages2, live, start, size, blk, p); }
    }
    LiveAgain(mem', pages2, live');
    forall p | p in live ensures SameBytes(mem, mem', p, p + live[p].size) {
      OtherLive(live, start, size, blk, p);
      HeaderElsewhere(mem, start - HEADER, blk, p, p + live[p].size);
    }
  }

  lemma HeaderStays(mem: map<nat, nat>, pages0: map<nat, Backing>, pages1: map<nat, Backing>,
          pages2: map<nat, Backing>, live: map<nat, Live>, start: nat, size: nat, blk: Block, p: nat)
    requires LiveKept(mem, pages0, live) && start !in live && LiveOk(live[start := Live(blk, size)]) && start >= HEADER
    requires PagesGrow(pages0, pages1) && PagesGrow(pages1, pages2) && p in live && p >= HEADER
    ensures HoldsHeader(mem + HeaderBytes(start - HEADER, blk), p - HEADER, live[p].blk)
    ensures Backed(pages2, p - HEADER, p + live[p].size)
  {
    hide HeaderBytes, HoldsHeader, Backed, SameBytes, LiveOk, LiveKept, PagesGrow;
    LiveParts(mem, pages0, live, p);
    OtherLive(live, start, size, blk, p);
    HeaderElsewhere(mem, start - HEADER, blk, p - HEADER, p);
    HeaderSame(mem, mem + HeaderBytes(start - HEADER, blk), p - HEADER, live[p].blk);
    BackedGrows(pages0, pages1, p - HEADER, p + live[p].size);
    BackedGrows(pages1, pages2, p - HEADER, p + live[p].size);
  }

  // What another live block owns lies apart from the new header.
  lemma OtherLive(live: map<nat, Live>, start: nat, size: nat, blk: Block, p: nat)
    requires LiveOk(live[start := Live(blk, size)]) && p in live && start !in live
    ensures p + live[p].size <= start - HEADER || start <= p - HEADER
    ensures blk.start + HEADER <= start && live[p].blk.start + HEADER <= p
  {
    var live' := live[start := Live(blk, size)];
    assert p in live' && live'[p] == live[p] && start in live' && live'[start] == Live(blk, size);
    assert Disjoint(live'[p].blk, live'[start].blk);
  }

  lemma HeaderElsewhere(mem: map<nat, nat>, a: nat, b: Block, lo: nat, hi: nat)
    requires hi <= a || a + HEADER <= lo
    ensures SameBytes(mem, mem + HeaderBytes(a, b), lo, hi)
  {
    hide HeaderByte;
  }

  lemma HeaderSame(mem: map<nat, nat>, mem': map<nat, nat>, a: nat, b: Block)
    requires HoldsHeader(mem, a, b) && SameBytes(mem, mem', a, a + HEADER)
    ensures HoldsHeader(mem', a, b)
  {
  }

  lemma BackedGrows(pages: map<nat, Backing>, pages': map<nat, Backing>, lo: nat, hi: nat)
    requires Backed(pages, lo, hi) && PagesGrow(pages, pages')
    ensures Backed(pages', lo, hi)
  {
  }

  lemma BackedInside(pages: map<nat, Backing>, start: nat, size: nat, lo: nat, hi: nat)
    requires lo <= start - HEADER && start + size <= hi && start >= HEADER && Backed(pages, lo, hi)
    ensures Backed(pages, start - HEADER, start + size) && Backed(pages, start - HEADER, start)
  {
  }

  lemma OutsideBoth(p0: map<nat, Backing>, p1: map<nat, Backing>, p2: map<nat, Backing>, start: nat, size: nat)
    requires start >= HEADER && SameOutside(p1, p2, (start - HEADER) / PAGE, (start - HEADER + HEADER - 1) / PAGE + 1)
    requires SameOutside(p0, p1, RoundDown(start - HEADER, PAGE) / PAGE, RoundUp(start + size, PAGE) / PAGE)
    ensures SameOutside(p0, p2, (start - HEADER) / PAGE, RoundUp(start + size, PAGE) / PAGE)
  {
    RoundDownFacts(start - HEADER, PAGE);
    RoundUpFacts(start + size, PAGE);
  }
}
