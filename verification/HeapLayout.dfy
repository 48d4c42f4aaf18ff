/** How free and live blocks share the kernel heap, and the arithmetic of carving and merging them. */
module HeapLayout {
  import opened Common
  import opened FreeBlocks

  // Size of the header that precedes every payload.
  const HEADER := 8

  // An allocated block and the payload size asked for.
  datatype Live = Live(blk: Block, size: nat)

  ghost predicate InHeap(b: Block) {
    KERNEL_HEAP_BEGIN <= b.start && b.size > 0 && b.End() <= KERNEL_HEAP_END
  }

  ghost predicate Disjoint(a: Block, b: Block) {
    a.End() <= b.start || b.End() <= a.start
  }

  // Disjoint, with something in between.
  ghost predicate Clear(a: Block, b: Block) {
    a.End() < b.start || b.End() < a.start
  }

  ghost predicate Holds(b: Block, a: nat) {
    b.start <= a < b.End()
  }

  ghost predicate FreeOk(free: set<Block>) {
    && (forall b :: b in free ==> InHeap(b))
    && (forall a, b :: a in free && b in free && a != b ==> Clear(a, b))
  }

  ghost predicate LiveOk(live: map<nat, Live>) {
    && (forall p :: p in live ==>
          InHeap(live[p].blk) && live[p].blk.start + HEADER <= p && p + live[p].size <= live[p].blk.End())
    && (forall p, q :: p in live && q in live && p != q ==> Disjoint(live[p].blk, live[q].blk))
  }

  // Every address of the heap lies in a free or in a live block.
  ghost predicate Covered(free: set<Block>, live: map<nat, Live>) {
    forall a :: KERNEL_HEAP_BEGIN <= a < KERNEL_HEAP_END ==> InFree(free, a) || InLive(live, a)
  }

  ghost predicate InFree(free: set<Block>, a: nat) {
    exists b :: b in free && Holds(b, a)
  }

  ghost predicate InLive(live: map<nat, Live>, a: nat) {
    exists p :: p in live && Holds(live[p].blk, a)
  }

  ghost predicate FreeLiveDisjoint(free: set<Block>, live: map<nat, Live>) {
    forall b, p :: b in free && p in live ==> Disjoint(b, live[p].blk)
  }

  // Free and live blocks tile the heap: together they cover it, and no two overlap.
  ghost predicate Tiling(free: set<Block>, live: map<nat, Live>) {
    FreeOk(free) && LiveOk(live) && FreeLiveDisjoint(free, live) && Covered(free, live)
  }

  const WHOLE := Block(KERNEL_HEAP_BEGIN, KERNEL_HEAP_END - KERNEL_HEAP_BEGIN)

  lemma InitialTiling()
    ensures Tiling({WHOLE}, map[])
  {
    assert forall a :: KERNEL_HEAP_BEGIN <= a < KERNEL_HEAP_END ==> WHOLE in {WHOLE} && Holds(WHOLE, a);
  }

  // With nothing live, the free set is again the single initial block.
  lemma NothingLive(free: set<Block>)
    requires Tiling(free, map[])
    ensures free == {WHOLE}
  {
    assert InFree(free, KERNEL_HEAP_BEGIN);
    var b :| b in free && Holds(b, KERNEL_HEAP_BEGIN);
    assert b.start == KERNEL_HEAP_BEGIN;
    var a := if b.End() < KERNEL_HEAP_END then b.End() else KERNEL_HEAP_END - 1;
    assert InFree(free, a);
    var c :| c in free && Holds(c, a);
    assert c == b;
    assert b == WHOLE;
    assert forall c :: c in free ==> c == b || Clear(c, b);
  }

  // No address is in two blocks.
  lemma TilesOnce(free: set<Block>, live: map<nat, Live>, a: nat)
    requires Tiling(free, live)
    ensures !(InFree(free, a) && InLive(live, a))
    ensures forall b, c :: b in free && c in free && Holds(b, a) && Holds(c, a) ==> b == c
    ensures forall p, q :: p in live && q in live && Holds(live[p].blk, a) && Holds(live[q].blk, a) ==> p == q
  {
  }

  // ---- allocation ----

  // The address `kmalloc` would return from the free block `b`.
  function PayloadAt(b: Block, palign: nat): nat {
    RoundUp(b.start + HEADER, Pow2(palign))
  }

  ghost predicate Fits(b: Block, size: nat, palign: nat) {
    PayloadAt(b, palign) + size <= b.End()
  }

  // What becomes of a free block: an optional free rest after, an optional free rest before, and the live block.
  datatype Carving = Carving(tail: Option<Block>, front: Option<Block>, blk: Block)

  function Carve(got: Block, start: nat, size: nat): Carving
    requires got.start + HEADER <= start && start + size <= got.End()
  {
    var cutTail := start + size + 2 * HEADER < got.End();
    var cutFront := start - got.start > 3 * HEADER;
    var lo := if cutFront then start - HEADER else got.start;
    var hi := if cutTail then start + size else got.End();
    Carving(if cutTail then Some(Block(hi, got.End() - hi)) else None,
            if cutFront then Some(Block(got.start, lo - got.start)) else None,
            Block(lo, hi - lo))
  }

  ghost function Rests(c: Carving): set<Block> {
    (if c.tail.Some? then {c.tail.value} else {}) + (if c.front.Some? then {c.front.value} else {})
  }

  lemma CarveTiling(free: set<Block>, live: map<nat, Live>, got: Block, start: nat, size: nat)
    requires Tiling(free, live) && got in free
    requires got.start + HEADER <= start && start + size <= got.End()
    ensures var c := Carve(got, start, size);
      && start !in live
      && Tiling(free - {got} + Rests(c), live[start := Live(c.blk, size)])
      && Rests(c) !! free - {got}
      && (c.tail.Some? && c.front.Some? ==> c.tail.value != c.front.value)
  {
    var c := Carve(got, start, size);
    var free', live' := free - {got} + Rests(c), live[start := Live(c.blk, size)];
    assert forall p :: p in live ==> Disjoint(got, live[p].blk);
    forall b | b in free && b != got ensures Clear(b, got) && b !in Rests(c) {
      assert Clear(b, got);
    }
    CarveDisjoint(free, live, got, start, size);
    CarveCovered(free, live, got, start, size);
  }

  lemma CarveDisjoint(free: set<Block>, live: map<nat, Live>, got: Block, start: nat, size: nat)
    requires LiveOk(live) && FreeLiveDisjoint(free, live) && got in free && InHeap(got)
    requires got.start + HEADER <= start && start + size <= got.End()
    ensures var c := Carve(got, start, size);
      && LiveOk(live[start := Live(c.blk, size)])
      && FreeLiveDisjoint(free - {got} + Rests(c), live)
  {
    var c := Carve(got, start, size);
    CarveWithin(got, start, size);
    hide Carve;
    forall p | p in live ensures Disjoint(got, live[p].blk) && Disjoint(c.blk, live[p].blk) {
    }
    CarveLive(live, Live(c.blk, size), start);
    forall b, p | b in free - {got} + Rests(c) && p in live ensures Disjoint(b, live[p].blk) {
      if b in Rests(c) { assert got.start <= b.start && b.End() <= got.End(); }
    }
  }

  lemma CarveWithin(got: Block, start: nat, size: nat)
    requires InHeap(got) && got.start + HEADER <= start && start + size <= got.End()
    ensures var c := Carve(got, start, size);
      && InHeap(c.blk) && got.start <= c.blk.start && c.blk.End() <= got.End()
      && c.blk.start + HEADER <= start && start + size <= c.blk.End()
      && forall b :: b in Rests(c) ==> got.start <= b.start && b.End() <= got.End()
  {
  }

  lemma CarveLive(live: map<nat, Live>, new_: Live, start: nat)
    requires LiveOk(live) && InHeap(new_.blk) && new_.blk.start + HEADER <= start && start + new_.size <= new_.blk.End()
    requires forall p :: p in live ==> Disjoint(new_.blk, live[p].blk)
    ensures LiveOk(live[start := new_])
  {
  }

  lemma CarveCovered(free: set<Block>, live: map<nat, Live>, got: Block, start: nat, size: nat)
    requires Covered(free, live) && got in free && start !in live
    requires got.start + HEADER <= start && start + size <= got.End()
    ensures var c := Carve(got, start, size);
      Covered(free - {got} + Rests(c), live[start := Live(c.blk, size)])
  {
    var c := Carve(got, start, size);
    var free', live' := free - {got} + Rests(c), live[start := Live(c.blk, size)];
    forall a | KERNEL_HEAP_BEGIN <= a < KERNEL_HEAP_END ensures InFree(free', a) || InLive(live', a) {
      if Holds(got, a) {
        if Holds(c.blk, a) {
          assert start in live' && Holds(live'[start].blk, a);
        } else if a < c.blk.start {
          assert c.front.value in free' && Holds(c.front.value, a);
        } else {
          assert c.tail.value in free' && Holds(c.tail.value, a);
        }
      } else if InFree(free, a) {
        var b :| b in free && Holds(b, a);
        assert b in free' && Holds(b, a);
      } else {
        var p :| p in live && Holds(live[p].blk, a);
        assert p in live' && Holds(live'[p].blk, a);
      }
    }
  }

  // ---- release ----

  ghost predicate LeftOf(free: set<Block>, b: Block, left: Option<Block>) {
    if left.Some? then left.value in free && left.value.End() == b.start
    else forall f :: f in free ==> f.End() != b.start
  }

  ghost predicate RightOf(free: set<Block>, b: Block, right: Option<Block>) {
    if right.Some? then right.value in free && b.End() == right.value.start
    else forall f :: f in free ==> b.End() != f.start
  }

  ghost function OptSet(o: Option<Block>): set<Block> {
    if o.Some? then {o.value} else {}
  }

  // The block that results from freeing `b` between the free neighbours that touch it.
  function Merged(b: Block, left: Option<Block>, right: Option<Block>): (m: Block)
    requires left.Some? ==> left.value.End() == b.start
    requires right.Some? ==> b.End() == right.value.start
  {
    var lo := if left.Some? then left.value.start else b.start;
    var hi := if right.Some? then right.value.End() else b.End();
    Block(lo, if hi >= lo then hi - lo else 0)
  }

  ghost function Released(free: set<Block>, b: Block, left: Option<Block>, right: Option<Block>): set<Block>
    requires LeftOf(free, b, left) && RightOf(free, b, right)
  {
    free - OptSet(left) - OptSet(right) + {Merged(b, left, right)}
  }

  lemma ReleaseFreeOk(free: set<Block>, b: Block, left: Option<Block>, right: Option<Block>)
    requires FreeOk(free) && InHeap(b) && (forall f :: f in free ==> Disjoint(f, b))
    requires LeftOf(free, b, left) && RightOf(free, b, right)
    ensures FreeOk(Released(free, b, left, right)) && InHeap(Merged(b, left, right))
    ensures Merged(b, left, right) !in free
  {
    var m := Merged(b, left, right);
    forall f | f in free && Some(f) != left && Some(f) != right ensures Clear(f, m) {
      assert Disjoint(f, b);
      if left.Some? { assert Clear(f, left.value); }
      if right.Some? { assert Clear(f, right.value); }
    }
  }

  lemma ReleaseTiling(free: set<Block>, live: map<nat, Live>, p: nat, left: Option<Block>, right: Option<Block>)
    requires Tiling(free, live) && p in live
    requires LeftOf(free, live[p].blk, left) && RightOf(free, live[p].blk, right)
    ensures Tiling(Released(free, live[p].blk, left, right), live - {p})
  {
    var b := live[p].blk;
    var m, free', live' := Merged(b, left, right), Released(free, b, left, right), live - {p};
    ReleaseFreeOk(free, b, left, right);
    ReleaseCovered(free, live, p, left, right);
    hide Covered, FreeOk;
    MergedApart(free, live, p, left, right);
    assert LiveOk(live');
    assert FreeLiveDisjoint(free', live');
  }

  lemma MergedApart(free: set<Block>, live: map<nat, Live>, p: nat, left: Option<Block>, right: Option<Block>)
    requires LiveOk(live) && FreeLiveDisjoint(free, live) && p in live && (forall f :: f in free ==> InHeap(f))
    requires LeftOf(free, live[p].blk, left) && RightOf(free, live[p].blk, right)
    ensures forall q :: q in live && q != p ==> Disjoint(Merged(live[p].blk, left, right), live[q].blk)
  {
    forall q | q in live && q != p ensures Disjoint(Merged(live[p].blk, left, right), live[q].blk) {
      assert Disjoint(live[p].blk, live[q].blk);
      assert left.Some? ==> Disjoint(left.value, live[q].blk);
      assert right.Some? ==> Disjoint(right.value, live[q].blk);
    }
  }

  lemma ReleaseCovered(free: set<Block>, live: map<nat, Live>, p: nat, left: Option<Block>, right: Option<Block>)
    requires Covered(free, live) && p in live && (forall f :: f in free ==> InHeap(f)) && InHeap(live[p].blk)
    requires LeftOf(free, live[p].blk, left) && RightOf(free, live[p].blk, right)
    ensures Covered(Released(free, live[p].blk, left, right), live - {p})
  {
    var b := live[p].blk;
    var m, free', live' := Merged(b, left, right), Released(free, b, left, right), live - {p};
    forall a | KERNEL_HEAP_BEGIN <= a < KERNEL_HEAP_END ensures InFree(free', a) || InLive(live', a) {
      if Holds(m, a) {
        assert m in free';
      } else if InFree(free, a) {
        var f :| f in free && Holds(f, a);
        assert f in free';
      } else {
        var q :| q in live && Holds(live[q].blk, a);
        assert q in live' && Holds(live'[q].blk, a);
      }
    }
  }

  // ---- the neighbour tests of `kfree` ----

  // `p` is the last free block not above `b` in (start, size) order.
  ghost predicate IsBefore(free: set<Block>, b: Block, p: Option<Block>) {
    if p.Some? then
      p.value in free && StartRank(p.value) <= StartRank(b) &&
      forall f :: f in free && StartRank(f) <= StartRank(b) ==> StartRank(f) <= StartRank(p.value)
    else forall f :: f in free ==> StartRank(b) < StartRank(f)
  }

  // `s` is the first free block not below `b` in (start, size) order.
  ghost predicate IsAfter(free: set<Block>, b: Block, s: Option<Block>) {
    if s.Some? then
      s.value in free && StartRank(b) <= StartRank(s.value) &&
      forall f :: f in free && StartRank(b) <= StartRank(f) ==> StartRank(s.value) <= StartRank(f)
    else forall f :: f in free ==> StartRank(f) < StartRank(b)
  }

  // The order of two blocks of the heap, without its encoding.
  lemma StartOrder(a: Block, b: Block)
    requires Word(a) && Word(b)
    ensures StartRank(a) <= StartRank(b) ==> a.start <= b.start
    ensures a.start < b.start ==> StartRank(a) < StartRank(b)
  {
    RanksAreTheOrders(a, b);
  }

  lemma StartOrders(free: set<Block>, b: Block)
    requires FreeOk(free) && Word(b)
    ensures forall f :: f in free && StartRank(f) <= StartRank(b) ==> f.start <= b.start
    ensures forall f :: f in free && StartRank(b) <= StartRank(f) ==> b.start <= f.start
    ensures forall f, g :: f in free && g in free && StartRank(f) <= StartRank(g) ==> f.start <= g.start
  {
    HeapBounds();
    forall f | f in free
      ensures (StartRank(f) <= StartRank(b) ==> f.start <= b.start)
      ensures (StartRank(b) <= StartRank(f) ==> b.start <= f.start)
    {
      StartOrder(f, b);
      StartOrder(b, f);
    }
    forall f, g | f in free && g in free ensures StartRank(f) <= StartRank(g) ==> f.start <= g.start {
      StartOrder(f, g);
    }
  }

  // The predecessor alone decides about the free blocks that start no later than `b`.
  lemma BeforeDecides(free: set<Block>, b: Block, p: Option<Block>)
    requires FreeOk(free) && InHeap(b) && IsBefore(free, b, p)
    ensures p.Some? && p.value.End() > b.start ==> !Disjoint(p.value, b)
    ensures !(p.Some? && p.value.End() > b.start) ==>
      && LeftOf(free, b, if p.Some? && p.value.End() == b.start then p else None)
      && forall f :: f in free && StartRank(f) <= StartRank(b) ==> Disjoint(f, b)
  {
    HeapBounds();
    StartOrders(free, b);
    hide StartRank;
    assert forall f :: f in free && p.Some? && f != p.value ==> Clear(f, p.value);
    forall f | f in free && f.End() == b.start ensures StartRank(f) <= StartRank(b) {
    }
  }

  // Once the predecessor has been joined, the successor decides about the rest.
  lemma AfterDecides(free: set<Block>, b: Block, left: Option<Block>, s: Option<Block>)
    requires FreeOk(free) && InHeap(b) && LeftOf(free, b, left)
    requires forall f :: f in free && StartRank(f) <= StartRank(b) ==> Disjoint(f, b)
    requires IsAfter(free - OptSet(left), Merged(b, left, None), s)
    ensures s.Some? && b.End() > s.value.start ==> !Disjoint(s.value, b)
    ensures !(s.Some? && b.End() > s.value.start) ==>
      && RightOf(free, b, if s.Some? && b.End() == s.value.start then s else None)
      && forall f :: f in free ==> Disjoint(f, b)
  {
    HeapBounds();
    hide StartRank;
    forall f | f in free
      ensures Disjoint(f, b) || (s.Some? && b.End() > s.value.start)
      ensures b.End() == f.start ==> s.Some? && s.value.start <= b.End()
    {
      StartOrder(f, b);
      if StartRank(b) < StartRank(f) && Some(f) != left {
        BehindMerged(free, b, left, f);
        StartOrder(b, f);
        if s.Some? { StartOrder(s.value, f); }
      }
    }
    if s.Some? && b.End() > s.value.start { AfterMeets(free, b, left, s.value); }
  }

  // What is behind `b` is behind `b` joined with its left neighbour.
  lemma BehindMerged(free: set<Block>, b: Block, left: Option<Block>, f: Block)
    requires FreeOk(free) && InHeap(b) && LeftOf(free, b, left) && f in free && Some(f) != left
    requires StartRank(b) < StartRank(f)
    ensures StartRank(Merged(b, left, None)) <= StartRank(f)
  {
    HeapBounds();
    RanksAreTheOrders(b, f);
    RanksAreTheOrders(Merged(b, left, None), f);
    hide StartRank;
  }

  lemma AfterMeets(free: set<Block>, b: Block, left: Option<Block>, s: Block)
    requires FreeOk(free) && InHeap(b) && LeftOf(free, b, left) && s in free - OptSet(left)
    requires StartRank(Merged(b, left, None)) <= StartRank(s) && b.End() > s.start
    ensures !Disjoint(s, b)
  {
    HeapBounds();
    StartOrder(Merged(b, left, None), s);
    hide StartRank;
    assert left.Some? ==> Clear(s, left.value);
  }

  // ---- giving pages back ----

  function Max(a: nat, b: nat): nat { if a > b then a else b }

  function Min(a: nat, b: nat): nat { if a < b then a else b }

  // The address range whose whole pages `kfree` unmaps, before rounding inwards.
  function ReclaimFrom(b: Block, left: Option<Block>): nat {
    if left.Some? then Max(RoundDown(b.start, PAGE), left.value.start) else b.start
  }

  function ReclaimTo(b: Block, right: Option<Block>): nat {
    if right.Some? then Min(RoundUp(b.End(), PAGE), b.End()) else b.End()
  }

  ghost predicate PageInside(v: nat, b: Block) {
    b.start <= v * PAGE && (v + 1) * PAGE <= b.End()
  }

  ghost predicate PageMeets(v: nat, b: Block) {
    v * PAGE < b.End() && b.start < (v + 1) * PAGE
  }

  ghost predicate Reclaimed(v: nat, b: Block, left: Option<Block>, right: Option<Block>) {
    RoundUp(ReclaimFrom(b, left), PAGE) / PAGE <= v < RoundDown(ReclaimTo(b, right), PAGE) / PAGE
  }

  // A page is given back when it lies wholly in that range.
  lemma ReclaimedIs(v: nat, b: Block, left: Option<Block>, right: Option<Block>)
    ensures Reclaimed(v, b, left, right) <==> ReclaimFrom(b, left) <= v * PAGE && (v + 1) * PAGE <= ReclaimTo(b, right)
  {
    hide ReclaimFrom, ReclaimTo;
    RoundedPages(ReclaimFrom(b, left), v);
    RoundedPages(ReclaimTo(b, right), v + 1);
  }

  lemma RoundedPages(a: nat, v: nat)
    ensures RoundUp(a, PAGE) / PAGE <= v <==> a <= v * PAGE
    ensures v <= RoundDown(a, PAGE) / PAGE <==> v * PAGE <= a
  {
  }

  // Reclaiming is safe: every page given back lies wholly inside the merged free block.
  lemma ReclaimSafe(b: Block, left: Option<Block>, right: Option<Block>, v: nat)
    requires b.size > 0 && (left.Some? ==> left.value.End() == b.start)
    requires (right.Some? ==> b.End() == right.value.start)
    requires Reclaimed(v, b, left, right)
    ensures PageInside(v, Merged(b, left, right)) && PageMeets(v, b)
  {
    ReclaimedIs(v, b, left, right);
    RoundDownFacts(b.start, PAGE);
    RoundUpFacts(b.End(), PAGE);
    hide Reclaimed, RoundUp, RoundDown;
  }

  // It is complete, for the pages `b` takes part in, exactly when `b` ends on a page boundary or
  // the page it ends in is not wholly free now: that page is never given back.
  lemma ReclaimComplete(b: Block, left: Option<Block>, right: Option<Block>)
    requires b.size > 0 && (left.Some? ==> left.value.End() == b.start)
    requires (right.Some? ==> b.End() == right.value.start)
    ensures (forall v: nat :: PageInside(v, Merged(b, left, right)) && PageMeets(v, b) ==>
      Reclaimed(v, b, left, right)) <==>
            b.End() % PAGE == 0 || !PageInside(b.End() / PAGE, Merged(b, left, right))
  {
    hide PageInside, Reclaimed;
    var m, last := Merged(b, left, right), b.End() / PAGE;
    if b.End() % PAGE == 0 || !PageInside(last, m) {
      forall v: nat | PageInside(v, m) && PageMeets(v, b) ensures Reclaimed(v, b, left, right) {
        EarlierPage(b, left, right, v);
      }
    } else {
      LastPage(b, left, right);
    }
  }

  lemma EarlierPage(b: Block, left: Option<Block>, right: Option<Block>, v: nat)
    requires b.size > 0 && (left.Some? ==> left.value.End() == b.start)
    requires (right.Some? ==> b.End() == right.value.start)
    requires PageInside(v, Merged(b, left, right)) && PageMeets(v, b) && (b.End() % PAGE == 0 || v != b.End() / PAGE)
    ensures Reclaimed(v, b, left, right)
  {
    ReclaimedIs(v, b, left, right);
    RoundDownFacts(b.start, PAGE);
    RoundUpFacts(b.End(), PAGE);
    assert RoundDown(b.start, PAGE) <= v * PAGE;
    assert (v + 1) * PAGE <= b.End();
    hide Reclaimed, RoundUp, RoundDown;
  }

  lemma LastPage(b: Block, left: Option<Block>, right: Option<Block>)
    requires b.size > 0 && b.End() % PAGE != 0
    ensures PageMeets(b.End() / PAGE, b) && !Reclaimed(b.End() / PAGE, b, left, right)
  {
    ReclaimedIs(b.End() / PAGE, b, left, right);
    RoundUpFacts(b.End(), PAGE);
    hide Reclaimed, RoundUp, RoundDown;
  }
}
