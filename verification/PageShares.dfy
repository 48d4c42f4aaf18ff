/** What `alloc` and `lazy_alloc` do to a page that a fork left shared, and a run that gets there. */
module PageShares {
  import opened Common
  import opened PageState
  import opened PageSteps
  import opened PageFaults
  import opened PageClone
  import opened PageRuns
  import opened PageBoot

  // Entries (t, i) and (u, i) of two private tables are on the same managed frame.
  ghost predicate SharedPair(s: State, t: nat, u: nat, i: nat) {
    && HasEntry(s, t, i) && HasEntry(s, u, i) && t != u && t !in s.boot && u !in s.boot
    && EntryAt(s, t, i).addr == EntryAt(s, u, i).addr && EntryAt(s, t, i).addr in s.managed
    && Count(s, EntryAt(s, t, i).addr) > 1
  }

  // A fork leaves every page that both spaces own, and that has a frame, on that frame in both.
  lemma ForkShares(s: State, src: nat, cur: nat, v: nat)
    requires Inv(s) && src in s.dirs && cur in s.dirs && ForkAt(s, src, cur).Some?
    requires s.low <= v / ENTRIES < HEAP_SLOT && FrameOf(s, src, v) != 0
    ensures var s' := ForkAt(s, src, cur).value;
      && Inv(s') && HasPage(s', s.next, v) && HasPage(s', src, v) && FrameOf(s', src, v) == FrameOf(s, src, v)
      && SharedPair(s', TableOf(s', s.next, v), TableOf(s', src, v), v % ENTRIES)
  {
    hide CountsOk, StackOk, EntriesOk, Exclusive, FixedOnce, ForkAt;
    ForkEffect(s, src, cur);
    ForkTables(s, src, cur, v / ENTRIES);
    ForkFrames(s, src, cur, v);
    ForkOldFrames(s, src, cur, src, v);
    var s' := ForkAt(s, src, cur).value;
    var t, u, i := s'.dirs[s.next][v / ENTRIES], s'.dirs[src][v / ENTRIES], v % ENTRIES;
    assert src in s'.dirs.Keys && s.next != src;
    assert t != u;
    SlotReady(s', s.next, v / ENTRIES);
    SlotReady(s', src, v / ENTRIES);
    PairCount(s', t, u, i);
  }

  lemma PairCount(s: State, t: nat, u: nat, i: nat)
    requires Inv(s) && HasEntry(s, t, i) && HasEntry(s, u, i) && t != u && t !in s.boot && u !in s.boot
    requires EntryAt(s, t, i).addr == EntryAt(s, u, i).addr != 0
    ensures SharedPair(s, t, u, i)
  {
    EntryFacts(s, t, i);
    CountAtLeast(s.tables, t, i, EntryAt(s, t, i).addr);
  }

  // What an entry shows, in states that need not meet the invariant.
  ghost function Contents(s: State, t: nat, i: nat): Option<Page>
    requires HasEntry(s, t, i)
  {
    if EntryAt(s, t, i).addr in s.phys then Some(s.phys[EntryAt(s, t, i).addr]) else None
  }

  // `alloc` with `rw` on one entry of a shared pair lets its owner write to the other's page without
  // a fault.
  lemma AllocLeaks(s: State, t: nat, u: nat, i: nat, off: nat, val: nat)
    requires Inv(s) && SharedPair(s, t, u, i) && off < ENTRIES
    ensures AllocAt(s, t, i, true, true).Some?
    ensures var s1 := AllocAt(s, t, i, true, true).value;
      && !Inv(s1) && HasEntry(s1, t, i) && Permitted(EntryAt(s1, t, i), true, true)
      && EntryAt(s1, t, i).addr in s1.phys && |s1.phys[EntryAt(s1, t, i).addr]| == ENTRIES
      && var s2 := StoreAt(s1, t, i, off, val);
      && HasEntry(s2, u, i) && Contents(s, u, i).Some? && |Contents(s, u, i).value| == ENTRIES
      && Contents(s2, u, i).Some? && Contents(s2, u, i).value == Contents(s, u, i).value[off := val]
  {
    EntryFacts(s, t, i);
    AllocMappedInv(s, t, i, true, true);
    hide CountsOk, StackOk, EntriesOk, Exclusive, FixedOnce, DirsOk;
  }

  // `lazy_alloc` with `rw` leaks in the same way, and with zero filling it clears the other's page.
  lemma LazyAllocLeaks(s: State, t: nat, u: nat, i: nat, user: bool, rw: bool, fill: bool)
    requires Inv(s) && SharedPair(s, t, u, i)
    ensures var s1 := LazyAllocAt(s, t, i, user, rw, fill);
      && (Inv(s1) <==> !rw) && HasEntry(s1, u, i)
      && Contents(s1, u, i) == if fill then Some(ZeroPage()) else Contents(s, u, i)
  {
    EntryFacts(s, t, i);
    LazyAllocInv(s, t, i, user, rw, fill);
    hide CountsOk, StackOk, EntriesOk, Exclusive, FixedOnce, DirsOk;
  }

  // ---- such a pair is reached ----

  // The first allocation in a slot without a table.
  lemma FirstAlloc(s: State, d: nat, v: nat, user: bool, rw: bool)
    requires Inv(s) && d in s.dirs && v < ENTRIES * ENTRIES && s.dirs[d][v / ENTRIES] == 0 && s.frames != []
    ensures AllocStep(s, d, v, user, rw).Some?
    ensures var s' := AllocStep(s, d, v, user, rw).value;
      && Inv(s') && Changed(s, s', d, v, SpotOf(s', d, v)) && FrameOf(s', d, v) != 0 && s'.next == s.next + 1
      && |s'.frames| == |s.frames| - 1 && s'.low == s.low
      && s'.dirs == s.dirs[d := SetSlot(s.dirs[d], v / ENTRIES, s.next)]
  {
    hide CountsOk, StackOk, EntriesOk, Exclusive, FixedOnce, DirsOk, Changed;
    NewTableInv(s);
    MakeEffect(s, d, v / ENTRIES);
    assert EntryAt(MakeTable(s, d, v / ENTRIES), s.next, v % ENTRIES) == NO_ENTRY;
    AllocChanged(s, d, v, user, rw);
  }

  // The first space gets a stack page and a page of its own, and forks.
  function SharingRun(v: nat): seq<Event> {
    [Alloc(BOOT_DIR, STACK_PAGE, false, true), Alloc(BOOT_DIR, v, true, true), Fork(BOOT_DIR, BOOT_DIR, BOOT_DIR + 3)]
  }

  lemma SharingReached(pages: nat, frames: seq<nat>, phys: map<nat, Page>, v: nat)
    requires BootOk(pages, frames, phys) && |frames| >= 3 && LowSlots(pages) <= v / ENTRIES < HEAP_SLOT
    ensures Inv(Start(pages, frames, phys)) && Run(Start(pages, frames, phys), SharingRun(v)).Some?
    ensures var s, child := Run(Start(pages, frames, phys), SharingRun(v)).value, BOOT_DIR + 3;
      && Inv(s) && HasPage(s, child, v) && HasPage(s, BOOT_DIR, v)
      && SharedPair(s, TableOf(s, child, v), TableOf(s, BOOT_DIR, v), v % ENTRIES)
  {
    hide Inv, AllocStep, ForkAt, Changed, SharedPair, HasPage, SpotOf, BootTables;
    StartInv(pages, frames, phys);
    var s0 := Start(pages, frames, phys);
    assert s0.dirs == map[BOOT_DIR := BootDirectory(LowSlots(pages))];
    SlotKinds(s0.low, STACK_SLOT);
    FirstAlloc(s0, BOOT_DIR, STACK_PAGE, false, true);
    var s1 := AllocStep(s0, BOOT_DIR, STACK_PAGE, false, true).value;
    assert Run(s0, []) == Some(s0);
    RunStep(s0, [], Alloc(BOOT_DIR, STACK_PAGE, false, true), s1);
    FirstAlloc(s1, BOOT_DIR, v, true, true);
    var s2 := AllocStep(s1, BOOT_DIR, v, true, true).value;
    RunStep(s0, [Alloc(BOOT_DIR, STACK_PAGE, false, true)], Alloc(BOOT_DIR, v, true, true), s2);
    ChangedSees(s1, s2, BOOT_DIR, v, SpotOf(s2, BOOT_DIR, v), BOOT_DIR, STACK_PAGE);
    StillMapped(s1, s2, BOOT_DIR, STACK_PAGE);
    ForkEffect(s2, BOOT_DIR, BOOT_DIR);
    var s3 := ForkAt(s2, BOOT_DIR, BOOT_DIR).value;
    ForkShares(s2, BOOT_DIR, BOOT_DIR, v);
    RunStep(s0, SharingRun(v)[..2], Fork(BOOT_DIR, BOOT_DIR, BOOT_DIR + 3), s3);
    assert SharingRun(v)[..2] + [Fork(BOOT_DIR, BOOT_DIR, BOOT_DIR + 3)] == SharingRun(v);
  }

  lemma StillMapped(s: State, s': State, d: nat, v: nat)
    requires Inv(s) && Inv(s') && d in s.dirs && d in s'.dirs && v < ENTRIES * ENTRIES
    requires SpotOf(s', d, v) == SpotOf(s, d, v)
    ensures FrameOf(s', d, v) != 0 <==> FrameOf(s, d, v) != 0
  {
  }

  lemma RunStep(s0: State, before: seq<Event>, e: Event, s': State)
    requires Inv(s0) && Run(s0, before).Some? && Step(Run(s0, before).value, e) == Some(s')
    ensures Run(s0, before + [e]) == Some(s')
  {
    hide Inv, Step;
    assert (before + [e])[..|before + [e]| - 1] == before;
  }

  // So a run from the start leads to a state in which the next `alloc` of the child, which only
  // asks for a page it has already, lets it change the parent's page.
  lemma ReachableLeak(pages: nat, frames: seq<nat>, phys: map<nat, Page>, v: nat, off: nat, val: nat)
    requires BootOk(pages, frames, phys) && |frames| >= 3 && LowSlots(pages) <= v / ENTRIES < HEAP_SLOT && off < ENTRIES
    ensures Inv(Start(pages, frames, phys)) && Run(Start(pages, frames, phys), SharingRun(v)).Some?
    ensures var s, i := Run(Start(pages, frames, phys), SharingRun(v)).value, v % ENTRIES;
      && HasPage(s, BOOT_DIR + 3, v) && HasPage(s, BOOT_DIR, v)
      && var t, u := TableOf(s, BOOT_DIR + 3, v), TableOf(s, BOOT_DIR, v);
      && AllocAt(s, t, i, true, true).Some?
      && var s1 := AllocAt(s, t, i, true, true).value;
      && !Inv(s1) && HasEntry(s1, t, i) && Permitted(EntryAt(s1, t, i), true, true)
      && EntryAt(s1, t, i).addr in s1.phys && off < |s1.phys[EntryAt(s1, t, i).addr]|
      && HasEntry(StoreAt(s1, t, i, off, val), u, i)
      && Contents(StoreAt(s1, t, i, off, val), u, i).Some? && off < |Contents(StoreAt(s1, t, i, off, val), u, i).value|
      && Contents(StoreAt(s1, t, i, off, val), u, i).value[off] == val
  {
    hide Inv, Run, SharedPair, AllocAt, StoreAt, Contents;
    SharingReached(pages, frames, phys, v);
    var s := Run(Start(pages, frames, phys), SharingRun(v)).value;
    AllocLeaks(s, TableOf(s, BOOT_DIR + 3, v), TableOf(s, BOOT_DIR, v), v % ENTRIES, off, val);
  }
}
