/** The state in which paging starts, and what holds over every run from it. */
module PageBoot {
  import opened Common
  import opened PageState
  import opened PageSteps
  import opened PageFaults
  import opened PageClone
  import opened PageRuns

  // ---- the tables `Page::init` makes ----

  // Pages 1 to `pages` hold the kernel's code and data, each at its own physical address.
  function BootEntry(page: nat, pages: nat): Entry {
    if 1 <= page < pages then Entry(true, true, false, false, false, page) else NO_ENTRY
  }

  function BootTable(slot: nat, pages: nat): (t: Table)
    ensures |t| == ENTRIES && forall i :: 0 <= i < ENTRIES ==> t[i] == BootEntry(slot * ENTRIES + i, pages)
  {
    seq(ENTRIES, (i: nat) => BootEntry(slot * ENTRIES + i, pages))
  }

  // `kernel_low_ntable`.
  function LowSlots(pages: nat): nat
    requires pages > 0
  {
    (pages - 1) / ENTRIES + 1
  }

  // The tables of the shared slots below `n`; that of slot `i` has address `i + 1`.
  function BootTables(low: nat, pages: nat, n: nat): (r: map<nat, Table>)
    ensures forall t :: t in r <==> 1 <= t <= n && Shared(low, t - 1)
    ensures forall t :: t in r ==> r[t] == BootTable(t - 1, pages)
  {
    if n == 0 then map[]
    else if Shared(low, n - 1) then BootTables(low, pages, n - 1)[n := BootTable(n - 1, pages)]
    else BootTables(low, pages, n - 1)
  }

  function BootDirectory(low: nat): (d: Directory)
    ensures |d| == ENTRIES && forall i :: 0 <= i < ENTRIES ==> d[i] == if Shared(low, i) then i + 1 else 0
  {
    seq(ENTRIES, (i: nat) => if Shared(low, i) then i + 1 else 0)
  }

  function BootIds(low: nat): (r: set<nat>)
    ensures forall t :: t in r <==> 1 <= t <= low
  {
    if low == 0 then {} else BootIds(low - 1) + {low}
  }

  function NoCounts(frames: seq<nat>): (r: map<nat, nat>)
    ensures forall f :: f in r <==> f in frames
    ensures forall f :: f in r ==> r[f] == 0
  {
    if frames == [] then map[]
    else
      assert frames == frames[..|frames| - 1] + [frames[|frames| - 1]];
      NoCounts(frames[..|frames| - 1])[frames[|frames| - 1] := 0]
  }

  const BOOT_DIR := ENTRIES + 1

  // What `init_frames` leaves: each usable frame once, all behind the kernel.
  ghost predicate BootOk(pages: nat, frames: seq<nat>, phys: map<nat, Page>) {
    && 2 <= pages && LowSlots(pages) <= HEAP_SLOT && NoDup(frames)
    && (forall f :: f in frames ==> f >= pages && f in phys)
    && (forall f :: 0 <= f < pages ==> f in phys)
    && (forall f :: f in phys ==> |phys[f]| == ENTRIES)
  }

  function Start(pages: nat, frames: seq<nat>, phys: map<nat, Page>): State
    requires pages > 0
  {
    var low := LowSlots(pages);
    State(frames, NoCounts(frames), phys, BootTables(low, pages, ENTRIES), map[BOOT_DIR := BootDirectory(low)],
          SetOf(frames), low, BootIds(low), BOOT_DIR + 1)
  }

  // ---- the start meets the invariant ----

  lemma StartTables(pages: nat, frames: seq<nat>, phys: map<nat, Page>, t: nat, i: nat)
    requires BootOk(pages, frames, phys) && HasEntry(Start(pages, frames, phys), t, i)
    ensures var s := Start(pages, frames, phys);
      && t > 0 && i < ENTRIES && EntryAt(s, t, i) == BootEntry((t - 1) * ENTRIES + i, pages)
      && EntryOk(s, t, EntryAt(s, t, i)) && EntryAt(s, t, i).addr !in frames
  {
    var page := (t - 1) * ENTRIES + i;
    if 1 <= page < pages { assert t - 1 <= (pages - 1) / ENTRIES; }
  }

  lemma StartCounts(pages: nat, frames: seq<nat>, phys: map<nat, Page>)
    requires BootOk(pages, frames, phys)
    ensures var s := Start(pages, frames, phys);
      CountsOk(s) && EntriesOk(s) && Exclusive(s) && FixedOnce(s.tables, s.managed) && StackOk(s)
  {
    var s := Start(pages, frames, phys);
    forall t, i: nat | t in s.tables && i < |s.tables[t]|
      ensures EntryOk(s, t, s.tables[t][i]) && s.tables[t][i].addr !in s.managed
      ensures s.tables[t][i].addr != 0 ==> s.tables[t][i].addr == (t - 1) * ENTRIES + i && t > 0 && i < ENTRIES
    {
      StartTables(pages, frames, phys, t, i);
    }
    forall f | f in s.managed ensures Refs(s.tables, f) == {} {
    }
  }

  lemma StartDirs(pages: nat, frames: seq<nat>, phys: map<nat, Page>)
    requires BootOk(pages, frames, phys)
    ensures var s := Start(pages, frames, phys); DirsOk(s.dirs, s.tables.Keys, s.low, s.boot)
  {
  }

  lemma StartInv(pages: nat, frames: seq<nat>, phys: map<nat, Page>)
    requires BootOk(pages, frames, phys)
    ensures Inv(Start(pages, frames, phys))
  {
    StartCounts(pages, frames, phys);
    StartDirs(pages, frames, phys);
    hide CountsOk, EntriesOk, Exclusive, FixedOnce, StackOk, DirsOk;
  }

  // The slot of page `v` in the only directory, and the entry behind it.
  lemma StartEntry(pages: nat, frames: seq<nat>, phys: map<nat, Page>, v: nat)
    requires BootOk(pages, frames, phys) && v < ENTRIES * ENTRIES
    ensures var s, slot := Start(pages, frames, phys), v / ENTRIES;
      && BOOT_DIR in s.dirs && |s.dirs[BOOT_DIR]| == ENTRIES && s.phys == phys
      && s.dirs[BOOT_DIR][slot] == (if Shared(s.low, slot) then slot + 1 else 0)
      && (Shared(s.low, slot) ==>
            HasEntry(s, slot + 1, v % ENTRIES) && EntryAt(s, slot + 1, v % ENTRIES) == BootEntry(v, pages))
      && (v < pages ==> slot < s.low && v in phys)
  {
    var s, slot := Start(pages, frames, phys), v / ENTRIES;
    if v < pages { assert slot <= (pages - 1) / ENTRIES; }
    if Shared(s.low, slot) { StartTables(pages, frames, phys, slot + 1, v % ENTRIES); }
  }

  // At first the only space sees the kernel where it is loaded, may not touch page 0, and has nothing
  // else.
  lemma StartSees(pages: nat, frames: seq<nat>, phys: map<nat, Page>, v: nat)
    requires BootOk(pages, frames, phys) && v < ENTRIES * ENTRIES
    ensures Inv(Start(pages, frames, phys))
    ensures Sees(Start(pages, frames, phys), BOOT_DIR, v) == if 1 <= v < pages then Known(phys[v]) else NoAccess
  {
    StartInv(pages, frames, phys);
    StartEntry(pages, frames, phys, v);
    hide Inv, BootOk, Start, Sees, Shared;
    SeesShows(Start(pages, frames, phys), BOOT_DIR, v);
  }

  // ---- every run ----

  // Over every run from the start each space finds what the simple machine holds, the frames are
  // conserved and counted exactly, and a writable entry is alone on its frame.
  lemma EveryRun(pages: nat, frames: seq<nat>, phys: map<nat, Page>, events: seq<Event>)
    requires BootOk(pages, frames, phys)
    ensures Inv(Start(pages, frames, phys))
    ensures Run(Start(pages, frames, phys), events).Some? ==>
      var s := Run(Start(pages, frames, phys), events).value;
      && AllAgree(Start(pages, frames, phys), events, s)
      && s.managed == SetOf(frames) && |s.frames| + |InUse(s)| == |frames|
      && (forall f :: f in frames ==>
            f in s.refCnt && s.refCnt[f] == |Refs(s.tables, f)| && (f in s.frames <==> f !in InUse(s)))
      && (forall t, i :: HasEntry(s, t, i) && EntryAt(s, t, i).rw && EntryAt(s, t, i).addr in frames ==>
            |Refs(s.tables, EntryAt(s, t, i).addr)| == 1)
  {
    StartInv(pages, frames, phys);
    var s0 := Start(pages, frames, phys);
    hide Inv, AllAgree, InUse;
    if Run(s0, events).Some? {
      Refinement(s0, events);
      FramesConserved(s0, events);
      SeqAsSet(frames);
      var s := Run(s0, events).value;
      forall t, i: nat | HasEntry(s, t, i) && EntryAt(s, t, i).rw && EntryAt(s, t, i).addr in frames
        ensures |Refs(s.tables, EntryAt(s, t, i).addr)| == 1
      {
        WritableCounts(s0, events, t, i);
      }
    }
  }
}
