/** Loading through paging goes through exactly when there are frames for the pages that get one. */
module PageProgress {
  import opened Common
  import opened PageState
  import opened PageSteps
  import opened PageFaults
  import opened PageClone
  import opened PageRuns
  import opened PageAbstraction
  import opened PageBoot
  import opened PageLoader
  import opened PageForks
  import opened PageRights
  import Elf = ElfImage
  import Loader = ElfLoader

  // A page of a private slot that may be written if it may be used at all.
  predicate Ready(s: State, d: nat, v: nat)
    requires d in s.dirs
  {
    && s.low <= v / ENTRIES < HEAP_SLOT
    && (EntryIn(s, d, v).addr != 0 || EntryIn(s, d, v).allocable ==> EntryIn(s, d, v).rw)
  }

  // Page `v` is ready, no other entry of the space changed, and `n` frames are gone.
  ghost predicate Goes(s: State, s': State, d: nat, v: nat, n: nat)
    requires d in s.dirs
  {
    && Inv(s') && d in s'.dirs && s'.low == s.low && |s'.frames| + n == |s.frames| && Ready(s', d, v)
    && forall u :: 0 <= u < ENTRIES * ENTRIES && u != v ==> EntryIn(s', d, u) == EntryIn(s, d, u)
  }

  // A local change of a ready page that leaves it ready.
  lemma LocalGoes(s: State, s': State, d: nat, v: nat, n: nat)
    requires Inv(s) && Inv(s') && HasPage(s, d, v) && v < ENTRIES * ENTRIES && s.low <= v / ENTRIES < HEAP_SLOT
    requires Local(s, s', TableOf(s, d, v), v % ENTRIES) && |s'.frames| + n == |s.frames|
    requires HasEntry(s', TableOf(s, d, v), v % ENTRIES) && EntryAt(s', TableOf(s, d, v), v % ENTRIES).rw
    ensures Goes(s, s', d, v, n)
  {
    hide CountsOk, StackOk, EntriesOk, Exclusive, FixedOnce, DirsOk, EntryIn;
    LocalSame(s, s', TableOf(s, d, v), v % ENTRIES);
    EntryInIs(s', d, v);
    forall u | 0 <= u < ENTRIES * ENTRIES && u != v ensures EntryIn(s', d, u) == EntryIn(s, d, u) {
      LocalEntries(s, s', d, v, d, u);
    }
  }

  // The entry behind a ready page, once there is a table for it, is nobody else's.
  lemma ReadyAlone(s: State, d: nat, v: nat)
    requires Inv(s) && d in s.dirs && v < ENTRIES * ENTRIES && Ready(s, d, v)
    ensures s.low <= v / ENTRIES < HEAP_SLOT && |s.dirs[d]| == ENTRIES
    ensures var s1 := MakeTable(s, d, v / ENTRIES);
      && Inv(s1) && d in s1.dirs && HasPage(s1, d, v) && Alone(s1, TableOf(s1, d, v), v % ENTRIES, false)
      && EntryAt(s1, TableOf(s1, d, v), v % ENTRIES) == EntryIn(s, d, v)
      && s1.frames == s.frames && s1.low == s.low
  {
    hide CountsOk, StackOk, EntriesOk, FixedOnce, DirsOk, MakeTable;
    MadePage(s, d, v);
    var s1 := MakeTable(s, d, v / ENTRIES);
    MadeEntries(s, d, v / ENTRIES, d, v);
    var t, i := TableOf(s1, d, v), v % ENTRIES;
    SlotReady(s1, d, v / ENTRIES);
    EntryFacts(s1, t, i);
    assert s1.tables[t][i] == EntryIn(s, d, v);
  }

  lemma GoesAfter(s: State, s1: State, s': State, d: nat, v: nat, n: nat)
    requires Inv(s) && d in s.dirs && v < ENTRIES * ENTRIES && s1 == MakeTable(s, d, v / ENTRIES)
    requires d in s1.dirs && Goes(s1, s', d, v, n)
    ensures Goes(s, s', d, v, n)
  {
    hide Inv, EntryIn, MakeTable;
    MadeEntries(s, d, v / ENTRIES, d, v);
    forall u | 0 <= u < ENTRIES * ENTRIES ensures EntryIn(s1, d, u) == EntryIn(s, d, u) {
      MadeEntries(s, d, v / ENTRIES, d, u);
    }
  }

  // How many frames an allocation or a write of page `v` takes.
  function Unmapped(s: State, d: nat, v: nat): nat
    requires d in s.dirs
  {
    if EntryIn(s, d, v).addr == 0 then 1 else 0
  }

  lemma AllocGoes(s: State, d: nat, v: nat, user: bool)
    requires Inv(s) && d in s.dirs && v < ENTRIES * ENTRIES && Ready(s, d, v)
    ensures AllocStep(s, d, v, user, true).Some? <==> Unmapped(s, d, v) <= |s.frames|
    ensures AllocStep(s, d, v, user, true).Some? ==>
      Goes(s, AllocStep(s, d, v, user, true).value, d, v, Unmapped(s, d, v))
  {
    hide Inv, Local, EntryIn, MakeTable, Ready, Goes;
    ReadyAlone(s, d, v);
    var s1 := MakeTable(s, d, v / ENTRIES);
    var t, i := TableOf(s1, d, v), v % ENTRIES;
    if AllocAt(s1, t, i, user, true).Some? {
      AllocLocal(s1, t, i, user, true);
      var s' := AllocAt(s1, t, i, user, true).value;
      LocalGoes(s1, s', d, v, Unmapped(s, d, v));
      GoesAfter(s, s1, s', d, v, Unmapped(s, d, v));
    }
  }

  lemma ReserveGoes(s: State, d: nat, v: nat, user: bool)
    requires Inv(s) && d in s.dirs && v < ENTRIES * ENTRIES && Ready(s, d, v)
    ensures LazyAllocStep(s, d, v, user, true, true).Some?
    ensures Goes(s, LazyAllocStep(s, d, v, user, true, true).value, d, v, 0)
  {
    hide Inv, Local, EntryIn, MakeTable, Ready, Goes;
    ReadyAlone(s, d, v);
    var s1 := MakeTable(s, d, v / ENTRIES);
    var t, i := TableOf(s1, d, v), v % ENTRIES;
    LazyAllocLocal(s1, t, i, user, true, true);
    var s' := LazyAllocAt(s1, t, i, user, true, true);
    LocalGoes(s1, s', d, v, 0);
    GoesAfter(s, s1, s', d, v, 0);
  }

  // A write to a ready page that is known takes one fault at most.
  lemma WriteGoes(s: State, d: nat, v: nat, off: nat, val: nat)
    requires Inv(s) && d in s.dirs && Visible(s, d, v) && Ready(s, d, v) && off < ENTRIES
    ensures WriteStep(s, d, v, off, val, false).Some? <==> Unmapped(s, d, v) <= |s.frames|
    ensures WriteStep(s, d, v, off, val, false).Some? ==>
      Goes(s, WriteStep(s, d, v, off, val, false).value, d, v, Unmapped(s, d, v))
  {
    hide CountsOk, StackOk, EntriesOk, Exclusive, FixedOnce, DirsOk, Local, Goes;
    SeesShows(s, d, v);
    assert HasPage(s, d, v);
    var t, i := TableOf(s, d, v), v % ENTRIES;
    EntryFacts(s, t, i);
    AccessOnce(s, t, i);
    if AccessStep(s, d, v, true, false).Some? {
      AccessEffect(s, t, i, true, false);
      var s1 := AccessStep(s, d, v, true, false).value;
      LocalSame(s, s1, t, i);
      StoreEffect(s1, t, i, off, val);
      var s' := StoreAt(s1, t, i, off, val);
      LocalTrans(s, s1, s', t, i);
      LocalGoes(s, s', d, v, Unmapped(s, d, v));
    }
  }

  lemma AccessOnce(s: State, t: nat, i: nat)
    requires Inv(s) && HasEntry(s, t, i) && EntryAt(s, t, i).rw
    requires EntryAt(s, t, i).addr != 0 || EntryAt(s, t, i).allocable
    ensures var r, n := AccessAt(s, t, i, true, false), if EntryAt(s, t, i).addr == 0 then 1 else 0;
      && (r.Resolved? <==> n <= |s.frames|)
      && (r.Resolved? ==> |r.state.frames| + n == |s.frames| && HasEntry(r.state, t, i))
  {
    hide CountsOk, StackOk, EntriesOk, Exclusive, FixedOnce, DirsOk;
    EntryFacts(s, t, i);
    if !EntryAt(s, t, i).present && s.frames != [] {
      FaultEffect(s, t, i, true, false);
      var s1 := FaultAt(s, t, i, true, false).state;
      assert Permitted(EntryAt(s1, t, i), true, false);
      assert AccessAt(s1, t, i, true, false) == Resolved(s1);
    }
  }

  // ---- operations, one by one and all together ----

  function PageOf(op: Op): nat {
    if op.StoreByte? then op.a / PAGE else op.v
  }

  ghost predicate AllReady(s: State, d: nat, ops: seq<Op>)
    requires d in s.dirs
  {
    forall op :: op in ops ==> PageOf(op) < ENTRIES * ENTRIES && Ready(s, d, PageOf(op))
  }

  // How many frames an operation takes in the loader's model: one when its page has no contents yet.
  function Need(m: Elf.Memory, op: Op): nat {
    if op.Reserve? || (PageOf(op) in m && m[PageOf(op)].Filled?) then 0 else 1
  }

  function Needs(m: Elf.Memory, ops: seq<Op>, f: nat -> seq<Elf.Byte>): nat
    requires Elf.MemoryOk(m) && Elf.FramesOk(f) && DoAll(m, ops, f).Some?
    decreases |ops|
  {
    if ops == [] then 0
    else Needs(m, ops[..|ops| - 1], f) + Need(DoAll(m, ops[..|ops| - 1], f).value, ops[|ops| - 1])
  }

  predicate FilledSame(m: Elf.Memory, m': Elf.Memory) {
    m.Keys == m'.Keys && forall v :: v in m ==> (m[v].Filled? <==> m'[v].Filled?)
  }

  // It does not depend on what the frames held.
  lemma {:induction false} NeedsAnyway(m: Elf.Memory, ops: seq<Op>, f: nat -> seq<Elf.Byte>, g: nat -> seq<Elf.Byte>)
    requires Elf.MemoryOk(m) && Elf.FramesOk(f) && Elf.FramesOk(g) && DoAll(m, ops, f).Some?
    ensures DoAll(m, ops, g).Some? && FilledSame(DoAll(m, ops, f).value, DoAll(m, ops, g).value)
    ensures Needs(m, ops, g) == Needs(m, ops, f)
    decreases |ops|
  {
    hide Elf.MemoryOk, Elf.FramesOk, Elf.Zeros;
    if ops != [] { NeedsAnyway(m, ops[..|ops| - 1], f, g); }
  }

  lemma NeedIs(s: State, d: nat, v: nat)
    requires Inv(s) && d in s.dirs && v < ENTRIES * ENTRIES
    ensures v in MemoryOf(s, d) && MemoryOf(s, d)[v].Filled? <==> EntryIn(s, d, v).addr != 0
  {
    hide CountsOk, StackOk, EntriesOk, Exclusive, FixedOnce;
    SeesShows(s, d, v);
    if FrameOf(s, d, v) != 0 { MappedKnown(s, d, v); }
  }

  lemma OpGoes(s: State, d: nat, op: Op)
    requires Inv(s) && d in s.dirs && Ready(s, d, PageOf(op)) && PageOf(op) < ENTRIES * ENTRIES
    requires op.StoreByte? ==> Visible(s, d, PageOf(op))
    ensures Step(s, EventOf(s, d, op)).Some? <==> Need(MemoryOf(s, d), op) <= |s.frames|
    ensures Step(s, EventOf(s, d, op)).Some? ==>
      Goes(s, Step(s, EventOf(s, d, op)).value, d, PageOf(op), Need(MemoryOf(s, d), op))
  {
    hide Inv, Ready, Goes, AllocStep, LazyAllocStep, WriteStep, Sees, MemoryOf, WordWith, EntryIn;
    NeedIs(s, d, PageOf(op));
    match op
    case Allocate(v) => AllocGoes(s, d, v, true);
    case Reserve(v) => ReserveGoes(s, d, v, true);
    case StoreByte(a, b) =>
      WriteGoes(s, d, a / PAGE, a % PAGE / 4, EventOf(s, d, op).val);
  }

  lemma StillReady(s: State, s': State, d: nat, v: nat, n: nat, ops: seq<Op>)
    requires d in s.dirs && Goes(s, s', d, v, n) && AllReady(s, d, ops)
    ensures d in s'.dirs && |s'.frames| + n == |s.frames| && AllReady(s', d, ops)
  {
    hide Inv, EntryIn;
  }

  // A run that performs operations on ready pages takes exactly the frames they need, and leaves ready
  // what was ready.
  lemma {:induction false} OpsTake(s0: State, d: nat, ops: seq<Op>, events: seq<Event>, f: nat -> seq<Elf.Byte>,
          all: seq<Op>)
    requires Inv(s0) && d in s0.dirs && Elf.FramesOk(f) && DoAll(MemoryOf(s0, d), ops, f).Some?
    requires AllReady(s0, d, ops) && AllReady(s0, d, all) && Run(s0, events).Some? && Performs(s0, d, ops, events)
    ensures var s := Run(s0, events).value;
      d in s.dirs && |s.frames| + Needs(MemoryOf(s0, d), ops, f) == |s0.frames| && AllReady(s, d, all)
    decreases |ops|
  {
    hide Inv, Step, MemoryOf, Ready, Goes, Do, AllReady, EventOf, Need;
    if ops == [] {
      assert events == [];
    } else {
      var first, op, before := ops[..|ops| - 1], ops[|ops| - 1], events[..|events| - 1];
      FewerReady(s0, d, ops);
      OpsTake(s0, d, first, before, f, all);
      OpsTake(s0, d, first, before, f, ops);
      var s := Run(s0, before).value;
      NextOp(s0, d, ops, before, f);
      StillReady(s, Step(s, EventOf(s, d, op)).value, d, PageOf(op), Need(MemoryOf(s, d), op), all);
    }
  }

  // What the last of some operations does after the others.
  lemma NextOp(s0: State, d: nat, ops: seq<Op>, before: seq<Event>, f: nat -> seq<Elf.Byte>)
    requires Inv(s0) && d in s0.dirs && Elf.FramesOk(f) && ops != [] && DoAll(MemoryOf(s0, d), ops, f).Some?
    requires Run(s0, before).Some? && Performs(s0, d, ops[..|ops| - 1], before)
    requires d in Run(s0, before).value.dirs && AllReady(Run(s0, before).value, d, ops)
    ensures var s, op := Run(s0, before).value, ops[|ops| - 1];
      && Need(MemoryOf(s, d), op) == Need(DoAll(MemoryOf(s0, d), ops[..|ops| - 1], f).value, op)
      && (Step(s, EventOf(s, d, op)).Some? <==> Need(MemoryOf(s, d), op) <= |s.frames|)
      && (Step(s, EventOf(s, d, op)).Some? ==>
            Goes(s, Step(s, EventOf(s, d, op)).value, d, PageOf(op), Need(MemoryOf(s, d), op)))
  {
    hide Inv, Step, MemoryOf, Ready, Goes, Do, AllReady, EventOf, Performs;
    var first, s := ops[..|ops| - 1], Run(s0, before).value;
    OpsDefined(s0, d, first, before, f);
    LastReady(s, d, ops, DoAll(MemoryOf(s0, d), first, f).value, f);
    var g := OpsRun(s0, d, first, before, f);
    NeedsAnyway(MemoryOf(s0, d), first, f, g);
    OpGoes(s, d, ops[|ops| - 1]);
  }

  // There is a run that performs operations on ready pages exactly when there are the frames they need.
  lemma OpsGo(s0: State, d: nat, ops: seq<Op>, f: nat -> seq<Elf.Byte>)
    requires Inv(s0) && d in s0.dirs && Elf.FramesOk(f) && DoAll(MemoryOf(s0, d), ops, f).Some? && AllReady(s0, d, ops)
    ensures Needs(MemoryOf(s0, d), ops, f) <= |s0.frames| <==>
            exists events :: Run(s0, events).Some? && Performs(s0, d, ops, events)
  {
    hide Inv, Step, MemoryOf, AllReady, Performs, Needs, DoAll;
    if Needs(MemoryOf(s0, d), ops, f) <= |s0.frames| {
      var events := OpsRunOf(s0, d, ops, f);
    }
    if exists events :: Run(s0, events).Some? && Performs(s0, d, ops, events) {
      var events :| Run(s0, events).Some? && Performs(s0, d, ops, events);
      OpsTake(s0, d, ops, events, f, ops);
    }
  }

  lemma {:induction false} OpsRunOf(s0: State, d: nat, ops: seq<Op>, f: nat -> seq<Elf.Byte>)
    returns (events: seq<Event>)
    requires Inv(s0) && d in s0.dirs && Elf.FramesOk(f) && DoAll(MemoryOf(s0, d), ops, f).Some? && AllReady(s0, d, ops)
    requires Needs(MemoryOf(s0, d), ops, f) <= |s0.frames|
    ensures Run(s0, events).Some? && Performs(s0, d, ops, events)
    decreases |ops|
  {
    hide Inv, Step, MemoryOf, Ready, Goes, Do, AllReady, EventOf, Need;
    if ops == [] {
      events := [];
    } else {
      var first, op := ops[..|ops| - 1], ops[|ops| - 1];
      FewerReady(s0, d, ops);
      var before := OpsRunOf(s0, d, first, f);
      OpsTake(s0, d, first, before, f, ops);
      var s := Run(s0, before).value;
      NextOp(s0, d, ops, before, f);
      events := before + [EventOf(s, d, op)];
      assert events[..|events| - 1] == before;
    }
  }

  lemma FewerReady(s: State, d: nat, ops: seq<Op>)
    requires d in s.dirs && AllReady(s, d, ops) && ops != []
    ensures AllReady(s, d, ops[..|ops| - 1])
  {
    hide Ready;
  }

  lemma LastReady(s: State, d: nat, ops: seq<Op>, m: Elf.Memory, f: nat -> seq<Elf.Byte>)
    requires Inv(s) && d in s.dirs && AllReady(s, d, ops) && ops != [] && Elf.MemoryOk(m) && Elf.FramesOk(f)
    requires Do(m, ops[|ops| - 1], f).Some? && forall v :: v in m ==> Visible(s, d, v)
    ensures var op := ops[|ops| - 1];
      PageOf(op) < ENTRIES * ENTRIES && Ready(s, d, PageOf(op)) && (op.StoreByte? ==> Visible(s, d, PageOf(op)))
  {
    hide Inv, Ready, Sees;
    assert ops[|ops| - 1] in ops;
  }

  // ---- whole files ----

  // All operations are on pages from `lo` up to `hi`.
  predicate InRange(ops: seq<Op>, lo: nat, hi: nat) {
    forall op :: op in ops ==> lo <= PageOf(op) < hi
  }

  lemma {:induction false} SpanRange(p: nat, n: nat, lo: nat, hi: nat)
    requires n > 0 ==> lo <= p && p + n <= hi
    ensures InRange(AllocOps(p, n), lo, hi) && InRange(ReserveOps(p, n), lo, hi)
  {
    if n > 0 { SpanRange(p, n - 1, lo, hi); }
  }

  lemma {:induction false} StoreRange(a: nat, bs: seq<Elf.Byte>, lo: nat, hi: nat)
    requires lo * PAGE <= a && a + |bs| <= hi * PAGE
    ensures InRange(StoreOps(a, bs), lo, hi)
    decreases |bs|
  {
    if bs != [] { StoreRange(a, bs[..|bs| - 1], lo, hi); }
  }

  lemma SegmentRange(ph: Elf.Segment, file: seq<Elf.Byte>, lo: nat, hi: nat)
    requires Elf.Fits(ph, file) && ph.memsz > 0 && lo * PAGE <= ph.vaddr && Elf.SpaceEnd(ph) <= hi * PAGE
    ensures InRange(SegmentOps(ph, file), lo, hi)
  {
    FileRange(ph, file, lo, hi);
    SpaceRange(Elf.SpaceStart(ph), Elf.SpaceEnd(ph), lo, hi);
    hide FileOps, SpaceOps, PageOf;
  }

  lemma FileRange(ph: Elf.Segment, file: seq<Elf.Byte>, lo: nat, hi: nat)
    requires Elf.Fits(ph, file) && ph.memsz > 0 && lo * PAGE <= ph.vaddr && Elf.SpaceEnd(ph) <= hi * PAGE
    ensures InRange(FileOps(ph, file), lo, hi)
  {
    if ph.filesz > 0 {
      Elf.SpanCovers(ph.vaddr, Elf.SpaceEnd(ph));
      SpanRange(ph.vaddr / PAGE, RoundUp(Elf.SpaceEnd(ph), PAGE) / PAGE - ph.vaddr / PAGE, lo, hi);
      StoreRange(ph.vaddr, file[ph.offset..ph.offset + Elf.FileBytes(ph)], lo, hi);
      hide PageOf;
    }
  }

  lemma SpaceRange(start: nat, end: nat, lo: nat, hi: nat)
    requires lo * PAGE <= start && end <= hi * PAGE
    ensures InRange(SpaceOps(start, end), lo, hi)
  {
    if start < end {
      RoundUpFacts(start, PAGE);
      RoundDownFacts(end, PAGE);
      HeadRange(start, end, lo, hi);
      TailRange(start, end, lo, hi);
      var first, past := RoundUp(start, PAGE) / PAGE, end / PAGE;
      SpanRange(first, if past > first then past - first else 0, lo, hi);
      hide HeadOps, TailOps, ReserveOps, PageOf;
    }
  }

  lemma HeadRange(start: nat, end: nat, lo: nat, hi: nat)
    requires lo * PAGE <= start < end <= hi * PAGE
    ensures InRange(HeadOps(start), lo, hi)
  {
    RoundUpFacts(start, PAGE);
    if start != RoundUp(start, PAGE) {
      Elf.SpanCovers(start, RoundUp(start, PAGE));
      StoreRange(start, Elf.Zeros(RoundUp(start, PAGE) - start), lo, hi);
      hide StoreOps, RoundUp, Elf.Zeros;
    }
  }

  lemma TailRange(start: nat, end: nat, lo: nat, hi: nat)
    requires lo * PAGE <= start < end <= hi * PAGE
    ensures InRange(TailOps(end), lo, hi)
  {
    RoundDownFacts(end, PAGE);
    var e := RoundDown(end, PAGE);
    if e != end {
      StoreRange(e, Elf.Zeros(end - e), lo, hi);
      hide StoreOps, Elf.Zeros;
    }
  }

  lemma {:induction false} LoadRange(m: Elf.Memory, file: seq<Elf.Byte>, phoff: nat, n: nat, low: nat,
          f: nat -> seq<Elf.Byte>, lo: nat)
    requires Elf.MemoryOk(m) && Elf.FramesOk(f) && Loader.LoadFirst(m, file, phoff, n, low, f).Loaded?
    requires lo * PAGE <= low
    ensures InRange(LoadOps(file, phoff, n), lo, KERNEL_HEAP_BEGIN / PAGE)
    decreases n
  {
    hide Elf.Fits, SegmentOps, Elf.LoadSegment, Loader.SegmentAt, Elf.MemoryOk, PageOf;
    HeapBounds();
    if n > 0 {
      LoadRange(m, file, phoff, n - 1, low, f, lo);
      if Loader.IsLoad(file, phoff, n - 1) {
        SegmentRange(Loader.SegmentAt(file, phoff, n - 1).value, file, lo, KERNEL_HEAP_BEGIN / PAGE);
      }
    }
  }

  // The pages that a run of the loader allocated or reserved may be used and written by users.
  lemma {:induction false} UserPages(s0: State, d: nat, ops: seq<Op>, events: seq<Event>, v: nat)
    requires Inv(s0) && d in s0.dirs && Run(s0, events).Some? && Performs(s0, d, ops, events) && v < ENTRIES * ENTRIES
    requires exists op :: op in ops && !op.StoreByte? && op.v == v
    ensures d in Run(s0, events).value.dirs && RightsIn(Run(s0, events).value, d, v) == Rights(true, true, true)
    decreases |events|
  {
    hide Inv, Step, RightsIn, WordWith;
    var op0 :| op0 in ops && !op0.StoreByte? && op0.v == v;
    var first, op, before := ops[..|ops| - 1], ops[|ops| - 1], events[..|events| - 1];
    var s, e := Run(s0, before).value, events[|events| - 1];
    StepInv(s, e);
    StepGrants(s, e, d, v);
    if op.StoreByte? || op.v != v {
      assert op0 in first;
      UserPages(s0, d, first, before, v);
    }
  }

  // A file that can be loaded at all is loaded by some run exactly when there are enough frames, if
  // every private page of the space may be written that may be used; so nothing is shared.
  lemma ElfGoes(s0: State, d: nat, file: seq<Elf.Byte>, low: nat, f: nat -> seq<Elf.Byte>)
    requires Inv(s0) && d in s0.dirs && Elf.FramesOk(f) && low >= s0.low * ENTRIES * PAGE
    requires Loader.LoadResult(MemoryOf(s0, d), Some(file), low, f).Entry?
    requires forall v :: s0.low * ENTRIES <= v < HEAP_SLOT * ENTRIES ==> Ready(s0, d, v)
    ensures DoAll(MemoryOf(s0, d), ElfOps(file), f).Some?
    ensures Needs(MemoryOf(s0, d), ElfOps(file), f) <= |s0.frames| <==>
            exists events :: Run(s0, events).Some? && Performs(s0, d, ElfOps(file), events)
  {
    hide Inv, MemoryOf, Ready, Run, Performs, DoAll, Needs, LoadOps, Loader.LoadFirst, Loader.HeaderValid, PageOf;
    HeapBounds();
    var h := file[..Loader.EHDR_SIZE];
    LoadOpsDo(MemoryOf(s0, d), file, Loader.Word(h, 28), Loader.Half(h, 44), low, f);
    LoadRange(MemoryOf(s0, d), file, Loader.Word(h, 28), Loader.Half(h, 44), low, f, s0.low * ENTRIES);
    OpsGo(s0, d, ElfOps(file), f);
  }

  // That is so at the start of paging.
  lemma StartReady(pages: nat, frames: seq<nat>, phys: map<nat, Page>, v: nat)
    requires BootOk(pages, frames, phys) && LowSlots(pages) * ENTRIES <= v < HEAP_SLOT * ENTRIES
    ensures Ready(Start(pages, frames, phys), BOOT_DIR, v)
  {
    StartEntry(pages, frames, phys, v);
  }
}
