/** Loading an ELF file through paging: the image is what the address space sees. */
module PageLoader {
  import opened Common
  import opened PageState
  import opened PageSteps
  import opened PageClone
  import opened PageRuns
  import opened PageAbstraction
  import Elf = ElfImage
  import Loader = ElfLoader

  // ---- what the loader does, page by page and byte by byte ----

  datatype Op = Allocate(v: nat) | Reserve(v: nat) | StoreByte(a: nat, b: Elf.Byte)

  // What an operation does to the loader's model of the memory; none when it stores to a page that is
  // not there.
  function Do(m: Elf.Memory, op: Op, frames: nat -> seq<Elf.Byte>): (r: Option<Elf.Memory>)
    requires Elf.MemoryOk(m) && Elf.FramesOk(frames)
    ensures r.Some? ==> Elf.MemoryOk(r.value)
  {
    match op
    case Allocate(v) => Some(Elf.AllocPage(m, v, frames))
    case Reserve(v) => Some(Elf.LazyPage(m, v))
    case StoreByte(a, b) => if a / PAGE in m then Some(Elf.Poke(m, a, b)) else None
  }

  function DoAll(m: Elf.Memory, ops: seq<Op>, frames: nat -> seq<Elf.Byte>): (r: Option<Elf.Memory>)
    requires Elf.MemoryOk(m) && Elf.FramesOk(frames)
    ensures r.Some? ==> Elf.MemoryOk(r.value)
    decreases |ops|
  {
    if ops == [] then Some(m)
    else
      match DoAll(m, ops[..|ops| - 1], frames)
      case None => None
      case Some(m1) => Do(m1, ops[|ops| - 1], frames)
  }

  lemma {:induction false} DoBoth(m: Elf.Memory, a: seq<Op>, b: seq<Op>, frames: nat -> seq<Elf.Byte>)
    requires Elf.MemoryOk(m) && Elf.FramesOk(frames)
    ensures DoAll(m, a + b, frames) ==
      match DoAll(m, a, frames)
      case None => None
      case Some(m1) => DoAll(m1, b, frames)
    decreases |b|
  {
    hide Do, Elf.MemoryOk, Elf.FramesOk;
    if b == [] {
      assert a + b == a;
    } else {
      assert (a + b)[..|a + b| - 1] == a + b[..|b| - 1];
      DoBoth(m, a, b[..|b| - 1], frames);
    }
  }

  // ---- the operations of a segment ----

  function AllocOps(p: nat, n: nat): seq<Op> {
    if n == 0 then [] else AllocOps(p, n - 1) + [Allocate(p + n - 1)]
  }

  function ReserveOps(p: nat, n: nat): seq<Op> {
    if n == 0 then [] else ReserveOps(p, n - 1) + [Reserve(p + n - 1)]
  }

  function StoreOps(a: nat, bs: seq<Elf.Byte>): seq<Op> {
    if bs == [] then [] else StoreOps(a, bs[..|bs| - 1]) + [StoreByte(a + |bs| - 1, bs[|bs| - 1])]
  }

  // Lines 62-73 of the loader.
  function FileOps(ph: Elf.Segment, file: seq<Elf.Byte>): seq<Op>
    requires Elf.Fits(ph, file) && ph.memsz > 0
  {
    if ph.filesz == 0 then []
    else
      Elf.SpanCovers(ph.vaddr, Elf.SpaceEnd(ph));
      AllocOps(ph.vaddr / PAGE, RoundUp(Elf.SpaceEnd(ph), PAGE) / PAGE - ph.vaddr / PAGE)
      + StoreOps(ph.vaddr, file[ph.offset..ph.offset + Elf.FileBytes(ph)])
  }

  // Lines 77-82.
  function HeadOps(start: nat): seq<Op> {
    if start == RoundUp(start, PAGE) then []
    else
      RoundUpFacts(start, PAGE);
      [Allocate(start / PAGE)] + StoreOps(start, Elf.Zeros(RoundUp(start, PAGE) - start))
  }

  // Lines 84-89.
  function TailOps(end: nat): seq<Op> {
    var e := RoundDown(end, PAGE);
    if e == end then []
    else
      RoundDownFacts(end, PAGE);
      [Allocate(e / PAGE)] + StoreOps(e, Elf.Zeros(end - e))
  }

  // Lines 75-92.
  function SpaceOps(start: nat, end: nat): seq<Op> {
    if start >= end then []
    else
      var first, past := RoundUp(start, PAGE) / PAGE, end / PAGE;
      HeadOps(start) + TailOps(end) + ReserveOps(first, if past > first then past - first else 0)
  }

  function SegmentOps(ph: Elf.Segment, file: seq<Elf.Byte>): seq<Op>
    requires Elf.Fits(ph, file) && ph.memsz > 0
  {
    FileOps(ph, file) + SpaceOps(Elf.SpaceStart(ph), Elf.SpaceEnd(ph))
  }

  // ---- they are what the loader's model does ----

  lemma {:induction false} AllocOpsDo(m: Elf.Memory, p: nat, n: nat, frames: nat -> seq<Elf.Byte>)
    requires Elf.MemoryOk(m) && Elf.FramesOk(frames)
    ensures DoAll(m, AllocOps(p, n), frames) == Some(Elf.AllocSpan(m, p, n, frames))
  {
    hide Elf.AllocPage, Elf.MemoryOk;
    if n > 0 { AllocOpsDo(m, p, n - 1, frames); }
  }

  lemma {:induction false} ReserveOpsDo(m: Elf.Memory, p: nat, n: nat, frames: nat -> seq<Elf.Byte>)
    requires Elf.MemoryOk(m) && Elf.FramesOk(frames)
    ensures DoAll(m, ReserveOps(p, n), frames) == Some(Elf.LazySpan(m, p, n))
  {
    hide Elf.LazyPage, Elf.MemoryOk;
    if n > 0 { ReserveOpsDo(m, p, n - 1, frames); }
  }

  lemma {:induction false} StoreOpsDo(m: Elf.Memory, a: nat, bs: seq<Elf.Byte>, frames: nat -> seq<Elf.Byte>)
    requires Elf.MemoryOk(m) && Elf.FramesOk(frames) && Elf.Mapped(m, a, |bs|)
    ensures DoAll(m, StoreOps(a, bs), frames) == Some(Elf.PokeAll(m, a, bs))
    decreases |bs|
  {
    hide Elf.Poke, Elf.Seen;
    if bs != [] {
      var n := |bs| - 1;
      assert bs == bs[..n] + [bs[n]];
      assert (a + n) / PAGE in m;
      StoreOpsDo(m, a, bs[..n], frames);
    }
  }

  lemma FileOpsDo(m: Elf.Memory, ph: Elf.Segment, file: seq<Elf.Byte>, frames: nat -> seq<Elf.Byte>)
    requires Elf.MemoryOk(m) && Elf.FramesOk(frames) && Elf.Fits(ph, file) && ph.memsz > 0
    ensures DoAll(m, FileOps(ph, file), frames) == Some(Elf.PutFile(m, file, ph, frames))
  {
    hide Elf.PokeAll, Elf.AllocSpan, Elf.Mapped, Elf.MemoryOk, Elf.FramesOk, Elf.Seen, AllocOps, StoreOps, DoAll,
        RoundUp;
    if ph.filesz == 0 {
      NothingDone(m, frames);
    } else {
      Elf.SpanCovers(ph.vaddr, Elf.SpaceEnd(ph));
      var n := RoundUp(Elf.SpaceEnd(ph), PAGE) / PAGE - ph.vaddr / PAGE;
      var bs := file[ph.offset..ph.offset + Elf.FileBytes(ph)];
      AllocOpsDo(m, ph.vaddr / PAGE, n, frames);
      StoreOpsDo(Elf.FileSpan(m, ph, frames), ph.vaddr, bs, frames);
      DoBoth(m, AllocOps(ph.vaddr / PAGE, n), StoreOps(ph.vaddr, bs), frames);
    }
  }

  lemma NothingDone(m: Elf.Memory, frames: nat -> seq<Elf.Byte>)
    requires Elf.MemoryOk(m) && Elf.FramesOk(frames)
    ensures DoAll(m, [], frames) == Some(m)
  {
  }

  // One page allocated, and bytes stored in it.
  lemma AllocStoreDo(m: Elf.Memory, p: nat, a: nat, bs: seq<Elf.Byte>, frames: nat -> seq<Elf.Byte>)
    requires Elf.MemoryOk(m) && Elf.FramesOk(frames) && Elf.Mapped(Elf.AllocPage(m, p, frames), a, |bs|)
    ensures DoAll(m, [Allocate(p)] + StoreOps(a, bs), frames) == Some(Elf.PokeAll(Elf.AllocPage(m, p, frames), a, bs))
  {
    hide Elf.PokeAll, StoreOps, Elf.Mapped;
    assert [Allocate(p)][..0] == [];
    assert DoAll(m, [Allocate(p)], frames) == Some(Elf.AllocPage(m, p, frames));
    StoreOpsDo(Elf.AllocPage(m, p, frames), a, bs, frames);
    DoBoth(m, [Allocate(p)], StoreOps(a, bs), frames);
  }

  lemma HeadOpsDo(m: Elf.Memory, start: nat, frames: nat -> seq<Elf.Byte>)
    requires Elf.MemoryOk(m) && Elf.FramesOk(frames)
    ensures DoAll(m, HeadOps(start), frames) == Some(Elf.ZeroHead(m, start, frames))
  {
    hide Elf.PokeAll, Elf.AllocPage, StoreOps, RoundUp, Elf.Mapped, Elf.Zeros;
    Loader.HeadReady(m, start, frames);
    if start != RoundUp(start, PAGE) {
      AllocStoreDo(m, start / PAGE, start, Elf.Zeros(RoundUp(start, PAGE) - start), frames);
    }
  }

  lemma TailOpsDo(m: Elf.Memory, end: nat, frames: nat -> seq<Elf.Byte>)
    requires Elf.MemoryOk(m) && Elf.FramesOk(frames)
    ensures DoAll(m, TailOps(end), frames) == Some(Elf.ZeroTail(m, end, frames))
  {
    hide Elf.PokeAll, Elf.AllocPage, StoreOps, RoundDown, Elf.Mapped, Elf.Zeros;
    Loader.TailReady(m, end, frames);
    var e := RoundDown(end, PAGE);
    if e != end { AllocStoreDo(m, e / PAGE, e, Elf.Zeros(end - e), frames); }
  }

  lemma SpaceOpsDo(m: Elf.Memory, start: nat, end: nat, frames: nat -> seq<Elf.Byte>)
    requires Elf.MemoryOk(m) && Elf.FramesOk(frames)
    ensures DoAll(m, SpaceOps(start, end), frames) == Some(Elf.ZeroSpace(m, start, end, frames))
  {
    hide Elf.ZeroHead, Elf.ZeroTail, HeadOps, TailOps, ReserveOps, RoundUp, Elf.LazySpan, Elf.MemoryOk;
    if start < end {
      var first, past := RoundUp(start, PAGE) / PAGE, end / PAGE;
      var n := if past > first then past - first else 0;
      var m1 := Elf.ZeroHead(m, start, frames);
      HeadOpsDo(m, start, frames);
      TailOpsDo(m1, end, frames);
      ReserveOpsDo(Elf.ZeroTail(m1, end, frames), first, n, frames);
      DoBoth(m, HeadOps(start), TailOps(end), frames);
      DoBoth(m, HeadOps(start) + TailOps(end), ReserveOps(first, n), frames);
      hide DoAll;
    }
  }

  lemma SegmentOpsDo(m: Elf.Memory, ph: Elf.Segment, file: seq<Elf.Byte>, frames: nat -> seq<Elf.Byte>)
    requires Elf.MemoryOk(m) && Elf.FramesOk(frames) && Elf.Fits(ph, file) && ph.memsz > 0
    ensures DoAll(m, SegmentOps(ph, file), frames) == Some(Elf.LoadSegment(m, file, ph, frames))
  {
    hide FileOps, SpaceOps, Elf.PutFile, Elf.ZeroSpace, DoAll;
    FileOpsDo(m, ph, file, frames);
    SpaceOpsDo(Elf.PutFile(m, file, ph, frames), Elf.SpaceStart(ph), Elf.SpaceEnd(ph), frames);
    DoBoth(m, FileOps(ph, file), SpaceOps(Elf.SpaceStart(ph), Elf.SpaceEnd(ph)), frames);
  }

  // The first `n` segments of a file.
  function LoadOps(file: seq<Elf.Byte>, phoff: nat, n: nat): seq<Op> {
    if n == 0 then []
    else
      LoadOps(file, phoff, n - 1)
      + (if Loader.IsLoad(file, phoff, n - 1) && Elf.Fits(Loader.SegmentAt(file, phoff, n - 1).value, file)
         then SegmentOps(Loader.SegmentAt(file, phoff, n - 1).value, file) else [])
  }

  lemma {:induction false} LoadOpsDo(m: Elf.Memory, file: seq<Elf.Byte>, phoff: nat, n: nat, low: nat,
          frames: nat -> seq<Elf.Byte>)
    requires Elf.MemoryOk(m) && Elf.FramesOk(frames) && Loader.LoadFirst(m, file, phoff, n, low, frames).Loaded?
    ensures DoAll(m, LoadOps(file, phoff, n), frames) == Some(Loader.LoadFirst(m, file, phoff, n, low, frames).mem)
    decreases n
  {
    hide Elf.Fits, SegmentOps, Elf.LoadSegment, Loader.SegmentAt, Elf.MemoryOk;
    if n > 0 {
      LoadOpsDo(m, file, phoff, n - 1, low, frames);
      var m1 := Loader.LoadFirst(m, file, phoff, n - 1, low, frames).mem;
      var last := [];
      if Loader.IsLoad(file, phoff, n - 1) {
        var ph := Loader.SegmentAt(file, phoff, n - 1).value;
        last := SegmentOps(ph, file);
        SegmentOpsDo(m1, ph, file, frames);
      }
      DoBoth(m, LoadOps(file, phoff, n - 1), last, frames);
    }
  }

  // Whether a file can be loaded depends on the file alone.
  lemma {:induction false} LoadsAnywhere(m: Elf.Memory, m': Elf.Memory, file: seq<Elf.Byte>, phoff: nat, n: nat,
          low: nat, f: nat -> seq<Elf.Byte>, g: nat -> seq<Elf.Byte>)
    requires Elf.MemoryOk(m) && Elf.MemoryOk(m') && Elf.FramesOk(f) && Elf.FramesOk(g)
    requires Loader.LoadFirst(m, file, phoff, n, low, f).Loaded?
    ensures Loader.LoadFirst(m', file, phoff, n, low, g).Loaded?
    ensures Loader.LoadFirst(m', file, phoff, n, low, g).done == Loader.LoadFirst(m, file, phoff, n, low, f).done
    decreases n
  {
    hide Elf.Fits, Elf.LoadSegment, Loader.SegmentAt, Elf.MemoryOk;
    if n > 0 { LoadsAnywhere(m, m', file, phoff, n - 1, low, f, g); }
  }

  // ---- the same operations on the pages of an address space ----

  // The little-endian word at place `k`.
  function WordIn(b: seq<Elf.Byte>, k: nat): nat
    requires k + 4 <= |b|
  {
    var b0: nat, b1: nat, b2: nat, b3: nat := b[k], b[k + 1], b[k + 2], b[k + 3];
    b0 + 0x100 * b1 + 0x1_0000 * b2 + 0x100_0000 * b3
  }

  lemma WordInBytes(b: seq<Elf.Byte>, k: nat)
    requires k + 4 <= |b|
    ensures Elf.WordBytes(WordIn(b, k)) == b[k..k + 4]
  {
    FourBytes(b[k], b[k + 1], b[k + 2], b[k + 3]);
    hide WordByte;
  }

  lemma FourBytes(b0: nat, b1: nat, b2: nat, b3: nat)
    requires b0 < 0x100 && b1 < 0x100 && b2 < 0x100 && b3 < 0x100
    ensures var w := b0 + 0x100 * b1 + 0x1_0000 * b2 + 0x100_0000 * b3;
      WordByte(w, 0) == b0 && WordByte(w, 1) == b1 && WordByte(w, 2) == b2 && WordByte(w, 3) == b3
  {
    var w := b0 + 0x100 * b1 + 0x1_0000 * b2 + 0x100_0000 * b3;
    assert w / 0x100 == b1 + 0x100 * (b2 + 0x100 * b3);
    assert w / 0x1_0000 == b2 + 0x100 * b3;
    assert w / 0x100_0000 == b3;
  }

  // The word around place `i` of a page with `b` in it, and the other three bytes as they are.
  function WordWith(m: Elf.Memory, v: nat, i: nat, b: Elf.Byte): nat
    requires Elf.MemoryOk(m) && v in m && i < PAGE
  {
    WordIn(PageBytes(m, v)[i := b], 4 * (i / 4))
  }

  // Writing that word is storing the byte.
  lemma WordIsByte(m: Elf.Memory, v: nat, i: nat, b: Elf.Byte)
    requires Elf.MemoryOk(m) && v in m && i < PAGE
    ensures Elf.Mapped(m, v * PAGE + 4 * (i / 4), 4) && (v * PAGE + i) / PAGE == v
    ensures Elf.PokeAll(m, v * PAGE + 4 * (i / 4), Elf.WordBytes(WordWith(m, v, i, b))) == Elf.Poke(m, v * PAGE + i, b)
  {
    PokeByte(m, v, i, b);
    WordInBytes(PageBytes(m, v)[i := b], 4 * (i / 4));
    hide Elf.PokeAll, Elf.Poke, Elf.WordBytes, WordIn, PageBytes, Elf.Mapped, Elf.Seen, Elf.MemoryOk;
    PokeWord(m, v, i, b, Elf.WordBytes(WordWith(m, v, i, b)));
  }

  lemma PokeWord(m: Elf.Memory, v: nat, i: nat, b: Elf.Byte, word: seq<Elf.Byte>)
    requires Elf.MemoryOk(m) && v in m && i < PAGE && |PageBytes(m, v)| == PAGE
    requires word == PageBytes(m, v)[i := b][4 * (i / 4)..4 * (i / 4) + 4]
    ensures Elf.Mapped(m, v * PAGE + 4 * (i / 4), 4)
    ensures Elf.PokeAll(m, v * PAGE + 4 * (i / 4), word) == m[v := Elf.Filled(PageBytes(m, v)[i := b])]
  {
    hide Elf.PokeAll, PageBytes, Patched, Elf.Mapped, Elf.Seen, Elf.MemoryOk;
    PokePage(m, v, 4 * (i / 4), word);
    PatchedIs(PageBytes(m, v), 4 * (i / 4), word);
    OneWord(PageBytes(m, v), i, b);
  }

  // A byte changes only the word it is in.
  lemma OneWord(was: seq<Elf.Byte>, i: nat, b: Elf.Byte)
    requires i < |was| == PAGE
    ensures var k, now := i / 4 * 4, was[i := b];
      k + 4 <= PAGE && was[..k] + now[k..k + 4] + was[k + 4..] == now
  {
    var k, now := i / 4 * 4, was[i := b];
    assert was[..k] == now[..k] && was[k + 4..] == now[k + 4..];
  }

  // The event that is operation `op` in state `s`.
  ghost function EventOf(s: State, d: nat, op: Op): Event
    requires Inv(s) && d in s.dirs
  {
    match op
    case Allocate(v) => Alloc(d, v, true, true)
    case Reserve(v) => LazyAlloc(d, v, true, true, true)
    case StoreByte(a, b) =>
      var m := MemoryOf(s, d);
      Write(d, a / PAGE, a % PAGE / 4, if a / PAGE in m then WordWith(m, a / PAGE, a % PAGE, b) else 0, false)
  }

  ghost predicate Performs(s0: State, d: nat, ops: seq<Op>, events: seq<Event>)
    requires Inv(s0) && Run(s0, events).Some?
    decreases |events|
  {
    && |ops| == |events|
    && (events != [] ==>
          && Performs(s0, d, ops[..|ops| - 1], events[..|events| - 1])
          && d in Run(s0, events[..|events| - 1]).value.dirs
          && events[|events| - 1] == EventOf(Run(s0, events[..|events| - 1]).value, d, ops[|ops| - 1]))
  }

  // Whether the operations can be done does not depend on what the frames held.
  lemma {:induction false} DoneAnyway(m: Elf.Memory, ops: seq<Op>, f: nat -> seq<Elf.Byte>, g: nat -> seq<Elf.Byte>)
    requires Elf.MemoryOk(m) && Elf.FramesOk(f) && Elf.FramesOk(g) && DoAll(m, ops, f).Some?
    ensures DoAll(m, ops, g).Some? && DoAll(m, ops, g).value.Keys == DoAll(m, ops, f).value.Keys
    decreases |ops|
  {
    hide Elf.MemoryOk, Elf.FramesOk;
    if ops != [] { DoneAnyway(m, ops[..|ops| - 1], f, g); }
  }

  // Operations that can be done store to pages that are known.
  lemma {:induction false} OpsDefined(s0: State, d: nat, ops: seq<Op>, events: seq<Event>, f: nat -> seq<Elf.Byte>)
    requires Inv(s0) && d in s0.dirs && Run(s0, events).Some? && Performs(s0, d, ops, events) && Elf.FramesOk(f)
    requires DoAll(MemoryOf(s0, d), ops, f).Some?
    ensures WritesDefined(s0, events, d) && d in Run(s0, events).value.dirs
    ensures forall e :: e in events ==> LoaderEvent(e, d)
    ensures forall v :: v in DoAll(MemoryOf(s0, d), ops, f).value ==> Visible(Run(s0, events).value, d, v)
    decreases |events|
  {
    hide Inv, Step, Sees, MemoryOf, Do, WordWith;
    if events == [] {
      assert ops == [];
    } else {
      var before, e, op := events[..|events| - 1], events[|events| - 1], ops[|ops| - 1];
      OpsDefined(s0, d, ops[..|ops| - 1], before, f);
      assert events == before + [e];
      OpKnown(Run(s0, before).value, d, op, DoAll(MemoryOf(s0, d), ops[..|ops| - 1], f).value, f);
    }
  }

  lemma OpKnown(s: State, d: nat, op: Op, m: Elf.Memory, f: nat -> seq<Elf.Byte>)
    requires Inv(s) && d in s.dirs && Elf.MemoryOk(m) && Elf.FramesOk(f) && Do(m, op, f).Some?
    requires Step(s, EventOf(s, d, op)).Some? && forall v :: v in m ==> Visible(s, d, v)
    ensures var e, s' := EventOf(s, d, op), Step(s, EventOf(s, d, op)).value;
      && Inv(s') && d in s'.dirs && (e.Write? ==> Visible(s, d, e.v))
      && forall v :: v in Do(m, op, f).value ==> Visible(s', d, v)
  {
    hide Inv, Step, Sees, MemoryOf, WordWith;
    var e := EventOf(s, d, op);
    StepInv(s, e);
    StepRange(s, e, d);
    forall v | v in Do(m, op, f).value ensures Visible(Step(s, e).value, d, v) {
      assert v == e.v || v in m;
      StepDefines(s, e, d, v);
    }
  }

  lemma StepRange(s: State, e: Event, d: nat)
    requires Inv(s) && LoaderEvent(e, d) && Step(s, e).Some?
    ensures d in s.dirs && e.v < ENTRIES * ENTRIES
  {
    hide Inv, Sees;
  }

  // One operation on both sides.
  lemma OpMirrors(s: State, d: nat, op: Op, frames: nat -> seq<Elf.Byte>)
    requires Inv(s) && d in s.dirs && Elf.FramesOk(frames) && Do(MemoryOf(s, d), op, frames).Some?
    ensures Do(MemoryOf(s, d), op, frames) == Some(Mirror(MemoryOf(s, d), EventOf(s, d, op), frames))
  {
    hide Inv, MemoryOf, Elf.PokeAll, Elf.Poke, Elf.AllocPage, Elf.LazyPage, WordWith;
    match op
    case Allocate(_) =>
    case Reserve(_) =>
    case StoreByte(a, b) => StoreMirrors(MemoryOf(s, d), d, a, b, frames);
  }

  lemma StoreMirrors(m: Elf.Memory, d: nat, a: nat, b: Elf.Byte, frames: nat -> seq<Elf.Byte>)
    requires Elf.MemoryOk(m) && Elf.FramesOk(frames) && a / PAGE in m
    ensures var e := Write(d, a / PAGE, a % PAGE / 4, WordWith(m, a / PAGE, a % PAGE, b), false);
      Mirror(m, e, frames) == Elf.Poke(m, a, b)
  {
    hide Elf.PokeAll, Elf.Poke, Elf.Seen, Elf.MemoryOk, Elf.FramesOk, WordWith;
    var v, i := a / PAGE, a % PAGE;
    assert a == v * PAGE + i && i / 4 < ENTRIES;
    WordIsByte(m, v, i, b);
  }

  lemma {:induction false} OpsMirror(s0: State, d: nat, ops: seq<Op>, events: seq<Event>, frames: nat -> seq<Elf.Byte>)
    requires Inv(s0) && d in s0.dirs && Run(s0, events).Some? && Performs(s0, d, ops, events) && Elf.FramesOk(frames)
    requires Matches(s0, events, d, frames) && DoAll(MemoryOf(s0, d), ops, frames).Some?
    ensures DoAll(MemoryOf(s0, d), ops, frames) == Some(MemoryOf(Run(s0, events).value, d))
    decreases |events|
  {
    hide Inv, Step, MemoryOf, Do, Mirror, EventOf;
    if events != [] {
      var before := events[..|events| - 1];
      OpsMirror(s0, d, ops[..|ops| - 1], before, frames);
      OpMirrors(Run(s0, before).value, d, ops[|ops| - 1], frames);
    }
  }

  // A run that performs operations does to the memory of the space what they do.
  lemma OpsRun(s0: State, d: nat, ops: seq<Op>, events: seq<Event>, f: nat -> seq<Elf.Byte>)
    returns (frames: nat -> seq<Elf.Byte>)
    requires Inv(s0) && d in s0.dirs && Run(s0, events).Some? && Performs(s0, d, ops, events) && Elf.FramesOk(f)
    requires DoAll(MemoryOf(s0, d), ops, f).Some?
    ensures Elf.FramesOk(frames) && d in Run(s0, events).value.dirs
    ensures DoAll(MemoryOf(s0, d), ops, frames) == Some(MemoryOf(Run(s0, events).value, d))
  {
    hide Inv, Run, MemoryOf, DoAll, Performs, WritesDefined;
    OpsDefined(s0, d, ops, events, f);
    frames := LoaderRun(s0, events, d);
    DoneAnyway(MemoryOf(s0, d), ops, f, frames);
    OpsMirror(s0, d, ops, events, frames);
  }

  // ---- the image ----

  // What `load_elf` does with a file whose header it accepts.
  function ElfOps(file: seq<Elf.Byte>): seq<Op>
    requires |file| >= Loader.EHDR_SIZE
  {
    var h := file[..Loader.EHDR_SIZE];
    LoadOps(file, Loader.Word(h, 28), Loader.Half(h, 44))
  }

  // A run that loads a file leaves in the pages of the space what the loader's model says, and so each
  // of several segments without common pages is seen as the file describes it exactly when it meets
  // its condition.
  lemma ImageShown(s0: State, d: nat, file: seq<Elf.Byte>, low: nat, events: seq<Event>, f: nat -> seq<Elf.Byte>)
    returns (frames: nat -> seq<Elf.Byte>)
    requires Inv(s0) && d in s0.dirs && Run(s0, events).Some? && Elf.FramesOk(f)
    requires Loader.LoadResult(MemoryOf(s0, d), Some(file), low, f).Entry? && Performs(s0, d, ElfOps(file), events)
    ensures Elf.FramesOk(frames) && d in Run(s0, events).value.dirs
    ensures Loader.LoadResult(MemoryOf(s0, d), Some(file), low, frames).Entry?
    ensures var h, r := file[..Loader.EHDR_SIZE], MemoryOf(Run(s0, events).value, d);
      && r == Loader.LoadedMemory(MemoryOf(s0, d), file, low, frames)
      && (Loader.AllApart(file, Loader.Word(h, 28), Loader.Half(h, 44)) ==>
            forall i :: 0 <= i < Loader.Half(h, 44) && Loader.IsLoad(file, Loader.Word(h, 28), i) ==>
              Loader.ImageExact(r, file, Loader.Word(h, 28), i))
  {
    hide Inv, Run, MemoryOf, DoAll, Performs, LoadOps;
    hide Loader.LoadFirst, Loader.HeaderValid, Loader.AllApart, Loader.IsLoad, Loader.ImageExact;
    hide Loader.Word, Loader.Half;
    var m, h := MemoryOf(s0, d), file[..Loader.EHDR_SIZE];
    var phoff, phnum := Loader.Word(h, 28), Loader.Half(h, 44);
    LoadOpsDo(m, file, phoff, phnum, low, f);
    frames := OpsRun(s0, d, ElfOps(file), events, f);
    LoadsAnywhere(m, m, file, phoff, phnum, low, f, frames);
    LoadOpsDo(m, file, phoff, phnum, low, frames);
    if Loader.AllApart(file, phoff, phnum) { Loader.LoadElfImage(m, file, low, frames); }
  }
}
