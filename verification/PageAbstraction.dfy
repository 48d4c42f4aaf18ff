/** The loader's memory and the heap's pages are abstractions of what paging keeps in its entries. */
module PageAbstraction {
  import opened Common
  import opened PageState
  import opened PageSteps
  import opened PageFaults
  import opened PageClone
  import opened PageRuns
  import Elf = ElfImage
  import HeapMemory

  // ---- the memory the loader works on ----

  function BytesOf(p: Page): (b: seq<Elf.Byte>)
    requires |p| == ENTRIES
    ensures |b| == PAGE && forall k :: 0 <= k < PAGE ==> b[k] == WordByte(p[k / 4], k % 4)
  {
    seq(PAGE, k requires 0 <= k < PAGE => WordByte(p[k / 4], k % 4))
  }

  // A page without a frame is known only to become zero.
  function CellOf(spot: Spot): Elf.Cell
    requires spot.view.Known? && |spot.view.page| == ENTRIES
  {
    if spot.mapped then Elf.Filled(BytesOf(spot.view.page)) else Elf.Lazy
  }

  ghost predicate Visible(s: State, d: nat, v: nat)
    requires Inv(s) && d in s.dirs
  {
    v < ENTRIES * ENTRIES && Sees(s, d, v).Known?
  }

  ghost function CellIn(s: State, d: nat, v: nat): Elf.Cell
    requires Inv(s) && d in s.dirs && Visible(s, d, v)
  {
    PageSize(s, d, v);
    CellOf(SpotOf(s, d, v))
  }

  // The pages of space `d` with known contents.
  ghost function MemoryOf(s: State, d: nat): (m: Elf.Memory)
    requires Inv(s) && d in s.dirs
    ensures forall v: nat :: v in m <==> Visible(s, d, v)
    ensures forall v: nat :: v in m ==> m[v] == CellIn(s, d, v)
    ensures Elf.MemoryOk(m)
  {
    map v: nat | v < ENTRIES * ENTRIES && Visible(s, d, v) :: CellIn(s, d, v)
  }

  // After a change of one page the memory of every space is as before but for that page.
  lemma ChangedMemory(s: State, s': State, d: nat, v: nat, now: Spot, d': nat)
    requires Inv(s) && Changed(s, s', d, v, now) && d' in s.dirs && (now.view.Known? ==> |now.view.page| == ENTRIES)
    ensures d' in s'.dirs && Inv(s')
    ensures MemoryOf(s', d') ==
      if !Aliased(s.low, d, v, d', v) then MemoryOf(s, d')
      else if now.view.Known? then MemoryOf(s, d')[v := CellOf(now)] else MemoryOf(s, d') - {v}
  {
    hide CountsOk, StackOk, EntriesOk, Exclusive, FixedOnce, DirsOk, Sees, FrameOf;
    assert d' in s'.dirs.Keys;
    forall v': nat | v' < ENTRIES * ENTRIES
      ensures SpotOf(s', d', v') == if Aliased(s.low, d, v, d', v') then now else SpotOf(s, d', v')
    {
      ChangedSees(s, s', d, v, now, d', v');
    }
  }

  // `frames` has for page `v` what an `alloc` finds in the frame it takes.
  ghost predicate FrameFound(s: State, s': State, d: nat, v: nat, frames: nat -> seq<Elf.Byte>)
    requires Inv(s) && Inv(s') && d in s.dirs && d in s'.dirs
  {
    || (v in MemoryOf(s, d) && MemoryOf(s, d)[v].Filled?)
    || (Visible(s', d, v) && CellIn(s', d, v) == Elf.Filled(frames(v)))
  }

  // `alloc` of a page is the loader's: its frame keeps what was in it.
  lemma AllocIsAllocPage(s: State, d: nat, v: nat, user: bool, rw: bool, frames: nat -> seq<Elf.Byte>)
    requires Inv(s) && AllocStep(s, d, v, user, rw).Some? && Inv(AllocStep(s, d, v, user, rw).value)
    requires d in s.dirs && d in AllocStep(s, d, v, user, rw).value.dirs
    requires FrameFound(s, AllocStep(s, d, v, user, rw).value, d, v, frames)
    ensures MemoryOf(AllocStep(s, d, v, user, rw).value, d) == Elf.AllocPage(MemoryOf(s, d), v, frames)
  {
    hide Inv, AllocStep, Sees, FrameOf, Changed;
    AllocChanged(s, d, v, user, rw);
    var s' := AllocStep(s, d, v, user, rw).value;
    PageSize(s', d, v);
    ChangedMemory(s, s', d, v, SpotOf(s', d, v), d);
    var m := MemoryOf(s, d);
    if FrameOf(s, d, v) != 0 {
      MappedKnown(s, d, v);
      assert m[v] == CellIn(s, d, v);
      assert m[v := m[v]] == m;
    }
  }

  // `lazy_alloc` with zero filling is the loader's.
  lemma LazyAllocIsLazyPage(s: State, d: nat, v: nat, user: bool, rw: bool)
    requires Inv(s) && LazyAllocStep(s, d, v, user, rw, true).Some?
    ensures d in s.dirs && d in LazyAllocStep(s, d, v, user, rw, true).value.dirs
    ensures Inv(LazyAllocStep(s, d, v, user, rw, true).value)
    ensures MemoryOf(LazyAllocStep(s, d, v, user, rw, true).value, d) == Elf.LazyPage(MemoryOf(s, d), v)
  {
    hide Inv, LazyAllocStep, Sees, FrameOf, Changed;
    LazyAllocChanged(s, d, v, user, rw, true);
    var s' := LazyAllocStep(s, d, v, user, rw, true).value;
    ChangedMemory(s, s', d, v, Spot(Known(ZeroPage()), FrameOf(s, d, v) != 0), d);
    ZeroBytes();
    if FrameOf(s, d, v) != 0 { MappedKnown(s, d, v); }
  }

  lemma ZeroBytes()
    ensures BytesOf(ZeroPage()) == Elf.Zeros(PAGE)
  {
    hide Elf.Zeros;
  }

  // A word written is its four bytes stored, on a pending page too.
  lemma WriteIsPoke(s: State, d: nat, v: nat, off: nat, val: nat, byUser: bool)
    requires Inv(s) && WriteStep(s, d, v, off, val, byUser).Some? && d in s.dirs && Visible(s, d, v)
    ensures d in WriteStep(s, d, v, off, val, byUser).value.dirs && Inv(WriteStep(s, d, v, off, val, byUser).value)
    ensures off < ENTRIES && Elf.Mapped(MemoryOf(s, d), v * PAGE + 4 * off, 4)
    ensures MemoryOf(WriteStep(s, d, v, off, val, byUser).value, d) ==
            Elf.PokeAll(MemoryOf(s, d), v * PAGE + 4 * off, Elf.WordBytes(val))
  {
    hide Inv, WriteStep, Sees, FrameOf, Changed, Elf.PokeAll;
    WriteChanged(s, d, v, off, val, byUser);
    var s', m := WriteStep(s, d, v, off, val, byUser).value, MemoryOf(s, d);
    var p: Page :| Written(s, s', d, v, off, val, p);
    ChangedMemory(s, s', d, v, Spot(Known(p[off := val]), true), d);
    assert Sees(s, d, v) == Known(p);
    OldBytes(s, d, v);
    BytesPut(p, off, val);
    PokePage(m, v, 4 * off, Elf.WordBytes(val));
    PatchedIs(BytesOf(p), 4 * off, Elf.WordBytes(val));
  }

  lemma OldBytes(s: State, d: nat, v: nat)
    requires Inv(s) && d in s.dirs && Visible(s, d, v)
    ensures |Sees(s, d, v).page| == ENTRIES
    ensures CellIn(s, d, v).Filled? ==> CellIn(s, d, v).bytes == BytesOf(Sees(s, d, v).page)
    ensures CellIn(s, d, v).Lazy? ==> BytesOf(Sees(s, d, v).page) == Elf.Zeros(PAGE)
  {
    PageSize(s, d, v);
    ZeroBytes();
    if CellIn(s, d, v).Lazy? {
      var t := s.dirs[d][v / ENTRIES];
      EntryFacts(s, t, v % ENTRIES);
    }
  }

  lemma BytesPut(p: Page, off: nat, val: nat)
    requires |p| == ENTRIES && off < ENTRIES
    ensures BytesOf(p[off := val]) == BytesOf(p)[..4 * off] + Elf.WordBytes(val) + BytesOf(p)[4 * off + 4..]
  {
    var q: Page := p[off := val];
    var b := BytesOf(p)[..4 * off] + Elf.WordBytes(val) + BytesOf(p)[4 * off + 4..];
    forall k | 0 <= k < PAGE ensures BytesOf(q)[k] == b[k] {
      if 4 * off <= k < 4 * off + 4 { assert k / 4 == off && k % 4 == k - 4 * off; }
    }
  }

  function PageBytes(m: Elf.Memory, v: nat): seq<Elf.Byte>
    requires v in m
  {
    if m[v].Filled? then m[v].bytes else Elf.Zeros(PAGE)
  }

  // `bs` stored one by one from place `k` on.
  function Patched(was: seq<Elf.Byte>, k: nat, bs: seq<Elf.Byte>): (r: seq<Elf.Byte>)
    requires k + |bs| <= |was|
    ensures |r| == |was|
    decreases |bs|
  {
    if bs == [] then was else Patched(was, k, bs[..|bs| - 1])[k + |bs| - 1 := bs[|bs| - 1]]
  }

  lemma {:induction false} PatchedIs(was: seq<Elf.Byte>, k: nat, bs: seq<Elf.Byte>)
    requires k + |bs| <= |was|
    ensures Patched(was, k, bs) == was[..k] + bs + was[k + |bs|..]
    decreases |bs|
  {
    if bs != [] {
      PatchedIs(was, k, bs[..|bs| - 1]);
      Splice(was, k, bs);
    }
  }

  // The bytes that are stored within one page.
  lemma {:induction false} PokePage(m: Elf.Memory, v: nat, k: nat, bs: seq<Elf.Byte>)
    requires Elf.MemoryOk(m) && v in m && k + |bs| <= PAGE
    ensures Elf.Mapped(m, v * PAGE + k, |bs|) && |PageBytes(m, v)| == PAGE
    ensures Elf.PokeAll(m, v * PAGE + k, bs) ==
            if bs == [] then m else m[v := Elf.Filled(Patched(PageBytes(m, v), k, bs))]
    decreases |bs|
  {
    PlaceMapped(m, v, k, |bs|);
    if bs != [] {
      PokePage(m, v, k, bs[..|bs| - 1]);
      PokeLast(m, v * PAGE + k, bs);
      hide Elf.PokeAll, Elf.Poke, Elf.Mapped, Elf.Seen, Elf.Zeros, Elf.MemoryOk, PageBytes;
      PokeByte(Elf.PokeAll(m, v * PAGE + k, bs[..|bs| - 1]), v, k + |bs| - 1, bs[|bs| - 1]);
      Refilled(m, v, Patched(PageBytes(m, v), k, bs[..|bs| - 1]), Patched(PageBytes(m, v), k, bs));
    }
  }

  lemma PlaceMapped(m: Elf.Memory, v: nat, k: nat, n: nat)
    requires v in m && k + n <= PAGE
    ensures Elf.Mapped(m, v * PAGE + k, n)
  {
    PageOfPlace(v, k, n);
  }

  // A page that is filled twice.
  lemma Refilled(m: Elf.Memory, v: nat, b: seq<Elf.Byte>, c: seq<Elf.Byte>)
    ensures PageBytes(m[v := Elf.Filled(b)], v) == b
    ensures m[v := Elf.Filled(b)][v := Elf.Filled(c)] == m[v := Elf.Filled(c)]
  {
  }

  lemma PokeLast(m: Elf.Memory, a: nat, bs: seq<Elf.Byte>)
    requires Elf.MemoryOk(m) && Elf.Mapped(m, a, |bs|) && bs != []
    ensures var n := |bs| - 1;
      && Elf.Mapped(m, a, n) && (a + n) / PAGE in m && (n == 0 ==> Elf.PokeAll(m, a, bs[..n]) == m)
      && Elf.PokeAll(m, a, bs) == Elf.Poke(Elf.PokeAll(m, a, bs[..n]), a + n, bs[n])
  {
    hide Elf.Poke, Elf.Seen;
  }

  lemma PokeByte(m: Elf.Memory, v: nat, k: nat, b: Elf.Byte)
    requires Elf.MemoryOk(m) && v in m && k < PAGE
    ensures (v * PAGE + k) / PAGE == v && |PageBytes(m, v)| == PAGE
    ensures Elf.Poke(m, v * PAGE + k, b) == m[v := Elf.Filled(PageBytes(m, v)[k := b])]
  {
  }

  lemma Splice(was: seq<Elf.Byte>, k: nat, bs: seq<Elf.Byte>)
    requires bs != [] && k + |bs| <= |was|
    ensures var n := |bs| - 1;
      (was[..k] + bs[..n] + was[k + n..])[k + n := bs[n]] == was[..k] + bs + was[k + |bs|..]
      && was[..k] + bs[..0] + was[k..] == was
  {
  }

  lemma PageOfPlace(v: nat, k: nat, n: nat)
    requires k + n <= PAGE
    ensures forall x :: v * PAGE + k <= x < v * PAGE + k + n ==> x / PAGE == v && x % PAGE == x - v * PAGE
  {
  }

  // ---- runs of the loader ----

  // What the loader makes space `d` do.
  predicate LoaderEvent(e: Event, d: nat) {
    match e
    case Alloc(d', _, _, _) => d' == d
    case LazyAlloc(d', _, _, _, fill) => d' == d && fill
    case Write(d', _, _, _, _) => d' == d
    case _ => false
  }

  ghost function Mirror(m: Elf.Memory, e: Event, frames: nat -> seq<Elf.Byte>): (r: Elf.Memory)
    requires Elf.MemoryOk(m) && Elf.FramesOk(frames)
    ensures Elf.MemoryOk(r)
  {
    match e
    case Alloc(_, v, _, _) => Elf.AllocPage(m, v, frames)
    case LazyAlloc(_, v, _, _, _) => Elf.LazyPage(m, v)
    case Write(_, v, off, val, _) =>
      if v in m && off < ENTRIES then
        PageOfPlace(v, 4 * off, 4);
        Elf.PokeAll(m, v * PAGE + 4 * off, Elf.WordBytes(val))
      else m
    case _ => m
  }

  ghost function MirrorAll(m: Elf.Memory, events: seq<Event>, frames: nat -> seq<Elf.Byte>): (r: Elf.Memory)
    requires Elf.MemoryOk(m) && Elf.FramesOk(frames)
    ensures Elf.MemoryOk(r)
  {
    if events == [] then m else Mirror(MirrorAll(m, events[..|events| - 1], frames), events[|events| - 1], frames)
  }

  // A page with contents keeps having some.
  lemma MirrorFills(m: Elf.Memory, e: Event, frames: nat -> seq<Elf.Byte>, v: nat)
    requires Elf.MemoryOk(m) && Elf.FramesOk(frames)
    ensures v in m && m[v].Filled? ==> v in Mirror(m, e, frames) && Mirror(m, e, frames)[v].Filled?
    ensures e.Alloc? && e.v == v ==> v in Mirror(m, e, frames) && Mirror(m, e, frames)[v].Filled?
  {
    if e.Write? && e.v in m && e.off < ENTRIES { PokePage(m, e.v, 4 * e.off, Elf.WordBytes(e.val)); }
    hide Elf.PokeAll, Elf.Zeros;
  }

  // What a frame held matters only once its page has contents.
  lemma {:induction false} MirrorFrames(m: Elf.Memory, events: seq<Event>, f: nat -> seq<Elf.Byte>,
          g: nat -> seq<Elf.Byte>, v: nat)
    requires Elf.MemoryOk(m) && Elf.FramesOk(f) && Elf.FramesOk(g) && forall p :: p != v ==> f(p) == g(p)
    requires var r := MirrorAll(m, events, f); v in r ==> !r[v].Filled?
    ensures MirrorAll(m, events, f) == MirrorAll(m, events, g)
    decreases |events|
  {
    hide Elf.PokeAll, Elf.FramesOk, Elf.MemoryOk, Elf.Mapped;
    if events != [] {
      var before, e := events[..|events| - 1], events[|events| - 1];
      MirrorFills(MirrorAll(m, before, f), e, f, v);
      MirrorFrames(m, before, f, g, v);
    }
  }

  // No word is written to a page that is pending without zero filling at that moment.
  ghost predicate WritesDefined(s0: State, events: seq<Event>, d: nat)
    requires Inv(s0) && Run(s0, events).Some?
    decreases |events|
  {
    events == []
    || (var before, e := events[..|events| - 1], events[|events| - 1];
        && WritesDefined(s0, before, d)
        && (e.Write? && e.v < ENTRIES * ENTRIES && d in Run(s0, before).value.dirs ==>
              Sees(Run(s0, before).value, d, e.v) != Undefined))
  }

  // After each of the events the memory of the space is what the loader's model of it is.
  ghost predicate Matches(s0: State, events: seq<Event>, d: nat, frames: nat -> seq<Elf.Byte>)
    requires Inv(s0) && d in s0.dirs && Run(s0, events).Some? && Elf.FramesOk(frames)
    decreases |events|
  {
    && d in Run(s0, events).value.dirs
    && MemoryOf(Run(s0, events).value, d) == MirrorAll(MemoryOf(s0, d), events, frames)
    && (events != [] ==> Matches(s0, events[..|events| - 1], d, frames))
  }

  lemma {:induction false} MatchesFrames(s0: State, events: seq<Event>, d: nat, f: nat -> seq<Elf.Byte>,
          g: nat -> seq<Elf.Byte>, v: nat)
    requires Inv(s0) && d in s0.dirs && Run(s0, events).Some? && Elf.FramesOk(f) && Elf.FramesOk(g)
    requires Matches(s0, events, d, f) && forall p :: p != v ==> f(p) == g(p)
    requires var r := MirrorAll(MemoryOf(s0, d), events, f); v in r ==> !r[v].Filled?
    ensures Matches(s0, events, d, g)
    decreases |events|
  {
    hide Inv, Step, MemoryOf, Mirror, Elf.FramesOk, Elf.MemoryOk;
    MirrorFrames(MemoryOf(s0, d), events, f, g, v);
    if events != [] {
      var before := events[..|events| - 1];
      MirrorFills(MirrorAll(MemoryOf(s0, d), before, f), events[|events| - 1], f, v);
      MatchesFrames(s0, before, d, f, g, v);
    }
  }

  // Over a run of what the loader does, the memory of the space goes through what the loader's model
  // of it goes through, for some old contents of the frames.
  lemma {:induction false} LoaderRun(s0: State, events: seq<Event>, d: nat) returns (frames: nat -> seq<Elf.Byte>)
    requires Inv(s0) && Run(s0, events).Some? && d in s0.dirs
    requires (forall e :: e in events ==> LoaderEvent(e, d)) && WritesDefined(s0, events, d)
    ensures Elf.FramesOk(frames) && Matches(s0, events, d, frames)
    decreases |events|
  {
    hide Inv, Step, MemoryOf, Mirror;
    if events == [] {
      frames := _ => Elf.Zeros(PAGE);
    } else {
      var before, e := events[..|events| - 1], events[|events| - 1];
      assert e in events;
      var f := LoaderRun(s0, before, d);
      var s := Run(s0, before).value;
      StepInv(s, e);
      frames := LoaderFrames(s, e, d, f);
      LoaderStep(s, e, d, frames);
      if frames != f { MatchesFrames(s0, before, d, f, frames, e.v); }
    }
  }

  // Writing to a page that is pending without zero filling is the only thing that the model misses.
  lemma {:induction false} MatchedRun(s0: State, events: seq<Event>, d: nat, frames: nat -> seq<Elf.Byte>)
    requires Inv(s0) && Run(s0, events).Some? && d in s0.dirs && (forall e :: e in events ==> LoaderEvent(e, d))
    requires Elf.FramesOk(frames) && Matches(s0, events, d, frames)
    ensures WritesDefined(s0, events, d)
    decreases |events|
  {
    hide Inv, Step, MemoryOf, Mirror, Sees;
    if events != [] {
      var before, e := events[..|events| - 1], events[|events| - 1];
      assert e in events;
      MatchedRun(s0, before, d, frames);
      var s := Run(s0, before).value;
      if e.Write? && e.v < ENTRIES * ENTRIES && d in s.dirs && Sees(s, d, e.v) == Undefined {
        MissedWrite(s, e, d, frames);
        assert false;
      }
    }
  }

  lemma MissedWrite(s: State, e: Event, d: nat, frames: nat -> seq<Elf.Byte>)
    requires Inv(s) && d in s.dirs && LoaderEvent(e, d) && e.Write? && Step(s, e).Some? && Elf.FramesOk(frames)
    requires e.v < ENTRIES * ENTRIES && Sees(s, d, e.v) == Undefined
    ensures Inv(Step(s, e).value) && d in Step(s, e).value.dirs
    ensures MemoryOf(Step(s, e).value, d) != Mirror(MemoryOf(s, d), e, frames)
  {
    hide Inv, WriteStep, Sees, FrameOf, Changed, Elf.PokeAll;
    var v, off, val := e.v, e.off, e.val;
    WriteChanged(s, d, v, off, val, e.byUser);
    var s' := Step(s, e).value;
    var p: Page :| Written(s, s', d, v, off, val, p);
    ChangedMemory(s, s', d, v, Spot(Known(p[off := val]), true), d);
    assert v !in MemoryOf(s, d) && v in MemoryOf(s', d);
  }

  // It is enough that the pages written to are not pending that way at first.
  lemma {:induction false} DefinedFromStart(s0: State, events: seq<Event>, d: nat)
    requires Inv(s0) && Run(s0, events).Some? && d in s0.dirs
    requires forall e :: e in events ==>
      LoaderEvent(e, d) && (e.Write? && e.v < ENTRIES * ENTRIES ==> Sees(s0, d, e.v) != Undefined)
    ensures WritesDefined(s0, events, d)
    decreases |events|
  {
    hide Inv, Step, Sees;
    if events != [] {
      var before, e := events[..|events| - 1], events[|events| - 1];
      assert e in events;
      DefinedFromStart(s0, before, d);
      if e.Write? && e.v < ENTRIES * ENTRIES { StaysDefined(s0, before, d, e.v); }
    }
  }

  lemma {:induction false} StaysDefined(s0: State, events: seq<Event>, d: nat, v: nat)
    requires Inv(s0) && Run(s0, events).Some? && d in s0.dirs && v < ENTRIES * ENTRIES
    requires (forall e :: e in events ==> LoaderEvent(e, d)) && Sees(s0, d, v) != Undefined
    ensures d in Run(s0, events).value.dirs && Sees(Run(s0, events).value, d, v) != Undefined
    decreases |events|
  {
    hide Inv, Step, Sees;
    if events != [] {
      var before, e := events[..|events| - 1], events[|events| - 1];
      assert e in events;
      StaysDefined(s0, before, d, v);
      StepDefines(Run(s0, before).value, e, d, v);
    }
  }

  // What the loader does leaves no page pending that was not, and makes pages known.
  lemma StepDefines(s: State, e: Event, d: nat, v: nat)
    requires Inv(s) && d in s.dirs && LoaderEvent(e, d) && Step(s, e).Some? && v < ENTRIES * ENTRIES
    ensures Inv(Step(s, e).value) && d in Step(s, e).value.dirs
    ensures Sees(s, d, v) != Undefined ==> Sees(Step(s, e).value, d, v) != Undefined
    ensures Sees(s, d, v).Known? ==> Sees(Step(s, e).value, d, v).Known?
    ensures v == e.v ==> Sees(Step(s, e).value, d, v).Known?
  {
    hide Inv, AllocStep, LazyAllocStep, WriteStep, Sees, FrameOf, Changed;
    var s' := Step(s, e).value;
    match e
    case Alloc(_, u, user, rw) =>
      AllocChanged(s, d, u, user, rw);
      ChangedSees(s, s', d, u, SpotOf(s', d, u), d, v);
    case LazyAlloc(_, u, user, rw, fill) =>
      LazyAllocChanged(s, d, u, user, rw, true);
      ChangedSees(s, s', d, u, Spot(Known(ZeroPage()), FrameOf(s, d, u) != 0), d, v);
    case Write(_, u, off, val, byUser) =>
      WriteChanged(s, d, u, off, val, byUser);
      var p: Page :| Written(s, s', d, u, off, val, p);
      ChangedSees(s, s', d, u, Spot(Known(p[off := val]), true), d, v);
  }

  // The contents that an `alloc` finds in the frame it takes.
  lemma LoaderFrames(s: State, e: Event, d: nat, f: nat -> seq<Elf.Byte>) returns (frames: nat -> seq<Elf.Byte>)
    requires Inv(s) && d in s.dirs && LoaderEvent(e, d) && Step(s, e).Some? && Inv(Step(s, e).value) && Elf.FramesOk(f)
    ensures Elf.FramesOk(frames) && forall p :: p != e.v ==> frames(p) == f(p)
    ensures e.v in MemoryOf(s, d) && MemoryOf(s, d)[e.v].Filled? ==> frames == f
    ensures frames != f ==> e.Alloc?
    ensures d in Step(s, e).value.dirs && (e.Alloc? ==> FrameFound(s, Step(s, e).value, d, e.v, frames))
  {
    hide Inv, AllocStep, Sees, FrameOf;
    StepInv(s, e);
    frames := f;
    if e.Alloc? && !(e.v in MemoryOf(s, d) && MemoryOf(s, d)[e.v].Filled?) {
      var s' := Step(s, e).value;
      AllocChanged(s, d, e.v, e.user, e.rw);
      PageSize(s', d, e.v);
      var v, bytes := e.v, BytesOf(Sees(s', d, e.v).page);
      frames := p => if p == v then bytes else f(p);
    }
  }

  lemma LoaderStep(s: State, e: Event, d: nat, frames: nat -> seq<Elf.Byte>)
    requires Inv(s) && d in s.dirs && LoaderEvent(e, d) && Step(s, e).Some? && Inv(Step(s, e).value)
    requires Elf.FramesOk(frames) && d in Step(s, e).value.dirs
    requires e.Write? && e.v < ENTRIES * ENTRIES ==> Sees(s, d, e.v) != Undefined
    requires e.Alloc? ==> FrameFound(s, Step(s, e).value, d, e.v, frames)
    ensures MemoryOf(Step(s, e).value, d) == Mirror(MemoryOf(s, d), e, frames)
  {
    hide Inv, AllocStep, LazyAllocStep, WriteStep, Sees, FrameOf, MemoryOf, FrameFound, Changed;
    hide Elf.PokeAll, Elf.AllocPage, Elf.LazyPage, Elf.Mapped, Elf.MemoryOk;
    match e
    case Alloc(_, v, user, rw) =>
      AllocIsAllocPage(s, d, v, user, rw, frames);
    case LazyAlloc(_, v, user, rw, fill) =>
      LazyAllocIsLazyPage(s, d, v, user, rw);
    case Write(_, v, off, val, byUser) =>
      WriteChanged(s, d, v, off, val, byUser);
      var p: Page :| Written(s, Step(s, e).value, d, v, off, val, p);
      InMemory(s, d, v);
      WriteIsPoke(s, d, v, off, val, byUser);
  }

  lemma InMemory(s: State, d: nat, v: nat)
    requires Inv(s) && d in s.dirs
    ensures v in MemoryOf(s, d) <==> Visible(s, d, v)
  {
  }

  // ---- the pages behind the kernel heap ----

  function BackingOf(e: Entry): HeapMemory.Backing {
    HeapMemory.Backing(e.allocable, e.present)
  }

  // What the heap's page operations do to the two flags is what the entry operations do; a supervisor
  // access to a page that is not there goes on exactly when the page is allocable and a frame is left.
  lemma EntryBacking(s: State, t: nat, i: nat, user: bool, rw: bool, write: bool)
    requires Inv(s) && HasEntry(s, t, i) && t !in s.boot
    ensures var e := EntryAt(s, t, i);
      && (e.present ==> e.allocable) && (e.addr != 0 <==> e.present)
      && HasEntry(LazyAllocAt(s, t, i, user, rw, false), t, i)
      && BackingOf(EntryAt(LazyAllocAt(s, t, i, user, rw, false), t, i)) == BackingOf(e).(allocable := true)
      && (e.addr != 0 ==> e.addr in s.refCnt && s.refCnt[e.addr] > 0) && HasEntry(FreeAt(s, t, i), t, i)
      && BackingOf(EntryAt(FreeAt(s, t, i), t, i)) == HeapMemory.Unmap(BackingOf(e))
      && (!e.present ==> (FaultAt(s, t, i, write, false).Refused? <==> !e.allocable))
      && (!e.present ==> (FaultAt(s, t, i, write, false).Resolved? <==> e.allocable && s.frames != []))
      && (FaultAt(s, t, i, write, false).Resolved? ==>
            HasEntry(FaultAt(s, t, i, write, false).state, t, i)
            && BackingOf(EntryAt(FaultAt(s, t, i, write, false).state, t, i)) == HeapMemory.Backing(true, true))
  {
    hide CountsOk, StackOk, EntriesOk, Exclusive, FixedOnce, DirsOk, FaultAt;
    EntryFacts(s, t, i);
    FaultFlags(s, t, i, write);
  }

  lemma FaultFlags(s: State, t: nat, i: nat, write: bool)
    requires Inv(s) && HasEntry(s, t, i) && t !in s.boot
    ensures var e, r := EntryAt(s, t, i), FaultAt(s, t, i, write, false);
      && (!e.present ==> (r.Refused? <==> !e.allocable) && (r.Resolved? <==> e.allocable && s.frames != []))
      && (r.Resolved? ==> HasEntry(r.state, t, i) && EntryAt(r.state, t, i).allocable && EntryAt(r.state, t, i).present)
  {
    hide CountsOk, StackOk, EntriesOk, Exclusive, FixedOnce, DirsOk;
    EntryFacts(s, t, i);
    if FaultAt(s, t, i, write, false).Resolved? { FaultEffect(s, t, i, write, false); }
  }
}
