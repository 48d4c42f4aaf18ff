/** Runs of paging steps refine one independent map of page contents per address space. */
module PageRuns {
  import opened Common
  import opened PageState
  import opened PageSteps
  import opened PageFaults
  import opened PageClone

  datatype Event =
    | Fork(src: nat, cur: nat, child: nat)
    | Read(d: nat, v: nat, byUser: bool)
    | Write(d: nat, v: nat, off: nat, val: nat, byUser: bool)
    | LazyAlloc(d: nat, v: nat, user: bool, rw: bool, fill: bool)
    | Alloc(d: nat, v: nat, user: bool, rw: bool)
    | Free(d: nat, v: nat)

  // ---- steps; none when the code panics or the step's precondition fails ----

  ghost function TableOf(s: State, d: nat, v: nat): nat
    requires HasPage(s, d, v)
  {
    s.dirs[d][v / ENTRIES]
  }

  ghost function AccessStep(s: State, d: nat, v: nat, write: bool, byUser: bool): (r: Option<State>)
    requires Inv(s)
  {
    if v < ENTRIES * ENTRIES && HasPage(s, d, v) && AccessAt(s, TableOf(s, d, v), v % ENTRIES, write, byUser).Resolved?
    then Some(AccessAt(s, TableOf(s, d, v), v % ENTRIES, write, byUser).state) else None
  }

  ghost function WriteStep(s: State, d: nat, v: nat, off: nat, val: nat, byUser: bool): (r: Option<State>)
    requires Inv(s)
  {
    if v < ENTRIES * ENTRIES && off < ENTRIES && HasPage(s, d, v) && AccessStep(s, d, v, true, byUser).Some? then
      var t, i, s1 := TableOf(s, d, v), v % ENTRIES, AccessStep(s, d, v, true, byUser).value;
      AccessEffect(s, t, i, true, byUser);
      StoreEffect(s1, t, i, off, val);
      Some(StoreAt(s1, t, i, off, val))
    else None
  }

  // Nobody else is on the frame of entry (t, i), or the step leaves its contents and rights alone.
  predicate Alone(s: State, t: nat, i: nat, harmless: bool)
    requires HasEntry(s, t, i)
  {
    t !in s.boot && (EntryAt(s, t, i).addr == 0 || Count(s, EntryAt(s, t, i).addr) == 1 || harmless)
  }

  ghost function LazyAllocStep(s: State, d: nat, v: nat, user: bool, rw: bool, fill: bool): (r: Option<State>)
    requires Inv(s)
  {
    if v < ENTRIES * ENTRIES && d in s.dirs then
      MakeEffect(s, d, v / ENTRIES);
      var s1, i := MakeTable(s, d, v / ENTRIES), v % ENTRIES;
      var t := s1.dirs[d][v / ENTRIES];
      if Alone(s1, t, i, !rw && !fill) then Some(LazyAllocAt(s1, t, i, user, rw, fill)) else None
    else None
  }

  ghost function AllocStep(s: State, d: nat, v: nat, user: bool, rw: bool): (r: Option<State>)
    requires Inv(s)
  {
    if v < ENTRIES * ENTRIES && d in s.dirs then
      MakeEffect(s, d, v / ENTRIES);
      var s1, i := MakeTable(s, d, v / ENTRIES), v % ENTRIES;
      var t := s1.dirs[d][v / ENTRIES];
      if Alone(s1, t, i, !rw) then AllocAt(s1, t, i, user, rw) else None
    else None
  }

  ghost function FreeStep(s: State, d: nat, v: nat): (r: Option<State>)
    requires Inv(s)
  {
    if v < ENTRIES * ENTRIES && HasPage(s, d, v)
       && EntryAt(s, TableOf(s, d, v), v % ENTRIES).present && EntryAt(s, TableOf(s, d, v), v % ENTRIES).allocable then
      var t, i := TableOf(s, d, v), v % ENTRIES;
      EntryFacts(s, t, i);
      Some(FreeAt(s, t, i))
    else None
  }

  ghost function ForkStep(s: State, src: nat, cur: nat, child: nat): (r: Option<State>)
    requires Inv(s)
  {
    if src in s.dirs && cur in s.dirs && child == s.next && FrameOf(s, cur, STACK_PAGE) != 0 then ForkAt(s, src, cur)
        else None
  }

  ghost function Step(s: State, e: Event): Option<State>
    requires Inv(s)
  {
    match e
    case Fork(src, cur, child) => ForkStep(s, src, cur, child)
    case Read(d, v, byUser) => AccessStep(s, d, v, false, byUser)
    case Write(d, v, off, val, byUser) => WriteStep(s, d, v, off, val, byUser)
    case LazyAlloc(d, v, user, rw, fill) => LazyAllocStep(s, d, v, user, rw, fill)
    case Alloc(d, v, user, rw) => AllocStep(s, d, v, user, rw)
    case Free(d, v) => FreeStep(s, d, v)
  }

  // ---- what one step does to every address space ----

  // What a place shows, and whether it has a frame.
  datatype Spot = Spot(view: View, mapped: bool)

  ghost function SpotOf(s: State, d: nat, v: nat): Spot
    requires Inv(s) && d in s.dirs && v < ENTRIES * ENTRIES
  {
    Spot(Sees(s, d, v), FrameOf(s, d, v) != 0)
  }

  // Only the places that are page `v` of `d` changed, and they are `now`.
  ghost predicate Changed(s: State, s': State, d: nat, v: nat, now: Spot)
    requires Inv(s)
  {
    && Inv(s') && s'.dirs.Keys == s.dirs.Keys && s'.low == s.low && s'.managed == s.managed && d in s.dirs
    && v < ENTRIES * ENTRIES
    && forall d', v' :: d' in s.dirs && 0 <= v' < ENTRIES * ENTRIES ==>
        SpotOf(s', d', v') == if Aliased(s.low, d, v, d', v') then now else SpotOf(s, d', v')
  }

  // The same entry, now with a frame or without.
  lemma LocalFrame(s: State, s': State, d: nat, v: nat, d': nat, v': nat)
    requires Inv(s) && Inv(s') && v < ENTRIES * ENTRIES && v' < ENTRIES * ENTRIES && HasPage(s, d, v) && d' in s.dirs
    requires Local(s, s', s.dirs[d][v / ENTRIES], v % ENTRIES)
    ensures d' in s'.dirs && HasEntry(s', TableOf(s, d, v), v % ENTRIES)
    ensures FrameOf(s', d', v') ==
      if Aliased(s.low, d, v, d', v') then EntryAt(s', TableOf(s, d, v), v % ENTRIES).addr else FrameOf(s, d', v')
  {
    var t, i := TableOf(s, d, v), v % ENTRIES;
    if Aliased(s.low, d, v, d', v') {
      assert s.dirs[d'][v / ENTRIES] == s.dirs[d][v / ENTRIES];
    } else if Through(s, d', v', t, i) {
      ThroughOnce(s, d, v, d', v', t, i);
    }
  }

  lemma LocalChanged(s: State, s': State, d: nat, v: nat)
    requires Inv(s) && Inv(s') && v < ENTRIES * ENTRIES && HasPage(s, d, v)
    requires Local(s, s', s.dirs[d][v / ENTRIES], v % ENTRIES)
    ensures HasPage(s', d, v) && TableOf(s', d, v) == TableOf(s, d, v)
    ensures Changed(s, s', d, v, SpotAt(s', TableOf(s, d, v), v % ENTRIES))
    ensures SpotOf(s, d, v) == SpotAt(s, TableOf(s, d, v), v % ENTRIES)
    ensures SpotOf(s', d, v) == SpotAt(s', TableOf(s, d, v), v % ENTRIES)
  {
    hide CountsOk, StackOk, EntriesOk, Exclusive, FixedOnce, DirsOk, EntryOk;
    LocalEffect(s, s', d, v, d, v);
    LocalFrame(s, s', d, v, d, v);
    SeesShows(s, d, v);
    forall d', v' | d' in s.dirs && 0 <= v' < ENTRIES * ENTRIES
      ensures d' in s'.dirs && SpotOf(s', d', v') ==
        if Aliased(s.low, d, v, d', v') then SpotAt(s', TableOf(s, d, v), v % ENTRIES) else SpotOf(s, d', v')
    {
      LocalEffect(s, s', d, v, d', v');
      LocalFrame(s, s', d, v, d', v');
    }
  }

  ghost function SpotAt(s: State, t: nat, i: nat): Spot
    requires Inv(s) && HasEntry(s, t, i)
  {
    Spot(Shows(s, t, i), EntryAt(s, t, i).addr != 0)
  }

  lemma AccessChanged(s: State, d: nat, v: nat, write: bool, byUser: bool)
    requires Inv(s) && AccessStep(s, d, v, write, byUser).Some?
    ensures d in s.dirs && v < ENTRIES * ENTRIES
    ensures var s' := AccessStep(s, d, v, write, byUser).value;
      && Inv(s') && d in s'.dirs && HasPage(s', d, v) && TableOf(s', d, v) == TableOf(s, d, v)
      && Permitted(EntryAt(s', TableOf(s, d, v), v % ENTRIES), write, byUser)
      && Sees(s', d, v).Known? && Grows(Sees(s, d, v), Sees(s', d, v)) && FrameOf(s', d, v) != 0
      && Changed(s, s', d, v, SpotOf(s', d, v))
  {
    hide CountsOk, StackOk, EntriesOk, Exclusive, FixedOnce, DirsOk, EntryOk, Local;
    var t, i := TableOf(s, d, v), v % ENTRIES;
    AccessEffect(s, t, i, write, byUser);
    LocalChanged(s, AccessStep(s, d, v, write, byUser).value, d, v);
  }

  lemma PageSize(s: State, d: nat, v: nat)
    requires Inv(s) && d in s.dirs && v < ENTRIES * ENTRIES
    ensures Sees(s, d, v).Known? ==> |Sees(s, d, v).page| == ENTRIES
  {
  }

  // One word of the page changed; the rest of it is as before, or was undefined before.
  ghost predicate Written(s: State, s': State, d: nat, v: nat, off: nat, val: nat, p: Page)
    requires Inv(s) && d in s.dirs && v < ENTRIES * ENTRIES && off < ENTRIES
  {
    |p| == ENTRIES && Grows(Sees(s, d, v), Known(p)) && Changed(s, s', d, v, Spot(Known(p[off := val]), true))
  }

  // A write changes one word of its page, in the writer's space only unless the slot is shared.
  lemma WriteChanged(s: State, d: nat, v: nat, off: nat, val: nat, byUser: bool)
    requires Inv(s) && WriteStep(s, d, v, off, val, byUser).Some?
    ensures d in s.dirs && v < ENTRIES * ENTRIES && off < ENTRIES
    ensures exists p: Page :: Written(s, WriteStep(s, d, v, off, val, byUser).value, d, v, off, val, p)
  {
    hide CountsOk, StackOk, EntriesOk, Exclusive, FixedOnce, DirsOk, EntryOk, Local;
    var s1, s' := AccessStep(s, d, v, true, byUser).value, WriteStep(s, d, v, off, val, byUser).value;
    var t, i := TableOf(s, d, v), v % ENTRIES;
    AccessChanged(s, d, v, true, byUser);
    StoreEffect(s1, t, i, off, val);
    LocalChanged(s1, s', d, v);
    PageSize(s1, d, v);
    var p := Sees(s1, d, v).page;
    assert Shows(s', t, i) == Known(p[off := val]);
    assert Written(s, s', d, v, off, val, p);
  }

  // ---- allocation and release ----

  function AfterLazy(before: View, mapped: bool, fill: bool): View {
    if fill then Known(ZeroPage()) else if mapped then before else Undefined
  }

  lemma MadePage(s: State, d: nat, v: nat)
    requires Inv(s) && d in s.dirs && v < ENTRIES * ENTRIES
    ensures var s1 := MakeTable(s, d, v / ENTRIES);
      Inv(s1) && HasPage(s1, d, v) && s1.dirs.Keys == s.dirs.Keys && s1.low == s.low && s1.managed == s.managed
    ensures forall d', v' :: d' in s.dirs && 0 <= v' < ENTRIES * ENTRIES ==>
      SpotOf(MakeTable(s, d, v / ENTRIES), d', v') == SpotOf(s, d', v')
  {
    hide Sees, CountsOk, StackOk, EntriesOk, Exclusive, FixedOnce;
    MakeEffect(s, d, v / ENTRIES);
    forall d', v' | d' in s.dirs && 0 <= v' < ENTRIES * ENTRIES
      ensures SpotOf(MakeTable(s, d, v / ENTRIES), d', v') == SpotOf(s, d', v')
    {
      MadeFrames(s, d, v / ENTRIES, d', v');
    }
  }

  lemma ChangedAfter(s: State, s1: State, s': State, d: nat, v: nat, now: Spot)
    requires Inv(s) && Inv(s1) && s1.dirs.Keys == s.dirs.Keys && s1.low == s.low && s1.managed == s.managed
    requires Changed(s1, s', d, v, now)
    requires forall d', v' :: d' in s.dirs && 0 <= v' < ENTRIES * ENTRIES ==> SpotOf(s1, d', v') == SpotOf(s, d', v')
    ensures Changed(s, s', d, v, now)
  {
  }

  lemma LazyAllocLocal(s: State, t: nat, i: nat, user: bool, rw: bool, fill: bool)
    requires Inv(s) && HasEntry(s, t, i) && Alone(s, t, i, !rw && !fill)
    ensures var s', e := LazyAllocAt(s, t, i, user, rw, fill), EntryAt(s, t, i);
      Inv(s') && Local(s, s', t, i) && HasEntry(s', t, i)
          && Shows(s', t, i) == AfterLazy(Shows(s, t, i), e.addr != 0, fill)
      && EntryAt(s', t, i).addr == e.addr
  {
    hide CountsOk, StackOk, EntriesOk, Exclusive, FixedOnce, DirsOk, Local;
    EntryFacts(s, t, i);
    var e := EntryAt(s, t, i).(rw := rw, user := user);
    LazyAllocInv(s, t, i, user, rw, fill);
    var s' := LazyAllocAt(s, t, i, user, rw, fill);
    EntryFacts(s', t, i);
    if e.addr == 0 {
      FlagsLocal(s, t, i, e.(allocable := true, fill := fill));
    } else {
      FlagsLocal(s, t, i, e);
      if fill {
        var s1 := Put(s, t, i, e);
        FlagsInv(s, t, i, e);
        OverwriteLocal(s1, t, i, ZeroPage());
        LocalTrans(s, s1, s', t, i);
      }
    }
  }

  lemma LazyAllocChanged(s: State, d: nat, v: nat, user: bool, rw: bool, fill: bool)
    requires Inv(s) && LazyAllocStep(s, d, v, user, rw, fill).Some?
    ensures d in s.dirs && v < ENTRIES * ENTRIES
    ensures Changed(s, LazyAllocStep(s, d, v, user, rw, fill).value, d, v,
              Spot(AfterLazy(Sees(s, d, v), FrameOf(s, d, v) != 0, fill), FrameOf(s, d, v) != 0))
  {
    hide CountsOk, StackOk, EntriesOk, Exclusive, FixedOnce, DirsOk, EntryOk, Local;
    MadePage(s, d, v);
    var s1, i := MakeTable(s, d, v / ENTRIES), v % ENTRIES;
    var t := s1.dirs[d][v / ENTRIES];
    LazyAllocLocal(s1, t, i, user, rw, fill);
    LocalChanged(s1, LazyAllocAt(s1, t, i, user, rw, fill), d, v);
    assert SpotOf(s1, d, v) == SpotOf(s, d, v);
    ChangedAfter(s, s1, LazyAllocAt(s1, t, i, user, rw, fill), d, v,
                 Spot(AfterLazy(Sees(s, d, v), FrameOf(s, d, v) != 0, fill), FrameOf(s, d, v) != 0));
  }

  // `alloc` does not honour a pending fill: an unmapped page shows whatever its frame holds.
  lemma AllocLocal(s: State, t: nat, i: nat, user: bool, rw: bool)
    requires Inv(s) && HasEntry(s, t, i) && Alone(s, t, i, !rw) && AllocAt(s, t, i, user, rw).Some?
    ensures var s' := AllocAt(s, t, i, user, rw).value;
      && Inv(s') && Local(s, s', t, i) && HasEntry(s', t, i) && Shows(s', t, i).Known? && EntryAt(s', t, i).addr != 0
      && (EntryAt(s, t, i).addr != 0 ==> Shows(s', t, i) == Shows(s, t, i))
  {
    hide CountsOk, StackOk, EntriesOk, Exclusive, FixedOnce, DirsOk, Local;
    EntryFacts(s, t, i);
    if EntryAt(s, t, i).addr == 0 {
      AllocFreshFacts(s, t, i, user, rw);
    } else {
      NotBoot(s, t, i);
      AllocMappedInv(s, t, i, user, rw);
      FlagsLocal(s, t, i, EntryAt(s, t, i).(rw := rw, user := user));
    }
    EntryFacts(AllocAt(s, t, i, user, rw).value, t, i);
  }

  lemma NotBoot(s: State, t: nat, i: nat)
    requires Inv(s) && HasEntry(s, t, i) && t !in s.boot && EntryAt(s, t, i).addr != 0
    ensures EntryAt(s, t, i).addr in s.managed
  {
    assert EntryOk(s, t, s.tables[t][i]);
  }

  lemma AllocChanged(s: State, d: nat, v: nat, user: bool, rw: bool)
    requires Inv(s) && AllocStep(s, d, v, user, rw).Some?
    ensures d in s.dirs && v < ENTRIES * ENTRIES
    ensures var s' := AllocStep(s, d, v, user, rw).value;
      && Inv(s') && d in s'.dirs && Sees(s', d, v).Known? && FrameOf(s', d, v) != 0
      && Changed(s, s', d, v, SpotOf(s', d, v))
      && (FrameOf(s, d, v) != 0 ==> Sees(s', d, v) == Sees(s, d, v))
  {
    hide CountsOk, StackOk, EntriesOk, Exclusive, FixedOnce, DirsOk, EntryOk, Local;
    MadePage(s, d, v);
    var s1, i := MakeTable(s, d, v / ENTRIES), v % ENTRIES;
    var t := s1.dirs[d][v / ENTRIES];
    AllocLocal(s1, t, i, user, rw);
    var s' := AllocAt(s1, t, i, user, rw).value;
    LocalChanged(s1, s', d, v);
    assert SpotOf(s1, d, v) == SpotOf(s, d, v);
    ChangedAfter(s, s1, s', d, v, SpotAt(s', t, i));
  }

  lemma FreeChanged(s: State, d: nat, v: nat)
    requires Inv(s) && FreeStep(s, d, v).Some?
    ensures d in s.dirs && v < ENTRIES * ENTRIES && Changed(s, FreeStep(s, d, v).value, d, v, Spot(NoAccess, false))
  {
    hide CountsOk, StackOk, EntriesOk, Exclusive, FixedOnce, DirsOk, Local;
    var t, i := TableOf(s, d, v), v % ENTRIES;
    EntryFacts(s, t, i);
    FreeInv(s, t, i);
    FreeLocal(s, t, i);
    LocalChanged(s, FreeAt(s, t, i), d, v);
    EntryFacts(FreeAt(s, t, i), t, i);
  }

  // ---- runs ----

  // The state after `events`, none when one of them could not be taken.
  ghost function Run(s: State, events: seq<Event>): (r: Option<State>)
    requires Inv(s)
    ensures r.Some? ==> Inv(r.value)
  {
    if events == [] then Some(s)
    else
      match Run(s, events[..|events| - 1])
      case None => None
      case Some(s1) => StepInv(s1, events[|events| - 1]); Step(s1, events[|events| - 1])
  }

  lemma StepInv(s: State, e: Event)
    requires Inv(s)
    ensures Step(s, e).Some? ==>
      var s' := Step(s, e).value;
      && Inv(s') && s'.low == s.low && s'.managed == s.managed && s.dirs.Keys <= s'.dirs.Keys
      && (e.Fork? ==> e.child !in s.dirs)
  {
    hide Inv, Sees;
    if Step(s, e).Some? {
      match e
      case Fork(src, cur, child) => ForkEffect(s, src, cur);
      case Read(d, v, byUser) => AccessChanged(s, d, v, false, byUser);
      case Write(d, v, off, val, byUser) => WriteChanged(s, d, v, off, val, byUser);
      case LazyAlloc(d, v, user, rw, fill) => LazyAllocChanged(s, d, v, user, rw, fill);
      case Alloc(d, v, user, rw) => AllocChanged(s, d, v, user, rw);
      case Free(d, v) => FreeChanged(s, d, v);
    }
  }

  // ---- the simple machine: a word for each offset of each page of each space ----

  datatype Word = NoPage | Unknown | Is(val: nat)

  function Word0(view: View, off: nat): Word
    requires view.Known? ==> off < |view.page|
  {
    match view
    case NoAccess => NoPage
    case Undefined => Unknown
    case Known(p) => Is(p[off])
  }

  // What space `d` really finds at word `off` of page `v`.
  ghost function WordAt(s: State, d: nat, v: nat, off: nat): Word
    requires Inv(s) && v < ENTRIES * ENTRIES && off < ENTRIES
  {
    if d !in s.dirs then NoPage else PageSize(s, d, v); Word0(Sees(s, d, v), off)
  }

  ghost function CellAt(s: State, d: nat, v: nat, off: nat): Cell
    requires Inv(s) && v < ENTRIES * ENTRIES && off < ENTRIES
  {
    Cell(d in s.dirs && FrameOf(s, d, v) != 0, WordAt(s, d, v, off))
  }

  // A word of the simple machine, and whether its page is mapped.
  datatype Cell = Cell(mapped: bool, word: Word)

  // What an event makes of a cell: it is that of space `d`, mapped from now on if `maps`, or a new
  // one, or what allocation without a frame and with one makes of it.
  datatype Origin = From(d: nat, maps: bool) | Fixed(cell: Cell) | Lazily(fill: bool) | Given

  // A fork copies the map of the parent, a write changes the map of the writer, and nothing is common
  // except the kernel slots.
  function OriginOf(low: nat, e: Event, d: nat, v: nat, off: nat): Origin {
    match e
    case Fork(src, cur, child) =>
      if d != child then From(d, false)
      else if v == STACK_PAGE then From(cur, false)
      else if v / ENTRIES < STACK_SLOT then From(src, false)
      else Fixed(Cell(false, NoPage))
    case Read(d', v', _) => From(d, Aliased(low, d', v', d, v))
    case Write(d', v', off', val, _) =>
      if Aliased(low, d', v', d, v) && off' == off then Fixed(Cell(true, Is(val)))
          else From(d, Aliased(low, d', v', d, v))
    case LazyAlloc(d', v', _, _, fill) => if Aliased(low, d', v', d, v) then Lazily(fill) else From(d, false)
    case Alloc(d', v', _, _) => if Aliased(low, d', v', d, v) then Given else From(d, false)
    case Free(d', v') => if Aliased(low, d', v', d, v) then Fixed(Cell(false, NoPage)) else From(d, false)
  }

  // A page without a frame has no contents to keep: they are zero or unknown.
  function Apply(o: Origin, was: Cell): Cell {
    match o
    case From(_, maps) => Cell(was.mapped || maps, was.word)
    case Fixed(cell) => cell
    case Lazily(fill) => if fill then Cell(was.mapped, Is(0)) else if was.mapped then was else Cell(false, Unknown)
    case Given => if was.mapped then was else Cell(true, Unknown)
  }

  // What space `d` should find after `events`.
  ghost function Simple(s0: State, events: seq<Event>, d: nat, v: nat, off: nat): Cell
    requires Inv(s0) && v < ENTRIES * ENTRIES && off < ENTRIES
  {
    if events == [] then CellAt(s0, d, v, off)
    else
      var o := OriginOf(s0.low, events[|events| - 1], d, v, off);
      Apply(o, Simple(s0, events[..|events| - 1], if o.From? then o.d else d, v, off))
  }

  // An unknown word is there, and may be anything; all else is as the simple machine has it.
  predicate WordAgrees(simple: Word, found: Word) {
    if simple == Unknown then found != NoPage else found == simple
  }

  predicate Agrees(simple: Cell, found: Cell) {
    simple.mapped == found.mapped && WordAgrees(simple.word, found.word)
  }

  ghost predicate AllAgree(s0: State, events: seq<Event>, s: State)
    requires Inv(s0) && Inv(s)
  {
    s.low == s0.low
    && forall d, v, off :: d in s.dirs && 0 <= v < ENTRIES * ENTRIES && 0 <= off < ENTRIES ==>
      Agrees(Simple(s0, events, d, v, off), CellAt(s, d, v, off))
  }

  lemma ChangedCell(s: State, s': State, d: nat, v: nat, now: Spot, d': nat, v': nat, off: nat)
    requires Inv(s) && Changed(s, s', d, v, now) && d' in s'.dirs && v' < ENTRIES * ENTRIES && off < ENTRIES
    requires now.view.Known? ==> |now.view.page| == ENTRIES
    ensures d' in s.dirs && CellAt(s', d', v', off) ==
      if Aliased(s.low, d, v, d', v') then Cell(now.mapped, Word0(now.view, off)) else CellAt(s, d', v', off)
  {
    hide CountsOk, StackOk, EntriesOk, Exclusive, FixedOnce, DirsOk, Sees, FrameOf;
    assert d' in s'.dirs.Keys;
  }

  lemma AliasedSpot(s: State, d: nat, v: nat, d': nat, v': nat)
    requires Inv(s) && d in s.dirs && d' in s.dirs && v < ENTRIES * ENTRIES && Aliased(s.low, d, v, d', v')
    ensures SpotOf(s, d', v') == SpotOf(s, d, v)
  {
    assert s.dirs[d][v / ENTRIES] == s.dirs[d'][v / ENTRIES];
  }

  // Copy-on-write, lazy allocation and shared frames cannot be told from the simple machine: over
  // every run every space finds in every word of every page what the simple machine holds there.
  lemma {:induction false} Refinement(s0: State, events: seq<Event>)
    requires Inv(s0) && Run(s0, events).Some?
    ensures Inv(Run(s0, events).value) && AllAgree(s0, events, Run(s0, events).value)
    decreases |events|
  {
    hide Inv, Sees, Changed, Forked, Step, CellAt;
    if events != [] {
      var before, e := events[..|events| - 1], events[|events| - 1];
      Refinement(s0, before);
      var s1, s' := Run(s0, before).value, Run(s0, events).value;
      StepInv(s1, e);
      forall d, v, off | d in s'.dirs && 0 <= v < ENTRIES * ENTRIES && 0 <= off < ENTRIES
        ensures Agrees(Simple(s0, events, d, v, off), CellAt(s', d, v, off))
      {
        StepAgrees(s0, before, s1, e, d, v, off);
        assert before + [e] == events;
      }
    }
  }

  lemma StepAgrees(s0: State, before: seq<Event>, s: State, e: Event, d: nat, v: nat, off: nat)
    requires Inv(s0) && Inv(s) && AllAgree(s0, before, s) && Step(s, e).Some? && Inv(Step(s, e).value)
    requires d in Step(s, e).value.dirs && v < ENTRIES * ENTRIES && off < ENTRIES
    ensures Agrees(Simple(s0, before + [e], d, v, off), CellAt(Step(s, e).value, d, v, off))
  {
    hide Inv, Sees, Changed, Forked, Simple, CellAt, OriginOf, Apply;
    SimpleStep(s0, before, e, d, v, off);
    OriginReal(s, e, d, v, off);
    var o := OriginOf(s.low, e, d, v, off);
    var d0 := if o.From? then o.d else d;
    ApplyAgrees(o, Simple(s0, before, d0, v, off), CellAt(s, d0, v, off), CellAt(Step(s, e).value, d, v, off));
  }

  // What a step makes of the cell that it really starts from: known where the origin says so.
  ghost predicate Yields(o: Origin, was: Cell, now: Cell) {
    match o
    case From(_, maps) =>
      now.mapped == (was.mapped || maps) && if was.word == Unknown then now.word != NoPage else now.word == was.word
    case Fixed(cell) => now == cell
    case Lazily(fill) =>
      now.mapped == was.mapped && if fill then now.word == Is(0) else if was.mapped then now.word == was.word
          else now.word != NoPage
    case Given => now.mapped && if was.mapped then now.word == was.word else now.word != NoPage
  }

  lemma ApplyAgrees(o: Origin, simple: Cell, was: Cell, now: Cell)
    requires Yields(o, was, now) && (o.Fixed? || Agrees(simple, was))
    ensures Agrees(Apply(o, simple), now)
  {
  }

  // One step of the simple machine.
  lemma SimpleStep(s0: State, before: seq<Event>, e: Event, d: nat, v: nat, off: nat)
    requires Inv(s0) && v < ENTRIES * ENTRIES && off < ENTRIES
    ensures var o := OriginOf(s0.low, e, d, v, off);
      Simple(s0, before + [e], d, v, off) == Apply(o, Simple(s0, before, if o.From? then o.d else d, v, off))
  {
    hide Inv, Sees, OriginOf, Apply;
    assert (before + [e])[..|before + [e]| - 1] == before;
  }

  // One step of the real machine.
  lemma OriginReal(s: State, e: Event, d: nat, v: nat, off: nat)
    requires Inv(s) && Step(s, e).Some? && Inv(Step(s, e).value)
    requires d in Step(s, e).value.dirs && v < ENTRIES * ENTRIES && off < ENTRIES
    ensures var o := OriginOf(s.low, e, d, v, off);
      var d0 := if o.From? then o.d else d;
      (o.Fixed? || d0 in s.dirs) && Yields(o, CellAt(s, d0, v, off), CellAt(Step(s, e).value, d, v, off))
  {
    hide Inv, Sees, Changed, Forked, CellAt, AccessStep, LazyAllocStep, AllocStep, WriteStep, FreeStep, FrameOf;
    var s' := Step(s, e).value;
    match e
    case Fork(src, cur, child) =>
      ForkAgrees(s, src, cur, s', d, v, off);
    case Read(d', v', byUser) =>
      ReadAgrees(s, s', d', v', byUser, d, v, off);
    case Write(d', v', off', val, byUser) =>
      WriteAgrees(s, s', d', v', off', val, byUser, d, v, off);
    case LazyAlloc(d', v', user, rw, fill) =>
      LazyAgrees(s, s', d', v', user, rw, fill, d, v, off);
    case Alloc(d', v', user, rw) =>
      AllocAgrees(s, s', d', v', user, rw, d, v, off);
    case Free(d', v') =>
      FreeChanged(s, d', v');
      ChangedCell(s, s', d', v', Spot(NoAccess, false), d, v, off);
  }

  lemma CellDef(s: State, d: nat, v: nat, off: nat)
    requires Inv(s) && d in s.dirs && v < ENTRIES * ENTRIES && off < ENTRIES
    ensures Sees(s, d, v).Known? ==> off < |Sees(s, d, v).page|
    ensures CellAt(s, d, v, off) == Cell(SpotOf(s, d, v).mapped, Word0(SpotOf(s, d, v).view, off))
  {
    PageSize(s, d, v);
  }

  lemma ReadAgrees(s: State, s': State, d': nat, v': nat, byUser: bool, d: nat, v: nat, off: nat)
    requires Inv(s) && AccessStep(s, d', v', false, byUser) == Some(s') && Inv(s')
    requires d in s'.dirs && v < ENTRIES * ENTRIES && off < ENTRIES
    ensures d in s.dirs && Yields(From(d, Aliased(s.low, d', v', d, v)), CellAt(s, d, v, off), CellAt(s', d, v, off))
  {
    hide Inv, Sees, Changed, AccessStep, FrameOf, CellAt;
    AccessChanged(s, d', v', false, byUser);
    PageSize(s', d', v');
    ChangedCell(s, s', d', v', SpotOf(s', d', v'), d, v, off);
    CellDef(s, d, v, off);
    if Aliased(s.low, d', v', d, v) { AliasedSpot(s, d', v', d, v); }
  }

  lemma WriteAgrees(s: State, s': State, d': nat, v': nat, off': nat, val: nat, byUser: bool, d: nat, v: nat, off: nat)
    requires Inv(s) && WriteStep(s, d', v', off', val, byUser) == Some(s') && Inv(s')
    requires d in s'.dirs && v < ENTRIES * ENTRIES && off < ENTRIES
    ensures d in s.dirs
    ensures Yields(OriginOf(s.low, Write(d', v', off', val, byUser), d, v, off), CellAt(s, d, v, off),
      CellAt(s', d, v, off))
  {
    hide Inv, Sees, Changed, WriteStep, FrameOf, CellAt;
    WriteChanged(s, d', v', off', val, byUser);
    var p: Page :| Written(s, s', d', v', off', val, p);
    ChangedCell(s, s', d', v', Spot(Known(p[off' := val]), true), d, v, off);
    CellDef(s, d, v, off);
    if Aliased(s.low, d', v', d, v) { AliasedSpot(s, d', v', d, v); }
  }

  lemma LazyAgrees(s: State, s': State, d': nat, v': nat, user: bool, rw: bool, fill: bool, d: nat, v: nat, off: nat)
    requires Inv(s) && LazyAllocStep(s, d', v', user, rw, fill) == Some(s') && Inv(s')
    requires d in s'.dirs && v < ENTRIES * ENTRIES && off < ENTRIES
    ensures d in s.dirs
    ensures Yields(OriginOf(s.low, LazyAlloc(d', v', user, rw, fill), d, v, off), CellAt(s, d, v, off),
      CellAt(s', d, v, off))
  {
    hide Inv, Sees, Changed, LazyAllocStep, FrameOf, CellAt;
    LazyAllocChanged(s, d', v', user, rw, fill);
    if FrameOf(s, d', v') != 0 { MappedKnown(s, d', v'); }
    PageSize(s, d', v');
    ChangedCell(s, s', d', v', Spot(AfterLazy(Sees(s, d', v'), FrameOf(s, d', v') != 0, fill), FrameOf(s, d', v') != 0),
                d, v, off);
    CellDef(s, d, v, off);
    if Aliased(s.low, d', v', d, v) { AliasedSpot(s, d', v', d, v); }
  }

  lemma AllocAgrees(s: State, s': State, d': nat, v': nat, user: bool, rw: bool, d: nat, v: nat, off: nat)
    requires Inv(s) && AllocStep(s, d', v', user, rw) == Some(s') && Inv(s')
    requires d in s'.dirs && v < ENTRIES * ENTRIES && off < ENTRIES
    ensures d in s.dirs
    ensures Yields(OriginOf(s.low, Alloc(d', v', user, rw), d, v, off), CellAt(s, d, v, off), CellAt(s', d, v, off))
  {
    hide Inv, Sees, Changed, AllocStep, FrameOf, CellAt;
    AllocChanged(s, d', v', user, rw);
    PageSize(s', d', v');
    ChangedCell(s, s', d', v', SpotOf(s', d', v'), d, v, off);
    CellDef(s, d, v, off);
    if Aliased(s.low, d', v', d, v) { AliasedSpot(s, d', v', d, v); }
  }

  lemma ForkAgrees(s: State, src: nat, cur: nat, s': State, d: nat, v: nat, off: nat)
    requires Inv(s) && src in s.dirs && cur in s.dirs && ForkAt(s, src, cur) == Some(s')
    requires FrameOf(s, cur, STACK_PAGE) != 0
    requires d in s'.dirs && v < ENTRIES * ENTRIES && off < ENTRIES
    ensures Inv(s')
    ensures CellAt(s', d, v, off) ==
      if d != s.next then CellAt(s, d, v, off)
      else if v == STACK_PAGE then CellAt(s, cur, v, off)
      else if v / ENTRIES < STACK_SLOT then CellAt(s, src, v, off)
      else Cell(false, NoPage)
    ensures d != s.next ==> d in s.dirs
  {
    hide CountsOk, StackOk, EntriesOk, Exclusive, FixedOnce, DirsOk, ForkAt, FrameOf;
    ForkEffect(s, src, cur);
    assert d in s'.dirs.Keys;
    MappedKnown(s, cur, STACK_PAGE);
    if d != s.next {
      ForkOldFrames(s, src, cur, d, v);
    } else if v == STACK_PAGE {
      ForkStackFrame(s, src, cur, cur, v);
      FreeNonzero(s);
    } else if v / ENTRIES < STACK_SLOT {
      ForkFrames(s, src, cur, v);
    } else if FrameOf(s', d, v) != 0 {
      MappedKnown(s', d, v);
    }
  }

  lemma FreeNonzero(s: State)
    requires Inv(s)
    ensures 0 !in s.frames
  {
  }

  // A mapped page shows the frame it is on.
  lemma MappedKnown(s: State, d: nat, v: nat)
    requires Inv(s) && d in s.dirs && v < ENTRIES * ENTRIES && FrameOf(s, d, v) != 0
    ensures FrameOf(s, d, v) in s.phys && Sees(s, d, v) == Known(s.phys[FrameOf(s, d, v)])
  {
    EntryFacts(s, s.dirs[d][v / ENTRIES], v % ENTRIES);
    assert s.dirs[d][v / ENTRIES] in s.tables;
  }

  // ---- what follows for every run ----

  // `e` neither belongs to space `d` nor concerns a slot all spaces share.
  predicate Elsewhere(low: nat, e: Event, d: nat, v: nat) {
    e.Fork? || e.Read? || (e.d != d && !Shared(low, v / ENTRIES))
  }

  // A page of a private slot changes only by what its own space does, whatever forks happened.
  lemma {:induction false} Isolation(s0: State, events: seq<Event>, d: nat, v: nat, off: nat)
    requires Inv(s0) && Run(s0, events).Some? && d in s0.dirs && v < ENTRIES * ENTRIES && off < ENTRIES
    requires forall e :: e in events ==> Elsewhere(s0.low, e, d, v)
    ensures Inv(Run(s0, events).value) && WordAgrees(WordAt(s0, d, v, off), WordAt(Run(s0, events).value, d, v, off))
  {
    hide Inv, Sees, Step, WordAt;
    Refinement(s0, events);
    Untouched(s0, events, d, v, off);
  }

  lemma {:induction false} Untouched(s0: State, events: seq<Event>, d: nat, v: nat, off: nat)
    requires Inv(s0) && Run(s0, events).Some? && d in s0.dirs && v < ENTRIES * ENTRIES && off < ENTRIES
    requires forall e :: e in events ==> Elsewhere(s0.low, e, d, v)
    ensures d in Run(s0, events).value.dirs && Simple(s0, events, d, v, off).word == WordAt(s0, d, v, off)
    decreases |events|
  {
    hide Inv, Sees, Step, WordAt;
    if events != [] {
      var before, e := events[..|events| - 1], events[|events| - 1];
      assert e in events;
      Untouched(s0, before, d, v, off);
      StepInv(Run(s0, before).value, e);
    }
  }

  // The frames a mapping uses.
  ghost function InUse(s: State): set<nat>
    requires Inv(s)
  {
    set f | f in s.managed && s.refCnt[f] > 0
  }

  // No frame is ever lost or made up: in every reachable state the free stack and the frames in use
  // partition the frames of the start, and every count is the number of entries on the frame.
  lemma {:induction false} FramesConserved(s0: State, events: seq<Event>)
    requires Inv(s0) && Run(s0, events).Some?
    ensures var s := Run(s0, events).value;
      && s.managed == s0.managed && |s.frames| + |InUse(s)| == |s0.managed|
      && forall f :: f in s.managed ==>
            f in s.refCnt && s.refCnt[f] == |Refs(s.tables, f)| && (f in s.frames <==> f !in InUse(s))
    decreases |events|
  {
    hide Inv, Step, InUse;
    if events != [] {
      var before := events[..|events| - 1];
      FramesConserved(s0, before);
      StepInv(Run(s0, before).value, events[|events| - 1]);
    }
    Accounting(Run(s0, events).value);
  }

  lemma Accounting(s: State)
    requires Inv(s)
    ensures |s.frames| + |InUse(s)| == |s.managed|
    ensures forall f :: f in s.managed ==>
      f in s.refCnt && s.refCnt[f] == |Refs(s.tables, f)| && (f in s.frames <==> f !in InUse(s))
  {
    hide EntriesOk, Exclusive, FixedOnce, DirsOk, Refs;
    SeqAsSet(s.frames);
    var free := SetOf(s.frames);
    assert s.managed == InUse(s) + free;
    assert InUse(s) * free == {};
    assert |InUse(s) + free| == |InUse(s)| + |free|;
  }

  function SetOf(q: seq<nat>): set<nat> {
    set f | f in q
  }

  lemma {:induction false} SeqAsSet(q: seq<nat>)
    requires NoDup(q)
    ensures |SetOf(q)| == |q|
  {
    if q != [] {
      var r, f := q[..|q| - 1], q[|q| - 1];
      SeqAsSet(r);
      assert q == r + [f] && f !in r;
      assert SetOf(q) == SetOf(r) + {f};
    } else {
      assert SetOf(q) == {};
    }
  }

  lemma WritableCount(s: State, t: nat, i: nat)
    requires Inv(s) && HasEntry(s, t, i) && EntryAt(s, t, i).rw && EntryAt(s, t, i).addr in s.managed
    ensures |Refs(s.tables, EntryAt(s, t, i).addr)| == 1
  {
    var e := s.tables[t][i];
    assert s.refCnt[e.addr] == |Refs(s.tables, e.addr)|;
  }

  // In every reachable state an entry that may be written is alone on its frame.
  lemma WritableCounts(s0: State, events: seq<Event>, t: nat, i: nat)
    requires Inv(s0) && Run(s0, events).Some? && HasEntry(Run(s0, events).value, t, i)
    ensures var s := Run(s0, events).value;
      EntryAt(s, t, i).rw && EntryAt(s, t, i).addr in s.managed ==> |Refs(s.tables, EntryAt(s, t, i).addr)| == 1
  {
    var s := Run(s0, events).value;
    if EntryAt(s, t, i).rw && EntryAt(s, t, i).addr in s.managed { WritableCount(s, t, i); }
  }

  // ---- intervals ----

  // The `n` pages from `v` of directory `d` freed one after the other, where they are present.
  ghost function FreeSpan(s: State, d: nat, v: nat, n: nat): (r: State)
    requires Inv(s) && d in s.dirs && v + n <= ENTRIES * ENTRIES
    ensures Inv(r) && r.dirs.Keys == s.dirs.Keys && r.low == s.low
  {
    hide Inv, FreeStep, Changed;
    if n == 0 then s
    else
      var r := FreeSpan(s, d, v, n - 1);
      if FreeStep(r, d, v + n - 1).Some? then
        FreeChanged(r, d, v + n - 1);
        ChangedKeys(r, FreeStep(r, d, v + n - 1).value, d, v + n - 1, Spot(NoAccess, false));
        FreeStep(r, d, v + n - 1).value
      else r
  }

  lemma ChangedKeys(s: State, s': State, d: nat, v: nat, now: Spot)
    requires Inv(s) && Changed(s, s', d, v, now)
    ensures Inv(s') && s'.dirs.Keys == s.dirs.Keys && s'.low == s.low
  {
  }

  // What is left of a page after a span was freed.
  ghost predicate InSpan(low: nat, d: nat, v: nat, n: nat, d': nat, v': nat) {
    v <= v' < v + n && Aliased(low, d, v', d', v')
  }

  // Freeing a span takes exactly the pages with a frame away from it, and touches no other page.
  lemma {:induction false} FreeSpanSees(s: State, d: nat, v: nat, n: nat, d': nat, v': nat)
    requires Inv(s) && d in s.dirs && d' in s.dirs && v + n <= ENTRIES * ENTRIES && v' < ENTRIES * ENTRIES
    requires s.low <= v / ENTRIES
    ensures var r := FreeSpan(s, d, v, n);
      Sees(r, d', v') == if InSpan(s.low, d, v, n, d', v') && Sees(s, d, v') != NoAccess && FrameOf(s, d, v') != 0
                         then NoAccess else Sees(s, d', v')
    ensures !(v <= v' < v + n) ==> FrameOf(FreeSpan(s, d, v, n), d, v') == FrameOf(s, d, v')
    decreases n
  {
    hide Inv, FreeStep, Changed, Sees, FrameOf;
    if n > 0 {
      var r, k := FreeSpan(s, d, v, n - 1), v + n - 1;
      FreeSpanSees(s, d, v, n - 1, d', v');
      FreeSpanSees(s, d, v, n - 1, d, k);
      assert d in r.dirs.Keys && d' in r.dirs.Keys && v / ENTRIES <= k / ENTRIES;
      FreeGuard(r, d, k);
      if FreeStep(r, d, k).Some? {
        FreeChanged(r, d, k);
        ChangedSees(r, FreeStep(r, d, k).value, d, k, Spot(NoAccess, false), d', v');
        if v' != k { FreeFrame(r, d, k, v'); }
      }
      if d' != d && Aliased(s.low, d, v', d', v') { AliasedSpot(s, d, v', d', v'); }
    }
  }

  lemma ChangedSees(s: State, s': State, d: nat, v: nat, now: Spot, d': nat, v': nat)
    requires Inv(s) && Changed(s, s', d, v, now) && d' in s.dirs && v' < ENTRIES * ENTRIES
    ensures d' in s'.dirs && Inv(s')
    ensures SpotOf(s', d', v') == if Aliased(s.low, d, v, d', v') then now else SpotOf(s, d', v')
  {
    assert d' in s'.dirs.Keys;
  }

  // Outside the fixed pages a page is present exactly when it has a frame.
  lemma FreeGuard(s: State, d: nat, v: nat)
    requires Inv(s) && d in s.dirs && v < ENTRIES * ENTRIES && s.low <= v / ENTRIES
    ensures FreeStep(s, d, v).Some? <==> FrameOf(s, d, v) != 0
    ensures FrameOf(s, d, v) != 0 ==> Sees(s, d, v) != NoAccess
  {
    var t := s.dirs[d][v / ENTRIES];
    if t != 0 { assert EntryOk(s, t, s.tables[t][v % ENTRIES]); }
  }

  lemma FreeFrame(s: State, d: nat, v: nat, v': nat)
    requires Inv(s) && d in s.dirs && v < ENTRIES * ENTRIES && FreeStep(s, d, v).Some? && v' != v
    requires v' < ENTRIES * ENTRIES
    ensures d in FreeStep(s, d, v).value.dirs && FrameOf(FreeStep(s, d, v).value, d, v') == FrameOf(s, d, v')
  {
    var t, i := TableOf(s, d, v), v % ENTRIES;
    var s' := FreeStep(s, d, v).value;
    assert s'.dirs == s.dirs;
    if v' / ENTRIES == v / ENTRIES {
      assert v' % ENTRIES != i;
    } else if s.dirs[d][v' / ENTRIES] != 0 {
      assert s.dirs[d][v' / ENTRIES] != t;
    }
  }

  // The `n` pages from `v` of directory `d` made allocable one after the other; none when the
  // precondition of a step fails.
  ghost function LazySpan(s: State, d: nat, v: nat, n: nat, user: bool, rw: bool, fill: bool): (r: Option<State>)
    requires Inv(s) && d in s.dirs && v + n <= ENTRIES * ENTRIES
    ensures r.Some? ==> Inv(r.value) && r.value.dirs.Keys == s.dirs.Keys && r.value.low == s.low
  {
    hide Inv, LazyAllocStep, Changed;
    if n == 0 then Some(s)
    else
      match LazySpan(s, d, v, n - 1, user, rw, fill)
      case None => None
      case Some(r) =>
        if LazyAllocStep(r, d, v + n - 1, user, rw, fill).None? then None
        else
          var r' := LazyAllocStep(r, d, v + n - 1, user, rw, fill).value;
          LazyAllocChanged(r, d, v + n - 1, user, rw, fill);
          ChangedKeys(r, r', d, v + n - 1,
                      Spot(AfterLazy(Sees(r, d, v + n - 1), FrameOf(r, d, v + n - 1) != 0, fill),
                          FrameOf(r, d, v + n - 1) != 0));
          Some(r')
  }

  // A span made allocable: its pages show what one step makes of them, and no other page changes.
  lemma {:induction false} LazySpanSees(s: State, d: nat, v: nat, n: nat, user: bool, rw: bool, fill: bool, d': nat,
          v': nat)
    requires Inv(s) && d in s.dirs && d' in s.dirs && v + n <= ENTRIES * ENTRIES && v' < ENTRIES * ENTRIES
    requires LazySpan(s, d, v, n, user, rw, fill).Some?
    ensures var r := LazySpan(s, d, v, n, user, rw, fill).value;
      && Sees(r, d', v') ==
         (if InSpan(s.low, d, v, n, d', v') then AfterLazy(Sees(s, d', v'), FrameOf(s, d, v') != 0, fill)
          else Sees(s, d', v'))
      && d in r.dirs && FrameOf(r, d, v') == FrameOf(s, d, v')
    decreases n
  {
    hide Inv, LazyAllocStep, Changed, Sees, FrameOf;
    if n > 0 {
      var r, k := LazySpan(s, d, v, n - 1, user, rw, fill).value, v + n - 1;
      LazySpanSees(s, d, v, n - 1, user, rw, fill, d', v');
      LazySpanSees(s, d, v, n - 1, user, rw, fill, d, k);
      assert d in r.dirs.Keys && d' in r.dirs.Keys;
      LazyAllocChanged(r, d, k, user, rw, fill);
      ChangedSees(r, LazyAllocStep(r, d, k, user, rw, fill).value, d, k,
                  Spot(AfterLazy(Sees(r, d, k), FrameOf(r, d, k) != 0, fill), FrameOf(r, d, k) != 0), d', v');
      LazyFrame(r, d, k, user, rw, fill, v');
      if d' != d && Aliased(s.low, d, v', d', v') { AliasedSpot(s, d, v', d', v'); }
    }
  }

  // `lazy_alloc` gives no page a frame, and takes none away.
  lemma LazyFrame(s: State, d: nat, v: nat, user: bool, rw: bool, fill: bool, v': nat)
    requires Inv(s) && v' < ENTRIES * ENTRIES && LazyAllocStep(s, d, v, user, rw, fill).Some?
    ensures d in s.dirs && d in LazyAllocStep(s, d, v, user, rw, fill).value.dirs
    ensures FrameOf(LazyAllocStep(s, d, v, user, rw, fill).value, d, v') == FrameOf(s, d, v')
  {
    var s1 := MakeTable(s, d, v / ENTRIES);
    MadeFrames(s, d, v / ENTRIES, d, v');
    MadePage(s, d, v);
    hide MakeTable, Inv, FrameOf, SpotOf;
    LazyAtFrame(s1, s1.dirs[d][v / ENTRIES], v % ENTRIES, user, rw, fill, d, v');
  }

  lemma LazyAtFrame(s: State, t: nat, i: nat, user: bool, rw: bool, fill: bool, d: nat, v: nat)
    requires HasEntry(s, t, i) && d in s.dirs
    ensures d in LazyAllocAt(s, t, i, user, rw, fill).dirs
    ensures FrameOf(LazyAllocAt(s, t, i, user, rw, fill), d, v) == FrameOf(s, d, v)
  {
  }

  lemma MadeFrames(s: State, d: nat, slot: nat, d': nat, v: nat)
    requires Inv(s) && d in s.dirs && d' in s.dirs && slot < ENTRIES && v < ENTRIES * ENTRIES
    ensures d' in MakeTable(s, d, slot).dirs && FrameOf(MakeTable(s, d, slot), d', v) == FrameOf(s, d', v)
  {
  }
}
