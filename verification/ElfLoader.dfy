/** Loading a whole ELF file into an address space. */
module ElfLoader {
  import opened Common
  import opened ElfImage

  datatype Errno = ENOENT | EIO | ENOEXEC | ENOMEM

  const EHDR_SIZE := 52
  const PHDR_SIZE := 32
  const PT_LOAD := 1
  const USER_MEM_HIGH := KERNEL_HEAP_BEGIN - 1

  // ---- reading the file ----

  function Half(s: seq<Byte>, at: nat): (h: nat)
    requires at + 2 <= |s|
    ensures h < 0x1_0000
  {
    var a: nat, b: nat := s[at], s[at + 1];
    a + 0x100 * b
  }

  function Word(s: seq<Byte>, at: nat): (w: nat)
    requires at + 4 <= |s|
    ensures w < WORD
  {
    Half(s, at) + 0x1_0000 * Half(s, at + 2)
  }

  // `is_header_valid`: a 32-bit little-endian executable for the 386 with program headers.
  predicate HeaderValid(h: seq<Byte>)
    requires |h| == EHDR_SIZE
  {
    && h[0] == 0x7F && h[1] == 0x45 && h[2] == 0x4C && h[3] == 0x46
    && h[4] == 1 && h[5] == 1 && h[6] == 1
    && Half(h, 16) == 2 && Half(h, 18) == 3 && Word(h, 20) == 1 && Word(h, 24) != 0
    && Word(h, 28) != 0 && Half(h, 44) != 0 && Half(h, 42) == PHDR_SIZE
  }

  function ReadSegment(h: seq<Byte>): Segment
    requires |h| == PHDR_SIZE
  {
    Segment(Word(h, 0), Word(h, 4), Word(h, 8), Word(h, 16), Word(h, 20))
  }

  // Where program header `i` is; the sum wraps around.
  function HeaderAt(phoff: nat, i: nat): nat {
    (i * PHDR_SIZE + phoff) % WORD
  }

  // Program header `i`, if the file reaches that far.
  function SegmentAt(file: seq<Byte>, phoff: nat, i: nat): Option<Segment> {
    var at := HeaderAt(phoff, i);
    if at + PHDR_SIZE <= |file| then Some(ReadSegment(file[at..at + PHDR_SIZE])) else None
  }

  predicate Loads(ph: Segment) {
    ph.ptype == PT_LOAD && ph.memsz != 0
  }

  // ---- the loop over the program headers ----

  datatype Progress = Loaded(mem: Memory, done: bool) | Failed(errno: Errno)

  ghost function LoadOne(m: Memory, done: bool, file: seq<Byte>, phoff: nat, i: nat, low: nat,
          frames: nat -> seq<Byte>): (r: Progress)
    requires MemoryOk(m) && FramesOk(frames)
    ensures r.Loaded? ==> MemoryOk(r.mem)
  {
    match SegmentAt(file, phoff, i)
    case None => Failed(EIO)
    case Some(ph) =>
      if !Loads(ph) then Loaded(m, done)
      else if ph.vaddr < low || ph.vaddr + ph.memsz > USER_MEM_HIGH then Failed(ENOMEM)
      else if !Fits(ph, file) then Failed(EIO)
      else Loaded(LoadSegment(m, file, ph, frames), true)
  }

  ghost function LoadFirst(m: Memory, file: seq<Byte>, phoff: nat, n: nat, low: nat,
          frames: nat -> seq<Byte>): (r: Progress)
    requires MemoryOk(m) && FramesOk(frames)
    ensures r.Loaded? ==> MemoryOk(r.mem)
  {
    if n == 0 then Loaded(m, false)
    else
      match LoadFirst(m, file, phoff, n - 1, low, frames)
      case Failed(e) => Failed(e)
      case Loaded(m1, done) => LoadOne(m1, done, file, phoff, n - 1, low, frames)
  }

  // ---- the image of the whole file ----

  ghost predicate Apart(p: Segment, q: Segment) {
    (SpaceEnd(p) - 1) / PAGE < q.vaddr / PAGE || (SpaceEnd(q) - 1) / PAGE < p.vaddr / PAGE
  }

  // The first `n` segments that are loaded have no page in common.
  ghost predicate AllApart(file: seq<Byte>, phoff: nat, n: nat) {
    forall i, j :: 0 <= i < j < n && IsLoad(file, phoff, i) && IsLoad(file, phoff, j) ==>
      Apart(SegmentAt(file, phoff, i).value, SegmentAt(file, phoff, j).value)
  }

  predicate IsLoad(file: seq<Byte>, phoff: nat, i: nat) {
    SegmentAt(file, phoff, i).Some? && Loads(SegmentAt(file, phoff, i).value)
  }

  // Segment `i` is in memory as the file describes it, or would be if it is loaded rightly.
  ghost predicate ImageExact(m: Memory, file: seq<Byte>, phoff: nat, i: nat)
    requires IsLoad(file, phoff, i)
  {
    var ph := SegmentAt(file, phoff, i).value;
    Fits(ph, file) && (Right(m, file, ph) <==> Good(ph, file))
  }

  // After a successful load of segments without common pages each of them is in memory as the file
  // describes it, exactly when it meets its own condition.
  lemma {:induction false} LoadedImage(m: Memory, file: seq<Byte>, phoff: nat, n: nat, low: nat,
          frames: nat -> seq<Byte>)
    requires MemoryOk(m) && FramesOk(frames) && AllApart(file, phoff, n)
    requires LoadFirst(m, file, phoff, n, low, frames).Loaded?
    ensures var r := LoadFirst(m, file, phoff, n, low, frames);
      && (forall i :: 0 <= i < n && IsLoad(file, phoff, i) ==> ImageExact(r.mem, file, phoff, i))
      && (r.done <==> exists i :: 0 <= i < n && IsLoad(file, phoff, i))
    decreases n
  {
    hide Right, Good, LoadSegment, Fits, Apart, SegmentAt;
    if n > 0 {
      LoadedImage(m, file, phoff, n - 1, low, frames);
      var m1 := LoadFirst(m, file, phoff, n - 1, low, frames).mem;
      var r := LoadFirst(m, file, phoff, n, low, frames);
      if IsLoad(file, phoff, n - 1) {
        var q := SegmentAt(file, phoff, n - 1).value;
        SegmentExact(m1, file, q, frames);
        forall i | 0 <= i < n - 1 && IsLoad(file, phoff, i) ensures ImageExact(r.mem, file, phoff, i) {
          ImageStays(m1, file, SegmentAt(file, phoff, i).value, q, frames);
        }
      }
    }
  }

  // Loading a segment leaves an image in other pages as it is.
  lemma ImageStays(m: Memory, file: seq<Byte>, p: Segment, q: Segment, frames: nat -> seq<Byte>)
    requires MemoryOk(m) && FramesOk(frames) && Fits(p, file) && Fits(q, file) && q.memsz > 0 && Apart(p, q)
    ensures Right(LoadSegment(m, file, q, frames), file, p) <==> Right(m, file, p)
  {
    hide LoadSegment, Seen;
    forall x: nat | p.vaddr <= x < SpaceEnd(p) ensures Seen(LoadSegment(m, file, q, frames), x) == Seen(m, x) {
      SegmentElsewhere(m, file, q, frames, x);
    }
  }

  // Pages outside all loaded segments stay as they were.
  lemma {:induction false} LoadedElsewhere(m: Memory, file: seq<Byte>, phoff: nat, n: nat, low: nat,
          frames: nat -> seq<Byte>, x: nat)
    requires MemoryOk(m) && FramesOk(frames) && LoadFirst(m, file, phoff, n, low, frames).Loaded?
    requires forall i :: 0 <= i < n && IsLoad(file, phoff, i) ==> !InPages(SegmentAt(file, phoff, i).value, x)
    ensures Seen(LoadFirst(m, file, phoff, n, low, frames).mem, x) == Seen(m, x)
    decreases n
  {
    hide LoadSegment, Seen, SegmentAt, Fits;
    if n > 0 {
      LoadedElsewhere(m, file, phoff, n - 1, low, frames, x);
      if IsLoad(file, phoff, n - 1) {
        SegmentElsewhere(LoadFirst(m, file, phoff, n - 1, low, frames).mem, file, SegmentAt(file, phoff, n - 1).value,
            frames, x);
      }
    }
  }

  // ---- what the whole call returns ----

  // Below the heap the 32-bit rounding to pages is exact.
  lemma PageAligned(a: nat)
    requires a <= KERNEL_HEAP_END
    ensures GetAligned(a, 12) == RoundUp(a, PAGE)
  {
    Pow2Values();
    AlignExact(12);
  }

  datatype Result = Entry(addr: nat) | Error(errno: Errno)

  ghost predicate Reported(p: Progress, m: Memory, done: bool, error: Option<Errno>) {
    match p
    case Failed(e) => error == Some(e)
    case Loaded(m', done') => error == None && m == m' && done == done'
  }

  ghost function LoadResult(m: Memory, source: Option<seq<Byte>>, low: nat, frames: nat -> seq<Byte>): Result
    requires MemoryOk(m) && FramesOk(frames)
  {
    if source.None? then Error(ENOENT)
    else if |source.value| < EHDR_SIZE then Error(EIO)
    else
      var h := source.value[..EHDR_SIZE];
      if !HeaderValid(h) then Error(ENOEXEC)
      else
        match LoadFirst(m, source.value, Word(h, 28), Half(h, 44), low, frames)
        case Failed(e) => Error(e)
        case Loaded(_, done) => if done then Entry(Word(h, 24)) else Error(ENOEXEC)
  }

  ghost function LoadedMemory(m: Memory, file: seq<Byte>, low: nat, frames: nat -> seq<Byte>): Memory
    requires MemoryOk(m) && FramesOk(frames) && LoadResult(m, Some(file), low, frames).Entry?
  {
    var h := file[..EHDR_SIZE];
    LoadFirst(m, file, Word(h, 28), Half(h, 44), low, frames).mem
  }

  // A successful load returns a nonzero entry point, and leaves each segment as the file describes
  // it exactly when that segment meets its condition.
  lemma LoadElfImage(m: Memory, file: seq<Byte>, low: nat, frames: nat -> seq<Byte>)
    requires MemoryOk(m) && FramesOk(frames) && LoadResult(m, Some(file), low, frames).Entry?
    requires var h := file[..EHDR_SIZE]; AllApart(file, Word(h, 28), Half(h, 44))
    ensures LoadResult(m, Some(file), low, frames).addr != 0
    ensures var h, r := file[..EHDR_SIZE], LoadedMemory(m, file, low, frames);
      && (exists i :: 0 <= i < Half(h, 44) && IsLoad(file, Word(h, 28), i))
      && forall i :: 0 <= i < Half(h, 44) && IsLoad(file, Word(h, 28), i) ==> ImageExact(r, file, Word(h, 28), i)
  {
    var h := file[..EHDR_SIZE];
    LoadedImage(m, file, Word(h, 28), Half(h, 44), low, frames);
  }

  // ---- a file that is loaded wrongly ----

  function Words(ws: seq<nat>): (b: seq<Byte>)
    ensures |b| == 4 * |ws|
  {
    if ws == [] then [] else WordBytes(ws[0]) + Words(ws[1..])
  }

  lemma {:induction false} BytesAt(ws: seq<nat>, k: nat, j: nat)
    requires k < |ws| && j < 4
    ensures Words(ws)[4 * k + j] == WordByte(ws[k], j)
  {
    hide WordByte;
    if k > 0 {
      BytesAt(ws[1..], k - 1, j);
      assert Words(ws)[4 * k + j] == Words(ws[1..])[4 * (k - 1) + j];
    }
  }

  // What is read from part of such a file.
  lemma WordsAt(ws: seq<nat>, from: nat, to: nat, k: nat)
    requires from <= 4 * k && 4 * k + 4 <= to <= 4 * |ws| && ws[k] < WORD
    ensures var b, at, w := Words(ws)[from..to], 4 * k - from, ws[k];
      && b[at] == WordByte(w, 0) && b[at + 1] == WordByte(w, 1)
      && b[at + 2] == WordByte(w, 2) && b[at + 3] == WordByte(w, 3)
      && Half(b, at) == w % 0x1_0000 && Half(b, at + 2) == w / 0x1_0000 && Word(b, at) == w
  {
    hide Words, WordByte, Half, Word;
    BytesAt(ws, k, 0);
    BytesAt(ws, k, 1);
    BytesAt(ws, k, 2);
    BytesAt(ws, k, 3);
    WordOfBytes(Words(ws)[from..to], 4 * k - from, ws[k]);
  }

  lemma WordOfBytes(b: seq<Byte>, at: nat, w: nat)
    requires at + 4 <= |b| && w < WORD && b[at] == WordByte(w, 0) && b[at + 1] == WordByte(w, 1)
    requires b[at + 2] == WordByte(w, 2) && b[at + 3] == WordByte(w, 3)
    ensures Half(b, at) == w % 0x1_0000 && Half(b, at + 2) == w / 0x1_0000 && Word(b, at) == w
  {
    WordDigits(w);
    hide WordByte;
  }

  // An executable of 84 bytes: the header, and one segment of one file byte and one zero byte.
  const TINY_HEADER: seq<nat> := [0x464C_457F, 0x01_0101, 0, 0, 0x3_0002, 1, 0x40_0000, 52, 0, 0, 0x20_0034, 1, 0]
  const TINY_SEGMENT: seq<nat> := [PT_LOAD, 0, 0x40_0000, 0, 1, 2, 5, 0x1000]

  function TinyFile(): (file: seq<Byte>)
    ensures |file| == EHDR_SIZE + PHDR_SIZE
  {
    Words(TINY_HEADER + TINY_SEGMENT)
  }

  lemma TinyHeader()
    ensures var h := TinyFile()[..EHDR_SIZE];
      HeaderValid(h) && Word(h, 24) == 0x40_0000 && Word(h, 28) == 52 && Half(h, 44) == 1 && TinyFile()[0] == 0x7F
  {
    var ws := TINY_HEADER + TINY_SEGMENT;
    assert TinyFile()[0..EHDR_SIZE] == TinyFile()[..EHDR_SIZE];
    WordsAt(ws, 0, EHDR_SIZE, 0);
    WordsAt(ws, 0, EHDR_SIZE, 1);
    WordsAt(ws, 0, EHDR_SIZE, 4);
    WordsAt(ws, 0, EHDR_SIZE, 5);
    WordsAt(ws, 0, EHDR_SIZE, 6);
    WordsAt(ws, 0, EHDR_SIZE, 7);
    WordsAt(ws, 0, EHDR_SIZE, 10);
    WordsAt(ws, 0, EHDR_SIZE, 11);
    hide Words, Half, Word;
  }

  lemma TinySegment()
    ensures SegmentAt(TinyFile(), 52, 0) == Some(Segment(PT_LOAD, 0, 0x40_0000, 1, 2))
  {
    TinyRead();
    hide ReadSegment, Words;
  }

  lemma TinyRead()
    ensures ReadSegment(TinyFile()[52..84]) == Segment(PT_LOAD, 0, 0x40_0000, 1, 2)
  {
    var ws := TINY_HEADER + TINY_SEGMENT;
    WordsAt(ws, 52, 84, 13);
    WordsAt(ws, 52, 84, 14);
    WordsAt(ws, 52, 84, 15);
    WordsAt(ws, 52, 84, 17);
    WordsAt(ws, 52, 84, 18);
    hide Words, Half, Word;
  }

  // `load_elf` accepts it, although the file byte of its segment reads as zero afterwards.
  lemma ClearedByte(m: Memory, low: nat, frames: nat -> seq<Byte>)
    requires MemoryOk(m) && FramesOk(frames) && low <= 0x40_0000
    ensures var file, ph := TinyFile(), Segment(PT_LOAD, 0, 0x40_0000, 1, 2);
      && LoadResult(m, Some(file), low, frames) == Entry(0x40_0000)
      && var r := LoadedMemory(m, file, low, frames);
      && SegmentAt(file, 52, 0) == Some(ph) && Fits(ph, file) && FileByte(file, ph, 0x40_0000) == 0x7F
      && Seen(r, 0x40_0000) == Some(0) && !Right(r, file, ph)
  {
    hide HeaderValid, SegmentAt, LoadSegment, Seen, TinyFile, Word, Half;
    HeapBounds();
    TinyHeader();
    TinySegment();
    var file, ph := TinyFile(), Segment(PT_LOAD, 0, 0x40_0000, 1, 2);
    assert LoadFirst(m, file, 52, 0, low, frames) == Loaded(m, false);
    assert LoadFirst(m, file, 52, 1, low, frames) == LoadOne(m, false, file, 52, 0, low, frames);
    RoundDownFacts(0x40_0002, PAGE);
    SegmentSees(m, file, ph, frames, 0x40_0000);
  }

  // The first error decides.
  lemma {:induction false} FirstError(m: Memory, file: seq<Byte>, phoff: nat, i: nat, n: nat, low: nat,
          frames: nat -> seq<Byte>)
    requires MemoryOk(m) && FramesOk(frames) && i <= n && LoadFirst(m, file, phoff, i, low, frames).Failed?
    ensures LoadFirst(m, file, phoff, n, low, frames) == LoadFirst(m, file, phoff, i, low, frames)
    decreases n
  {
    hide LoadOne;
    if i < n { FirstError(m, file, phoff, i, n - 1, low, frames); }
  }

  lemma NoFile(m: Memory, file: seq<Byte>, ph: Segment, frames: nat -> seq<Byte>)
    requires MemoryOk(m) && FramesOk(frames) && ph.filesz == 0 && ph.memsz > 0
    ensures PutFile(m, file, ph, frames) == m
  {
  }

  lemma NoSpace(m: Memory, start: nat, end: nat, frames: nat -> seq<Byte>)
    requires MemoryOk(m) && FramesOk(frames) && start >= end
    ensures ZeroSpace(m, start, end, frames) == m
  {
  }

  lemma HeadReady(m: Memory, start: nat, frames: nat -> seq<Byte>)
    requires MemoryOk(m) && FramesOk(frames)
    ensures start <= RoundUp(start, PAGE)
    ensures Mapped(AllocPage(m, start / PAGE, frames), start, RoundUp(start, PAGE) - start)
  {
    RoundUpFacts(start, PAGE);
    if start != RoundUp(start, PAGE) { SpanCovers(start, RoundUp(start, PAGE)); }
  }

  lemma TailReady(m: Memory, end: nat, frames: nat -> seq<Byte>)
    requires MemoryOk(m) && FramesOk(frames)
    ensures var e := RoundDown(end, PAGE); e <= end && Mapped(AllocPage(m, e / PAGE, frames), e, end - e)
  {
    RoundDownFacts(end, PAGE);
    SpanCovers(RoundDown(end, PAGE), end);
  }

  lemma PutFileReady(m: Memory, ph: Segment, frames: nat -> seq<Byte>)
    requires MemoryOk(m) && FramesOk(frames) && ph.memsz > 0 && SpaceEnd(ph) <= USER_MEM_HIGH
    ensures GetAligned(SpaceEnd(ph), 12) == RoundUp(SpaceEnd(ph), PAGE)
    ensures RoundDown(ph.vaddr, PAGE) % PAGE == 0 && RoundUp(SpaceEnd(ph), PAGE) % PAGE == 0
    ensures RoundDown(ph.vaddr, PAGE) <= RoundUp(SpaceEnd(ph), PAGE)
    ensures RoundDown(ph.vaddr, PAGE) / PAGE == ph.vaddr / PAGE
    ensures Mapped(AllocSpan(m, ph.vaddr / PAGE, RoundUp(SpaceEnd(ph), PAGE) / PAGE - ph.vaddr / PAGE, frames),
      ph.vaddr, FileBytes(ph))
  {
    PageAligned(SpaceEnd(ph));
    RoundUpFacts(SpaceEnd(ph), PAGE);
    RoundDownFacts(ph.vaddr, PAGE);
    SpanBacks(m, ph.vaddr, SpaceEnd(ph), FileBytes(ph), frames, ph.vaddr);
  }

  // ---- the code ----

  class AddressSpace {
    var pages: Memory
    const low: nat
    const frames: nat -> seq<Byte>

    ghost predicate Valid()
      reads this
    {
      MemoryOk(pages) && FramesOk(frames)
    }

    constructor (low: nat, frames: nat -> seq<Byte>)
      requires FramesOk(frames)
      ensures Valid() && pages == map[] && this.low == low && this.frames == frames
    {
      pages, this.low, this.frames := map[], low, frames;
    }

    method Alloc(p: nat)
      requires Valid()
      modifies `pages
      ensures Valid() && pages == AllocPage(old(pages), p, frames)
    {
      pages := AllocPage(pages, p, frames);
    }

    method AllocInterval(begin: nat, end: nat)
      requires Valid() && begin % PAGE == 0 && end % PAGE == 0 && begin <= end
      modifies `pages
      ensures Valid() && pages == AllocSpan(old(pages), begin / PAGE, end / PAGE - begin / PAGE, frames)
    {
      var i := begin;
      while i < end
        invariant begin <= i <= end && i % PAGE == 0
        invariant Valid() && pages == AllocSpan(old(pages), begin / PAGE, i / PAGE - begin / PAGE, frames)
      {
        Alloc(i / PAGE);
        i := i + PAGE;
      }
    }

    method LazyAllocInterval(begin: nat, end: nat)
      requires Valid() && begin % PAGE == 0 && end % PAGE == 0
      modifies `pages
      ensures Valid()
      ensures pages == LazySpan(old(pages), begin / PAGE, if end > begin then end / PAGE - begin / PAGE else 0)
    {
      var i := begin;
      while i < end
        invariant begin <= i && (i <= end || i == begin) && i % PAGE == 0
        invariant Valid() && pages == LazySpan(old(pages), begin / PAGE, i / PAGE - begin / PAGE)
      {
        pages := LazyPage(pages, i / PAGE);
        i := i + PAGE;
      }
    }

    // `memcpy` and `memset` through mapped pages.
    method Store(a: nat, bs: seq<Byte>)
      requires Valid() && Mapped(pages, a, |bs|)
      modifies `pages
      ensures Valid() && pages == PokeAll(old(pages), a, bs)
    {
      pages := PokeAll(pages, a, bs);
    }

    // Lines 77-82 of the loader.
    method ClearHead(start: nat)
      requires Valid() && start <= KERNEL_HEAP_END
      modifies `pages
      ensures Valid() && pages == ZeroHead(old(pages), start, frames)
    {
      hide PokeAll, Seen, RoundUp, GetAligned;
      PageAligned(start);
      var startAlg := GetAligned(start, 12);
      if start != startAlg {
        HeadReady(pages, start, frames);
        Alloc(start / PAGE);
        Store(start, Zeros(startAlg - start));
      }
    }

    // Lines 84-89.
    method ClearTail(end: nat)
      requires Valid()
      modifies `pages
      ensures Valid() && pages == ZeroTail(old(pages), end, frames)
    {
      hide PokeAll, Seen;
      var endAlg := RoundDown(end, PAGE);
      if endAlg != end {
        TailReady(pages, end, frames);
        Alloc(endAlg / PAGE);
        Store(endAlg, Zeros(end - endAlg));
      }
    }

    // Lines 75-92.
    method ClearSpace(start: nat, end: nat)
      requires Valid() && start < end <= KERNEL_HEAP_END
      modifies `pages
      ensures Valid() && pages == ZeroSpace(old(pages), start, end, frames)
    {
      hide ZeroHead, ZeroTail, LazySpan, GetAligned;
      PageAligned(start);
      RoundUpFacts(start, PAGE);
      RoundDownFacts(end, PAGE);
      ClearHead(start);
      ClearTail(end);
      LazyAllocInterval(GetAligned(start, 12), RoundDown(end, PAGE));
    }

    // Lines 62-73; false when the file ends too early.
    method ReadIn(file: seq<Byte>, ph: Segment) returns (ok: bool)
      requires Valid() && ph.filesz > 0 && ph.memsz > 0 && SpaceEnd(ph) <= USER_MEM_HIGH
      modifies `pages
      ensures Valid() && ok == Fits(ph, file)
      ensures ok ==> pages == PutFile(old(pages), file, ph, frames)
    {
      hide PokeAll, Seen, GetAligned, RoundUp, AllocSpan, Mapped, MemoryOk;
      var n := if ph.filesz < ph.memsz then ph.filesz else ph.memsz;
      if ph.offset >= |file| { return false; }
      PutFileReady(pages, ph, frames);
      AllocInterval(RoundDown(ph.vaddr, PAGE), GetAligned(ph.vaddr + ph.memsz, 12));
      if ph.offset + n > |file| { return false; }
      Store(ph.vaddr, file[ph.offset..ph.offset + n]);
      return true;
    }

    // One round of the loop: whether it loaded a segment, or an error.
    method LoadHeader(file: seq<Byte>, phoff: nat, i: nat) returns (loaded: bool, error: Option<Errno>)
      requires Valid()
      modifies `pages
      ensures Valid()
      ensures forall done :: Reported(LoadOne(old(pages), done, file, phoff, i, low, frames), pages, done || loaded,
        error)
    {
      hide PutFile, ZeroSpace, Seen;
      var at := HeaderAt(phoff, i);
      if at + PHDR_SIZE > |file| { return false, Some(EIO); }
      var ph := ReadSegment(file[at..at + PHDR_SIZE]);
      if ph.ptype != PT_LOAD || ph.memsz == 0 { return false, None; }
      if ph.vaddr < low || ph.vaddr + ph.memsz > USER_MEM_HIGH { return false, Some(ENOMEM); }
      ghost var m := pages;
      var start := ph.vaddr;
      if ph.filesz != 0 {
        var ok := ReadIn(file, ph);
        if !ok { return false, Some(EIO); }
        start := start + FileBytes(ph);
      } else {
        NoFile(pages, file, ph, frames);
      }
      assert pages == PutFile(m, file, ph, frames) && start == SpaceStart(ph);
      if start < ph.vaddr + ph.memsz {
        ClearSpace(start, ph.vaddr + ph.memsz);
      } else {
        NoSpace(pages, start, SpaceEnd(ph), frames);
      }
      return true, None;
    }

    // `load_elf` on a file that is read from its start; none is a null pointer.
    method LoadElf(source: Option<seq<Byte>>) returns (r: Result)
      requires Valid()
      modifies `pages
      ensures Valid() && r == LoadResult(old(pages), source, low, frames)
      ensures r.Entry? ==> pages == LoadedMemory(old(pages), source.value, low, frames)
    {
      hide LoadOne, HeaderValid;
      if source.None? { return Error(ENOENT); }
      var file := source.value;
      if |file| < EHDR_SIZE { return Error(EIO); }
      var h := file[..EHDR_SIZE];
      if !HeaderValid(h) { return Error(ENOEXEC); }
      var phoff, phnum := Word(h, 28), Half(h, 44);
      var done := false;
      for i := 0 to phnum
        invariant Valid() && LoadFirst(old(pages), file, phoff, i, low, frames) == Loaded(pages, done)
      {
        var loaded, error := LoadHeader(file, phoff, i);
        if error.Some? {
          FirstError(old(pages), file, phoff, i + 1, phnum, low, frames);
          return Error(error.value);
        }
        done := done || loaded;
      }
      if !done { return Error(ENOEXEC); }
      return Entry(Word(h, 24));
    }
  }
}
