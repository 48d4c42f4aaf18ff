/** The memory of an address space by bytes, and the image one ELF segment leaves in it. */
module ElfImage {
  import opened Common

  type Byte = x: nat | x < 256

  // A page that will be zero once it is touched, or one with contents.
  datatype Cell = Lazy | Filled(bytes: seq<Byte>)

  type Memory = map<nat, Cell>

  function Zeros(n: nat): (z: seq<Byte>)
    ensures |z| == n && forall i :: 0 <= i < n ==> z[i] == 0
  {
    if n == 0 then [] else Zeros(n - 1) + [0]
  }

  ghost predicate MemoryOk(m: Memory) {
    forall p :: p in m && m[p].Filled? ==> |m[p].bytes| == PAGE
  }

  // The old contents of the frame that each page gets.
  ghost predicate FramesOk(frames: nat -> seq<Byte>) {
    forall p :: |frames(p)| == PAGE
  }

  // What a program reads at address `a`.
  function Seen(m: Memory, a: nat): Option<Byte> {
    if a / PAGE !in m then None
    else
      match m[a / PAGE]
      case Lazy => Some(0)
      case Filled(b) => if a % PAGE < |b| then Some(b[a % PAGE]) else None
  }

  function WordBytes(w: nat): (b: seq<Byte>)
    ensures |b| == 4
  {
    [WordByte(w, 0), WordByte(w, 1), WordByte(w, 2), WordByte(w, 3)]
  }

  // ---- page operations ----

  // `alloc`: a page that is only pending gets a frame with whatever is in it.
  function AllocPage(m: Memory, p: nat, frames: nat -> seq<Byte>): Memory {
    if p in m && m[p].Filled? then m else m[p := Filled(frames(p))]
  }

  // `lazy_alloc` with zero filling.
  function LazyPage(m: Memory, p: nat): Memory {
    m[p := if p in m && m[p].Filled? then Filled(Zeros(PAGE)) else Lazy]
  }

  function AllocSpan(m: Memory, p: nat, n: nat, frames: nat -> seq<Byte>): Memory {
    if n == 0 then m else AllocPage(AllocSpan(m, p, n - 1, frames), p + n - 1, frames)
  }

  function LazySpan(m: Memory, p: nat, n: nat): Memory {
    if n == 0 then m else LazyPage(LazySpan(m, p, n - 1), p + n - 1)
  }

  // One byte stored; a pending page is zeroed first.
  function Poke(m: Memory, a: nat, b: Byte): (r: Memory)
    requires MemoryOk(m) && a / PAGE in m
    ensures MemoryOk(r) && r.Keys == m.Keys
    ensures forall x: nat :: Seen(r, x) == if x == a then Some(b) else Seen(m, x)
  {
    var was := if m[a / PAGE].Filled? then m[a / PAGE].bytes else Zeros(PAGE);
    var bytes: seq<Byte> := was[a % PAGE := b];
    var r := m[a / PAGE := Filled(bytes)];
    assert forall x :: x / PAGE == a / PAGE && x % PAGE == a % PAGE ==> x == a;
    r
  }

  ghost predicate Mapped(m: Memory, a: nat, n: nat) {
    forall x :: a <= x < a + n ==> x / PAGE in m
  }

  // `memcpy` and `memset`.
  function PokeAll(m: Memory, a: nat, bs: seq<Byte>): (r: Memory)
    requires MemoryOk(m) && Mapped(m, a, |bs|)
    ensures MemoryOk(r) && r.Keys == m.Keys
    ensures forall x: nat :: Seen(r, x) == if a <= x < a + |bs| then Some(bs[x - a]) else Seen(m, x)
  {
    if bs == [] then m
    else
      var n := |bs| - 1;
      assert bs == bs[..n] + [bs[n]];
      assert Mapped(m, a, n);
      assert (a + n) / PAGE in m;
      Poke(PokeAll(m, a, bs[..n]), a + n, bs[n])
  }

  // ---- what the page operations show ----

  lemma {:induction false} AllocSpanSees(m: Memory, p: nat, n: nat, frames: nat -> seq<Byte>)
    requires MemoryOk(m) && FramesOk(frames)
    ensures var r := AllocSpan(m, p, n, frames);
      && MemoryOk(r) && (forall q :: q in r <==> q in m || p <= q < p + n)
      && (forall q :: p <= q < p + n ==> r[q].Filled?)
      && (forall q :: q in m && (m[q].Filled? || !(p <= q < p + n)) ==> r[q] == m[q])
  {
    if n > 0 { AllocSpanSees(m, p, n - 1, frames); }
  }

  lemma {:induction false} LazySpanSees(m: Memory, p: nat, n: nat)
    requires MemoryOk(m)
    ensures var r := LazySpan(m, p, n);
      && MemoryOk(r) && (forall q :: q in r <==> q in m || p <= q < p + n)
      && (forall q :: q in m && !(p <= q < p + n) ==> r[q] == m[q])
      && (forall q :: p <= q < p + n ==> r[q] == Lazy || r[q] == Filled(Zeros(PAGE)))
  {
    if n > 0 { LazySpanSees(m, p, n - 1); }
  }

  // ---- one segment ----

  // A program header; only what the loader reads of it.
  datatype Segment = Segment(ptype: nat, offset: nat, vaddr: nat, filesz: nat, memsz: nat)

  function FileBytes(ph: Segment): nat {
    if ph.filesz < ph.memsz then ph.filesz else ph.memsz
  }

  function SpaceStart(ph: Segment): nat { ph.vaddr + FileBytes(ph) }

  function SpaceEnd(ph: Segment): nat { ph.vaddr + ph.memsz }

  // The part of the segment that the file holds, and that can be read.
  predicate Fits(ph: Segment, file: seq<Byte>) {
    ph.filesz > 0 ==> ph.offset < |file| && ph.offset + FileBytes(ph) <= |file|
  }

  // All pages of a segment, allocated.
  function FileSpan(m: Memory, ph: Segment, frames: nat -> seq<Byte>): (r: Memory)
    requires MemoryOk(m) && FramesOk(frames) && ph.memsz > 0
    ensures MemoryOk(r) && Mapped(r, ph.vaddr, FileBytes(ph))
  {
    SpanBacks(m, ph.vaddr, SpaceEnd(ph), FileBytes(ph), frames, ph.vaddr);
    AllocSpan(m, ph.vaddr / PAGE, RoundUp(SpaceEnd(ph), PAGE) / PAGE - ph.vaddr / PAGE, frames)
  }

  // `load_elf`, lines 62-73: the file bytes.
  function PutFile(m: Memory, file: seq<Byte>, ph: Segment, frames: nat -> seq<Byte>): (r: Memory)
    requires MemoryOk(m) && FramesOk(frames) && Fits(ph, file) && ph.memsz > 0
    ensures MemoryOk(r)
  {
    if ph.filesz == 0 then m
    else PokeAll(FileSpan(m, ph, frames), ph.vaddr, file[ph.offset..ph.offset + FileBytes(ph)])
  }

  // Lines 77-82: zeros from `start` to the end of its page.
  function ZeroHead(m: Memory, start: nat, frames: nat -> seq<Byte>): (r: Memory)
    requires MemoryOk(m) && FramesOk(frames)
    ensures MemoryOk(r)
  {
    if start == RoundUp(start, PAGE) then m
    else
      SpanCovers(start, RoundUp(start, PAGE));
      RoundUpFacts(start, PAGE);
      PokeAll(AllocPage(m, start / PAGE, frames), start, Zeros(RoundUp(start, PAGE) - start))
  }

  // Lines 84-89: zeros from the start of the last page to `end`.
  function ZeroTail(m: Memory, end: nat, frames: nat -> seq<Byte>): (r: Memory)
    requires MemoryOk(m) && FramesOk(frames)
    ensures MemoryOk(r)
  {
    var e := RoundDown(end, PAGE);
    if e == end then m
    else
      RoundDownFacts(end, PAGE);
      SpanCovers(e, end);
      PokeAll(AllocPage(m, e / PAGE, frames), e, Zeros(end - e))
  }

  // Lines 75-92.
  function ZeroSpace(m: Memory, start: nat, end: nat, frames: nat -> seq<Byte>): (r: Memory)
    requires MemoryOk(m) && FramesOk(frames)
    ensures MemoryOk(r)
  {
    if start >= end then m
    else
      var first, past := RoundUp(start, PAGE) / PAGE, end / PAGE;
      var m1 := ZeroTail(ZeroHead(m, start, frames), end, frames);
      LazySpanSees(m1, first, if past > first then past - first else 0);
      LazySpan(m1, first, if past > first then past - first else 0)
  }

  function LoadSegment(m: Memory, file: seq<Byte>, ph: Segment, frames: nat -> seq<Byte>): (r: Memory)
    requires MemoryOk(m) && FramesOk(frames) && Fits(ph, file) && ph.memsz > 0
    ensures MemoryOk(r)
  {
    ZeroSpace(PutFile(m, file, ph, frames), SpaceStart(ph), SpaceEnd(ph), frames)
  }

  // The pages from that of `a` up to the next boundary after `b` hold every address between.
  lemma SpanCovers(a: nat, b: nat)
    requires a <= b
    ensures a / PAGE <= RoundUp(b, PAGE) / PAGE
    ensures forall x :: a <= x < b ==> a / PAGE <= x / PAGE < RoundUp(b, PAGE) / PAGE
    ensures b <= a / PAGE * PAGE + PAGE ==> forall x :: a <= x < b ==> x / PAGE == a / PAGE
  {
  }

  // Page `p` has contents of its own.
  predicate Backed(m: Memory, p: nat) {
    p in m && m[p].Filled?
  }

  lemma AllocPageSees(m: Memory, p: nat, frames: nat -> seq<Byte>, x: nat)
    requires MemoryOk(m) && FramesOk(frames) && (Backed(m, p) || x / PAGE != p)
    ensures Seen(AllocPage(m, p, frames), x) == Seen(m, x)
  {
  }

  lemma PutFileSees(m: Memory, file: seq<Byte>, ph: Segment, frames: nat -> seq<Byte>, x: nat)
    requires MemoryOk(m) && FramesOk(frames) && Fits(ph, file) && ph.memsz > 0 && ph.vaddr <= x < SpaceEnd(ph)
    ensures var r := PutFile(m, file, ph, frames);
      && (ph.filesz > 0 ==> Backed(r, x / PAGE))
      && (x < SpaceStart(ph) ==> Seen(r, x) == Some(file[ph.offset + x - ph.vaddr]))
  {
    if ph.filesz > 0 {
      hide FileSpan, Seen, Mapped, MemoryOk, Backed, PokeAll;
      FileSpanBacks(m, ph, frames, x);
      PokeSees(FileSpan(m, ph, frames), ph.vaddr, file, ph.offset, FileBytes(ph), x);
    }
  }

  lemma FileSpanBacks(m: Memory, ph: Segment, frames: nat -> seq<Byte>, x: nat)
    requires MemoryOk(m) && FramesOk(frames) && ph.memsz > 0 && ph.vaddr <= x < SpaceEnd(ph)
    ensures Backed(FileSpan(m, ph, frames), x / PAGE)
  {
    hide AllocSpan, Backed, RoundUp, MemoryOk, Mapped;
    SpanBacks(m, ph.vaddr, SpaceEnd(ph), FileBytes(ph), frames, x);
  }

  lemma SpanBacks(m: Memory, a: nat, b: nat, n: nat, frames: nat -> seq<Byte>, x: nat)
    requires MemoryOk(m) && FramesOk(frames) && a <= x < b && a + n <= b
    ensures a / PAGE <= RoundUp(b, PAGE) / PAGE
    ensures var m1 := AllocSpan(m, a / PAGE, RoundUp(b, PAGE) / PAGE - a / PAGE, frames);
      MemoryOk(m1) && Mapped(m1, a, n) && Backed(m1, x / PAGE)
  {
    SpanCovers(a, b);
    AllocSpanSees(m, a / PAGE, RoundUp(b, PAGE) / PAGE - a / PAGE, frames);
  }

  lemma PokeSees(m: Memory, a: nat, file: seq<Byte>, o: nat, n: nat, x: nat)
    requires MemoryOk(m) && o + n <= |file| && Mapped(m, a, n) && a <= x
    ensures Backed(m, x / PAGE) ==> Backed(PokeAll(m, a, file[o..o + n]), x / PAGE)
    ensures x < a + n ==> Seen(PokeAll(m, a, file[o..o + n]), x) == Some(file[o + x - a])
  {
    PokeBacked(m, a, file[o..o + n], x / PAGE);
    hide PokeAll, Seen;
    if x < a + n { assert file[o..o + n][x - a] == file[o + x - a]; }
  }

  lemma {:induction false} PokeBacked(m: Memory, a: nat, bs: seq<Byte>, p: nat)
    requires MemoryOk(m) && Mapped(m, a, |bs|)
    ensures Backed(m, p) ==> Backed(PokeAll(m, a, bs), p)
    ensures (forall x :: a <= x < a + |bs| ==> x / PAGE != p) && p in m ==> PokeAll(m, a, bs)[p] == m[p]
  {
    if bs != [] {
      var n := |bs| - 1;
      assert bs == bs[..n] + [bs[n]];
      PokeBacked(m, a, bs[..n], p);
      assert (a + n) / PAGE in m;
    }
  }

  lemma ZeroHeadSees(m: Memory, start: nat, frames: nat -> seq<Byte>, x: nat)
    requires MemoryOk(m) && FramesOk(frames)
    ensures var r := ZeroHead(m, start, frames);
      && (start <= x < RoundUp(start, PAGE) ==> Seen(r, x) == Some(0))
      && (x < start && Backed(m, x / PAGE) ==> Seen(r, x) == Seen(m, x) && Backed(r, x / PAGE))
      && (start <= x < RoundUp(start, PAGE) ==> Backed(r, x / PAGE))
  {
    RoundUpFacts(start, PAGE);
    if start != RoundUp(start, PAGE) {
      SpanCovers(start, RoundUp(start, PAGE));
      var m1, z := AllocPage(m, start / PAGE, frames), Zeros(RoundUp(start, PAGE) - start);
      PokeBacked(m1, start, z, x / PAGE);
      if x < start && Backed(m, x / PAGE) { AllocPageSees(m, start / PAGE, frames, x); }
    }
  }

  lemma ZeroTailSees(m: Memory, end: nat, frames: nat -> seq<Byte>, x: nat)
    requires MemoryOk(m) && FramesOk(frames) && x < end
    ensures var r, e := ZeroTail(m, end, frames), RoundDown(end, PAGE);
      if e <= x then Seen(r, x) == Some(0) else Backed(m, x / PAGE) ==> Seen(r, x) == Seen(m, x)
  {
    RoundDownFacts(end, PAGE);
    var e := RoundDown(end, PAGE);
    if e != end {
      SpanCovers(e, end);
      if x < e && Backed(m, x / PAGE) { AllocPageSees(m, e / PAGE, frames, x); }
    }
  }

  // Lazy pages from `first` to `past` read as zeros; the rest is as it was.
  lemma LazySees(m: Memory, first: nat, n: nat, x: nat)
    requires MemoryOk(m)
    ensures Seen(LazySpan(m, first, n), x) == if first <= x / PAGE < first + n then Some(0) else Seen(m, x)
  {
    LazySpanSees(m, first, n);
  }

  // What a segment leaves at each of its addresses: zeros behind the file bytes, but also zeros from
  // the start of the last page on, even where that page holds file bytes.
  lemma SegmentSees(m: Memory, file: seq<Byte>, ph: Segment, frames: nat -> seq<Byte>, x: nat)
    requires MemoryOk(m) && FramesOk(frames) && Fits(ph, file) && ph.memsz > 0 && ph.vaddr <= x < SpaceEnd(ph)
    ensures Seen(LoadSegment(m, file, ph, frames), x) ==
      if x >= SpaceStart(ph) || (SpaceStart(ph) < SpaceEnd(ph) && x >= RoundDown(SpaceEnd(ph), PAGE)) then Some(0)
      else Some(file[ph.offset + x - ph.vaddr])
  {
    var start, end := SpaceStart(ph), SpaceEnd(ph);
    var sa, ea := RoundUp(start, PAGE), RoundDown(end, PAGE);
    var m0 := PutFile(m, file, ph, frames);
    PutFileSees(m, file, ph, frames, x);
    if start < end {
      RoundUpFacts(start, PAGE);
      RoundDownFacts(end, PAGE);
      ZeroHeadSees(m0, start, frames, x);
      var m1 := ZeroHead(m0, start, frames);
      ZeroTailSees(m1, end, frames, x);
      LazySees(ZeroTail(m1, end, frames), sa / PAGE, if end / PAGE > sa / PAGE then end / PAGE - sa / PAGE else 0, x);
      LazyPart(start, end, x);
    }
  }

  // Which addresses the lazy pages hold.
  lemma LazyPart(start: nat, end: nat, x: nat)
    requires x < end
    ensures var first, past := RoundUp(start, PAGE) / PAGE, end / PAGE;
      first <= x / PAGE < past <==> RoundUp(start, PAGE) <= x < RoundDown(end, PAGE)
  {
    RoundUpFacts(start, PAGE);
  }

  // The byte of the file that belongs at address `x`.
  function FileByte(file: seq<Byte>, ph: Segment, x: nat): Byte
    requires Fits(ph, file) && ph.vaddr <= x < SpaceStart(ph)
  {
    file[ph.offset + x - ph.vaddr]
  }

  // The image the ELF specification asks for (System V gABI, chapter 5, "Program Header", PT_LOAD).
  ghost predicate Right(m: Memory, file: seq<Byte>, ph: Segment)
    requires Fits(ph, file)
  {
    forall x: nat :: ph.vaddr <= x < SpaceEnd(ph) ==>
      Seen(m, x) == Some(if x < SpaceStart(ph) then FileByte(file, ph, x) else 0)
  }

  // Nothing but zeros is lost when the last page is cleared from its start.
  ghost predicate Good(ph: Segment, file: seq<Byte>)
    requires Fits(ph, file)
  {
    || ph.filesz == 0 || ph.filesz >= ph.memsz
    || RoundUp(SpaceStart(ph), PAGE) <= RoundDown(SpaceEnd(ph), PAGE)
    || forall x: nat :: ph.vaddr <= x < SpaceStart(ph) && x >= RoundDown(SpaceEnd(ph), PAGE) ==>
        FileByte(file, ph, x) == 0
  }

  // A loaded segment is right exactly when its file part and its end are in different pages, or one
  // of them is empty, or what is cleared by mistake was zero anyway.
  lemma SegmentExact(m: Memory, file: seq<Byte>, ph: Segment, frames: nat -> seq<Byte>)
    requires MemoryOk(m) && FramesOk(frames) && Fits(ph, file) && ph.memsz > 0
    ensures Right(LoadSegment(m, file, ph, frames), file, ph) <==> Good(ph, file)
  {
    hide LoadSegment, Seen, RoundUp, RoundDown;
    var r, ea := LoadSegment(m, file, ph, frames), RoundDown(SpaceEnd(ph), PAGE);
    forall x: nat | ph.vaddr <= x < SpaceEnd(ph)
      ensures Seen(r, x) ==
        if x >= SpaceStart(ph) || (SpaceStart(ph) < SpaceEnd(ph) && x >= ea) then Some(0)
            else Some(FileByte(file, ph, x))
    {
      SegmentSees(m, file, ph, frames, x);
    }
    RoundUpFacts(SpaceStart(ph), PAGE);
    if Right(r, file, ph) {
      forall x: nat | ph.vaddr <= x < SpaceStart(ph) && SpaceStart(ph) < SpaceEnd(ph) && x >= ea
        ensures FileByte(file, ph, x) == 0
      {
        assert Seen(r, x) == Some(FileByte(file, ph, x));
      }
    }
  }

  // ---- other pages ----

  // A segment changes no page outside its own.
  ghost predicate InPages(ph: Segment, x: nat) {
    ph.vaddr / PAGE <= x / PAGE <= (SpaceEnd(ph) - 1) / PAGE
  }

  lemma SegmentElsewhere(m: Memory, file: seq<Byte>, ph: Segment, frames: nat -> seq<Byte>, x: nat)
    requires MemoryOk(m) && FramesOk(frames) && Fits(ph, file) && ph.memsz > 0 && !InPages(ph, x)
    ensures Seen(LoadSegment(m, file, ph, frames), x) == Seen(m, x)
  {
    hide Seen, PutFile, ZeroHead, ZeroTail, LazySpan, RoundUp, RoundDown, Fits;
    var start, end := SpaceStart(ph), SpaceEnd(ph);
    var m0 := PutFile(m, file, ph, frames);
    PutFileElsewhere(m, file, ph, frames, x);
    if start < end {
      PagesBetween(ph.vaddr, start, end, x);
      var m1, first := ZeroHead(m0, start, frames), RoundUp(start, PAGE) / PAGE;
      ZeroHeadElsewhere(m0, start, frames, x);
      ZeroTailElsewhere(m1, end, frames, x);
      LazySees(ZeroTail(m1, end, frames), first, if end / PAGE > first then end / PAGE - first else 0, x);
    }
  }

  // A page outside [a, end) is not that of `start`, nor the last one, nor one between.
  lemma PagesBetween(a: nat, start: nat, end: nat, x: nat)
    requires a <= start < end && !(a / PAGE <= x / PAGE <= (end - 1) / PAGE)
    ensures x / PAGE != start / PAGE && x / PAGE != (end - 1) / PAGE
    ensures !(RoundUp(start, PAGE) / PAGE <= x / PAGE < end / PAGE)
  {
    RoundUpFacts(start, PAGE);
  }

  lemma PutFileElsewhere(m: Memory, file: seq<Byte>, ph: Segment, frames: nat -> seq<Byte>, x: nat)
    requires MemoryOk(m) && FramesOk(frames) && Fits(ph, file) && ph.memsz > 0 && !InPages(ph, x)
    ensures Seen(PutFile(m, file, ph, frames), x) == Seen(m, x)
  {
    hide Seen, FileSpan, MemoryOk, Mapped;
    if ph.filesz > 0 {
      FileSpanElsewhere(m, ph, frames, x);
      PageOfFile(ph, x);
    }
  }

  lemma FileSpanElsewhere(m: Memory, ph: Segment, frames: nat -> seq<Byte>, x: nat)
    requires MemoryOk(m) && FramesOk(frames) && ph.memsz > 0 && !InPages(ph, x)
    ensures Seen(FileSpan(m, ph, frames), x) == Seen(m, x)
  {
    hide Seen, AllocSpan, RoundUp, MemoryOk, Mapped;
    PastStart(ph.vaddr, SpaceEnd(ph));
    PastEnd(SpaceEnd(ph));
    SpanElsewhere(m, ph.vaddr / PAGE, RoundUp(SpaceEnd(ph), PAGE) / PAGE - ph.vaddr / PAGE, frames, x);
  }

  lemma PageOfFile(ph: Segment, x: nat)
    requires ph.memsz > 0 && !InPages(ph, x)
    ensures !(ph.vaddr <= x < SpaceStart(ph))
  {
  }

  lemma PastStart(a: nat, end: nat)
    requires a < end
    ensures a / PAGE <= RoundUp(end, PAGE) / PAGE
  {
  }

  lemma PastEnd(end: nat)
    requires end > 0
    ensures RoundUp(end, PAGE) / PAGE == (end - 1) / PAGE + 1
  {
  }

  lemma SpanElsewhere(m: Memory, p: nat, n: nat, frames: nat -> seq<Byte>, x: nat)
    requires MemoryOk(m) && FramesOk(frames) && !(p <= x / PAGE < p + n)
    ensures Seen(AllocSpan(m, p, n, frames), x) == Seen(m, x)
  {
    AllocSpanSees(m, p, n, frames);
    hide AllocSpan;
  }

  lemma ZeroHeadElsewhere(m: Memory, start: nat, frames: nat -> seq<Byte>, x: nat)
    requires MemoryOk(m) && FramesOk(frames) && x / PAGE != start / PAGE
    ensures Seen(ZeroHead(m, start, frames), x) == Seen(m, x)
  {
    RoundUpFacts(start, PAGE);
    if start != RoundUp(start, PAGE) {
      if start <= x < RoundUp(start, PAGE) { HeadPage(start, x); }
      SpanCovers(start, RoundUp(start, PAGE));
      AllocPageSees(m, start / PAGE, frames, x);
      hide Seen, AllocPage, RoundUp;
    }
  }

  lemma HeadPage(start: nat, x: nat)
    requires start <= x < RoundUp(start, PAGE)
    ensures x / PAGE == start / PAGE
  {
    RoundUpFacts(start, PAGE);
  }

  lemma ZeroTailElsewhere(m: Memory, end: nat, frames: nat -> seq<Byte>, x: nat)
    requires MemoryOk(m) && FramesOk(frames) && end > 0 && x / PAGE != (end - 1) / PAGE
    ensures Seen(ZeroTail(m, end, frames), x) == Seen(m, x)
  {
    RoundDownFacts(end, PAGE);
    var e := RoundDown(end, PAGE);
    if e != end {
      SpanCovers(e, end);
      AllocPageSees(m, e / PAGE, frames, x);
    }
  }
}
