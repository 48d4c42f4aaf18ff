/** The fields of ELF files, as they lie in the file, and what of them the loader reads, accepts and
    loads. */
module ElfFormat {
  import opened Common
  import opened ElfImage
  import opened ElfLoader

  // ---- the file header (`Elf32_Ehdr`) ----

  datatype FileHeader = FileHeader(
    ident: seq<Byte>, etype: nat, machine: nat, version: nat, entry: nat, phoff: nat, shoff: nat, flags: nat,
    ehsize: nat, phentsize: nat, phnum: nat, shentsize: nat, shnum: nat, shstrndx: nat)

  predicate IsHalf(x: nat) { x < 0x1_0000 }

  predicate IsWord(x: nat) { x < WORD }

  predicate HeaderOk(h: FileHeader) {
    && |h.ident| == 16 && IsHalf(h.etype) && IsHalf(h.machine) && IsWord(h.version) && IsWord(h.entry)
    && IsWord(h.phoff) && IsWord(h.shoff) && IsWord(h.flags) && IsHalf(h.ehsize) && IsHalf(h.phentsize)
    && IsHalf(h.phnum) && IsHalf(h.shentsize) && IsHalf(h.shnum) && IsHalf(h.shstrndx)
  }

  function HalfBytes(x: nat): (b: seq<Byte>)
    ensures |b| == 2
  {
    [WordByte(x, 0), WordByte(x, 1)]
  }

  function EncodeFront(h: FileHeader): seq<Byte> {
    h.ident + HalfBytes(h.etype) + HalfBytes(h.machine) + WordBytes(h.version) + WordBytes(h.entry)
    + WordBytes(h.phoff)
  }

  function EncodeBack(h: FileHeader): seq<Byte> {
    WordBytes(h.shoff) + WordBytes(h.flags) + HalfBytes(h.ehsize) + HalfBytes(h.phentsize)
    + HalfBytes(h.phnum) + HalfBytes(h.shentsize) + HalfBytes(h.shnum) + HalfBytes(h.shstrndx)
  }

  function EncodeHeader(h: FileHeader): seq<Byte> {
    EncodeFront(h) + EncodeBack(h)
  }

  lemma HalfRead(b: seq<Byte>, at: nat, x: nat)
    requires at + 2 <= |b| && IsHalf(x) && b[at..at + 2] == HalfBytes(x)
    ensures Half(b, at) == x
  {
    assert b[at] == b[at..at + 2][0] && b[at + 1] == b[at..at + 2][1];
    WordDigits(x);
  }

  lemma WordRead(b: seq<Byte>, at: nat, x: nat)
    requires at + 4 <= |b| && IsWord(x) && b[at..at + 4] == WordBytes(x)
    ensures Word(b, at) == x
  {
    var w := b[at..at + 4];
    assert b[at] == w[0] && b[at + 1] == w[1] && b[at + 2] == w[2] && b[at + 3] == w[3];
    WordOfBytes(b, at, x);
  }

  // Each field of a header is read back from where it lies.
  lemma HeaderFields(h: FileHeader)
    requires HeaderOk(h)
    ensures var b := EncodeHeader(h);
      && |b| == EHDR_SIZE && b[..16] == h.ident && Half(b, 16) == h.etype && Half(b, 18) == h.machine
      && Word(b, 20) == h.version && Word(b, 24) == h.entry && Word(b, 28) == h.phoff
      && Half(b, 42) == h.phentsize && Half(b, 44) == h.phnum
  {
    var b := EncodeHeader(h);
    hide WordBytes, HalfBytes, Half, Word;
    HalfRead(b, 16, h.etype);
    HalfRead(b, 18, h.machine);
    WordRead(b, 20, h.version);
    WordRead(b, 24, h.entry);
    WordRead(b, 28, h.phoff);
    HalfRead(b, 42, h.phentsize);
    HalfRead(b, 44, h.phnum);
  }

  // Every sequence of that length is a header.
  lemma HeaderOnto(b: seq<Byte>) returns (h: FileHeader)
    requires |b| == EHDR_SIZE
    ensures HeaderOk(h) && EncodeHeader(h) == b
  {
    h := FileHeader(b[..16], Half(b, 16), Half(b, 18), Word(b, 20), Word(b, 24), Word(b, 28), Word(b, 32), Word(b, 36),
                    Half(b, 40), Half(b, 42), Half(b, 44), Half(b, 46), Half(b, 48), Half(b, 50));
    HalfBack(b, 16);
    HalfBack(b, 18);
    WordBack(b, 20);
    WordBack(b, 24);
    WordBack(b, 28);
    WordBack(b, 32);
    WordBack(b, 36);
    HalfBack(b, 40);
    HalfBack(b, 42);
    HalfBack(b, 44);
    HalfBack(b, 46);
    HalfBack(b, 48);
    HalfBack(b, 50);
    hide Half, Word, HalfBytes, WordBytes;
    FrontPieces(b);
    BackPieces(b);
    assert b == b[..32] + b[32..];
  }

  lemma FrontPieces(b: seq<Byte>)
    requires |b| == EHDR_SIZE
    ensures b[..16] + b[16..18] + b[18..20] + b[20..24] + b[24..28] + b[28..32] == b[..32]
  {
  }

  lemma BackPieces(b: seq<Byte>)
    requires |b| == EHDR_SIZE
    ensures b[32..36] + b[36..40] + b[40..42] + b[42..44] + b[44..46] + b[46..48] + b[48..50] + b[50..52] == b[32..]
  {
  }

  lemma HalfBack(b: seq<Byte>, at: nat)
    requires at + 2 <= |b|
    ensures HalfBytes(Half(b, at)) == b[at..at + 2]
  {
    var x, y: nat, z: nat := Half(b, at), b[at], b[at + 1];
    assert x == y + 0x100 * z;
    assert x / 0x100 == z;
  }

  lemma WordBack(b: seq<Byte>, at: nat)
    requires at + 4 <= |b|
    ensures WordBytes(Word(b, at)) == b[at..at + 4]
  {
    var w, y, z := Word(b, at), Half(b, at), Half(b, at + 2);
    HalfBack(b, at);
    HalfBack(b, at + 2);
    hide Half, Word;
    assert w == y + 0x1_0000 * z by { WordIs(b, at); }
    HighLow(w, y, z);
    assert WordBytes(w) == HalfBytes(y) + HalfBytes(z);
    assert b[at..at + 4] == b[at..at + 2] + b[at + 2..at + 4];
  }

  lemma WordIs(b: seq<Byte>, at: nat)
    requires at + 4 <= |b|
    ensures Word(b, at) == Half(b, at) + 0x1_0000 * Half(b, at + 2)
  {
  }

  lemma HighLow(w: nat, y: nat, z: nat)
    requires y < 0x1_0000 && z < 0x1_0000 && w == y + 0x1_0000 * z
    ensures WordByte(w, 0) == WordByte(y, 0) && WordByte(w, 1) == WordByte(y, 1)
    ensures WordByte(w, 2) == WordByte(z, 0) && WordByte(w, 3) == WordByte(z, 1)
  {
    assert w / 0x1_0000 == z;
    assert w / 0x100 == y / 0x100 + 0x100 * z;
    assert w / 0x100_0000 == z / 0x100;
  }

  // What the kernel executes: a 32-bit little-endian executable for the 386, of version 1, with an
  // entry point and program headers of the usual size.
  predicate Executable(h: FileHeader)
    requires HeaderOk(h)
  {
    && h.ident[..7] == [0x7F, 0x45, 0x4C, 0x46, 1, 1, 1] && h.etype == 2 && h.machine == 3 && h.version == 1
    && h.entry != 0 && h.phoff != 0 && h.phentsize == 32 && h.phnum != 0
  }

  // `is_header_valid` accepts exactly that.
  lemma AcceptedExact(h: FileHeader)
    requires HeaderOk(h)
    ensures |EncodeHeader(h)| == EHDR_SIZE && (HeaderValid(EncodeHeader(h)) <==> Executable(h))
  {
    HeaderFields(h);
    var b := EncodeHeader(h);
    assert forall k :: 0 <= k < 7 ==> b[k] == b[..16][k] == h.ident[k];
    hide EncodeHeader, Half, Word;
    if HeaderValid(b) { assert h.ident[..7] == [0x7F, 0x45, 0x4C, 0x46, 1, 1, 1]; }
    if Executable(h) { assert forall k :: 0 <= k < 7 ==> h.ident[k] == h.ident[..7][k]; }
  }

  // ---- program headers (`Elf32_Phdr`) ----

  datatype ProgramHeader = ProgramHeader(
    ptype: nat, offset: nat, vaddr: nat, paddr: nat, filesz: nat, memsz: nat, flags: nat, align: nat)

  predicate ProgramOk(p: ProgramHeader) {
    && IsWord(p.ptype) && IsWord(p.offset) && IsWord(p.vaddr) && IsWord(p.paddr)
    && IsWord(p.filesz) && IsWord(p.memsz) && IsWord(p.flags) && IsWord(p.align)
  }

  function EncodeProgram(p: ProgramHeader): (b: seq<Byte>)
    ensures |b| == PHDR_SIZE
  {
    WordBytes(p.ptype) + WordBytes(p.offset) + WordBytes(p.vaddr) + WordBytes(p.paddr)
    + WordBytes(p.filesz) + WordBytes(p.memsz) + WordBytes(p.flags) + WordBytes(p.align)
  }

  function AsSegment(p: ProgramHeader): Segment {
    Segment(p.ptype, p.offset, p.vaddr, p.filesz, p.memsz)
  }

  lemma ProgramFields(p: ProgramHeader)
    requires ProgramOk(p)
    ensures ReadSegment(EncodeProgram(p)) == AsSegment(p)
  {
    var b := EncodeProgram(p);
    hide WordBytes, Half, Word;
    WordRead(b, 0, p.ptype);
    WordRead(b, 4, p.offset);
    WordRead(b, 8, p.vaddr);
    WordRead(b, 16, p.filesz);
    WordRead(b, 20, p.memsz);
  }

  // Program header `p` is number `i` of the file.
  predicate ProgramAt(file: seq<Byte>, phoff: nat, i: nat, p: ProgramHeader) {
    var at := phoff + 32 * i;
    at < WORD && at + 32 <= |file| && file[at..at + 32] == EncodeProgram(p)
  }

  lemma SegmentRead(file: seq<Byte>, phoff: nat, i: nat, p: ProgramHeader)
    requires ProgramOk(p) && ProgramAt(file, phoff, i, p)
    ensures SegmentAt(file, phoff, i) == Some(AsSegment(p))
  {
    hide EncodeProgram, ReadSegment;
    ProgramFields(p);
  }

  // ---- whole files ----

  // A file with header `h` and program headers `ps`.
  ghost predicate Describes(file: seq<Byte>, h: FileHeader, ps: seq<ProgramHeader>) {
    && HeaderOk(h) && |file| >= EHDR_SIZE && file[..EHDR_SIZE] == EncodeHeader(h) && |ps| == h.phnum
    && forall i :: 0 <= i < |ps| ==> ProgramOk(ps[i]) && ProgramAt(file, h.phoff, i, ps[i])
  }

  // To be loaded.
  predicate Wanted(p: ProgramHeader) {
    p.ptype == 1 && p.memsz > 0
  }

  // How many bytes of it come from the file.
  function InFile(p: ProgramHeader): nat {
    if p.filesz < p.memsz then p.filesz else p.memsz
  }

  // In user memory, and its bytes in the file.
  predicate Possible(p: ProgramHeader, size: nat, low: nat) {
    && low <= p.vaddr && p.vaddr + p.memsz <= USER_MEM_HIGH
    && (p.filesz > 0 ==> p.offset < size && p.offset + InFile(p) <= size)
  }

  // What the loop needs of program header `i`.
  ghost predicate Passes(file: seq<Byte>, phoff: nat, i: nat, low: nat) {
    && SegmentAt(file, phoff, i).Some?
    && var q := SegmentAt(file, phoff, i).value;
      Loads(q) ==> low <= q.vaddr && q.vaddr + q.memsz <= USER_MEM_HIGH && Fits(q, file)
  }

  // The loop ends well exactly when every header does, and then has loaded something exactly when
  // some header asks for it.
  lemma {:induction false} LoopExact(m: Memory, file: seq<Byte>, phoff: nat, n: nat, low: nat,
          frames: nat -> seq<Byte>)
    requires MemoryOk(m) && FramesOk(frames)
    ensures var r := LoadFirst(m, file, phoff, n, low, frames);
      && (r.Loaded? <==> forall i :: 0 <= i < n ==> Passes(file, phoff, i, low))
      && (r.Loaded? ==> (r.done <==> exists i :: 0 <= i < n && IsLoad(file, phoff, i)))
    decreases n
  {
    hide LoadSegment, SegmentAt, Fits, MemoryOk;
    if n > 0 {
      LoopExact(m, file, phoff, n - 1, low, frames);
      var r := LoadFirst(m, file, phoff, n - 1, low, frames);
      if r.Loaded? {
        assert Passes(file, phoff, n - 1, low) <==> LoadOne(r.mem, r.done, file, phoff, n - 1, low, frames).Loaded?;
        if IsLoad(file, phoff, n - 1) { assert exists i :: 0 <= i < n && IsLoad(file, phoff, i); }
        if r.done { assert exists i :: 0 <= i < n && IsLoad(file, phoff, i); }
      }
    }
  }

  // Otherwise the first header that does not decides: EIO when it, or what it asks for, is not in the
  // file, and ENOMEM when it asks for memory that is not the user's.
  lemma {:induction false} LoopError(m: Memory, file: seq<Byte>, phoff: nat, n: nat, low: nat,
          frames: nat -> seq<Byte>)
    returns (i: nat)
    requires MemoryOk(m) && FramesOk(frames) && LoadFirst(m, file, phoff, n, low, frames).Failed?
    ensures i < n && !Passes(file, phoff, i, low) && forall j :: 0 <= j < i ==> Passes(file, phoff, j, low)
    ensures LoadFirst(m, file, phoff, n, low, frames).errno ==
      match SegmentAt(file, phoff, i)
      case None => EIO
      case Some(q) => if low <= q.vaddr && q.vaddr + q.memsz <= USER_MEM_HIGH then EIO else ENOMEM
    decreases n
  {
    hide LoadSegment, SegmentAt, Fits, MemoryOk;
    if LoadFirst(m, file, phoff, n - 1, low, frames).Failed? {
      i := LoopError(m, file, phoff, n - 1, low, frames);
    } else {
      LoopExact(m, file, phoff, n - 1, low, frames);
      i := n - 1;
    }
  }

  lemma FieldsPass(file: seq<Byte>, phoff: nat, i: nat, p: ProgramHeader, low: nat)
    requires ProgramOk(p) && ProgramAt(file, phoff, i, p)
    ensures SegmentAt(file, phoff, i) == Some(AsSegment(p)) && (IsLoad(file, phoff, i) <==> Wanted(p))
    ensures Passes(file, phoff, i, low) <==> (Wanted(p) ==> Possible(p, |file|, low))
  {
    SegmentRead(file, phoff, i, p);
    hide SegmentAt, ProgramAt;
  }

  // `load_elf` answers with the entry point of the header exactly when the header is one to execute,
  // some segment is to be loaded, and all that are can be.
  lemma LoadExact(m: Memory, file: seq<Byte>, h: FileHeader, ps: seq<ProgramHeader>, low: nat,
          frames: nat -> seq<Byte>)
    requires MemoryOk(m) && FramesOk(frames) && Describes(file, h, ps)
    ensures LoadResult(m, Some(file), low, frames).Entry? <==>
      Executable(h) && (exists i :: 0 <= i < |ps| && Wanted(ps[i]))
      && forall i :: 0 <= i < |ps| && Wanted(ps[i]) ==> Possible(ps[i], |file|, low)
    ensures LoadResult(m, Some(file), low, frames).Entry? ==> LoadResult(m, Some(file), low, frames).addr == h.entry
    ensures !Executable(h) ==> LoadResult(m, Some(file), low, frames) == Error(ENOEXEC)
  {
    hide Half, Word, EncodeHeader, HeaderValid, ProgramAt, LoadFirst, SegmentAt, Passes, IsLoad,
        Executable, Wanted, Possible;
    HeaderFields(h);
    AcceptedExact(h);
    forall i | 0 <= i < |ps|
      ensures IsLoad(file, h.phoff, i) <==> Wanted(ps[i])
      ensures Passes(file, h.phoff, i, low) <==> (Wanted(ps[i]) ==> Possible(ps[i], |file|, low))
    {
      FieldsPass(file, h.phoff, i, ps[i], low);
    }
    LoopExact(m, file, h.phoff, h.phnum, low, frames);
  }

  // The other answers: no file, a file too short for a header, nothing to load, and the first program
  // header that cannot be.
  lemma LoadErrors(m: Memory, file: seq<Byte>, h: FileHeader, ps: seq<ProgramHeader>, low: nat,
          frames: nat -> seq<Byte>)
    requires MemoryOk(m) && FramesOk(frames)
    ensures LoadResult(m, None, low, frames) == Error(ENOENT)
    ensures |file| < 52 ==> LoadResult(m, Some(file), low, frames) == Error(EIO)
    ensures Describes(file, h, ps) && Executable(h) && (forall i :: 0 <= i < |ps| ==> !Wanted(ps[i])) ==>
      LoadResult(m, Some(file), low, frames) == Error(ENOEXEC)
    ensures Describes(file, h, ps) && Executable(h) ==>
      forall i :: (0 <= i < |ps| && Wanted(ps[i]) && !Possible(ps[i], |file|, low)
                   && forall j :: 0 <= j < i && Wanted(ps[j]) ==> Possible(ps[j], |file|, low)) ==>
        LoadResult(m, Some(file), low, frames) ==
          Error(if low <= ps[i].vaddr && ps[i].vaddr + ps[i].memsz <= USER_MEM_HIGH then EIO else ENOMEM)
  {
    hide Half, Word, EncodeHeader, HeaderValid, ProgramAt, LoadFirst, SegmentAt, Passes, IsLoad, Executable, Wanted;
    if Describes(file, h, ps) && Executable(h) {
      HeaderFields(h);
      AcceptedExact(h);
      forall i | 0 <= i < |ps|
        ensures SegmentAt(file, h.phoff, i) == Some(AsSegment(ps[i])) && (IsLoad(file, h.phoff, i) <==> Wanted(ps[i]))
        ensures Passes(file, h.phoff, i, low) <==> (Wanted(ps[i]) ==> Possible(ps[i], |file|, low))
      {
        FieldsPass(file, h.phoff, i, ps[i], low);
      }
      LoopExact(m, file, h.phoff, h.phnum, low, frames);
      if LoadFirst(m, file, h.phoff, h.phnum, low, frames).Failed? {
        var k := LoopError(m, file, h.phoff, h.phnum, low, frames);
      }
    }
  }

  // The pages of two segments have nothing in common.
  predicate PagesApart(p: ProgramHeader, q: ProgramHeader) {
    (p.vaddr + p.memsz - 1) / PAGE < q.vaddr / PAGE || (q.vaddr + q.memsz - 1) / PAGE < p.vaddr / PAGE
  }

  ghost predicate ByFields(file: seq<Byte>, p: ProgramHeader, r: Memory) {
    && (forall x: nat :: p.vaddr <= x < p.vaddr + InFile(p) && p.offset + (x - p.vaddr) < |file| ==>
          Seen(r, x) == Some(file[p.offset + (x - p.vaddr)]))
    && (forall x: nat :: p.vaddr + InFile(p) <= x < p.vaddr + p.memsz ==> Seen(r, x) == Some(0))
  }

  // After a load without common pages each segment that was asked for is in memory as the fields of
  // its program header say, exactly when its file part and its end are in different pages, or one of
  // them is empty, or the bytes cleared by mistake are zero.
  lemma ImageByFields(m: Memory, file: seq<Byte>, h: FileHeader, ps: seq<ProgramHeader>, low: nat,
          frames: nat -> seq<Byte>, i: nat)
    requires MemoryOk(m) && FramesOk(frames) && Describes(file, h, ps) && i < |ps| && Wanted(ps[i])
    requires LoadResult(m, Some(file), low, frames).Entry?
    requires forall j, k :: 0 <= j < k < |ps| && Wanted(ps[j]) && Wanted(ps[k]) ==> PagesApart(ps[j], ps[k])
    ensures Fits(AsSegment(ps[i]), file)
    ensures ByFields(file, ps[i], LoadedMemory(m, file, low, frames)) <==> Good(AsSegment(ps[i]), file)
  {
    hide Half, Word, EncodeHeader, HeaderValid, ProgramAt, LoadFirst, SegmentAt, Passes, IsLoad, Wanted, Good, Seen;
    HeaderFields(h);
    forall j | 0 <= j < |ps|
      ensures SegmentAt(file, h.phoff, j) == Some(AsSegment(ps[j])) && (IsLoad(file, h.phoff, j) <==> Wanted(ps[j]))
    {
      FieldsPass(file, h.phoff, j, ps[j], low);
    }
    assert AllApart(file, h.phoff, h.phnum);
    LoadElfImage(m, file, low, frames);
    var r := LoadedMemory(m, file, low, frames);
    assert ImageExact(r, file, h.phoff, i);
    RightByFields(r, file, ps[i]);
  }

  lemma RightByFields(r: Memory, file: seq<Byte>, p: ProgramHeader)
    requires Fits(AsSegment(p), file)
    ensures Right(r, file, AsSegment(p)) <==> ByFields(file, p, r)
  {
    hide Seen;
    var q := AsSegment(p);
    assert SpaceStart(q) == p.vaddr + InFile(p) && SpaceEnd(q) == p.vaddr + p.memsz;
  }
}
