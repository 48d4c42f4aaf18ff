/** The paging code itself: a frame stack, counts, tables and directories changed in place. */
module Pager {
  import opened Common
  import opened PageState
  import opened PageSteps
  import opened PageFaults
  import opened PageClone
  import opened PageRuns
  import opened PageBoot

  predicate Frees(s: State, t: nat, i: nat) {
    HasEntry(s, t, i) && (EntryAt(s, t, i).addr == 0 || EntryAt(s, t, i).addr in s.managed)
  }

  ghost function Freed(s: State, t: nat, i: nat): (r: State)
    requires Inv(s) && Frees(s, t, i)
    ensures Inv(r)
  {
    FreeInv(s, t, i);
    FreeAt(s, t, i)
  }

  lemma BootReady(pages: nat, frames: seq<nat>, phys: map<nat, Page>)
    requires BootOk(pages, frames, phys)
    ensures pages > 0 && |SetOf(frames)| == |frames| && Inv(Start(pages, frames, phys))
  {
    SeqAsSet(frames);
    StartInv(pages, frames, phys);
  }

  lemma PageReady(s: State, d: nat, v: nat)
    requires Inv(s) && d in s.dirs && v < ENTRIES * ENTRIES
    ensures |s.dirs[d]| == ENTRIES && (HasPage(s, d, v) <==> s.dirs[d][v / ENTRIES] != 0)
  {
  }

  // `page_fault` by address: a page without a table is refused.
  ghost function FaultOf(s: State, d: nat, v: nat, write: bool, byUser: bool): Outcome
    requires Inv(s) && d in s.dirs && v < ENTRIES * ENTRIES
  {
    if HasPage(s, d, v) then FaultAt(s, TableOf(s, d, v), v % ENTRIES, write, byUser) else Refused
  }

  lemma FaultReady(s: State, d: nat, v: nat, write: bool, byUser: bool)
    requires Inv(s) && d in s.dirs && v < ENTRIES * ENTRIES
    ensures |s.dirs[d]| == ENTRIES && (HasPage(s, d, v) <==> s.dirs[d][v / ENTRIES] != 0)
    ensures HasPage(s, d, v) ==>
      var e := EntryAt(s, s.dirs[d][v / ENTRIES], v % ENTRIES);
      e.present && e.addr in s.refCnt ==> e.addr in s.phys
    ensures FaultOf(s, d, v, write, byUser).Resolved? ==> Inv(FaultOf(s, d, v, write, byUser).state)
  {
    PageReady(s, d, v);
    var t, i := s.dirs[d][v / ENTRIES], v % ENTRIES;
    if t != 0 {
      EntryFacts(s, t, i);
      hide Inv, FaultAt, Local, Served;
      if FaultAt(s, t, i, write, byUser).Resolved? { FaultEffect(s, t, i, write, byUser); }
    }
  }

  // How a step ends; the last two are the code's panics.
  datatype Verdict = Done | NoFrame | BadAccess

  // ---- what the methods below need ----

  lemma NewTableReady(s: State, src: nat)
    requires Inv(s) && src in s.tables && src !in s.boot
    ensures var s1 := NewTable(s);
      && Inv(s1) && src in s1.tables && s.next in s1.tables && src != s.next && src !in s1.boot && s.next !in s1.boot
      && s1.tables[s.next] == Copies(NO_ENTRY, ENTRIES)
  {
    NewTableInv(s);
  }

  lemma {:induction false} LazySpanPrefix(s: State, d: nat, v: nat, k: nat, n: nat, user: bool, rw: bool, fill: bool)
    requires Inv(s) && d in s.dirs && k <= n && v + n <= ENTRIES * ENTRIES && LazySpan(s, d, v, n, user, rw, fill).Some?
    ensures LazySpan(s, d, v, k, user, rw, fill).Some?
    decreases n
  {
    hide Inv, LazyAllocStep;
    if k < n { LazySpanPrefix(s, d, v, k, n - 1, user, rw, fill); }
  }

  lemma LazySpanNone(s: State, d: nat, v: nat, user: bool, rw: bool, fill: bool)
    requires Inv(s) && d in s.dirs && v <= ENTRIES * ENTRIES
    ensures LazySpan(s, d, v, 0, user, rw, fill) == Some(s)
  {
    hide Inv;
  }

  // One round of the loop.
  lemma LazySpanNext(s: State, d: nat, v: nat, k: nat, n: nat, user: bool, rw: bool, fill: bool)
    requires Inv(s) && d in s.dirs && k < n && v + n <= ENTRIES * ENTRIES
    requires LazySpan(s, d, v, n, user, rw, fill).Some? && LazySpan(s, d, v, k, user, rw, fill).Some?
    ensures var r := LazySpan(s, d, v, k, user, rw, fill).value;
      && d in r.dirs && |r.dirs[d]| == ENTRIES
      && var s1 := MakeTable(r, d, (v + k) / ENTRIES);
        && d in s1.dirs && |s1.dirs[d]| == ENTRIES && HasEntry(s1, s1.dirs[d][(v + k) / ENTRIES], (v + k) % ENTRIES)
        && LazySpan(s, d, v, k + 1, user, rw, fill)
           == Some(LazyAllocAt(s1, s1.dirs[d][(v + k) / ENTRIES], (v + k) % ENTRIES, user, rw, fill))
  {
    hide Inv, MakeTable, LazyAllocAt, LazyAllocStep, Sees, HasEntry;
    LazySpanPrefix(s, d, v, k + 1, n, user, rw, fill);
    assert d in LazySpan(s, d, v, k, user, rw, fill).value.dirs.Keys;
    LazyStepIs(LazySpan(s, d, v, k, user, rw, fill).value, d, v + k, user, rw, fill);
  }

  lemma LazyStepIs(s: State, d: nat, v: nat, user: bool, rw: bool, fill: bool)
    requires Inv(s) && d in s.dirs && v < ENTRIES * ENTRIES && LazyAllocStep(s, d, v, user, rw, fill).Some?
    ensures var s1 := MakeTable(s, d, v / ENTRIES);
      && d in s1.dirs && |s1.dirs[d]| == ENTRIES && HasEntry(s1, s1.dirs[d][v / ENTRIES], v % ENTRIES)
      && LazyAllocStep(s, d, v, user, rw, fill).value
            == LazyAllocAt(s1, s1.dirs[d][v / ENTRIES], v % ENTRIES, user, rw, fill)
    ensures |s.dirs[d]| == ENTRIES
  {
    MadePage(s, d, v);
  }

  lemma FreePageReady(s: State, d: nat, v: nat)
    requires Inv(s) && d in s.dirs && v < ENTRIES * ENTRIES && s.low <= v / ENTRIES
    ensures |s.dirs[d]| == ENTRIES && (HasPage(s, d, v) <==> s.dirs[d][v / ENTRIES] != 0)
    ensures FreeStep(s, d, v).Some? <==> HasPage(s, d, v) && EntryAt(s, s.dirs[d][v / ENTRIES], v % ENTRIES).present
    ensures FreeStep(s, d, v).Some? ==>
      var t, i := s.dirs[d][v / ENTRIES], v % ENTRIES;
      Frees(s, t, i) && FreeStep(s, d, v).value == Freed(s, t, i)
  {
    PageReady(s, d, v);
    var t, i := s.dirs[d][v / ENTRIES], v % ENTRIES;
    if t != 0 { EntryFacts(s, t, i); }
  }

  lemma FreeSpanNone(s: State, d: nat, v: nat)
    requires Inv(s) && d in s.dirs && v <= ENTRIES * ENTRIES
    ensures FreeSpan(s, d, v, 0) == s
  {
  }

  lemma FreeSpanNext(s: State, d: nat, v: nat, k: nat)
    requires Inv(s) && d in s.dirs && v + k < ENTRIES * ENTRIES && s.low <= v / ENTRIES
    ensures var r, slot, i := FreeSpan(s, d, v, k), (v + k) / ENTRIES, (v + k) % ENTRIES;
      && Inv(r) && d in r.dirs && |r.dirs[d]| == ENTRIES && (r.dirs[d][slot] != 0 ==> HasEntry(r, r.dirs[d][slot], i))
      && if r.dirs[d][slot] != 0 && EntryAt(r, r.dirs[d][slot], i).present
         then Frees(r, r.dirs[d][slot], i) && FreeSpan(s, d, v, k + 1) == Freed(r, r.dirs[d][slot], i)
         else FreeSpan(s, d, v, k + 1) == r
  {
    hide Inv, FreeStep, Frees, Freed;
    var r := FreeSpan(s, d, v, k);
    assert d in r.dirs.Keys;
    FreePageReady(r, d, v + k);
  }

  lemma CloneSlotsNext(s: State, d: nat, dst: Directory, n: nat)
    requires Inv(s) && d in s.dirs && s.low <= n < HEAP_SLOT && |dst| == ENTRIES
    ensures var (s1, dst1) := CloneSlots(s, d, dst, n);
      && Inv(s1) && d in s1.dirs && |s1.dirs[d]| == ENTRIES && |dst1| == ENTRIES
      && if s1.dirs[d][n] == 0 then CloneSlots(s, d, dst, n + 1) == (s1, dst1)
         else s1.dirs[d][n] in s1.tables && s1.dirs[d][n] !in s1.boot
              && CloneSlots(s, d, dst, n + 1) == (PageClone.CloneTable(s1, s1.dirs[d][n]), SetSlot(dst1, n, s1.next))
  {
    hide CountsOk, StackOk, EntriesOk, Exclusive, FixedOnce, DirsOk, SlotsCloned, Kept, PageClone.CloneTable;
    var (s1, dst1) := CloneSlots(s, d, dst, n);
    if s1.dirs[d][n] != 0 { SlotReady(s1, d, n); }
  }

  lemma ForkReady(s: State, src: nat, cur: nat)
    requires Inv(s) && src in s.dirs && cur in s.dirs
    ensures |s.dirs[src]| == ENTRIES && s.low <= HEAP_SLOT && Inv(s.(next := s.next + 1))
    ensures ForkAt(s, src, cur).Some? <==> WithStack(s.(next := s.next + 1), cur).Some?
    ensures ForkAt(s, src, cur).Some? ==> Inv(ForkAt(s, src, cur).value)
  {
    NextInv(s, s.(next := s.next + 1));
    assert |s.dirs[src]| == ENTRIES && s.low <= HEAP_SLOT;
    hide CountsOk, StackOk, EntriesOk, Exclusive, FixedOnce, DirsOk, Kept, WithStack, ForkAt;
    WithStackEffect(s.(next := s.next + 1), cur);
    ForkEffect(s, src, cur);
  }

  // `r` and `dst` are what cloning directory `src` in `s` leads to, before `dst` is registered.
  ghost predicate Built(s: State, src: nat, cur: nat, r: State, dst: Directory)
    requires Inv(s)
  {
    && src in s.dirs && |s.dirs[src]| == ENTRIES && s.low <= HEAP_SLOT && cur in s.dirs && WithStack(s, cur).Some?
    && var s1 := WithStack(s, cur).value;
      && Inv(s1) && s1.dirs == s.dirs
      && (r, dst) == CloneSlots(s1, src, SetSlot(Linked(s.dirs[src], s.low), STACK_SLOT, s.next), HEAP_SLOT)
  }

  lemma StackReady(s: State, cur: nat)
    requires Inv(s) && cur in s.dirs
    ensures WithStack(s, cur).Some? ==>
      var s1 := WithStack(s, cur).value; Inv(s1) && s1.dirs == s.dirs && s1.low == s.low
  {
    hide Inv, Kept;
    WithStackEffect(s, cur);
    if WithStack(s, cur).Some? { KeptSame(s, WithStack(s, cur).value); }
  }

  lemma BuiltFork(s: State, src: nat, cur: nat, r: State, dst: Directory)
    requires Inv(s) && src in s.dirs && cur in s.dirs && Inv(s.(next := s.next + 1))
    requires Built(s.(next := s.next + 1), src, cur, r, dst)
    ensures ForkAt(s, src, cur) == Some(r.(dirs := r.dirs[s.next := dst]))
    ensures r.dirs == s.dirs
  {
    ForkUnfold(s, src, cur);
    hide Inv, WithStack, CloneSlots, ForkAt;
    var s0 := s.(next := s.next + 1);
    CloneSlotsDirs(WithStack(s0, cur).value, src, SetSlot(Linked(s.dirs[src], s.low), STACK_SLOT, s0.next));
  }

  lemma CloneSlotsDirs(s: State, d: nat, dst: Directory)
    requires Inv(s) && d in s.dirs && |dst| == ENTRIES
    ensures CloneSlots(s, d, dst, HEAP_SLOT).0.dirs == s.dirs
  {
  }

  lemma ForkUnfold(s: State, src: nat, cur: nat)
    requires Inv(s) && src in s.dirs && cur in s.dirs && |s.dirs[src]| == ENTRIES && s.low <= HEAP_SLOT
    requires Inv(s.(next := s.next + 1))
    ensures ForkAt(s, src, cur).Some? <==> WithStack(s.(next := s.next + 1), cur).Some?
    ensures ForkAt(s, src, cur).Some? ==>
      var s1, dst0 := WithStack(s.(next := s.next + 1), cur).value,
          SetSlot(Linked(s.dirs[src], s.low), STACK_SLOT, s.next + 1);
      && |dst0| == ENTRIES && Inv(s1) && s1.dirs == s.dirs
      && var r := CloneSlots(s1, src, dst0, HEAP_SLOT);
         ForkAt(s, src, cur).value == r.0.(dirs := r.0.dirs[s.next := r.1])
  {
    hide Inv, WithStack, CloneSlots, SlotsDone, Kept, StackTable;
    WithStackEffect(s.(next := s.next + 1), cur);
  }

  lemma CloneEntriesZero(s: State, src: nat, dst: nat)
    requires Inv(s) && src in s.tables && dst in s.tables && src != dst && src !in s.boot && dst !in s.boot
    requires s.tables[dst] == Copies(NO_ENTRY, ENTRIES)
    ensures CloneEntries(s, src, dst, 0) == s
  {
    hide Inv;
  }

  lemma CloneEntriesNext(s: State, src: nat, dst: nat, i: nat)
    requires Inv(s) && src in s.tables && dst in s.tables && src != dst && src !in s.boot && dst !in s.boot
    requires i < ENTRIES
    requires s.tables[dst] == Copies(NO_ENTRY, ENTRIES)
    ensures var r := CloneEntries(s, src, dst, i);
      && Inv(r) && HasEntry(r, src, i) && HasEntry(r, dst, i)
      && (EntryAt(r, src, i).addr != 0 ==> EntryAt(r, src, i).addr in r.refCnt)
      && CloneEntries(s, src, dst, i + 1) == CloneAt(r, src, dst, i)
  {
    hide Inv, ClonedUpTo;
    var r := CloneEntries(s, src, dst, i);
    CloneReady(s, r, src, dst, i);
    CloneInv(r, src, dst, i);
  }

  // `alloc` changes no table's size and no frame's contents.
  lemma AllocEntry(s: State, t: nat, i: nat, user: bool, rw: bool)
    requires HasEntry(s, t, i)
    ensures AllocAt(s, t, i, user, rw).Some? ==>
      HasEntry(AllocAt(s, t, i, user, rw).value, t, i) && AllocAt(s, t, i, user, rw).value.phys == s.phys
  {
  }

  lemma StackRoom(q: seq<nat>, f: nat, managed: set<nat>)
    requires NoDup(q) && (forall g :: g in q ==> g in managed && g != f) && f in managed
    ensures |q| < |managed|
  {
    SeqAsSet(q);
    SubsetSize(SetOf(q), managed - {f});
  }

  // ---- the code ----

  class Paging {
    var stack: array<nat>
    var nframes: nat
    var refCnt: map<nat, nat>
    var phys: map<nat, Page>
    var tables: map<nat, Table>
    var dirs: map<nat, Directory>
    var next: nat
    var current: nat
    const low: nat
    ghost const managed: set<nat>
    ghost const boot: set<nat>

    ghost predicate Shape()
      reads this, stack
    {
      nframes <= stack.Length && |managed| <= stack.Length
    }

    ghost function S(): State
      reads this, stack
      requires Shape()
    {
      State(stack[..nframes], refCnt, phys, tables, dirs, managed, low, boot, next)
    }

    ghost predicate Valid()
      reads this, stack
    {
      Shape() && Inv(S())
    }

    // What `Page::init` leaves: the kernel mapped where it is loaded, and the usable frames on the stack.
    constructor (pages: nat, frames: seq<nat>, phys: map<nat, Page>)
      requires BootOk(pages, frames, phys)
      ensures Valid() && S() == Start(pages, frames, phys) && current == BOOT_DIR
    {
      hide Inv, BootOk;
      BootReady(pages, frames, phys);
      stack := new nat[|frames|](i requires 0 <= i < |frames| => frames[i]);
      nframes, refCnt, this.phys, next, current := |frames|, NoCounts(frames), phys, BOOT_DIR + 1, BOOT_DIR;
      low := LowSlots(pages);
      tables := BootTables(LowSlots(pages), pages, ENTRIES);
      dirs := map[BOOT_DIR := BootDirectory(LowSlots(pages))];
      managed, boot := SetOf(frames), BootIds(LowSlots(pages));
      new;
      assert stack[..nframes] == frames;
    }

    // `frames[-- nframes]`.
    method PopFrame() returns (f: nat)
      requires Shape() && nframes > 0
      modifies `nframes
      ensures Shape() && S() == old(S()).(frames := old(S()).frames[..old(nframes) - 1])
      ensures f == old(S()).frames[old(nframes) - 1]
    {
      nframes := nframes - 1;
      f := stack[nframes];
      assert stack[..nframes] == old(stack[..nframes])[..nframes];
    }

    // `frames[nframes ++] = f`: the stack has room for every managed frame that is not on it.
    method PushFrame(f: nat)
      requires Shape() && NoDup(S().frames) && (forall g :: g in S().frames ==> g in managed && g != f) && f in managed
      modifies `nframes, stack
      ensures Shape() && S() == old(S()).(frames := old(S()).frames + [f])
    {
      StackRoom(S().frames, f, managed);
      stack[nframes] := f;
      nframes := nframes + 1;
      assert stack[..nframes] == old(stack[..nframes]) + [f];
    }

    // `Table_entry_t::alloc`.
    method Alloc(t: nat, i: nat, user: bool, rw: bool) returns (ok: bool)
      requires Shape() && HasEntry(S(), t, i)
      modifies `tables, `refCnt, `nframes
      ensures Shape() && ok == AllocAt(old(S()), t, i, user, rw).Some?
      ensures ok ==> S() == AllocAt(old(S()), t, i, user, rw).value
    {
      var e := tables[t][i].(rw := rw, user := user);
      ok := true;
      if e.addr == 0 {
        if nframes == 0 {
          ok := false;
          return;
        }
        var f := PopFrame();
        refCnt := refCnt[f := 1];
        e := e.(addr := f, allocable := true, present := true);
      }
      tables := tables[t := tables[t][i := e]];
    }

    // `Table_entry_t::fill_uint32(0)`.
    method FillZero(t: nat, i: nat)
      requires Shape() && HasEntry(S(), t, i)
      modifies `phys
      ensures Shape() && S() == ZeroAt(old(S()), t, i)
    {
      phys := phys[tables[t][i].addr := ZeroPage()];
    }

    // `Table_entry_t::lazy_alloc`.
    method LazyAlloc(t: nat, i: nat, user: bool, rw: bool, fill: bool)
      requires Shape() && HasEntry(S(), t, i)
      modifies `tables, `phys
      ensures Shape() && S() == LazyAllocAt(old(S()), t, i, user, rw, fill)
    {
      var e := tables[t][i].(rw := rw, user := user);
      if e.addr == 0 {
        e := e.(allocable := true, fill := fill);
        tables := tables[t := tables[t][i := e]];
      } else {
        tables := tables[t := tables[t][i := e]];
        if fill { FillZero(t, i); }
      }
    }

    // `Table_entry_t::free`.
    method Free(t: nat, i: nat)
      requires Valid() && Frees(S(), t, i)
      modifies `tables, `refCnt, `nframes, stack
      ensures Valid() && S() == Freed(old(S()), t, i)
    {
      FreeInv(S(), t, i);
      EntryFacts(S(), t, i);
      var e := tables[t][i];
      if e.addr != 0 {
        assert e.addr !in S().frames;
        refCnt := refCnt[e.addr := refCnt[e.addr] - 1];
        if refCnt[e.addr] == 0 { PushFrame(e.addr); }
        tables := tables[t := tables[t][i := e.(addr := 0, present := false, allocable := false)]];
      }
    }

    // `page_fault` at page `v` of directory `d`; a verdict other than `Done` is a panic.
    method PageFault(d: nat, v: nat, write: bool, byUser: bool) returns (o: Verdict)
      requires Valid() && d in dirs && v < ENTRIES * ENTRIES
      modifies `tables, `refCnt, `nframes, `phys
      ensures Shape() && (o.Done? <==> FaultOf(old(S()), d, v, write, byUser).Resolved?)
      ensures o.NoFrame? <==> FaultOf(old(S()), d, v, write, byUser).OutOfFrames?
      ensures o.Done? ==> S() == FaultOf(old(S()), d, v, write, byUser).state && Valid()
    {
      ghost var s := S();
      hide Inv, AllocAt, ZeroAt, UnshareAt;
      FaultReady(s, d, v, write, byUser);
      var t, i := dirs[d][v / ENTRIES], v % ENTRIES;
      if t == 0 { return BadAccess; }
      var e := tables[t][i];
      if !e.allocable || (!e.user && byUser) { return BadAccess; }
      if !e.present {
        var ok := Demand(t, i);
        return if ok then Done else NoFrame;
      }
      if !write || !e.user || e.addr == 0 || e.addr !in refCnt || refCnt[e.addr] == 0 { return BadAccess; }
      if refCnt[e.addr] == 1 {
        tables := tables[t := tables[t][i := e.(rw := true)]];
      } else {
        var ok := Unshare(t, i);
        if !ok { return NoFrame; }
      }
      return Done;
    }

    // The lazy branch of `page_fault`.
    method Demand(t: nat, i: nat) returns (ok: bool)
      requires Shape() && HasEntry(S(), t, i)
      modifies `tables, `refCnt, `nframes, `phys
      ensures Shape() && ok == AllocAt(old(S()), t, i, old(tables[t][i]).user, old(tables[t][i]).rw).Some?
      ensures ok ==>
        var s1 := AllocAt(old(S()), t, i, old(tables[t][i]).user, old(tables[t][i]).rw).value;
        S() == if old(tables[t][i]).fill then ZeroAt(s1, t, i) else s1
    {
      ok := Alloc(t, i, tables[t][i].user, tables[t][i].rw);
      if ok && tables[t][i].fill { FillZero(t, i); }
    }

    // The copy-on-write branch of `page_fault`: the entry leaves its frame for a copy.
    method Unshare(t: nat, i: nat) returns (ok: bool)
      requires Shape() && HasEntry(S(), t, i)
      requires var a := tables[t][i].addr; a in refCnt && refCnt[a] > 0 && a in phys
      modifies `tables, `refCnt, `nframes, `phys
      ensures Shape() && ok == UnshareAt(old(S()), t, i).Some?
      ensures ok ==> S() == UnshareAt(old(S()), t, i).value
    {
      hide AllocAt;
      var e := tables[t][i];
      refCnt := refCnt[e.addr := refCnt[e.addr] - 1];
      tables := tables[t := tables[t][i := e.(addr := 0)]];
      AllocEntry(S(), t, i, true, true);
      ok := Alloc(t, i, true, true);
      if ok { phys := phys[tables[t][i].addr := phys[e.addr]]; }
    }

    // A load or store of the processor: it faults and is tried again until it goes through.
    method Access(d: nat, v: nat, write: bool, byUser: bool) returns (o: Verdict, faults: nat)
      requires Valid() && d in dirs && v < ENTRIES * ENTRIES
      modifies `tables, `refCnt, `nframes, `phys
      ensures Shape() && (o.Done? <==> AccessStep(old(S()), d, v, write, byUser).Some?)
      ensures o.Done? ==> S() == AccessStep(old(S()), d, v, write, byUser).value && Valid()
      ensures faults <= 2
    {
      ghost var s := S();
      PageReady(s, d, v);
      var t, i := dirs[d][v / ENTRIES], v % ENTRIES;
      faults := 0;
      if t == 0 { return BadAccess, 0; }
      hide Inv;
      while !Permitted(tables[t][i], write, byUser)
        invariant Valid() && HasPage(S(), d, v) && dirs[d][v / ENTRIES] == t
        invariant AccessAt(S(), t, i, write, byUser) == AccessAt(s, t, i, write, byUser)
        invariant faults + Missing(tables[t][i]) <= 2
        decreases Missing(tables[t][i])
      {
        if FaultAt(S(), t, i, write, byUser).Resolved? {
          FaultEffect(S(), t, i, write, byUser);
        }
        o := PageFault(d, v, write, byUser);
        if !o.Done? { return o, faults; }
        faults := faults + 1;
      }
      return Done, faults;
    }

    // One word stored through page `v` of directory `d`.
    method Store(d: nat, v: nat, off: nat, val: nat, byUser: bool) returns (o: Verdict)
      requires Valid() && d in dirs && v < ENTRIES * ENTRIES && off < ENTRIES
      modifies `tables, `refCnt, `nframes, `phys
      ensures Shape() && (o.Done? <==> WriteStep(old(S()), d, v, off, val, byUser).Some?)
      ensures o.Done? ==> S() == WriteStep(old(S()), d, v, off, val, byUser).value && Valid()
    {
      ghost var s := S();
      var faults;
      o, faults := Access(d, v, true, byUser);
      if !o.Done? { return; }
      AccessChanged(s, d, v, true, byUser);
      var t, i := dirs[d][v / ENTRIES], v % ENTRIES;
      StoreEffect(S(), t, i, off, val);
      hide Inv;
      var p: Page := phys[tables[t][i].addr][off := val];
      phys := phys[tables[t][i].addr := p];
    }

    // One word loaded: what the directory shows at the page, once it is there.
    method Load(d: nat, v: nat, off: nat, byUser: bool) returns (o: Verdict, val: nat)
      requires Valid() && d in dirs && v < ENTRIES * ENTRIES && off < ENTRIES
      modifies `tables, `refCnt, `nframes, `phys
      ensures Shape() && (o.Done? <==> AccessStep(old(S()), d, v, false, byUser).Some?)
      ensures o.Done? ==> S() == AccessStep(old(S()), d, v, false, byUser).value && Valid()
      ensures o.Done? ==> WordAt(S(), d, v, off) == Is(val)
    {
      ghost var s := S();
      var faults;
      o, faults := Access(d, v, false, byUser);
      if !o.Done? { return o, 0; }
      AccessChanged(s, d, v, false, byUser);
      PageSize(S(), d, v);
      SeesShows(S(), d, v);
      EntryFacts(S(), dirs[d][v / ENTRIES], v % ENTRIES);
      val := phys[tables[dirs[d][v / ENTRIES]][v % ENTRIES].addr][off];
    }

    // A zeroed table.
    method MakeEmpty() returns (t: nat)
      requires Shape()
      modifies `tables, `next
      ensures Shape() && S() == NewTable(old(S())) && t == old(next)
    {
      t := next;
      tables := tables[t := Copies(NO_ENTRY, ENTRIES)];
      next := next + 1;
    }

    // `get_page`; 0 for no page.
    method GetPage(d: nat, v: nat, make: bool) returns (t: nat)
      requires Valid() && d in dirs && v < ENTRIES * ENTRIES
      modifies `tables, `next, `dirs
      ensures Valid() && S() == (if make then MakeTable(old(S()), d, v / ENTRIES) else old(S()))
      ensures d in dirs && |dirs[d]| == ENTRIES && t == dirs[d][v / ENTRIES] && (make ==> HasPage(S(), d, v))
    {
      hide Inv;
      PageReady(S(), d, v);
      if make { MadePage(S(), d, v); }
      t := dirs[d][v / ENTRIES];
      if t == 0 && make {
        t := MakeEmpty();
        dirs := dirs[d := SetSlot(dirs[d], v / ENTRIES, t)];
      }
    }

    // One round of `clone_table`.
    method CloneEntry(src: nat, dst: nat, i: nat)
      requires Shape() && HasEntry(S(), src, i) && HasEntry(S(), dst, i) && src != dst
      requires tables[src][i].addr != 0 ==> tables[src][i].addr in refCnt
      modifies `tables, `refCnt
      ensures Shape() && S() == CloneAt(old(S()), src, dst, i)
    {
      var e := tables[src][i];
      if e.addr != 0 {
        e := e.(rw := false);
        tables := tables[src := tables[src][i := e]];
        tables := tables[dst := tables[dst][i := e]];
        refCnt := refCnt[e.addr := refCnt[e.addr] + 1];
      } else {
        tables := tables[dst := tables[dst][i := e]];
      }
    }

    // `clone_table`.
    method CloneTable(src: nat) returns (dst: nat)
      requires Valid() && src in tables && src !in boot
      modifies `tables, `refCnt, `next
      ensures Valid() && S() == PageClone.CloneTable(old(S()), src) && dst == old(next)
    {
      hide Inv, ClonedUpTo, CloneEntries, CloneAt, NewTable;
      NewTableReady(S(), src);
      dst := MakeEmpty();
      ghost var s := S();
      CloneEntriesZero(s, src, dst);
      for i := 0 to ENTRIES
        invariant Shape() && S() == CloneEntries(s, src, dst, i)
      {
        CloneEntriesNext(s, src, dst, i);
        CloneEntry(src, dst, i);
      }
    }

    // The tables `clone_directory` links.
    method LinkShared(src: nat) returns (dst: Directory)
      requires src in dirs && |dirs[src]| == ENTRIES && low <= HEAP_SLOT
      ensures dst == Linked(dirs[src], low)
    {
      var links: seq<nat> := Copies(0, ENTRIES);
      for i := 0 to low
        invariant |links| == ENTRIES
        invariant forall j :: 0 <= j < ENTRIES ==> links[j] == if j < i then dirs[src][j] else 0
      {
        links := links[i := dirs[src][i]];
      }
      for i := HEAP_SLOT to STACK_SLOT
        invariant |links| == ENTRIES
        invariant forall j :: 0 <= j < ENTRIES ==> links[j] == if j < low || HEAP_SLOT <= j < i then dirs[src][j] else 0
      {
        links := links[i := dirs[src][i]];
      }
      dst := links;
    }

    // `get_physical_addr` without `alloc`, as a frame; 0 for none.
    method PhysicalFrame(d: nat, v: nat) returns (f: nat)
      requires Valid() && d in dirs && v < ENTRIES * ENTRIES
      ensures f == FrameOf(S(), d, v)
    {
      PageReady(S(), d, v);
      hide Inv;
      var t := dirs[d][v / ENTRIES];
      return if t != 0 then tables[t][v % ENTRIES].addr else 0;
    }

    // A stack page for a new directory, copied from the current one; its table, or none.
    method CopyStack() returns (t: Option<nat>)
      requires Valid() && current in dirs
      modifies `tables, `refCnt, `nframes, `phys, `next
      ensures Shape() && (t.Some? <==> WithStack(old(S()), current).Some?)
      ensures t.Some? ==> S() == WithStack(old(S()), current).value && t.value == old(next)
    {
      hide Inv, AllocAt, FrameOf;
      StackSource(S(), current);
      var f := PhysicalFrame(current, STACK_PAGE);
      AllocEntry(NewTable(S()), next, STACK_INDEX, false, true);
      var stackTable := MakeEmpty();
      var ok := Alloc(stackTable, STACK_INDEX, false, true);
      if !ok { return None; }
      phys := phys[tables[stackTable][STACK_INDEX].addr := phys[f]];
      return Some(stackTable);
    }

    // The copy-on-write slots.
    method CloneMiddle(src: nat, dst0: Directory) returns (dst: Directory)
      requires Valid() && src in dirs && |dst0| == ENTRIES && low <= HEAP_SLOT
      modifies `tables, `refCnt, `next
      ensures Valid() && (S(), dst) == CloneSlots(old(S()), src, dst0, HEAP_SLOT)
    {
      hide Inv, PageClone.CloneTable, SlotsCloned, Kept;
      ghost var s := S();
      dst := dst0;
      for i := low to HEAP_SLOT
        invariant Valid() && dirs == old(dirs) && (S(), dst) == CloneSlots(s, src, dst0, i)
      {
        CloneSlotsNext(s, src, dst0, i);
        if dirs[src][i] != 0 {
          var t := CloneTable(dirs[src][i]);
          dst := SetSlot(dst, i, t);
        }
      }
    }

    // The tables of a new directory.
    method BuildDirectory(src: nat) returns (dst: Option<Directory>)
      requires Valid() && src in dirs && current in dirs && |dirs[src]| == ENTRIES && low <= HEAP_SLOT
      modifies `tables, `refCnt, `nframes, `phys, `next
      ensures Shape() && (dst.Some? <==> WithStack(old(S()), current).Some?)
      ensures dst.Some? ==> Built(old(S()), src, current, S(), dst.value)
    {
      hide Inv, WithStack, CloneSlots, SlotsDone, Kept, Linked, SetSlot, Shared;
      StackReady(S(), current);
      var links := LinkShared(src);
      var t := CopyStack();
      if t.None? { return None; }
      links := SetSlot(links, STACK_SLOT, t.value);
      links := CloneMiddle(src, links);
      return Some(links);
    }

    // `clone_directory`; none is the panic for want of a frame.
    method CloneDirectory(src: nat) returns (child: Option<nat>)
      requires Valid() && src in dirs && current in dirs
      modifies `tables, `refCnt, `nframes, `phys, `next, `dirs
      ensures Shape() && (child.Some? <==> ForkAt(old(S()), src, current).Some?)
      ensures child.Some? ==> Valid() && S() == ForkAt(old(S()), src, current).value && child.value == old(next)
    {
      hide Inv, WithStack, CloneSlots, ForkAt, Built, SlotsDone, Linked, SetSlot, Kept;
      ghost var s := S();
      ForkReady(s, src, current);
      var d := next;
      next := next + 1;
      var dst := BuildDirectory(src);
      if dst.None? { return None; }
      BuiltFork(s, src, current, S(), dst.value);
      assert ForkAt(s, src, current).value == S().(dirs := S().dirs[d := dst.value]);
      dirs := dirs[d := dst.value];
      return Some(d);
    }

    // `free_interval` over the `n` pages from `v`; the fixed pages of the kernel are never freed.
    method FreeInterval(d: nat, v: nat, n: nat)
      requires Valid() && d in dirs && v + n <= ENTRIES * ENTRIES && low <= v / ENTRIES
      modifies `tables, `refCnt, `nframes, stack
      ensures Valid() && S() == FreeSpan(old(S()), d, v, n)
    {
      hide Inv, FreeSpan, Frees, Freed;
      ghost var s := S();
      FreeSpanNone(s, d, v);
      for k := 0 to n
        invariant Valid() && d in dirs && S() == FreeSpan(s, d, v, k)
      {
        FreeSpanNext(s, d, v, k);
        var t, i := dirs[d][(v + k) / ENTRIES], (v + k) % ENTRIES;
        if t != 0 && tables[t][i].present { Free(t, i); }
      }
    }

    // `lazy_alloc_interval` over the `n` pages from `v`.
    method LazyAllocInterval(d: nat, v: nat, n: nat, user: bool, rw: bool, fill: bool)
      requires Valid() && d in dirs && v + n <= ENTRIES * ENTRIES && LazySpan(S(), d, v, n, user, rw, fill).Some?
      modifies `tables, `phys, `next, `dirs
      ensures Valid() && Some(S()) == LazySpan(old(S()), d, v, n, user, rw, fill)
    {
      hide Inv, LazySpan, LazyAllocStep, LazyAllocAt, MakeTable, HasEntry;
      ghost var s := S();
      LazySpanNone(s, d, v, user, rw, fill);
      for k := 0 to n
        invariant Valid() && d in dirs && Some(S()) == LazySpan(s, d, v, k, user, rw, fill)
      {
        LazySpanNext(s, d, v, k, n, user, rw, fill);
        var t := GetPage(d, v + k, true);
        LazyAlloc(t, (v + k) % ENTRIES, user, rw, fill);
      }
    }
  }
}
