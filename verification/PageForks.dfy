/** What a fork does to every entry of every space, rights included. */
module PageForks {
  import opened Common
  import opened PageState
  import opened PageSteps
  import opened PageFaults
  import opened PageClone

  // The entry of a page, if there is a table for it.
  function EntryIn(s: State, d: nat, v: nat): Entry
    requires d in s.dirs
  {
    if v / ENTRIES < |s.dirs[d]| && HasEntry(s, s.dirs[d][v / ENTRIES], v % ENTRIES)
    then EntryAt(s, s.dirs[d][v / ENTRIES], v % ENTRIES) else NO_ENTRY
  }

  // A mapped entry that is made read-only.
  function Cleared(e: Entry): Entry {
    if e.addr == 0 then e else e.(rw := false)
  }

  // ---- one table ----

  // The first `n` entries of table `src` are cleared in `r` and the same in `dst`; all other tables
  // but `dst` are those of `s`.
  ghost predicate EntriesCloned(s: State, r: State, src: nat, dst: nat, n: nat) {
    && r.tables.Keys == s.tables.Keys && src in s.tables && dst in s.tables
    && |s.tables[src]| == |r.tables[src]| == |r.tables[dst]| == ENTRIES
    && (forall i :: 0 <= i < ENTRIES ==>
          r.tables[src][i] == if i < n then Cleared(s.tables[src][i]) else s.tables[src][i])
    && (forall i :: 0 <= i < n && i < ENTRIES ==> r.tables[dst][i] == r.tables[src][i])
    && (forall t :: t in s.tables && t != src && t != dst ==> r.tables[t] == s.tables[t])
  }

  lemma EntriesCloneOne(s: State, r: State, src: nat, dst: nat, n: nat)
    requires EntriesCloned(s, r, src, dst, n) && src != dst && n < ENTRIES
    requires EntryAt(r, src, n).addr != 0 ==> EntryAt(r, src, n).addr in r.refCnt
    ensures EntriesCloned(s, CloneAt(r, src, dst, n), src, dst, n + 1)
  {
  }

  lemma {:induction false} CloneEntriesExact(s: State, src: nat, dst: nat, n: nat)
    requires Inv(s) && src in s.tables && dst in s.tables && src != dst && src !in s.boot && dst !in s.boot
    requires n <= ENTRIES && s.tables[dst] == Copies(NO_ENTRY, ENTRIES)
    ensures EntriesCloned(s, CloneEntries(s, src, dst, n), src, dst, n)
  {
    hide EntriesCloned, ClonedUpTo, CloneAt, Inv;
    if n == 0 {
      NothingCloned(s, src, dst);
    } else {
      var r1 := CloneEntries(s, src, dst, n - 1);
      CloneEntriesExact(s, src, dst, n - 1);
      CloneReady(s, r1, src, dst, n - 1);
      CloneInv(r1, src, dst, n - 1);
      EntriesCloneOne(s, r1, src, dst, n - 1);
    }
  }

  lemma NothingCloned(s: State, src: nat, dst: nat)
    requires Inv(s) && src in s.tables && dst in s.tables
    ensures EntriesCloned(s, s, src, dst, 0)
  {
  }

  // What became of the tables of `s` when the table of one slot was cloned.
  ghost predicate TableCloned(s: State, r: State, src: nat, dst: nat) {
    && src in s.tables && src in r.tables && dst in r.tables && dst !in s.tables
    && |s.tables[src]| == |r.tables[src]| == ENTRIES && r.tables[dst] == r.tables[src]
    && (forall i :: 0 <= i < ENTRIES ==> r.tables[src][i] == Cleared(s.tables[src][i]))
    && (forall t :: t in s.tables && t != src ==> t in r.tables && r.tables[t] == s.tables[t])
  }

  lemma CloneTableExact(s: State, src: nat)
    requires Inv(s) && src in s.tables && src !in s.boot
    ensures TableCloned(s, CloneTable(s, src), src, s.next)
  {
    NewTableInv(s);
    var s1 := NewTable(s);
    CloneEntriesExact(s1, src, s.next, ENTRIES);
    hide Inv, CloneEntries, EntriesCloned, Kept;
    AllCloned(s, CloneTable(s, src), src);
  }

  lemma AllCloned(s: State, r: State, src: nat)
    requires EntriesCloned(NewTable(s), r, src, s.next, ENTRIES) && src in s.tables && s.next !in s.tables
    ensures TableCloned(s, r, src, s.next)
  {
    assert r.tables[s.next] == r.tables[src];
    forall t | t in s.tables && t != src ensures r.tables[t] == s.tables[t] {
      assert NewTable(s).tables[t] == s.tables[t];
    }
    assert NewTable(s).tables[src] == s.tables[src];
  }

  // ---- the slots of a directory ----

  // Table `t` is that of one of the slots of `dir` that are cloned below `n`.
  ghost predicate InSlots(dir: Directory, low: nat, n: nat, t: nat) {
    exists j :: low <= j < n && j < |dir| && dir[j] == t
  }

  // In `r` the table of each such slot of `dir` is cleared, that of `dst` is the same, and all tables
  // of other slots are those of `s`.
  ghost predicate SlotsExact(s: State, r: State, dir: Directory, dst: Directory, low: nat, n: nat)
    requires |dir| == |dst| == ENTRIES && n <= ENTRIES
  {
    && (forall t :: t in s.tables ==> t in r.tables)
    && (forall j :: low <= j < n && dir[j] != 0 ==>
          && dir[j] in s.tables && dst[j] in r.tables && r.tables[dst[j]] == r.tables[dir[j]]
          && |s.tables[dir[j]]| == |r.tables[dir[j]]| == ENTRIES)
    && (forall j, i :: low <= j < n && dir[j] != 0 && 0 <= i < ENTRIES ==>
          r.tables[dir[j]][i] == Cleared(s.tables[dir[j]][i]))
    && (forall t :: t in s.tables && !InSlots(dir, low, n, t) ==> r.tables[t] == s.tables[t])
  }

  lemma SlotsExactNone(s: State, dir: Directory, dst: Directory, low: nat, n: nat)
    requires |dir| == |dst| == ENTRIES && n <= ENTRIES && n <= low
    ensures SlotsExact(s, s, dir, dst, low, n)
  {
  }

  // One more slot; its table, and the new one, belong to no other slot.
  lemma SlotsExactNext(s: State, s1: State, s2: State, dir: Directory, dst: Directory, dst': Directory, low: nat,
          n: nat)
    requires |dir| == |dst| == |dst'| == ENTRIES && low <= n < ENTRIES && SlotsExact(s, s1, dir, dst, low, n)
    requires dir[n] != 0 && dir[n] in s.tables && dst'[n] !in s1.tables && TableCloned(s1, s2, dir[n], dst'[n])
    requires forall j :: low <= j < n ==> dst'[j] == dst[j]
    requires forall j :: low <= j < n && dir[j] != 0 ==> dir[j] != dir[n] && dst[j] != dir[n]
    ensures SlotsExact(s, s2, dir, dst', low, n + 1)
  {
    assert !InSlots(dir, low, n, dir[n]);
    forall t | t in s.tables && !InSlots(dir, low, n + 1, t) ensures s2.tables[t] == s.tables[t] {
      assert t != dir[n];
      assert !InSlots(dir, low, n, t);
    }
  }

  lemma SlotsExactSkip(s: State, s1: State, dir: Directory, dst: Directory, low: nat, n: nat)
    requires |dir| == |dst| == ENTRIES && low <= n < ENTRIES && SlotsExact(s, s1, dir, dst, low, n)
    requires dir[n] == 0
    ensures SlotsExact(s, s1, dir, dst, low, n + 1)
  {
    forall t | t in s.tables && !InSlots(dir, low, n + 1, t) ensures !InSlots(dir, low, n, t) {
    }
  }

  lemma {:induction false} CloneSlotsExact(s: State, d: nat, dst: Directory, n: nat)
    requires Inv(s) && d in s.dirs && n <= HEAP_SLOT && |dst| == ENTRIES
    ensures var r := CloneSlots(s, d, dst, n);
      |s.dirs[d]| == ENTRIES && n <= ENTRIES && SlotsExact(s, r.0, s.dirs[d], r.1, s.low, n)
  {
    hide Inv, CloneSlot, SlotsExact, SlotsDone, Kept;
    ForkSizes(s, d);
    if n <= s.low {
      SlotsExactNone(s, s.dirs[d], dst, s.low, n);
    } else {
      var (s1, dst1) := CloneSlots(s, d, dst, n - 1);
      CloneSlotsExact(s, d, dst, n - 1);
      SlotsAllDone(s, d, dst, n - 1);
      CloneSlotExact(s, s1, d, dst, dst1, n - 1);
    }
  }

  lemma CloneSlotExact(s: State, s1: State, d: nat, dst: Directory, dst1: Directory, n: nat)
    requires Inv(s) && Inv(s1) && d in s.dirs && s1.dirs == s.dirs && s1.low == s.low && s.low <= n < HEAP_SLOT
    requires |dst| == |dst1| == |s.dirs[d]| == ENTRIES && SlotsDone(s, s1, d, dst, dst1, n)
    requires SlotsExact(s, s1, s.dirs[d], dst1, s.low, n)
    ensures var r := CloneSlot(s1, d, dst1, n); |r.1| == ENTRIES && SlotsExact(s, r.0, s.dirs[d], r.1, s.low, n + 1)
  {
    hide CountsOk, StackOk, EntriesOk, Exclusive, FixedOnce, Kept, SlotsExact, TableCloned, CloneTable;
    var dir := s.dirs[d];
    if dir[n] == 0 {
      SlotsExactSkip(s, s1, dir, dst1, s.low, n);
    } else {
      SlotReady(s, d, n);
      SlotReady(s1, d, n);
      CloneTableExact(s1, dir[n]);
      NewTableInv(s1);
      forall j | s.low <= j < n && dir[j] != 0 ensures dir[j] != dir[n] && dst1[j] != dir[n] {
        assert SlotCloned(s, s1, d, dst1[j], j);
        OldIds(s);
      }
      SlotsExactNext(s, s1, CloneTable(s1, dir[n]), dir, dst1, SetSlot(dst1, n, s1.next), s.low, n);
    }
  }

  // ---- the whole fork ----

  // A page for the kernel alone, that may be written.
  function StackEntry(f: nat): Entry {
    Entry(true, true, false, true, false, f)
  }

  ghost predicate HoldsStack(t: Table, f: nat) {
    |t| == ENTRIES && forall i :: 0 <= i < ENTRIES ==>
      t[i] == if i == STACK_INDEX then StackEntry(f) else NO_ENTRY
  }

  lemma StackEntries(s: State, cur: nat)
    requires Inv(s) && cur in s.dirs && s.frames != []
    ensures WithStack(s, cur).Some?
    ensures var r, f := WithStack(s, cur).value, s.frames[|s.frames| - 1];
      && s.next in r.tables && HoldsStack(r.tables[s.next], f) && s.next !in s.tables
      && (forall t :: t in s.tables ==> t in r.tables && r.tables[t] == s.tables[t])
  {
    NewTableInv(s);
    hide Inv;
  }

  // Slots that are cloned.
  predicate Copied(low: nat, v: nat) {
    low <= v / ENTRIES < HEAP_SLOT
  }

  // Below the stack slot a fork leaves the same entry in the child and in the source: the old one,
  // cleared if it is mapped in a slot that is cloned.  The child has one page more, its stack, and no
  // other space changes.
  ghost predicate ForkedEntries(s: State, s': State, src: nat)
    requires src in s.dirs
  {
    && s.next in s'.dirs && s.dirs.Keys <= s'.dirs.Keys
    && (forall d, v :: d in s.dirs && 0 <= v < ENTRIES * ENTRIES ==>
          EntryIn(s', d, v) == if d == src && Copied(s.low, v) then Cleared(EntryIn(s, src, v)) else EntryIn(s, d, v))
    && (forall v :: 0 <= v < STACK_SLOT * ENTRIES ==> EntryIn(s', s.next, v) == EntryIn(s', src, v))
    && (forall v :: STACK_SLOT * ENTRIES <= v < ENTRIES * ENTRIES && v != STACK_PAGE ==>
          EntryIn(s', s.next, v) == NO_ENTRY)
    && EntryIn(s', s.next, STACK_PAGE) == StackEntry(EntryIn(s', s.next, STACK_PAGE).addr)
  }

  lemma ForkEntries(s: State, src: nat, cur: nat)
    requires Inv(s) && src in s.dirs && cur in s.dirs && ForkAt(s, src, cur).Some?
    ensures ForkedEntries(s, ForkAt(s, src, cur).value, src)
  {
    hide Inv, Kept, NewDir, SlotsDone, StackTable, Forked, ForkAt, WithStack, CloneSlots, SlotsExact, EntryIn,
        Linked, SetSlot;
    ForkEffect(s, src, cur);
    var s1, s2, dst := ForkParts(s, src, cur);
    var s0, dst0 := s.(next := s.next + 1), SetSlot(Linked(s.dirs[src], s.low), STACK_SLOT, s.next + 1);
    StackEntries(s0, cur);
    CloneSlotsExact(s1, src, dst0, HEAP_SLOT);
    SlotsAllDone(s1, src, dst0, HEAP_SLOT);
    SlotsDoneBase(s1, s2, src, dst0, dst, HEAP_SLOT);
    KeptSame(s, s1);
    OldDirs(s);
    var s' := ForkAt(s, src, cur).value;
    assert s'.dirs == s.dirs[s.next := dst] && s'.tables == s2.tables;
    forall d, v: nat | d in s.dirs && v < ENTRIES * ENTRIES
      ensures EntryIn(s', d, v) ==
        if d == src && Copied(s.low, v) then Cleared(EntryIn(s, src, v)) else EntryIn(s, d, v)
    {
      OldEntry(s, s1, s2, s', src, dst, d, v);
    }
    forall v: nat | v < ENTRIES * ENTRIES
      ensures v < STACK_SLOT * ENTRIES ==> EntryIn(s', s.next, v) == EntryIn(s', src, v)
      ensures v >= STACK_SLOT * ENTRIES && v != STACK_PAGE ==> EntryIn(s', s.next, v) == NO_ENTRY
      ensures v == STACK_PAGE ==> EntryIn(s', s.next, v) == StackEntry(EntryIn(s', s.next, v).addr)
    {
      NewEntry(s, s1, s2, s', src, dst, v, s.frames[|s.frames| - 1]);
    }
  }

  lemma OldEntry(s: State, s1: State, s2: State, s': State, src: nat, dst: Directory, d: nat, v: nat)
    requires Inv(s) && src in s.dirs && d in s.dirs && v < ENTRIES * ENTRIES && |dst| == |s.dirs[src]| == ENTRIES
    requires s1.dirs == s.dirs && s1.low == s.low && s'.dirs == s.dirs[s.next := dst] && s.next !in s.dirs
    requires forall t :: t in s.tables ==> t in s1.tables && s1.tables[t] == s.tables[t]
    requires s'.tables == s2.tables
    requires HEAP_SLOT <= ENTRIES && SlotsExact(s1, s2, s.dirs[src], dst, s.low, HEAP_SLOT) && 0 !in s'.tables
    ensures EntryIn(s', d, v) == if d == src && Copied(s.low, v) then Cleared(EntryIn(s, src, v)) else EntryIn(s, d, v)
  {
    var dir, j, i := s.dirs[src], v / ENTRIES, v % ENTRIES;
    var t := s.dirs[d][j];
    if t != 0 {
      SlotReady(s, d, j);
      if d == src && Copied(s.low, v) {
        assert s'.tables[dir[j]][i] == Cleared(s1.tables[dir[j]][i]);
      } else {
        NotCopied(s, src, d, j);
      }
    }
  }

  // Tables of other slots or other spaces are not those that are cloned.
  lemma NotCopied(s: State, src: nat, d: nat, j: nat)
    requires Inv(s) && src in s.dirs && d in s.dirs && j < ENTRIES && s.dirs[d][j] != 0
    requires d != src || !(s.low <= j < HEAP_SLOT)
    ensures !InSlots(s.dirs[src], s.low, HEAP_SLOT, s.dirs[d][j])
  {
  }

  lemma NewEntry(s: State, s1: State, s2: State, s': State, src: nat, dst: Directory, v: nat, f: nat)
    requires Inv(s) && Inv(s1) && src in s.dirs && v < ENTRIES * ENTRIES && |dst| == |s.dirs[src]| == ENTRIES
    requires s.low <= HEAP_SLOT
    requires s1.dirs == s.dirs && s1.low == s.low && s'.dirs == s.dirs[s.next := dst] && s.next !in s.dirs
    requires s'.tables == s2.tables
    requires SlotsDone(s1, s2, src, SetSlot(Linked(s.dirs[src], s.low), STACK_SLOT, s.next + 1), dst, HEAP_SLOT)
    requires HEAP_SLOT <= ENTRIES && SlotsExact(s1, s2, s.dirs[src], dst, s.low, HEAP_SLOT) && 0 !in s'.tables
    requires s.next + 1 in s1.tables && HoldsStack(s1.tables[s.next + 1], f)
    ensures v < STACK_SLOT * ENTRIES ==> EntryIn(s', s.next, v) == EntryIn(s', src, v)
    ensures v >= STACK_SLOT * ENTRIES && v != STACK_PAGE ==> EntryIn(s', s.next, v) == NO_ENTRY
    ensures v == STACK_PAGE ==> EntryIn(s', s.next, v) == StackEntry(EntryIn(s', s.next, v).addr)
  {
    hide CountsOk, StackOk, EntriesOk, Exclusive, FixedOnce, DirsOk, Kept, SlotCloned;
    var j := v / ENTRIES;
    SlotKinds(s.low, j);
    StackTableApart(s, src);
  }

  lemma StackTableApart(s: State, src: nat)
    requires Inv(s) && src in s.dirs
    ensures |s.dirs[src]| == ENTRIES && !InSlots(s.dirs[src], s.low, HEAP_SLOT, s.next + 1)
  {
  }
}
