/** Making tables and cloning them: `get_page(make)`, `clone_table` and `clone_directory`. */
module PageClone {
  import opened Common
  import opened PageState
  import opened PageSteps
  import opened PageFaults

  // A zeroed table from the kernel heap.
  function NewTable(s: State): State {
    s.(tables := s.tables[s.next := Copies(NO_ENTRY, ENTRIES)], next := s.next + 1)
  }

  function SetSlot(dir: Directory, slot: nat, t: nat): (r: Directory)
    requires slot < |dir|
    ensures |r| == |dir|
  {
    dir[slot := t]
  }

  // `get_page` with `make`: the slot has a table afterwards.
  function MakeTable(s: State, d: nat, slot: nat): State
    requires d in s.dirs && slot < |s.dirs[d]|
  {
    if s.dirs[d][slot] != 0 then s
    else
      var s1 := NewTable(s);
      s1.(dirs := s1.dirs[d := SetSlot(s1.dirs[d], slot, s.next)])
  }

  // ---- what survives: every entry up to its `rw` bit, and the contents of its frame ----

  ghost predicate Kept(s: State, s': State) {
    && s'.low == s.low && s'.boot == s.boot && s'.managed == s.managed && s.next <= s'.next
    && (forall t :: t in s.tables ==> t in s'.tables && |s'.tables[t]| == |s.tables[t]|)
    && (forall t, i :: t in s.tables && 0 <= i < |s.tables[t]| ==>
          s'.tables[t][i] == s.tables[t][i].(rw := s'.tables[t][i].rw))
    && (forall t, i :: t in s.tables && 0 <= i < |s.tables[t]| && s.tables[t][i].addr in s.phys ==>
          s.tables[t][i].addr in s'.phys && s'.phys[s.tables[t][i].addr] == s.phys[s.tables[t][i].addr])
  }

  lemma KeptTrans(s0: State, s1: State, s2: State)
    requires Kept(s0, s1) && Kept(s1, s2)
    ensures Kept(s0, s2)
  {
    forall t, i: nat | t in s0.tables && i < |s0.tables[t]|
      ensures s2.tables[t][i] == s0.tables[t][i].(rw := s2.tables[t][i].rw)
      ensures s0.tables[t][i].addr in s0.phys ==>
        s0.tables[t][i].addr in s2.phys && s2.phys[s0.tables[t][i].addr] == s0.phys[s0.tables[t][i].addr]
    {
      assert s1.tables[t][i] == s0.tables[t][i].(rw := s1.tables[t][i].rw);
      assert s2.tables[t][i] == s1.tables[t][i].(rw := s2.tables[t][i].rw);
    }
  }

  // A change inside a table that is new since `s`.
  lemma KeptLocal(s: State, s1: State, s2: State, t: nat, i: nat)
    requires Kept(s, s1) && Local(s1, s2, t, i) && t !in s.tables && s1.next <= s2.next
    ensures Kept(s, s2)
  {
    forall u, j: nat | u in s.tables && j < |s.tables[u]|
      ensures s2.tables[u][j] == s.tables[u][j].(rw := s2.tables[u][j].rw)
      ensures s.tables[u][j].addr in s.phys ==>
        s.tables[u][j].addr in s2.phys && s2.phys[s.tables[u][j].addr] == s.phys[s.tables[u][j].addr]
    {
      assert s1.tables[u][j] == s.tables[u][j].(rw := s1.tables[u][j].rw);
      assert s2.tables[u][j] == s1.tables[u][j];
    }
  }

  // What a place shows.
  ghost function Shows(s: State, t: nat, i: nat): View
    requires Inv(s) && HasEntry(s, t, i)
  {
    EntryFacts(s, t, i);
    EntryView(EntryAt(s, t, i), s.phys)
  }

  lemma SeesShows(s: State, d: nat, v: nat)
    requires Inv(s) && d in s.dirs && v < ENTRIES * ENTRIES
    ensures s.dirs[d][v / ENTRIES] == 0 ==> Sees(s, d, v) == NoAccess
    ensures var t := s.dirs[d][v / ENTRIES]; t != 0 ==>
      HasEntry(s, t, v % ENTRIES) && Sees(s, d, v) == Shows(s, t, v % ENTRIES)
  {
    if s.dirs[d][v / ENTRIES] != 0 { assert HasEntry(s, s.dirs[d][v / ENTRIES], v % ENTRIES); }
  }

  lemma KeptShows(s: State, s': State, t: nat, i: nat)
    requires Inv(s) && Inv(s') && Kept(s, s') && HasEntry(s, t, i)
    ensures HasEntry(s', t, i) && Shows(s', t, i) == Shows(s, t, i) && EntryAt(s', t, i).addr == EntryAt(s, t, i).addr
  {
    EntryFacts(s, t, i);
    EntryFacts(s', t, i);
    assert s'.tables[t][i] == s.tables[t][i].(rw := s'.tables[t][i].rw);
  }

  lemma KeptSees(s: State, s': State, d: nat, v: nat)
    requires Inv(s) && Inv(s') && Kept(s, s') && d in s.dirs && d in s'.dirs && v < ENTRIES * ENTRIES
    requires s'.dirs[d][v / ENTRIES] == s.dirs[d][v / ENTRIES]
    ensures Sees(s', d, v) == Sees(s, d, v)
  {
    hide CountsOk, StackOk, EntriesOk, Exclusive, FixedOnce, DirsOk, Kept;
    SeesShows(s, d, v);
    SeesShows(s', d, v);
    if s.dirs[d][v / ENTRIES] != 0 { KeptShows(s, s', s.dirs[d][v / ENTRIES], v % ENTRIES); }
  }

  // ---- new tables ----

  lemma NewTableInv(s: State)
    requires Inv(s)
    ensures Inv(NewTable(s)) && Kept(s, NewTable(s)) && s.next !in s.tables && s.next !in s.boot && s.next !in s.dirs
  {
    var s' := NewTable(s);
    NewTableEntries(s);
    NewTableExclusive(s);
    hide EntriesOk, Exclusive, FixedOnce, EntryOk;
    forall g | g in s.managed ensures Refs(s'.tables, g) == Refs(s.tables, g) {
    }
  }

  lemma NewTableEntries(s: State)
    requires EntriesOk(s) && FixedOnce(s.tables, s.managed) && s.next !in s.tables
    ensures EntriesOk(NewTable(s)) && FixedOnce(NewTable(s).tables, s.managed)
  {
    var s' := NewTable(s);
    forall u, j: nat | u in s'.tables && j < |s'.tables[u]| ensures EntryOk(s', u, s'.tables[u][j]) {
      if u in s.tables { assert EntryOk(s, u, s.tables[u][j]); }
    }
  }

  lemma NewTableExclusive(s: State)
    requires Exclusive(s) && s.next !in s.tables
    ensures Exclusive(NewTable(s))
  {
    var s' := NewTable(s);
    forall u, j: nat | u in s'.tables && j < |s'.tables[u]| ensures u != s.next ==> s'.tables[u][j] == s.tables[u][j] {
    }
  }

  // Making a missing table changes nobody's view.
  lemma MakeEffect(s: State, d: nat, slot: nat)
    requires Inv(s) && d in s.dirs && slot < ENTRIES
    ensures var s' := MakeTable(s, d, slot);
      && Inv(s') && Kept(s, s') && s'.dirs.Keys == s.dirs.Keys && s'.managed == s.managed && s'.dirs[d][slot] != 0
      && s'.dirs[d][slot] in s'.tables
      && forall d', v :: d' in s.dirs && 0 <= v < ENTRIES * ENTRIES ==> Sees(s', d', v) == Sees(s, d', v)
  {
    hide CountsOk, StackOk, EntriesOk, Exclusive, FixedOnce, Kept;
    var s' := MakeTable(s, d, slot);
    if s.dirs[d][slot] != 0 {
      KeptSelf(s);
    } else {
      NewTableInv(s);
      var s1 := NewTable(s);
      MakeDirs(s.dirs, s.tables.Keys, s.low, s.boot, d, slot, s.next);
      assert s1.tables.Keys == s.tables.Keys + {s.next};
      DirsInv(s1, s');
      KeptDirs(s, s1, s');
      forall d', v: nat | d' in s.dirs && v < ENTRIES * ENTRIES ensures Sees(s', d', v) == Sees(s, d', v) {
        if d' == d && v / ENTRIES == slot {
          EntryFacts(s', s.next, v % ENTRIES);
          assert s'.tables[s.next][v % ENTRIES] == NO_ENTRY;
        } else {
          KeptSees(s, s', d', v);
        }
      }
    }
  }

  lemma KeptSelf(s: State)
    ensures Kept(s, s)
  {
  }

  lemma KeptDirs(s: State, s1: State, s': State)
    requires Kept(s, s1) && s' == s1.(dirs := s'.dirs)
    ensures Kept(s, s')
  {
  }

  // Changing directories only.
  lemma DirsInv(s: State, s': State)
    requires Inv(s) && s' == s.(dirs := s'.dirs) && (forall d :: d in s'.dirs ==> |s'.dirs[d]| == ENTRIES && d < s.next)
    requires DirsOk(s'.dirs, s.tables.Keys, s.low, s.boot)
    ensures Inv(s')
  {
    hide DirsOk;
    forall t, i: nat | t in s.tables && i < |s.tables[t]| ensures EntryOk(s', t, s'.tables[t][i]) {
      assert EntryOk(s, t, s.tables[t][i]);
    }
  }

  lemma MakeDirs(dirs: map<nat, Directory>, ids: set<nat>, low: nat, boot: set<nat>, d: nat, slot: nat, t: nat)
    requires forall d :: d in dirs ==> |dirs[d]| == ENTRIES
    requires DirsOk(dirs, ids, low, boot) && d in dirs && slot < ENTRIES && dirs[d][slot] == 0 && t !in ids
    requires t !in boot && t != 0
    ensures DirsOk(dirs[d := SetSlot(dirs[d], slot, t)], ids + {t}, low, boot)
  {
    assert !Shared(low, slot);
    var dirs' := dirs[d := SetSlot(dirs[d], slot, t)];
    forall c, i: nat | c in dirs' && i < ENTRIES ensures dirs'[c][i] == t <==> c == d && i == slot {
      assert dirs[c][i] == 0 || dirs[c][i] in ids;
    }
  }

  // ---- clone_table ----

  // The first `n` entries of `src` are cloned into `dst`, and no other entry has lost more than `rw`.
  ghost predicate ClonedUpTo(s: State, r: State, src: nat, dst: nat, n: nat) {
    && r == s.(tables := r.tables, refCnt := r.refCnt) && r.tables.Keys == s.tables.Keys
    && src in r.tables && dst in r.tables && (forall t :: t in r.tables ==> |s.tables[t]| == |r.tables[t]| == ENTRIES)
    && (forall t, i :: t in s.tables && 0 <= i < ENTRIES && t != dst ==>
          r.tables[t][i] == s.tables[t][i].(rw := r.tables[t][i].rw))
    && (forall i :: 0 <= i < n && i < ENTRIES ==> r.tables[dst][i] == r.tables[src][i])
    && (forall i :: n <= i < ENTRIES ==> r.tables[dst][i].addr == 0)
  }

  lemma CloneStep(s: State, r: State, src: nat, dst: nat, n: nat)
    requires ClonedUpTo(s, r, src, dst, n) && src != dst && n < ENTRIES
    requires EntryAt(r, src, n).addr != 0 ==> EntryAt(r, src, n).addr in r.refCnt
    ensures ClonedUpTo(s, CloneAt(r, src, dst, n), src, dst, n + 1)
  {
    var q := CloneAt(r, src, dst, n);
    assert forall t, i :: t in s.tables && 0 <= i < ENTRIES && (t, i) != (src, n) && (t, i) != (dst, n) ==>
        q.tables[t][i] == r.tables[t][i];
  }

  lemma CloneNone(s: State, src: nat, dst: nat)
    requires SizesOk(s) && src in s.tables && dst in s.tables && s.tables[dst] == Copies(NO_ENTRY, ENTRIES)
    ensures ClonedUpTo(s, s, src, dst, 0)
  {
  }

  lemma CloneReady(s: State, r: State, src: nat, dst: nat, n: nat)
    requires ClonedUpTo(s, r, src, dst, n) && n < ENTRIES
    ensures HasEntry(r, src, n) && HasEntry(r, dst, n) && EntryAt(r, dst, n).addr == 0 && r.boot == s.boot
  {
  }

  ghost function CloneEntries(s: State, src: nat, dst: nat, n: nat): (r: State)
    requires Inv(s) && src in s.tables && dst in s.tables && src != dst && src !in s.boot && dst !in s.boot
    requires n <= ENTRIES
    requires s.tables[dst] == Copies(NO_ENTRY, ENTRIES)
    ensures Inv(r) && ClonedUpTo(s, r, src, dst, n)
  {
    hide *;
    if n == 0 then
      CloneNone(s, src, dst);
      s
    else
      var r1 := CloneEntries(s, src, dst, n - 1);
      CloneReady(s, r1, src, dst, n - 1);
      CloneInv(r1, src, dst, n - 1);
      CloneStep(s, r1, src, dst, n - 1);
      CloneAt(r1, src, dst, n - 1)
  }

  // A whole cloned table: afterwards both tables show what the old one showed, and nothing else changed.
  ghost function CloneTable(s: State, src: nat): (r: State)
    requires Inv(s) && src in s.tables && src !in s.boot
    ensures Inv(r)
  {
    NewTableInv(s);
    CloneEntries(NewTable(s), src, s.next, ENTRIES)
  }

  lemma CloneTableEffect(s: State, src: nat)
    requires Inv(s) && src in s.tables && src !in s.boot
    ensures var r := CloneTable(s, src);
      && Kept(s, r) && r.dirs == s.dirs && r.frames == s.frames && r.phys == s.phys && r.next == s.next + 1
      && r.tables.Keys == s.tables.Keys + {s.next} && s.next !in s.tables
      && (forall i :: 0 <= i < ENTRIES ==>
            Shows(r, s.next, i) == Shows(s, src, i) && EntryAt(r, s.next, i).addr == EntryAt(s, src, i).addr)
  {
    NewTableInv(s);
    var r, s1 := CloneTable(s, src), NewTable(s);
    assert ClonedUpTo(s1, r, src, s.next, ENTRIES);
    CloneTableKept(s, s1, r, src);
    hide CountsOk, StackOk, EntriesOk, Exclusive, FixedOnce, DirsOk, Kept;
    assert r.tables.Keys == s.tables.Keys + {s.next};
    forall i: nat | i < ENTRIES
      ensures Shows(r, s.next, i) == Shows(s, src, i) && EntryAt(r, s.next, i).addr == EntryAt(s, src, i).addr
    {
      KeptShows(s, r, src, i);
      EntryFacts(r, s.next, i);
      EntryFacts(r, src, i);
    }
  }

  lemma CloneTableKept(s: State, s1: State, r: State, src: nat)
    requires SizesOk(s) && s1 == NewTable(s) && s.next !in s.tables && ClonedUpTo(s1, r, src, s.next, ENTRIES)
    ensures Kept(s, r)
  {
    forall t, i: nat | t in s.tables && i < |s.tables[t]|
      ensures r.tables[t][i] == s.tables[t][i].(rw := r.tables[t][i].rw)
    {
      assert s1.tables[t] == s.tables[t];
    }
  }

  // ---- the copy-on-write slots of clone_directory ----

  lemma SlotReady(s: State, d: nat, n: nat)
    requires Inv(s) && d in s.dirs && n < ENTRIES && s.dirs[d][n] != 0
    ensures s.dirs[d][n] in s.tables && (s.low <= n ==> s.dirs[d][n] !in s.boot)
  {
  }

  // Slot `j` of a new directory shows what slot `j` of `d` shows, through a table of its own.
  ghost predicate SlotCloned(s: State, r: State, d: nat, t: nat, j: nat)
    requires Inv(s) && Inv(r) && d in s.dirs && j < ENTRIES && s.dirs[d][j] != 0
  {
    && s.next <= t < r.next && t in r.tables && t !in r.boot
    && forall i :: 0 <= i < ENTRIES ==>
        Shows(r, t, i) == Shows(s, s.dirs[d][j], i) && EntryAt(r, t, i).addr == EntryAt(s, s.dirs[d][j], i).addr
  }

  ghost predicate SlotsCloned(s: State, r: State, d: nat, dst: Directory, dst': Directory, n: nat)
    requires Inv(s) && Inv(r) && d in s.dirs && |dst| == |dst'| == ENTRIES && n <= ENTRIES
  {
    && (forall j :: 0 <= j < ENTRIES && !(s.low <= j < n && s.dirs[d][j] != 0) ==> dst'[j] == dst[j])
    && (forall j :: s.low <= j < n && s.dirs[d][j] != 0 ==> SlotCloned(s, r, d, dst'[j], j))
    && (forall i, j :: s.low <= i < j < n && s.dirs[d][i] != 0 && s.dirs[d][j] != 0 ==> dst'[i] != dst'[j])
  }

  // `r` is `s` after the slots `low` to `n` of directory `d` were cloned into `dst`.
  ghost predicate SlotsDone(s: State, r: State, d: nat, dst: Directory, dst': Directory, n: nat)
    requires Inv(s) && d in s.dirs && |dst| == ENTRIES && n <= ENTRIES
  {
    && Inv(r) && Kept(s, r) && r.dirs == s.dirs && r.low == s.low && r.frames == s.frames && r.phys == s.phys
    && |dst'| == ENTRIES && SlotsCloned(s, r, d, dst, dst', n)
  }

  lemma SlotsDoneBase(s: State, r: State, d: nat, dst: Directory, dst': Directory, n: nat)
    requires Inv(s) && d in s.dirs && |dst| == ENTRIES && n <= ENTRIES && SlotsDone(s, r, d, dst, dst', n)
    ensures Inv(r) && Kept(s, r) && r.dirs == s.dirs && r.low == s.low && |dst'| == ENTRIES && 0 !in r.tables
  {
  }

  ghost function CloneSlots(s: State, d: nat, dst: Directory, n: nat): (r: (State, Directory))
    requires Inv(s) && d in s.dirs && n <= HEAP_SLOT && |dst| == ENTRIES
    ensures Inv(r.0) && r.0.dirs == s.dirs && r.0.low == s.low && |r.1| == ENTRIES
  {
    hide *;
    ForkSizes(s, d);
    if n <= s.low then (s, dst)
    else
      var (s1, dst1) := CloneSlots(s, d, dst, n - 1);
      CloneSlotBase(s1, d, dst1, n - 1);
      CloneSlot(s1, d, dst1, n - 1)
  }

  // One slot: an empty one stays empty, and any other gets a clone of its table.
  ghost function CloneSlot(s: State, d: nat, dst: Directory, n: nat): (State, Directory)
    requires Inv(s) && d in s.dirs && s.low <= n < HEAP_SLOT && |dst| == ENTRIES
  {
    if s.dirs[d][n] == 0 then (s, dst)
    else
      SlotReady(s, d, n);
      (CloneTable(s, s.dirs[d][n]), SetSlot(dst, n, s.next))
  }

  lemma CloneSlotBase(s: State, d: nat, dst: Directory, n: nat)
    requires Inv(s) && d in s.dirs && s.low <= n < HEAP_SLOT && |dst| == ENTRIES
    ensures var r := CloneSlot(s, d, dst, n); Inv(r.0) && r.0.dirs == s.dirs && r.0.low == s.low && |r.1| == ENTRIES
  {
    hide CountsOk, StackOk, EntriesOk, Exclusive, FixedOnce, DirsOk, Kept, CloneTable;
    if s.dirs[d][n] != 0 {
      SlotReady(s, d, n);
      CloneTableEffect(s, s.dirs[d][n]);
      KeptSame(s, CloneTable(s, s.dirs[d][n]));
    }
  }

  // After all slots below `n` the new directory has clones of all tables of `d` that are not shared.
  lemma {:induction false} SlotsAllDone(s: State, d: nat, dst: Directory, n: nat)
    requires Inv(s) && d in s.dirs && n <= HEAP_SLOT && |dst| == ENTRIES
    ensures var r := CloneSlots(s, d, dst, n); n <= ENTRIES && SlotsDone(s, r.0, d, dst, r.1, n)
  {
    hide Inv, Kept, SlotsCloned, SlotsDone, CloneSlot;
    ForkSizes(s, d);
    if n <= s.low {
      SlotsNone(s, d, dst, n);
    } else {
      var (s1, dst1) := CloneSlots(s, d, dst, n - 1);
      SlotsAllDone(s, d, dst, n - 1);
      SlotDone(s, s1, d, dst, dst1, n - 1);
    }
  }

  lemma SlotDone(s: State, s1: State, d: nat, dst: Directory, dst1: Directory, n: nat)
    requires Inv(s) && d in s.dirs && |dst| == ENTRIES && s.low <= n < HEAP_SLOT && SlotsDone(s, s1, d, dst, dst1, n)
    ensures Inv(s1) && d in s1.dirs && s1.low == s.low && |dst1| == ENTRIES
    ensures var r := CloneSlot(s1, d, dst1, n); SlotsDone(s, r.0, d, dst, r.1, n + 1)
  {
    SlotsDoneBase(s, s1, d, dst, dst1, n);
    hide CountsOk, StackOk, EntriesOk, Exclusive, FixedOnce, DirsOk, Kept, SlotCloned, SlotsCloned, SlotsDone, SetSlot,
        CloneTable;
    if s.dirs[d][n] == 0 { SlotSkipped(s, s1, d, dst, dst1, n); } else { SlotsStep(s, s1, d, dst, dst1, n); }
  }

  lemma SlotsNone(s: State, d: nat, dst: Directory, n: nat)
    requires Inv(s) && d in s.dirs && |dst| == ENTRIES && n <= s.low && n <= ENTRIES
    ensures SlotsDone(s, s, d, dst, dst, n)
  {
    KeptSelf(s);
  }

  lemma SlotSkipped(s: State, s1: State, d: nat, dst: Directory, dst1: Directory, n: nat)
    requires Inv(s) && d in s.dirs && |dst| == ENTRIES && n < ENTRIES && s.dirs[d][n] == 0
    requires SlotsDone(s, s1, d, dst, dst1, n)
    ensures SlotsDone(s, s1, d, dst, dst1, n + 1)
  {
    hide SlotCloned, Kept, CountsOk, StackOk, EntriesOk, Exclusive, FixedOnce, DirsOk;
  }

  lemma SlotsStep(s: State, s1: State, d: nat, dst: Directory, dst1: Directory, n: nat)
    requires Inv(s) && d in s.dirs && |dst| == ENTRIES && s.low <= n < HEAP_SLOT && s.dirs[d][n] != 0
    requires SlotsDone(s, s1, d, dst, dst1, n)
    ensures s.dirs[d][n] in s1.tables && s.dirs[d][n] !in s1.boot
    ensures SlotsDone(s, CloneTable(s1, s.dirs[d][n]), d, dst, SetSlot(dst1, n, s1.next), n + 1)
  {
    hide CountsOk, StackOk, EntriesOk, Exclusive, FixedOnce, DirsOk, Kept, SlotCloned;
    var t := s.dirs[d][n];
    KeptSame(s, s1);
    SlotReady(s1, d, n);
    CloneTableEffect(s1, t);
    var s2, dst2 := CloneTable(s1, t), SetSlot(dst1, n, s1.next);
    KeptTrans(s, s1, s2);
    KeptSame(s1, s2);
    SlotFresh(s, s1, d, n);
    forall j | s.low <= j < n && s.dirs[d][j] != 0 ensures SlotCloned(s, s2, d, dst2[j], j) && dst2[j] != s1.next {
      SlotStays(s, s1, s2, d, dst1[j], j);
    }
  }

  lemma SlotFresh(s: State, s1: State, d: nat, n: nat)
    requires Inv(s) && Inv(s1) && s1.dirs == s.dirs && d in s.dirs && n < ENTRIES && s.dirs[d][n] != 0
    requires Kept(s, s1) && s.dirs[d][n] in s1.tables && s.dirs[d][n] !in s1.boot
    ensures SlotCloned(s, CloneTable(s1, s.dirs[d][n]), d, s1.next, n)
  {
    hide CountsOk, StackOk, EntriesOk, Exclusive, FixedOnce;
    var t := s.dirs[d][n];
    CloneTableEffect(s1, t);
    NewTableInv(s1);
    KeptSame(s, s1);
    var s2 := CloneTable(s1, t);
    KeptSame(s1, s2);
    assert t in s.tables;
    forall i | 0 <= i < ENTRIES
      ensures Shows(s2, s1.next, i) == Shows(s, t, i) && EntryAt(s2, s1.next, i).addr == EntryAt(s, t, i).addr
    {
      KeptShows(s, s1, t, i);
    }
  }

  lemma KeptSame(s: State, s': State)
    requires Kept(s, s')
    ensures s'.low == s.low && s'.boot == s.boot && s'.managed == s.managed && s.next <= s'.next
  {
  }

  lemma KeptIds(s: State, s': State)
    requires Kept(s, s')
    ensures s.tables.Keys <= s'.tables.Keys
  {
  }

  lemma SlotStays(s: State, s1: State, s2: State, d: nat, t: nat, j: nat)
    requires Inv(s) && Inv(s1) && Inv(s2) && d in s.dirs && j < ENTRIES && s.dirs[d][j] != 0
    requires SlotCloned(s, s1, d, t, j) && Kept(s1, s2)
    ensures SlotCloned(s, s2, d, t, j) && t < s1.next
  {
    hide CountsOk, StackOk, EntriesOk, Exclusive, FixedOnce;
    KeptSame(s1, s2);
    KeptIds(s1, s2);
    forall i | 0 <= i < ENTRIES
      ensures Shows(s2, t, i) == Shows(s, s.dirs[d][j], i) && EntryAt(s2, t, i).addr == EntryAt(s, s.dirs[d][j], i).addr
    {
      KeptShows(s1, s2, t, i);
    }
  }

  // ---- clone_directory ----

  const STACK_PAGE := STACK_SLOT * ENTRIES + STACK_INDEX

  // What `get_physical_addr` finds for page `v` of directory `d`: its frame, or 0.
  function FrameOf(s: State, d: nat, v: nat): nat
    requires d in s.dirs
  {
    if v / ENTRIES < |s.dirs[d]| && HasEntry(s, s.dirs[d][v / ENTRIES], v % ENTRIES)
    then EntryAt(s, s.dirs[d][v / ENTRIES], v % ENTRIES).addr else 0
  }

  // The slots of `src` that all directories share, the others empty.
  function Linked(src: Directory, low: nat): (r: Directory)
    requires |src| == ENTRIES && low <= HEAP_SLOT
    ensures |r| == ENTRIES && forall j :: 0 <= j < ENTRIES ==> r[j] == if Shared(low, j) then src[j] else 0
  {
    src[..low] + Copies(0, HEAP_SLOT - low) + src[HEAP_SLOT..STACK_SLOT] + Copies(0, ENTRIES - STACK_SLOT)
  }

  // A table with a stack page of its own, holding what the stack page of directory `cur` holds.
  ghost function WithStack(s: State, cur: nat): Option<State>
    requires Inv(s) && cur in s.dirs
  {
    var s1 := NewTable(s);
    match AllocAt(s1, s.next, STACK_INDEX, false, true)
    case None => None
    case Some(s2) => StackSource(s, cur); Some(CopyFrom(s2, s.next, STACK_INDEX, FrameOf(s, cur, STACK_PAGE)))
  }

  lemma StackSource(s: State, cur: nat)
    requires Inv(s) && cur in s.dirs
    ensures FrameOf(s, cur, STACK_PAGE) in s.phys
  {
    var t := s.dirs[cur][STACK_PAGE / ENTRIES];
    if HasEntry(s, t, STACK_PAGE % ENTRIES) { EntryFacts(s, t, STACK_PAGE % ENTRIES); }
  }

  // Table `t` shows a stack page with contents `p` and nothing else.
  ghost predicate StackTable(s: State, t: nat, p: Page)
    requires Inv(s)
  {
    && t in s.tables && t !in s.boot
    && forall i :: 0 <= i < ENTRIES ==> Shows(s, t, i) == StackView(i, p)
  }

  function StackView(i: int, p: Page): View {
    if i == STACK_INDEX then Known(p) else NoAccess
  }

  lemma WithStackEffect(s: State, cur: nat)
    requires Inv(s) && cur in s.dirs
    ensures WithStack(s, cur).Some? <==> s.frames != []
    ensures WithStack(s, cur).Some? ==>
      var r := WithStack(s, cur).value;
      && Inv(r) && Kept(s, r) && r.dirs == s.dirs && r.next == s.next + 1
      && s.next !in s.tables && FrameOf(s, cur, STACK_PAGE) in s.phys
      && StackTable(r, s.next, s.phys[FrameOf(s, cur, STACK_PAGE)])
      && EntryAt(r, s.next, STACK_INDEX).addr == s.frames[|s.frames| - 1]
  {
    hide CountsOk, StackOk, EntriesOk, Exclusive, FixedOnce, DirsOk, Kept, Local, EntryOk;
    NewTableInv(s);
    var s1 := NewTable(s);
    if s.frames != [] {
      StackSource(s, cur);
      AllocFreshFacts(s1, s.next, STACK_INDEX, false, true);
      var s2 := AllocAt(s1, s.next, STACK_INDEX, false, true).value;
      var p := s2.phys[FrameOf(s, cur, STACK_PAGE)];
      var r := WithStack(s, cur).value;
      EntryFacts(s2, s.next, STACK_INDEX);
      PhysInv(s2, EntryAt(s2, s.next, STACK_INDEX).addr, p);
      OverwriteLocal(s2, s.next, STACK_INDEX, p);
      LocalTrans(s1, s2, r, s.next, STACK_INDEX);
      KeptLocal(s, s1, r, s.next, STACK_INDEX);
      KeptSame(s, r);
      LocalSame(s1, r, s.next, STACK_INDEX);
      forall i: nat | i < ENTRIES ensures Shows(r, s.next, i) == StackView(i, p) {
        EntryFacts(r, s.next, i);
        if i != STACK_INDEX { LocalEntry(s1, r, s.next, STACK_INDEX, s.next, i); }
      }
    }
  }

  lemma LocalSame(s: State, s': State, t: nat, i: nat)
    requires Local(s, s', t, i)
    ensures s'.dirs == s.dirs && s'.low == s.low && s'.boot == s.boot && s'.managed == s.managed
    ensures s'.tables.Keys == s.tables.Keys
  {
  }

  lemma LocalEntry(s: State, s': State, t: nat, i: nat, u: nat, j: nat)
    requires Local(s, s', t, i) && HasEntry(s, u, j) && (u, j) != (t, i)
    ensures HasEntry(s', u, j) && EntryAt(s', u, j) == EntryAt(s, u, j)
  {
  }

  // `clone_directory`: the new directory is `s.next`; none when there is no frame for its stack.
  ghost function ForkAt(s: State, src: nat, cur: nat): Option<State>
    requires Inv(s) && src in s.dirs && cur in s.dirs
  {
    var s0 := s.(next := s.next + 1);
    NextInv(s, s0);
    match WithStack(s0, cur)
    case None => None
    case Some(s1) =>
      WithStackEffect(s0, cur);
      var (s2, dst) := CloneSlots(s1, src, SetSlot(Linked(s.dirs[src], s.low), STACK_SLOT, s0.next), HEAP_SLOT);
      Some(s2.(dirs := s2.dirs[s.next := dst]))
  }

  lemma NextInv(s: State, s0: State)
    requires Inv(s) && s0 == s.(next := s.next + 1)
    ensures Inv(s0) && Kept(s, s0)
  {
    forall t, i: nat | t in s.tables && i < |s.tables[t]| ensures EntryOk(s0, t, s0.tables[t][i]) {
      assert EntryOk(s, t, s.tables[t][i]);
    }
  }

  // `dst` shares its slots with `src`; its other tables, all from `bound` up, are used once.
  ghost predicate NewDir(dirs: map<nat, Directory>, ids: set<nat>, low: nat, boot: set<nat>, src: nat,
          dst: Directory, bound: nat)
    requires src in dirs && forall d :: d in dirs ==> |dirs[d]| == ENTRIES
  {
    && |dst| == ENTRIES && bound > 0 && 0 !in boot
    && (forall d, i :: d in dirs && 0 <= i < ENTRIES ==> dirs[d][i] < bound)
    && (forall j :: 0 <= j < ENTRIES && Shared(low, j) ==> dst[j] == dirs[src][j])
    && (forall j :: 0 <= j < ENTRIES && !Shared(low, j) ==>
          dst[j] == 0 || (dst[j] >= bound && dst[j] in ids && dst[j] !in boot))
    && (forall i, j :: 0 <= i < j < ENTRIES && !Shared(low, i) && !Shared(low, j) && dst[i] != 0 ==> dst[i] != dst[j])
  }

  lemma ForkDirs(dirs: map<nat, Directory>, ids: set<nat>, low: nat, boot: set<nat>, src: nat, child: nat,
          dst: Directory, bound: nat)
    requires (forall d :: d in dirs ==> |dirs[d]| == ENTRIES) && DirsOk(dirs, ids, low, boot)
    requires src in dirs && child !in dirs && NewDir(dirs, ids, low, boot, src, dst, bound)
    ensures DirsOk(dirs[child := dst], ids, low, boot)
  {
    var dirs' := dirs[child := dst];
    forall c, d, i, j | c in dirs' && d in dirs' && 0 <= i < ENTRIES && 0 <= j < ENTRIES
        && dirs'[c][i] == dirs'[d][j] != 0
      ensures i == j && (c == d || Shared(low, i))
    {
      if c != child && d != child {
        assert dirs[c][i] == dirs[d][j];
      } else if c == child && d == child {
        ForkDirsOnce(dirs, ids, low, boot, src, dst, bound, i, j);
      } else if c == child {
        ForkDirsApart(dirs, ids, low, boot, src, dst, bound, i, d, j);
      } else {
        ForkDirsApart(dirs, ids, low, boot, src, dst, bound, j, c, i);
      }
    }
  }

  lemma ForkDirsOnce(dirs: map<nat, Directory>, ids: set<nat>, low: nat, boot: set<nat>, src: nat, dst: Directory,
          bound: nat, i: nat, j: nat)
    requires (forall d :: d in dirs ==> |dirs[d]| == ENTRIES) && DirsOk(dirs, ids, low, boot)
    requires src in dirs && NewDir(dirs, ids, low, boot, src, dst, bound)
    requires i < ENTRIES && j < ENTRIES && dst[i] == dst[j] && dst[i] != 0
    ensures i == j
  {
    if Shared(low, i) && Shared(low, j) {
      assert dirs[src][i] == dirs[src][j] != 0;
    } else if i < j {
    } else if j < i {
    }
  }

  lemma ForkDirsApart(dirs: map<nat, Directory>, ids: set<nat>, low: nat, boot: set<nat>, src: nat, dst: Directory,
          bound: nat, i: nat, d: nat, j: nat)
    requires (forall d :: d in dirs ==> |dirs[d]| == ENTRIES) && DirsOk(dirs, ids, low, boot)
    requires src in dirs && d in dirs && NewDir(dirs, ids, low, boot, src, dst, bound)
    requires i < ENTRIES && j < ENTRIES && dst[i] == dirs[d][j] && dst[i] != 0
    ensures i == j && Shared(low, i)
  {
    assert dirs[d][j] < bound;
    assert Shared(low, i);
    assert dirs[src][i] == dirs[d][j] != 0;
  }

  lemma SlotKinds(low: nat, j: nat)
    requires low <= HEAP_SLOT && j < ENTRIES
    ensures STACK_SLOT == ENTRIES - 1 && (!Shared(low, j) <==> low <= j < HEAP_SLOT || j == STACK_SLOT)
  {
  }

  lemma ForkNewDir(s: State, s1: State, s2: State, src: nat, dst: Directory)
    requires Inv(s) && Inv(s1) && src in s.dirs && s1.dirs == s.dirs && s1.next == s.next + 2
    requires Kept(s, s1) && s.next + 1 in s1.tables && s.next + 1 !in s1.boot
    requires SlotsDone(s1, s2, src, SetSlot(Linked(s.dirs[src], s.low), STACK_SLOT, s.next + 1), dst, HEAP_SLOT)
    ensures NewDir(s2.dirs, s2.tables.Keys, s2.low, s2.boot, src, dst, s.next)
  {
    hide CountsOk, StackOk, EntriesOk, Exclusive, FixedOnce, Kept;
    KeptSame(s, s1);
    KeptSame(s1, s2);
    KeptIds(s1, s2);
    forall j | 0 <= j < ENTRIES && !Shared(s.low, j)
      ensures dst[j] == 0 || (dst[j] >= s.next && dst[j] in s2.tables.Keys && dst[j] !in s2.boot)
      ensures j != STACK_SLOT && dst[j] != 0 ==> dst[j] >= s1.next && s1.dirs[src][j] != 0
      ensures j == STACK_SLOT ==> dst[j] == s.next + 1
    {
      SlotKinds(s.low, j);
      if j != STACK_SLOT && s1.dirs[src][j] != 0 { assert SlotCloned(s1, s2, src, dst[j], j); }
    }
    forall i, j | 0 <= i < j < ENTRIES && !Shared(s.low, i) && !Shared(s.low, j) && dst[i] != 0
      ensures dst[i] != dst[j]
    {
      SlotKinds(s.low, i);
      SlotKinds(s.low, j);
    }
  }

  // After a fork every old space sees what it saw; the new one sees what `src` sees, in every slot
  // below the kernel stack, and a copy of the current stack page in a frame nobody else maps.
  ghost predicate Forked(s: State, s': State, src: nat, cur: nat)
    requires Inv(s) && src in s.dirs && cur in s.dirs && FrameOf(s, cur, STACK_PAGE) in s.phys
  {
    && Inv(s') && s'.dirs.Keys == s.dirs.Keys + {s.next} && s.next !in s.dirs && s'.low == s.low
    && s'.managed == s.managed
    && (forall d, v :: d in s.dirs && 0 <= v < ENTRIES * ENTRIES ==> Sees(s', d, v) == Sees(s, d, v))
    && (forall v :: 0 <= v < ENTRIES * ENTRIES ==>
          Sees(s', s.next, v) ==
            if v == STACK_PAGE then Known(s.phys[FrameOf(s, cur, STACK_PAGE)])
            else if v / ENTRIES < STACK_SLOT then Sees(s, src, v) else NoAccess)
  }

  lemma ForkParts(s: State, src: nat, cur: nat) returns (s1: State, s2: State, dst: Directory)
    requires Inv(s) && src in s.dirs && cur in s.dirs && s.frames != [] && FrameOf(s, cur, STACK_PAGE) in s.phys
    ensures Inv(s1) && Kept(s, s1) && s1.dirs == s.dirs && s1.next == s.next + 2 && s.low <= HEAP_SLOT
    ensures StackTable(s1, s.next + 1, s.phys[FrameOf(s, cur, STACK_PAGE)])
    ensures s.next + 1 in s1.tables && |s1.tables[s.next + 1]| == ENTRIES
    ensures EntryAt(s1, s.next + 1, STACK_INDEX).addr == s.frames[|s.frames| - 1]
    ensures SlotsDone(s1, s2, src, SetSlot(Linked(s.dirs[src], s.low), STACK_SLOT, s.next + 1), dst, HEAP_SLOT)
    ensures NewDir(s2.dirs, s2.tables.Keys, s2.low, s2.boot, src, dst, s.next)
    ensures ForkAt(s, src, cur) == Some(s2.(dirs := s2.dirs[s.next := dst]))
    ensures Inv(s.(next := s.next + 1)) && WithStack(s.(next := s.next + 1), cur) == Some(s1)
    ensures |s.dirs[src]| == ENTRIES
    ensures (s2, dst) == CloneSlots(s1, src, SetSlot(Linked(s.dirs[src], s.low), STACK_SLOT, s.next + 1), HEAP_SLOT)
  {
    hide Inv, Kept, NewDir, SlotsDone, Linked, Shared, SetSlot, StackTable, WithStack, CloneSlots;
    var s0 := s.(next := s.next + 1);
    ForkSizes(s, src);
    NextInv(s, s0);
    WithStackEffect(s0, cur);
    s1 := WithStack(s0, cur).value;
    StackTableFacts(s1, s.next + 1, s.phys[FrameOf(s, cur, STACK_PAGE)]);
    var cloned := CloneSlots(s1, src, SetSlot(Linked(s.dirs[src], s.low), STACK_SLOT, s0.next), HEAP_SLOT);
    s2, dst := cloned.0, cloned.1;
    SlotsAllDone(s1, src, SetSlot(Linked(s.dirs[src], s.low), STACK_SLOT, s0.next), HEAP_SLOT);
    KeptTrans(s, s0, s1);
    ForkNewDir(s, s1, s2, src, dst);
  }

  lemma ForkSizes(s: State, src: nat)
    requires Inv(s) && src in s.dirs
    ensures |s.dirs[src]| == ENTRIES && s.low <= HEAP_SLOT < ENTRIES
  {
  }

  lemma StackTableFacts(s: State, t: nat, p: Page)
    requires Inv(s) && StackTable(s, t, p)
    ensures t in s.tables && t !in s.boot && |s.tables[t]| == ENTRIES
  {
  }

  lemma ForkEffect(s: State, src: nat, cur: nat)
    requires Inv(s) && src in s.dirs && cur in s.dirs
    ensures FrameOf(s, cur, STACK_PAGE) in s.phys
    ensures ForkAt(s, src, cur).Some? <==> s.frames != []
    ensures ForkAt(s, src, cur).Some? ==> Forked(s, ForkAt(s, src, cur).value, src, cur)
  {
    hide CountsOk, StackOk, EntriesOk, Exclusive, FixedOnce, DirsOk, Kept, NewDir, SlotsDone, EntryOk, StackTable,
        Forked;
    StackSource(s, cur);
    if s.frames != [] {
      var s1, s2, dst := ForkParts(s, src, cur);
      ForkViews(s, s1, s2, src, cur, dst);
    }
  }

  lemma ForkViews(s: State, s1: State, s2: State, src: nat, cur: nat, dst: Directory)
    requires Inv(s) && Inv(s1) && src in s.dirs && cur in s.dirs && s1.dirs == s.dirs && s1.next == s.next + 2
    requires FrameOf(s, cur, STACK_PAGE) in s.phys && StackTable(s1, s.next + 1, s.phys[FrameOf(s, cur, STACK_PAGE)])
    requires Kept(s, s1)
    requires SlotsDone(s1, s2, src, SetSlot(Linked(s.dirs[src], s.low), STACK_SLOT, s.next + 1), dst, HEAP_SLOT)
    requires NewDir(s2.dirs, s2.tables.Keys, s2.low, s2.boot, src, dst, s.next)
    ensures Forked(s, s2.(dirs := s2.dirs[s.next := dst]), src, cur)
  {
    hide CountsOk, StackOk, EntriesOk, Exclusive, FixedOnce, DirsOk, Kept, NewDir, EntryOk, SlotsCloned;
    KeptSame(s1, s2);
    KeptSame(s, s1);
    KeptTrans(s, s1, s2);
    assert s.next !in s.dirs;
    var s' := s2.(dirs := s2.dirs[s.next := dst]);
    ForkDirs(s2.dirs, s2.tables.Keys, s2.low, s2.boot, src, s.next, dst, s.next);
    DirsInv(s2, s');
    KeptDirs(s, s2, s');
    forall d, v | d in s.dirs && 0 <= v < ENTRIES * ENTRIES ensures Sees(s', d, v) == Sees(s, d, v) {
      KeptSees(s, s', d, v);
    }
    forall v | 0 <= v < ENTRIES * ENTRIES
      ensures Sees(s', s.next, v) ==
            if v == STACK_PAGE then Known(s.phys[FrameOf(s, cur, STACK_PAGE)])
            else if v / ENTRIES < STACK_SLOT then Sees(s, src, v) else NoAccess
    {
      ForkChildSees(s, s1, s2, src, dst, v);
    }
  }

  lemma ForkChildSees(s: State, s1: State, s2: State, src: nat, dst: Directory, v: nat)
    requires Inv(s) && Inv(s1) && src in s.dirs && s1.dirs == s.dirs && v < ENTRIES * ENTRIES && s.next + 1 in s1.tables
    requires Kept(s, s1)
    requires SlotsDone(s1, s2, src, SetSlot(Linked(s.dirs[src], s.low), STACK_SLOT, s.next + 1), dst, HEAP_SLOT)
    requires Inv(s2.(dirs := s2.dirs[s.next := dst]))
    ensures Sees(s2.(dirs := s2.dirs[s.next := dst]), s.next, v) ==
      if v / ENTRIES == STACK_SLOT then Shows(s1, s.next + 1, v % ENTRIES) else Sees(s, src, v)
  {
    hide CountsOk, StackOk, EntriesOk, Exclusive, FixedOnce, DirsOk, Kept, EntryOk;
    var s', j, i := s2.(dirs := s2.dirs[s.next := dst]), v / ENTRIES, v % ENTRIES;
    KeptSame(s, s1);
    KeptSame(s1, s2);
    KeptIds(s, s1);
    SeesShows(s', s.next, v);
    SeesShows(s, src, v);
    SlotKinds(s.low, j);
    if j == STACK_SLOT {
      KeptDirs(s1, s2, s');
      KeptShows(s1, s', s.next + 1, i);
    } else if s.dirs[src][j] != 0 {
      SlotReady(s, src, j);
      KeptShows(s, s1, s.dirs[src][j], i);
      if !Shared(s.low, j) { assert SlotCloned(s1, s2, src, dst[j], j); }
      KeptSelf(s2);
      KeptDirs(s2, s2, s');
      KeptShows(s2, s', dst[j], i);
      if Shared(s.low, j) { KeptShows(s1, s2, dst[j], i); }
    }
  }

  // Exactly the shared slots of a new directory hold tables that existed before, and those of `src`.
  lemma ForkTables(s: State, src: nat, cur: nat, j: nat)
    requires Inv(s) && src in s.dirs && cur in s.dirs && ForkAt(s, src, cur).Some? && j < ENTRIES
    ensures var s' := ForkAt(s, src, cur).value;
      && s.next in s'.dirs && Inv(s')
      && (Shared(s.low, j) ==> s'.dirs[s.next][j] == s.dirs[src][j])
      && (s'.dirs[s.next][j] in s.tables <==> Shared(s.low, j))
  {
    hide CountsOk, StackOk, EntriesOk, Exclusive, FixedOnce, DirsOk, Kept, EntryOk, NewDir, SlotsDone, StackTable,
        Forked;
    ForkEffect(s, src, cur);
    ForkInv(s, ForkAt(s, src, cur).value, src, cur);
    var s1, s2, dst := ForkParts(s, src, cur);
    SlotsDoneBase(s1, s2, src, SetSlot(Linked(s.dirs[src], s.low), STACK_SLOT, s.next + 1), dst, HEAP_SLOT);
    KeptSame(s, s1);
    NewDirFacts(s2, src, dst, s.next, j);
    OldIds(s);
    if Shared(s.low, j) {
      SharedUsed(s, src, j);
      SlotReady(s, src, j);
    }
  }

  // Below the stack slot every page of the new directory is on the frame of the same page of `src`.
  lemma ForkFrames(s: State, src: nat, cur: nat, v: nat)
    requires Inv(s) && src in s.dirs && cur in s.dirs && ForkAt(s, src, cur).Some? && v < STACK_SLOT * ENTRIES
    ensures var s' := ForkAt(s, src, cur).value; s.next in s'.dirs && FrameOf(s', s.next, v) == FrameOf(s, src, v)
  {
    hide CountsOk, StackOk, EntriesOk, Exclusive, FixedOnce, DirsOk, Kept, EntryOk, NewDir, SlotsDone, StackTable,
        Forked;
    ForkEffect(s, src, cur);
    var s1, s2, dst := ForkParts(s, src, cur);
    SlotsDoneBase(s1, s2, src, SetSlot(Linked(s.dirs[src], s.low), STACK_SLOT, s.next + 1), dst, HEAP_SLOT);
    ForkFrame(s, s1, s2, src, dst, v);
  }

  // Every page of an old directory stays on its frame.
  lemma ForkOldFrames(s: State, src: nat, cur: nat, d: nat, v: nat)
    requires Inv(s) && src in s.dirs && cur in s.dirs && ForkAt(s, src, cur).Some? && d in s.dirs
    requires v < ENTRIES * ENTRIES
    ensures var s' := ForkAt(s, src, cur).value; d in s'.dirs && FrameOf(s', d, v) == FrameOf(s, d, v)
  {
    hide Inv, Kept, NewDir, SlotsDone, StackTable, Forked, ForkAt;
    ForkEffect(s, src, cur);
    var s1, s2, dst := ForkParts(s, src, cur);
    var s' := s2.(dirs := s2.dirs[s.next := dst]);
    ForkInv(s, s', src, cur);
    OldDirs(s);
    ForkSizes(s, src);
    SlotsDoneBase(s1, s2, src, SetSlot(Linked(s.dirs[src], s.low), STACK_SLOT, s.next + 1), dst, HEAP_SLOT);
    KeptTrans(s, s1, s2);
    KeptDirs(s, s2, s');
    KeptFrame(s, s', d, v);
  }

  lemma OldDirs(s: State)
    requires Inv(s)
    ensures s.next !in s.dirs
  {
  }

  lemma KeptFrame(s: State, s': State, d: nat, v: nat)
    requires Inv(s) && Inv(s') && Kept(s, s') && d in s.dirs && d in s'.dirs && v < ENTRIES * ENTRIES
    requires s'.dirs[d] == s.dirs[d]
    ensures FrameOf(s', d, v) == FrameOf(s, d, v)
  {
    var t := s.dirs[d][v / ENTRIES];
    if t != 0 {
      SlotReady(s, d, v / ENTRIES);
      KeptShows(s, s', t, v % ENTRIES);
    }
  }

  // The stack page of the new directory is on a frame that no page of any space was on.
  lemma ForkStackFrame(s: State, src: nat, cur: nat, d: nat, v: nat)
    requires Inv(s) && src in s.dirs && cur in s.dirs && ForkAt(s, src, cur).Some? && d in s.dirs
    ensures var s' := ForkAt(s, src, cur).value;
      s.next in s'.dirs && FrameOf(s', s.next, STACK_PAGE) in s.frames && FrameOf(s, d, v) !in s.frames
  {
    hide Inv, Kept, NewDir, SlotsDone, StackTable, Forked, ForkAt;
    ForkEffect(s, src, cur);
    var s1, s2, dst := ForkParts(s, src, cur);
    SlotsDoneStack(s, s1, s2, src, dst);
    KeptShows(s1, s2, s.next + 1, STACK_INDEX);
    FrameNotFree(s, d, v);
  }

  lemma FrameNotFree(s: State, d: nat, v: nat)
    requires Inv(s) && d in s.dirs
    ensures FrameOf(s, d, v) !in s.frames
  {
    var f := FrameOf(s, d, v);
    if f in s.frames { CountAtLeast(s.tables, s.dirs[d][v / ENTRIES], v % ENTRIES, f); }
  }

  lemma ForkInv(s: State, s': State, src: nat, cur: nat)
    requires Inv(s) && src in s.dirs && cur in s.dirs && FrameOf(s, cur, STACK_PAGE) in s.phys
    requires Forked(s, s', src, cur)
    ensures Inv(s')
  {
  }

  lemma NewDirFacts(s: State, src: nat, dst: Directory, bound: nat, j: nat)
    requires Inv(s) && src in s.dirs && NewDir(s.dirs, s.tables.Keys, s.low, s.boot, src, dst, bound) && j < ENTRIES
    ensures |dst| == ENTRIES && if Shared(s.low, j) then dst[j] == s.dirs[src][j] else dst[j] == 0 || dst[j] >= bound
  {
  }

  lemma OldIds(s: State)
    requires NextOk(s)
    ensures forall t :: t in s.tables ==> t < s.next
  {
  }

  lemma SharedUsed(s: State, d: nat, j: nat)
    requires Inv(s) && d in s.dirs && j < ENTRIES && Shared(s.low, j)
    ensures s.dirs[d][j] != 0
  {
  }

  lemma SlotsDoneStack(s: State, s1: State, s2: State, src: nat, dst: Directory)
    requires Inv(s) && Inv(s1) && src in s.dirs && s1.dirs == s.dirs && s.low <= HEAP_SLOT
    requires SlotsDone(s1, s2, src, SetSlot(Linked(s.dirs[src], s.low), STACK_SLOT, s.next + 1), dst, HEAP_SLOT)
    ensures |dst| == ENTRIES && dst[STACK_SLOT] == s.next + 1 && Inv(s2) && Kept(s1, s2)
  {
    hide SlotCloned, Kept;
  }

  lemma ForkFrame(s: State, s1: State, s2: State, src: nat, dst: Directory, v: nat)
    requires Inv(s) && Inv(s1) && src in s.dirs && s1.dirs == s.dirs && v < STACK_SLOT * ENTRIES
    requires s.next + 1 in s1.tables
    requires Kept(s, s1)
    requires SlotsDone(s1, s2, src, SetSlot(Linked(s.dirs[src], s.low), STACK_SLOT, s.next + 1), dst, HEAP_SLOT)
    requires 0 !in s2.tables
    ensures FrameOf(s2.(dirs := s2.dirs[s.next := dst]), s.next, v) == FrameOf(s, src, v)
  {
    hide CountsOk, StackOk, EntriesOk, Exclusive, FixedOnce, DirsOk, Kept, EntryOk;
    var j, i := v / ENTRIES, v % ENTRIES;
    KeptSame(s, s1);
    KeptSame(s1, s2);
    SlotKinds(s.low, j);
    if s.dirs[src][j] != 0 {
      SlotReady(s, src, j);
      KeptShows(s, s1, s.dirs[src][j], i);
      if Shared(s.low, j) {
        KeptShows(s1, s2, dst[j], i);
      } else {
        assert SlotCloned(s1, s2, src, dst[j], j);
      }
    }
  }
}
