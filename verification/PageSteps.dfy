/** The steps of paging on single entries, as functions of the state, and what they keep. */
module PageSteps {
  import opened Common
  import opened PageState

  predicate HasEntry(s: State, t: nat, i: nat) {
    t in s.tables && i < |s.tables[t]|
  }

  function EntryAt(s: State, t: nat, i: nat): Entry
    requires HasEntry(s, t, i)
  {
    s.tables[t][i]
  }

  function Put(s: State, t: nat, i: nat, e: Entry): State
    requires HasEntry(s, t, i)
  {
    s.(tables := s.tables[t := s.tables[t][i := e]])
  }

  // ---- the code's entry operations ----

  // `Table_entry_t::alloc`; none when no frame is free.
  function AllocAt(s: State, t: nat, i: nat, user: bool, rw: bool): Option<State>
    requires HasEntry(s, t, i)
  {
    var e := EntryAt(s, t, i).(rw := rw, user := user);
    if e.addr != 0 then Some(Put(s, t, i, e))
    else if s.frames == [] then None
    else
      var f := s.frames[|s.frames| - 1];
      Some(Put(s.(frames := s.frames[..|s.frames| - 1], refCnt := s.refCnt[f := 1]),
               t, i, e.(addr := f, allocable := true, present := true)))
  }

  // `Table_entry_t::fill_uint32(0)`.
  function ZeroAt(s: State, t: nat, i: nat): State
    requires HasEntry(s, t, i)
  {
    s.(phys := s.phys[EntryAt(s, t, i).addr := ZeroPage()])
  }

  // `Table_entry_t::lazy_alloc`.
  function LazyAllocAt(s: State, t: nat, i: nat, user: bool, rw: bool, fill: bool): State
    requires HasEntry(s, t, i)
  {
    var e := EntryAt(s, t, i).(rw := rw, user := user);
    if e.addr == 0 then Put(s, t, i, e.(allocable := true, fill := fill))
    else if fill then ZeroAt(Put(s, t, i, e), t, i)
    else Put(s, t, i, e)
  }

  // `Table_entry_t::free`.
  function FreeAt(s: State, t: nat, i: nat): State
    requires HasEntry(s, t, i)
    requires (EntryAt(s, t, i).addr != 0 ==> EntryAt(s, t, i).addr in s.refCnt && s.refCnt[EntryAt(s, t, i).addr] > 0)
  {
    var e := EntryAt(s, t, i);
    if e.addr == 0 then s
    else
      var n := s.refCnt[e.addr] - 1;
      Put(s.(refCnt := s.refCnt[e.addr := n], frames := if n == 0 then s.frames + [e.addr] else s.frames),
          t, i, e.(addr := 0, present := false, allocable := false))
  }

  // One round of `clone_table`: entry `i` of `src` loses `rw` when mapped, and is copied to `dst`.
  function CloneAt(s: State, src: nat, dst: nat, i: nat): State
    requires HasEntry(s, src, i) && HasEntry(s, dst, i) && src != dst
    requires EntryAt(s, src, i).addr != 0 ==> EntryAt(s, src, i).addr in s.refCnt
  {
    var e := EntryAt(s, src, i);
    if e.addr == 0 then Put(s, dst, i, e)
    else
      var ro := e.(rw := false);
      Put(Put(s, src, i, ro), dst, i, ro).(refCnt := s.refCnt[e.addr := s.refCnt[e.addr] + 1])
  }

  // The frame of entry (t, i) gets the contents of frame `f` (`copy_page_physical`).
  function CopyFrom(s: State, t: nat, i: nat, f: nat): State
    requires HasEntry(s, t, i) && f in s.phys
  {
    s.(phys := s.phys[EntryAt(s, t, i).addr := s.phys[f]])
  }

  // Breaking a copy-on-write share: the entry leaves its frame for a fresh copy.
  function UnshareAt(s: State, t: nat, i: nat): Option<State>
    requires HasEntry(s, t, i)
    requires var a := EntryAt(s, t, i).addr; a in s.refCnt && s.refCnt[a] > 0 && a in s.phys
  {
    var e := EntryAt(s, t, i);
    var s1 := Put(s.(refCnt := s.refCnt[e.addr := s.refCnt[e.addr] - 1]), t, i, e.(addr := 0));
    match AllocAt(s1, t, i, true, true)
    case None => None
    case Some(s2) => Some(CopyFrom(s2, t, i, e.addr))
  }

  // ---- counting ----

  lemma RefsPut(tables: map<nat, Table>, t: nat, i: nat, e: Entry, f: nat)
    requires t in tables && i < |tables[t]|
    ensures Refs(tables[t := tables[t][i := e]], f)
      == Refs(tables, f) - {(t, i)} + (if e.addr == f then {(t, i)} else {})
  {
  }

  lemma CountPut(tables: map<nat, Table>, t: nat, i: nat, e: Entry, f: nat)
    requires t in tables && i < |tables[t]|
    ensures |Refs(tables[t := tables[t][i := e]], f)| ==
            |Refs(tables, f)| - (if tables[t][i].addr == f then 1 else 0) + (if e.addr == f then 1 else 0)
  {
    RefsPut(tables, t, i, e, f);
    assert (t, i) in Refs(tables, f) <==> tables[t][i].addr == f;
  }

  // A place that maps `f` makes its count positive, and two places make it at least two.
  lemma CountAtLeast(tables: map<nat, Table>, t: nat, i: nat, f: nat)
    requires t in tables && i < |tables[t]| && tables[t][i].addr == f
    ensures |Refs(tables, f)| > 0
    ensures forall u, j :: u in tables && 0 <= j < |tables[u]| && tables[u][j].addr == f && (u, j) != (t, i) ==>
      |Refs(tables, f)| > 1
  {
    assert (t, i) in Refs(tables, f);
    forall u, j: nat | u in tables && j < |tables[u]| && tables[u][j].addr == f && (u, j) != (t, i)
      ensures |Refs(tables, f)| > 1
    {
      assert (u, j) in Refs(tables, f) - {(t, i)};
      assert |Refs(tables, f) - {(t, i)}| == |Refs(tables, f)| - 1;
    }
  }

  // A frame nobody counts is mapped nowhere; a frame counted once is mapped in one place only.
  lemma MappedElsewhere(s: State, t: nat, i: nat, u: nat, j: nat)
    requires Inv(s) && HasEntry(s, t, i) && HasEntry(s, u, j) && (u, j) != (t, i)
    requires EntryAt(s, t, i).addr in s.managed && s.refCnt[EntryAt(s, t, i).addr] == 1
    ensures EntryAt(s, u, j).addr != EntryAt(s, t, i).addr
  {
    CountAtLeast(s.tables, t, i, EntryAt(s, t, i).addr);
  }

  lemma StackFrame(s: State)
    requires Inv(s) && s.frames != []
    ensures var f := s.frames[|s.frames| - 1];
      && f in s.managed && f in s.refCnt && s.refCnt[f] == 0 && f != 0 && f in s.phys
      && (forall t, i :: t in s.tables && 0 <= i < |s.tables[t]| ==> s.tables[t][i].addr != f)
      && (forall g :: g in s.frames[..|s.frames| - 1] <==> g in s.frames && g != f)
      && NoDup(s.frames[..|s.frames| - 1])
  {
    var f := s.frames[|s.frames| - 1];
    assert f in s.frames;
    forall t, i: nat | t in s.tables && i < |s.tables[t]| ensures s.tables[t][i].addr != f {
      if s.tables[t][i].addr == f { CountAtLeast(s.tables, t, i, f); }
    }
  }

  // ---- replacing one entry ----

  // `s'` is `s` with entry (t, i) replaced by `e`, up to the frame stack and the counts.
  ghost predicate Puts(s: State, s': State, t: nat, i: nat, e: Entry) {
    && HasEntry(s, t, i)
    && s' == s.(tables := s.tables[t := s.tables[t][i := e]], frames := s'.frames, refCnt := s'.refCnt)
  }

  lemma EntriesPut(s: State, s': State, t: nat, i: nat, e: Entry)
    requires EntriesOk(s) && Puts(s, s', t, i, e) && EntryOk(s, t, e)
    ensures EntriesOk(s')
  {
    forall u, j: nat | u in s'.tables && j < |s'.tables[u]| ensures EntryOk(s', u, s'.tables[u][j]) {
      if (u, j) != (t, i) { assert EntryOk(s, u, s.tables[u][j]); }
    }
  }

  lemma FixedPut(tables: map<nat, Table>, managed: set<nat>, t: nat, i: nat, e: Entry)
    requires t in tables && i < |tables[t]| && FixedOnce(tables, managed)
    requires e.addr == 0 || e.addr in managed || e.addr == tables[t][i].addr
    ensures FixedOnce(tables[t := tables[t][i := e]], managed)
  {
  }

  lemma CountsPut(s: State, s': State, t: nat, i: nat, e: Entry)
    requires CountsOk(s) && Puts(s, s', t, i, e)
    requires forall g :: g in s.managed ==>
      g in s'.refCnt && s'.refCnt[g] + (if EntryAt(s, t, i).addr == g then 1 else 0)
          == s.refCnt[g] + (if e.addr == g then 1 else 0)
    ensures CountsOk(s')
  {
    forall g | g in s.managed ensures g in s'.refCnt && s'.refCnt[g] == |Refs(s'.tables, g)| {
      CountPut(s.tables, t, i, e, g);
    }
  }

  lemma PutInv(s: State, s': State, t: nat, i: nat, e: Entry)
    requires Inv(s) && Puts(s, s', t, i, e) && EntryOk(s, t, e)
    requires e.addr == 0 || e.addr in s.managed || e.addr == EntryAt(s, t, i).addr
    requires CountsOk(s') && StackOk(s') && Exclusive(s')
    ensures Inv(s')
  {
    hide CountsOk, StackOk, EntriesOk, Exclusive, FixedOnce, DirsOk, EntryOk;
    EntriesPut(s, s', t, i, e);
    FixedPut(s.tables, s.managed, t, i, e);
    assert s'.tables.Keys == s.tables.Keys;
  }

  // ---- allocation ----

  lemma AllocFreshInv(s: State, t: nat, i: nat, user: bool, rw: bool)
    requires Inv(s) && HasEntry(s, t, i) && EntryAt(s, t, i).addr == 0 && s.frames != []
    ensures Inv(AllocAt(s, t, i, user, rw).value)
  {
    hide CountsOk, StackOk, EntriesOk, Exclusive, FixedOnce, DirsOk;
    var s' := AllocAt(s, t, i, user, rw).value;
    StackFrame(s);
    CountsFacts(s);
    CountsPut(s, s', t, i, s'.tables[t][i]);
    AllocStack(s, s');
    AllocExclusive(s, s', t, i, s'.tables[t][i]);
    PutInv(s, s', t, i, s'.tables[t][i]);
  }

  lemma AllocStack(s: State, s': State)
    requires StackOk(s) && s.frames != [] && s'.frames == s.frames[..|s.frames| - 1] && s'.managed == s.managed
    requires s'.refCnt == s.refCnt[s.frames[|s.frames| - 1] := 1]
    ensures StackOk(s')
  {
    var f := s.frames[|s.frames| - 1];
    assert forall g :: g in s'.frames <==> g in s.frames && g != f;
  }

  lemma AllocExclusive(s: State, s': State, t: nat, i: nat, e: Entry)
    requires Exclusive(s) && Puts(s, s', t, i, e)
    requires forall u, j :: u in s.tables && 0 <= j < |s.tables[u]| ==> s.tables[u][j].addr != e.addr
    requires s'.refCnt == s.refCnt[e.addr := 1]
    ensures Exclusive(s')
  {
    forall u, j: nat | u in s'.tables && j < |s'.tables[u]| && (u, j) != (t, i)
      ensures s'.tables[u][j] == s.tables[u][j] && s.tables[u][j].addr != e.addr
    {
    }
  }

  // An entry that may be written while its frame is mapped elsewhere too.
  ghost predicate Leaks(s: State, e: Entry) {
    e.rw && e.addr in s.managed && e.addr in s.refCnt && s.refCnt[e.addr] != 1
  }

  // Changing flags only: the invariant survives exactly when the entry does not leak.
  lemma FlagsInv(s: State, t: nat, i: nat, e: Entry)
    requires Inv(s) && HasEntry(s, t, i) && EntryOk(s, t, e) && e.addr == EntryAt(s, t, i).addr
    ensures Inv(Put(s, t, i, e)) <==> !Leaks(s, e)
  {
    hide CountsOk, StackOk, EntriesOk, Exclusive, FixedOnce, DirsOk;
    var s' := Put(s, t, i, e);
    FlagsExclusive(s, t, i, e);
    if !Leaks(s, e) {
      CountsFacts(s);
      CountsPut(s, s', t, i, e);
      StackSame(s, s');
      PutInv(s, s', t, i, e);
    }
  }

  lemma CountsFacts(s: State)
    requires CountsOk(s)
    ensures forall g :: g in s.managed ==> g in s.refCnt
  {
  }

  lemma StackSame(s: State, s': State)
    requires StackOk(s) && s'.frames == s.frames && s'.refCnt == s.refCnt && s'.managed == s.managed
    ensures StackOk(s')
  {
  }

  lemma FlagsExclusive(s: State, t: nat, i: nat, e: Entry)
    requires Exclusive(s) && HasEntry(s, t, i)
    ensures Exclusive(Put(s, t, i, e)) <==> !Leaks(s, e)
  {
    var s' := Put(s, t, i, e);
    assert s'.tables[t][i] == e;
    forall u, j: nat | u in s'.tables && j < |s'.tables[u]| && (u, j) != (t, i)
      ensures s'.tables[u][j] == s.tables[u][j]
    {
    }
  }

  // `alloc` on a mapped entry does not look at the reference count: it keeps the invariant
  // exactly when the entry stays read-only or its frame is not shared.
  lemma AllocMappedInv(s: State, t: nat, i: nat, user: bool, rw: bool)
    requires Inv(s) && HasEntry(s, t, i) && EntryAt(s, t, i).addr in s.managed
    ensures AllocAt(s, t, i, user, rw).Some?
    ensures Inv(AllocAt(s, t, i, user, rw).value) <==> !rw || s.refCnt[EntryAt(s, t, i).addr] == 1
  {
    FlagsInv(s, t, i, EntryAt(s, t, i).(rw := rw, user := user));
  }

  // Writing the contents of a frame changes nothing that is counted.
  lemma PhysInv(s: State, f: nat, p: Page)
    requires Inv(s) && |p| == ENTRIES
    ensures Inv(s.(phys := s.phys[f := p]))
  {
    assert s.(phys := s.phys[f := p]).tables == s.tables;
  }

  lemma LazyAllocInv(s: State, t: nat, i: nat, user: bool, rw: bool, fill: bool)
    requires Inv(s) && HasEntry(s, t, i) && t !in s.boot
    ensures Inv(LazyAllocAt(s, t, i, user, rw, fill)) <==>
      EntryAt(s, t, i).addr == 0 || !rw || s.refCnt[EntryAt(s, t, i).addr] == 1
  {
    var e := EntryAt(s, t, i).(rw := rw, user := user);
    if e.addr == 0 {
      FlagsInv(s, t, i, e.(allocable := true, fill := fill));
    } else {
      FlagsInv(s, t, i, e);
      var s1 := Put(s, t, i, e);
      if fill {
        if Inv(s1) { PhysInv(s1, e.addr, ZeroPage()); }
        LeakStays(s1, t, i, ZeroAt(s1, t, i));
      }
    }
  }

  lemma LeakStays(s: State, t: nat, i: nat, s': State)
    requires HasEntry(s, t, i) && s'.tables == s.tables && s'.refCnt == s.refCnt && s'.managed == s.managed
    ensures Leaks(s, EntryAt(s, t, i)) ==> !Inv(s')
  {
    assert s'.tables[t][i] == EntryAt(s, t, i);
  }

  // ---- release ----

  lemma FreeInv(s: State, t: nat, i: nat)
    requires Inv(s) && HasEntry(s, t, i) && (EntryAt(s, t, i).addr == 0 || EntryAt(s, t, i).addr in s.managed)
    ensures EntryAt(s, t, i).addr != 0 ==> EntryAt(s, t, i).addr in s.refCnt && s.refCnt[EntryAt(s, t, i).addr] > 0
    ensures Inv(FreeAt(s, t, i))
  {
    var f := EntryAt(s, t, i).addr;
    if f != 0 {
      CountAtLeast(s.tables, t, i, f);
      CountsFacts(s);
      assert s.refCnt[f] > 0;
      FreeExclusive(s, t, i);
      hide CountsOk, StackOk, EntriesOk, Exclusive, FixedOnce, DirsOk;
      var s' := FreeAt(s, t, i);
      FreeStack(s, s', f);
      CountsPut(s, s', t, i, s'.tables[t][i]);
      PutInv(s, s', t, i, s'.tables[t][i]);
    }
  }

  lemma FreeStack(s: State, s': State, f: nat)
    requires StackOk(s) && f in s.managed && f in s.refCnt && s.refCnt[f] > 0 && s'.managed == s.managed
    requires s'.refCnt == s.refCnt[f := s.refCnt[f] - 1] && s'.frames == if s.refCnt[f] == 1 then s.frames + [f]
      else s.frames
    ensures StackOk(s')
  {
    assert f !in s.frames;
    assert forall g :: g in s'.frames <==> g in s.frames || (g == f && s'.refCnt[f] == 0);
  }

  // After one mapping of a frame is gone, nothing that may be written is shared.
  lemma FreeExclusive(s: State, t: nat, i: nat)
    requires Inv(s) && HasEntry(s, t, i) && EntryAt(s, t, i).addr in s.managed && s.refCnt[EntryAt(s, t, i).addr] > 0
    ensures Exclusive(FreeAt(s, t, i))
  {
    var f, s' := EntryAt(s, t, i).addr, FreeAt(s, t, i);
    forall u, j: nat | u in s'.tables && j < |s'.tables[u]| && s'.tables[u][j].addr == f && (u, j) != (t, i)
      ensures !s'.tables[u][j].rw
    {
      CountAtLeast(s.tables, u, j, f);
      assert s.tables[u][j] == s'.tables[u][j];
    }
  }

  // ---- cloning ----

  lemma CloneInv(s: State, src: nat, dst: nat, i: nat)
    requires Inv(s) && HasEntry(s, src, i) && HasEntry(s, dst, i) && src != dst
    requires EntryAt(s, dst, i).addr == 0 && src !in s.boot && dst !in s.boot
    ensures EntryAt(s, src, i).addr != 0 ==> EntryAt(s, src, i).addr in s.refCnt
    ensures Inv(CloneAt(s, src, dst, i))
  {
    var e := EntryAt(s, src, i);
    assert EntryOk(s, src, s.tables[src][i]);
    CountsFacts(s);
    if e.addr == 0 {
      FlagsInv(s, dst, i, e);
    } else {
      var ro, s' := e.(rw := false), CloneAt(s, src, dst, i);
      CountAtLeast(s.tables, src, i, e.addr);
      assert s.refCnt[e.addr] > 0;
      CloneExclusive(s, src, dst, i);
      hide CountsOk, StackOk, EntriesOk, Exclusive, FixedOnce, DirsOk;
      FlagsInv(s, src, i, ro);
      var s1 := Put(s, src, i, ro);
      CloneStack(s1, s', e.addr);
      CountsPut(s1, s', dst, i, ro);
      PutInv(s1, s', dst, i, ro);
    }
  }

  lemma CloneStack(s: State, s': State, f: nat)
    requires StackOk(s) && f in s.refCnt && s.refCnt[f] > 0 && s'.managed == s.managed
    requires s'.refCnt == s.refCnt[f := s.refCnt[f] + 1] && s'.frames == s.frames
    ensures StackOk(s')
  {
  }

  // The frame a clone shares was writable, if at all, through the entry that was just made read-only.
  lemma CloneExclusive(s: State, src: nat, dst: nat, i: nat)
    requires Inv(s) && HasEntry(s, src, i) && HasEntry(s, dst, i) && src != dst
    requires EntryAt(s, dst, i).addr == 0 && EntryAt(s, src, i).addr in s.managed
    ensures Exclusive(CloneAt(s, src, dst, i))
  {
    var f, s' := EntryAt(s, src, i).addr, CloneAt(s, src, dst, i);
    forall u, j: nat | u in s'.tables && j < |s'.tables[u]| && s'.tables[u][j].addr == f ensures !s'.tables[u][j].rw {
      if (u, j) != (src, i) && (u, j) != (dst, i) {
        assert s.tables[u][j] == s'.tables[u][j];
        CountAtLeast(s.tables, u, j, f);
      }
    }
  }

  // The entry that leaves a share is for a moment present without a frame; freeing it first leads
  // to the same state.
  lemma UnshareFrees(s: State, t: nat, i: nat)
    requires HasEntry(s, t, i)
    requires var a := EntryAt(s, t, i).addr; a != 0 && a in s.refCnt && s.refCnt[a] > 1 && a in s.phys
    ensures UnshareAt(s, t, i) ==
      match AllocAt(FreeAt(s, t, i), t, i, true, true)
      case None => None
      case Some(s2) => Some(CopyFrom(s2, t, i, EntryAt(s, t, i).addr))
  {
    var e := EntryAt(s, t, i);
    var s1 := Put(s.(refCnt := s.refCnt[e.addr := s.refCnt[e.addr] - 1]), t, i, e.(addr := 0));
    var s1' := FreeAt(s, t, i);
    assert s1'.frames == s1.frames && s1'.refCnt == s1.refCnt;
    if s.frames != [] {
      var f := s.frames[|s.frames| - 1];
      var e2 := e.(rw := true, user := true, addr := f, allocable := true, present := true);
      assert s1.tables[t][i := e2] == s.tables[t][i := e2] == s1'.tables[t][i := e2];
      assert s1.tables[t := s.tables[t][i := e2]] == s.tables[t := s.tables[t][i := e2]]
          == s1'.tables[t := s.tables[t][i := e2]];
      assert AllocAt(s1, t, i, true, true) == AllocAt(s1', t, i, true, true);
    }
  }

  lemma UnshareInv(s: State, t: nat, i: nat)
    requires Inv(s) && HasEntry(s, t, i) && EntryAt(s, t, i).addr in s.managed && s.refCnt[EntryAt(s, t, i).addr] > 1
    ensures UnshareAt(s, t, i).Some? <==> s.frames != []
    ensures UnshareAt(s, t, i).Some? ==> Inv(UnshareAt(s, t, i).value)
  {
    var f := EntryAt(s, t, i).addr;
    assert f != 0 && f in s.refCnt && f in s.phys;
    hide CountsOk, StackOk, EntriesOk, Exclusive, DirsOk;
    UnshareFrees(s, t, i);
    FreeInv(s, t, i);
    var s1 := FreeAt(s, t, i);
    if s.frames != [] {
      AllocFreshInv(s1, t, i, true, true);
      var s2 := AllocAt(s1, t, i, true, true).value;
      PhysInv(s2, EntryAt(s2, t, i).addr, s2.phys[EntryAt(s, t, i).addr]);
    }
  }

  // ---- what the other places see ----

  // Page `v` of directory `d` goes through entry (t, i).
  ghost predicate Through(s: State, d: nat, v: nat, t: nat, i: nat) {
    d in s.dirs && v / ENTRIES < |s.dirs[d]| && s.dirs[d][v / ENTRIES] == t && v % ENTRIES == i
  }

  // From `s` to `s'` only entry (t, i) and frames mapped nowhere else changed.
  ghost predicate Local(s: State, s': State, t: nat, i: nat) {
    && s'.dirs == s.dirs && s'.low == s.low && s'.boot == s.boot && s'.managed == s.managed
    && s'.tables.Keys == s.tables.Keys
    && (forall u :: u in s.tables ==> |s'.tables[u]| == |s.tables[u]|)
    && (forall u, j :: u in s.tables && 0 <= j < |s.tables[u]| && (u, j) != (t, i) ==>
          s'.tables[u][j] == s.tables[u][j])
    && (forall u, j :: u in s.tables && 0 <= j < |s.tables[u]| && (u, j) != (t, i) && s.tables[u][j].addr in s.phys ==>
          s.tables[u][j].addr in s'.phys && s'.phys[s.tables[u][j].addr] == s.phys[s.tables[u][j].addr])
  }

  lemma LocalSees(s: State, s': State, t: nat, i: nat, d: nat, v: nat)
    requires Inv(s) && Inv(s') && Local(s, s', t, i) && d in s.dirs && v < ENTRIES * ENTRIES && !Through(s, d, v, t, i)
    ensures Sees(s', d, v) == Sees(s, d, v)
  {
    var u, j := s.dirs[d][v / ENTRIES], v % ENTRIES;
    if u != 0 { assert EntryOk(s, u, s.tables[u][j]); }
  }

  lemma ThroughSees(s: State, d: nat, v: nat, t: nat, i: nat)
    requires Inv(s) && Through(s, d, v, t, i) && HasEntry(s, t, i) && v < ENTRIES * ENTRIES
    ensures EntryOk(s, t, EntryAt(s, t, i)) && Sees(s, d, v) == EntryView(EntryAt(s, t, i), s.phys)
  {
    assert EntryOk(s, t, s.tables[t][i]);
  }

  // Only one page of one directory goes through an entry of a private table.
  lemma ThroughOnce(s: State, d: nat, v: nat, d': nat, v': nat, t: nat, i: nat)
    requires Inv(s) && v < ENTRIES * ENTRIES && v' < ENTRIES * ENTRIES && t != 0
    requires Through(s, d, v, t, i) && Through(s, d', v', t, i)
    ensures v == v' && (d == d' || Shared(s.low, v / ENTRIES))
  {
    var j, j' := v / ENTRIES, v' / ENTRIES;
    assert s.dirs[d][j] == s.dirs[d'][j'] != 0;
    assert v == j * ENTRIES + v % ENTRIES && v' == j' * ENTRIES + v' % ENTRIES;
  }
}
