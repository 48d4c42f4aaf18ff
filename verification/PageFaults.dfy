/** The page-fault handler, memory accesses through it, and what they do to every address space. */
module PageFaults {
  import opened Common
  import opened PageState
  import opened PageSteps

  // `frame_ref_cnt`, 0 where it holds nothing.
  function Count(s: State, f: nat): nat {
    if f in s.refCnt then s.refCnt[f] else 0
  }

  // What the processor lets through without a fault; supervisor writes obey `rw` too.
  predicate Permitted(e: Entry, write: bool, byUser: bool) {
    e.present && (byUser ==> e.user) && (write ==> e.rw)
  }

  datatype Outcome = Resolved(state: State) | OutOfFrames | Refused

  // `page_fault` on the entry of the address; bit 0 of the error code is its present bit.
  ghost function FaultAt(s: State, t: nat, i: nat, write: bool, byUser: bool): Outcome
    requires Inv(s) && HasEntry(s, t, i)
  {
    var e := EntryAt(s, t, i);
    assert EntryOk(s, t, s.tables[t][i]);
    if !e.allocable || (byUser && !e.user) then Refused
    else if !e.present then
      match AllocAt(s, t, i, e.user, e.rw)
      case None => OutOfFrames
      case Some(s1) => Resolved(if e.fill then ZeroAt(s1, t, i) else s1)
    else if !write || !e.user || e.addr == 0 || Count(s, e.addr) == 0 then Refused
    else if Count(s, e.addr) == 1 then Resolved(Put(s, t, i, e.(rw := true)))
    else
      match UnshareAt(s, t, i)
      case None => OutOfFrames
      case Some(s1) => Resolved(s1)
  }

  // ---- local changes ----

  lemma LocalTrans(s0: State, s1: State, s2: State, t: nat, i: nat)
    requires Local(s0, s1, t, i) && Local(s1, s2, t, i)
    ensures Local(s0, s2, t, i)
  {
  }

  // Overwriting a frame that only entry (t, i) maps.
  lemma OverwriteLocal(s: State, t: nat, i: nat, p: Page)
    requires Inv(s) && HasEntry(s, t, i) && EntryAt(s, t, i).addr in s.managed && s.refCnt[EntryAt(s, t, i).addr] == 1
    ensures Local(s, s.(phys := s.phys[EntryAt(s, t, i).addr := p]), t, i)
  {
    forall u, j: nat | u in s.tables && j < |s.tables[u]| && (u, j) != (t, i)
      ensures s.tables[u][j].addr != EntryAt(s, t, i).addr
    {
      MappedElsewhere(s, t, i, u, j);
    }
  }

  // A fresh frame, its old contents still in it.
  lemma AllocFreshFacts(s: State, t: nat, i: nat, user: bool, rw: bool)
    requires Inv(s) && HasEntry(s, t, i) && EntryAt(s, t, i).addr == 0 && s.frames != []
    ensures var s', f := AllocAt(s, t, i, user, rw).value, s.frames[|s.frames| - 1];
      && Inv(s') && Local(s, s', t, i) && f in s.managed && s'.refCnt[f] == 1 && s'.phys == s.phys && HasEntry(s', t, i)
      && EntryAt(s', t, i) == EntryAt(s, t, i).(rw := rw, user := user, addr := f, allocable := true, present := true)
  {
    hide *;
    AllocFreshInv(s, t, i, user, rw);
    StackFrame(s);
    AllocShape(s, t, i, user, rw);
  }

  lemma AllocShape(s: State, t: nat, i: nat, user: bool, rw: bool)
    requires HasEntry(s, t, i) && EntryAt(s, t, i).addr == 0 && s.frames != []
    ensures AllocAt(s, t, i, user, rw).Some?
    ensures var s', f := AllocAt(s, t, i, user, rw).value, s.frames[|s.frames| - 1];
      && Local(s, s', t, i) && f in s'.refCnt && s'.refCnt[f] == 1 && s'.phys == s.phys && HasEntry(s', t, i)
      && EntryAt(s', t, i) == EntryAt(s, t, i).(rw := rw, user := user, addr := f, allocable := true, present := true)
  {
  }

  // What is known about the entry of an invariant state.
  lemma EntryFacts(s: State, t: nat, i: nat)
    requires Inv(s) && HasEntry(s, t, i)
    ensures var e := EntryAt(s, t, i);
      && EntryOk(s, t, e) && (e.addr != 0 ==> e.addr in s.phys) && |s.tables[t]| == ENTRIES
      && (e.addr in s.managed ==> e.addr != 0 && e.addr in s.refCnt && s.refCnt[e.addr] > 0)
  {
    var e := EntryAt(s, t, i);
    assert EntryOk(s, t, s.tables[t][i]);
    if e.addr in s.managed { CountAtLeast(s.tables, t, i, e.addr); }
  }

  // ---- the handler ----

  // A page keeps its contents; only one that had none yet may get some.
  predicate Grows(before: View, after: View) {
    after == before || (before.Undefined? && after.Known?)
  }

  // Entry (t, i) is now present, as it was otherwise, writable if it was present before.
  ghost predicate Served(s: State, s': State, t: nat, i: nat)
    requires HasEntry(s, t, i)
  {
    && HasEntry(s', t, i)
    && var e, e' := EntryAt(s, t, i), EntryAt(s', t, i);
      && e' == e.(addr := e'.addr, present := true, rw := e.present || e.rw)
      && e'.addr in s'.managed
      && (e.addr != 0 ==> e.addr in s.phys) && (e'.addr in s'.phys)
      && Grows(EntryView(e, s.phys), EntryView(e', s'.phys))
  }

  lemma FaultEffect(s: State, t: nat, i: nat, write: bool, byUser: bool)
    requires Inv(s) && HasEntry(s, t, i) && FaultAt(s, t, i, write, byUser).Resolved?
    ensures var s' := FaultAt(s, t, i, write, byUser).state;
      Inv(s') && Local(s, s', t, i) && Served(s, s', t, i)
  {
    hide CountsOk, StackOk, EntriesOk, Exclusive, DirsOk, Local;
    EntryFacts(s, t, i);
    var e := EntryAt(s, t, i);
    if !e.present {
      LazyFault(s, t, i);
    } else if Count(s, e.addr) == 1 {
      FlagsInv(s, t, i, e.(rw := true));
      FlagsLocal(s, t, i, e.(rw := true));
    } else {
      ShareFault(s, t, i);
    }
  }

  lemma FlagsLocal(s: State, t: nat, i: nat, e: Entry)
    requires HasEntry(s, t, i)
    ensures Local(s, Put(s, t, i, e), t, i)
  {
  }

  lemma LazyFault(s: State, t: nat, i: nat)
    requires Inv(s) && HasEntry(s, t, i) && EntryAt(s, t, i).allocable && !EntryAt(s, t, i).present && s.frames != []
    ensures var e := EntryAt(s, t, i);
      AllocAt(s, t, i, e.user, e.rw).Some?
      && var s1 := AllocAt(s, t, i, e.user, e.rw).value;
      HasEntry(s1, t, i)
      && var s' := if e.fill then ZeroAt(s1, t, i) else s1;
      Inv(s') && Local(s, s', t, i) && Served(s, s', t, i)
  {
    hide CountsOk, StackOk, EntriesOk, Exclusive, DirsOk, Local;
    EntryFacts(s, t, i);
    var e := EntryAt(s, t, i);
    AllocFreshFacts(s, t, i, e.user, e.rw);
    var s1 := AllocAt(s, t, i, e.user, e.rw).value;
    EntryFacts(s1, t, i);
    if e.fill {
      var f := EntryAt(s1, t, i).addr;
      PhysInv(s1, f, ZeroPage());
      OverwriteLocal(s1, t, i, ZeroPage());
      LocalTrans(s, s1, ZeroAt(s1, t, i), t, i);
    }
  }

  lemma ShareFault(s: State, t: nat, i: nat)
    requires Inv(s) && HasEntry(s, t, i) && EntryAt(s, t, i).addr in s.managed && s.refCnt[EntryAt(s, t, i).addr] > 1
    requires s.frames != []
    requires EntryAt(s, t, i).user
    ensures UnshareAt(s, t, i).Some?
    ensures var s' := UnshareAt(s, t, i).value; Inv(s') && Local(s, s', t, i) && Served(s, s', t, i)
  {
    hide CountsOk, StackOk, EntriesOk, Exclusive, DirsOk, Local;
    EntryFacts(s, t, i);
    var a := EntryAt(s, t, i).addr;
    UnshareFrees(s, t, i);
    UnshareInv(s, t, i);
    FreeInv(s, t, i);
    FreeLocal(s, t, i);
    var s1 := FreeAt(s, t, i);
    AllocFreshFacts(s1, t, i, true, true);
    var s2 := AllocAt(s1, t, i, true, true).value;
    LocalTrans(s, s1, s2, t, i);
    OverwriteLocal(s2, t, i, s2.phys[a]);
    LocalTrans(s, s2, CopyFrom(s2, t, i, a), t, i);
  }

  lemma FreeLocal(s: State, t: nat, i: nat)
    requires HasEntry(s, t, i)
    requires (EntryAt(s, t, i).addr != 0 ==> EntryAt(s, t, i).addr in s.refCnt && s.refCnt[EntryAt(s, t, i).addr] > 0)
    ensures Local(s, FreeAt(s, t, i), t, i)
  {
  }

  // ---- a whole access: fault, retry, until the processor lets it through ----

  predicate Allowed(e: Entry, write: bool, byUser: bool) {
    if e.allocable then (byUser ==> e.user) && (write ==> e.rw || e.user) else Permitted(e, write, byUser)
  }

  predicate NeedsFrame(s: State, e: Entry, write: bool) {
    e.allocable && (!e.present || (write && !e.rw && Count(s, e.addr) > 1))
  }

  // How many faults can still be served.
  function Missing(e: Entry): nat {
    if !e.present then 2 else if !e.rw then 1 else 0
  }

  ghost function AccessAt(s: State, t: nat, i: nat, write: bool, byUser: bool): Outcome
    requires Inv(s) && HasEntry(s, t, i)
    decreases Missing(EntryAt(s, t, i))
  {
    if Permitted(EntryAt(s, t, i), write, byUser) then Resolved(s)
    else
      match FaultAt(s, t, i, write, byUser)
      case Resolved(s1) =>
        FaultEffect(s, t, i, write, byUser);
        AccessAt(s1, t, i, write, byUser)
      case failed => failed
  }

  // An access goes through exactly when the entry allows it and a frame is left if one is needed.
  // Read-only user pages do not exist: a write to one is allowed.
  lemma {:induction false} AccessExact(s: State, t: nat, i: nat, write: bool, byUser: bool)
    requires Inv(s) && HasEntry(s, t, i)
    ensures var e, r := EntryAt(s, t, i), AccessAt(s, t, i, write, byUser);
      && (r.Resolved? <==> Allowed(e, write, byUser) && (NeedsFrame(s, e, write) ==> s.frames != []))
      && (r.OutOfFrames? ==> NeedsFrame(s, e, write) && s.frames == [])
    decreases Missing(EntryAt(s, t, i))
  {
    hide CountsOk, StackOk, EntriesOk, Exclusive, FixedOnce, DirsOk, Local;
    var e := EntryAt(s, t, i);
    EntryFacts(s, t, i);
    if !Permitted(e, write, byUser) && FaultAt(s, t, i, write, byUser).Resolved? {
      FaultEffect(s, t, i, write, byUser);
      var s1 := FaultAt(s, t, i, write, byUser).state;
      AccessExact(s1, t, i, write, byUser);
      if !e.present { FreshCount(s, t, i); }
    }
  }

  // A page that was just given its frame is alone on it.
  lemma FreshCount(s: State, t: nat, i: nat)
    requires Inv(s) && HasEntry(s, t, i) && !EntryAt(s, t, i).present && s.frames != []
    ensures AllocAt(s, t, i, EntryAt(s, t, i).user, EntryAt(s, t, i).rw).Some?
    ensures var s1 := AllocAt(s, t, i, EntryAt(s, t, i).user, EntryAt(s, t, i).rw).value;
      HasEntry(s1, t, i) && Count(s1, EntryAt(s1, t, i).addr) == 1
  {
    hide *;
    EntryFacts(s, t, i);
    UnmappedFacts(s, t, EntryAt(s, t, i));
    AllocFreshFacts(s, t, i, EntryAt(s, t, i).user, EntryAt(s, t, i).rw);
    AllocShape(s, t, i, EntryAt(s, t, i).user, EntryAt(s, t, i).rw);
    CountIs(AllocAt(s, t, i, EntryAt(s, t, i).user, EntryAt(s, t, i).rw).value, s.frames[|s.frames| - 1]);
  }

  lemma UnmappedFacts(s: State, t: nat, e: Entry)
    requires EntryOk(s, t, e) && !e.present
    ensures e.addr == 0
  {
  }

  lemma CountIs(s: State, f: nat)
    requires f in s.refCnt
    ensures Count(s, f) == s.refCnt[f]
  {
  }

  lemma {:induction false} AccessEffect(s: State, t: nat, i: nat, write: bool, byUser: bool)
    requires Inv(s) && HasEntry(s, t, i) && AccessAt(s, t, i, write, byUser).Resolved?
    ensures var s' := AccessAt(s, t, i, write, byUser).state;
      && Inv(s') && Local(s, s', t, i) && HasEntry(s', t, i) && Permitted(EntryAt(s', t, i), write, byUser)
      && (EntryAt(s, t, i).addr != 0 ==> EntryAt(s, t, i).addr in s.phys)
      && EntryAt(s', t, i).addr in s'.phys && EntryAt(s', t, i).addr != 0
      && Grows(EntryView(EntryAt(s, t, i), s.phys), EntryView(EntryAt(s', t, i), s'.phys))
    decreases Missing(EntryAt(s, t, i))
  {
    hide CountsOk, StackOk, EntriesOk, Exclusive, FixedOnce, DirsOk, Local;
    EntryFacts(s, t, i);
    if Permitted(EntryAt(s, t, i), write, byUser) {
      FlagsLocal(s, t, i, EntryAt(s, t, i));
      PutSame(s, t, i);
    } else {
      FaultEffect(s, t, i, write, byUser);
      var s1 := FaultAt(s, t, i, write, byUser).state;
      AccessEffect(s1, t, i, write, byUser);
      LocalTrans(s, s1, AccessAt(s1, t, i, write, byUser).state, t, i);
    }
  }

  lemma PutSame(s: State, t: nat, i: nat)
    requires HasEntry(s, t, i)
    ensures Put(s, t, i, EntryAt(s, t, i)) == s
  {
    assert s.tables[t][i := s.tables[t][i]] == s.tables[t];
    assert s.tables[t := s.tables[t]] == s.tables;
  }

  // ---- stores ----

  function StoreAt(s: State, t: nat, i: nat, off: nat, val: nat): State
    requires HasEntry(s, t, i) && EntryAt(s, t, i).addr in s.phys && off < |s.phys[EntryAt(s, t, i).addr]|
  {
    var a := EntryAt(s, t, i).addr;
    var p: Page := s.phys[a][off := val];
    s.(phys := s.phys[a := p])
  }

  // A frame that can be written through an entry is mapped by that entry alone.
  lemma WritableAlone(s: State, t: nat, i: nat, u: nat, j: nat)
    requires Inv(s) && HasEntry(s, t, i) && HasEntry(s, u, j) && (u, j) != (t, i)
    requires EntryAt(s, t, i).present && EntryAt(s, t, i).rw
    ensures EntryAt(s, u, j).addr != EntryAt(s, t, i).addr
  {
    EntryFacts(s, t, i);
    var e := EntryAt(s, t, i);
    if e.addr in s.managed {
      assert s.refCnt[e.addr] == 1;
      MappedElsewhere(s, t, i, u, j);
    }
  }

  lemma StoreEffect(s: State, t: nat, i: nat, off: nat, val: nat)
    requires Inv(s) && HasEntry(s, t, i) && EntryAt(s, t, i).present && EntryAt(s, t, i).rw && off < ENTRIES
    ensures EntryAt(s, t, i).addr in s.phys && EntryAt(s, t, i).addr != 0 && |s.phys[EntryAt(s, t, i).addr]| == ENTRIES
    ensures var s' := StoreAt(s, t, i, off, val); Inv(s') && Local(s, s', t, i)
  {
    EntryFacts(s, t, i);
    var a := EntryAt(s, t, i).addr;
    PhysInv(s, a, s.phys[a][off := val]);
    forall u, j: nat | u in s.tables && j < |s.tables[u]| && (u, j) != (t, i) ensures s.tables[u][j].addr != a {
      WritableAlone(s, t, i, u, j);
    }
  }

  // ---- what every address space sees after a change at page `v` of directory `d` ----

  // The same place: one page of one space, or the same page of two in a slot all spaces share.
  predicate Aliased(low: nat, d: nat, v: nat, d': nat, v': nat) {
    v == v' && (d == d' || Shared(low, v / ENTRIES))
  }

  predicate HasPage(s: State, d: nat, v: nat) {
    d in s.dirs && v / ENTRIES < |s.dirs[d]| && s.dirs[d][v / ENTRIES] != 0
        && HasEntry(s, s.dirs[d][v / ENTRIES], v % ENTRIES)
  }

  lemma LocalEffect(s: State, s': State, d: nat, v: nat, d': nat, v': nat)
    requires Inv(s) && Inv(s') && v < ENTRIES * ENTRIES && v' < ENTRIES * ENTRIES && HasPage(s, d, v) && d' in s.dirs
    requires Local(s, s', s.dirs[d][v / ENTRIES], v % ENTRIES)
    ensures d' in s'.dirs && HasPage(s', d, v)
    ensures var t, i := s.dirs[d][v / ENTRIES], v % ENTRIES;
      && (EntryAt(s', t, i).addr != 0 ==> EntryAt(s', t, i).addr in s'.phys)
      && Sees(s', d', v') == if Aliased(s.low, d, v, d', v') then EntryView(EntryAt(s', t, i), s'.phys)
            else Sees(s, d', v')
  {
    var t, i := s.dirs[d][v / ENTRIES], v % ENTRIES;
    EntryFacts(s', t, i);
    if Aliased(s.low, d, v, d', v') {
      assert s.dirs[d'][v / ENTRIES] == s.dirs[d][v / ENTRIES];
      ThroughSees(s', d', v', t, i);
    } else {
      if Through(s, d', v', t, i) { ThroughOnce(s, d, v, d', v', t, i); }
      LocalSees(s, s', t, i, d', v');
    }
  }

  // ---- zeroing in place ----

  ghost predicate OthersKeep(s: State, s': State, t: nat, i: nat) {
    forall u, j ::
      (u in s.tables && 0 <= j < |s.tables[u]| && (u, j) != (t, i)
       && s.tables[u][j].addr in s.phys && s.tables[u][j].addr in s'.phys) ==>
      s'.phys[s.tables[u][j].addr] == s.phys[s.tables[u][j].addr]
  }

  // `lazy_alloc` with zero filling does not look at the reference count either: every other page
  // keeps its contents exactly when the frame is mapped once or holds zeros already.
  lemma ZeroFillExact(s: State, t: nat, i: nat, user: bool, rw: bool)
    requires Inv(s) && HasEntry(s, t, i) && EntryAt(s, t, i).addr in s.managed
    ensures EntryAt(s, t, i).addr in s.refCnt && EntryAt(s, t, i).addr in s.phys
    ensures OthersKeep(s, LazyAllocAt(s, t, i, user, rw, true), t, i) <==>
      s.refCnt[EntryAt(s, t, i).addr] == 1 || s.phys[EntryAt(s, t, i).addr] == ZeroPage()
  {
    EntryFacts(s, t, i);
    var a, s' := EntryAt(s, t, i).addr, LazyAllocAt(s, t, i, user, rw, true);
    if s.refCnt[a] == 1 {
      OverwriteLocal(s, t, i, ZeroPage());
    } else {
      var other := OtherRef(s.tables, t, i, a);
      assert s.tables[other.0][other.1].addr == a;
    }
  }

  lemma OtherRef(tables: map<nat, Table>, t: nat, i: nat, f: nat) returns (other: (nat, nat))
    requires t in tables && i < |tables[t]| && tables[t][i].addr == f && |Refs(tables, f)| > 1
    ensures other.0 in tables && other.1 < |tables[other.0]| && tables[other.0][other.1].addr == f && other != (t, i)
  {
    assert |Refs(tables, f) - {(t, i)}| > 0;
    other :| other in Refs(tables, f) - {(t, i)};
  }
}
