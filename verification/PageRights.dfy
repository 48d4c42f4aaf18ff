/** Who may do what with a page, over every run. */
module PageRights {
  import opened Common
  import opened PageState
  import opened PageSteps
  import opened PageFaults
  import opened PageClone
  import opened PageRuns
  import opened PageForks
  import opened PageBoot

  lemma EntryInIs(s: State, d: nat, v: nat)
    requires d in s.dirs && HasPage(s, d, v)
    ensures EntryIn(s, d, v) == EntryAt(s, TableOf(s, d, v), v % ENTRIES)
  {
  }

  // ---- rights ----

  // Whether a page may be used at all, by users too, and written.
  datatype Rights = Rights(usable: bool, user: bool, writes: bool)

  const NO_RIGHTS := Rights(false, false, false)

  predicate Allows(r: Rights, write: bool, byUser: bool) {
    r.usable && (byUser ==> r.user) && (write ==> r.writes)
  }

  // A user page may be written even if it is read-only, since the fault handler makes it writable.
  function RightsOf(e: Entry): Rights {
    if e.allocable then Rights(true, e.user, e.rw || e.user)
    else if e.present then Rights(true, e.user, e.rw)
    else NO_RIGHTS
  }

  function RightsIn(s: State, d: nat, v: nat): Rights
    requires d in s.dirs
  {
    RightsOf(EntryIn(s, d, v))
  }

  // An access goes through exactly when the rights of the page allow it, and a frame is left if one is
  // needed.
  lemma AccessRights(s: State, d: nat, v: nat, write: bool, byUser: bool)
    requires Inv(s) && d in s.dirs && v < ENTRIES * ENTRIES
    ensures AccessStep(s, d, v, write, byUser).Some? <==>
      Allows(RightsIn(s, d, v), write, byUser) && (NeedsFrame(s, EntryIn(s, d, v), write) ==> s.frames != [])
  {
    hide CountsOk, StackOk, EntriesOk, Exclusive, FixedOnce, AccessAt;
    if HasPage(s, d, v) {
      AccessExact(s, TableOf(s, d, v), v % ENTRIES, write, byUser);
    } else {
      NoPageThere(s, d, v);
    }
  }

  lemma NoPageThere(s: State, d: nat, v: nat)
    requires Inv(s) && d in s.dirs && v < ENTRIES * ENTRIES && !HasPage(s, d, v)
    ensures EntryIn(s, d, v) == NO_ENTRY
  {
  }

  // ---- what the steps do to rights ----

  // The rights of each page of each space are those of page `v` of `d` in the places that are this
  // page, and as they were elsewhere.
  ghost predicate Granted(s: State, s': State, d: nat, v: nat, now: Rights) {
    && s.dirs.Keys <= s'.dirs.Keys
    && forall d', v' :: d' in s.dirs && 0 <= v' < ENTRIES * ENTRIES ==>
        RightsIn(s', d', v') == if Aliased(s.low, d, v, d', v') then now else RightsIn(s, d', v')
  }

  lemma LocalEntries(s: State, s': State, d: nat, v: nat, d': nat, v': nat)
    requires Inv(s) && Inv(s') && HasPage(s, d, v) && v < ENTRIES * ENTRIES && d' in s.dirs && v' < ENTRIES * ENTRIES
    requires Local(s, s', TableOf(s, d, v), v % ENTRIES)
    ensures d' in s'.dirs && HasEntry(s', TableOf(s, d, v), v % ENTRIES)
    ensures EntryIn(s', d', v') ==
      if Aliased(s.low, d, v, d', v') then EntryAt(s', TableOf(s, d, v), v % ENTRIES) else EntryIn(s, d', v')
  {
    var t, i := TableOf(s, d, v), v % ENTRIES;
    if Aliased(s.low, d, v, d', v') {
      assert s.dirs[d'][v / ENTRIES] == s.dirs[d][v / ENTRIES];
    } else if Through(s, d', v', t, i) {
      ThroughOnce(s, d, v, d', v', t, i);
    }
  }

  lemma LocalGranted(s: State, s': State, d: nat, v: nat, now: Rights)
    requires Inv(s) && Inv(s') && HasPage(s, d, v) && v < ENTRIES * ENTRIES
    requires Local(s, s', TableOf(s, d, v), v % ENTRIES) && HasEntry(s', TableOf(s, d, v), v % ENTRIES)
    requires RightsOf(EntryAt(s', TableOf(s, d, v), v % ENTRIES)) == now
    ensures Granted(s, s', d, v, now)
  {
    hide Inv, Local, RightsIn;
    LocalSame(s, s', TableOf(s, d, v), v % ENTRIES);
    forall d', v': nat | d' in s.dirs && v' < ENTRIES * ENTRIES
      ensures d' in s'.dirs && RightsIn(s', d', v') == if Aliased(s.low, d, v, d', v') then now else RightsIn(s, d', v')
    {
      LocalRights(s, s', d, v, d', v', now);
    }
  }

  lemma LocalRights(s: State, s': State, d: nat, v: nat, d': nat, v': nat, now: Rights)
    requires Inv(s) && Inv(s') && HasPage(s, d, v) && v < ENTRIES * ENTRIES && d' in s.dirs && v' < ENTRIES * ENTRIES
    requires Local(s, s', TableOf(s, d, v), v % ENTRIES) && HasEntry(s', TableOf(s, d, v), v % ENTRIES)
    requires RightsOf(EntryAt(s', TableOf(s, d, v), v % ENTRIES)) == now
    ensures d' in s'.dirs
    ensures RightsIn(s', d', v') == if Aliased(s.low, d, v, d', v') then now else RightsIn(s, d', v')
  {
    hide Inv, Local, EntryIn, RightsOf;
    LocalEntries(s, s', d, v, d', v');
  }

  lemma MadeEntries(s: State, d: nat, slot: nat, d': nat, v: nat)
    requires Inv(s) && d in s.dirs && d' in s.dirs && slot < ENTRIES && v < ENTRIES * ENTRIES
    ensures d' in MakeTable(s, d, slot).dirs && EntryIn(MakeTable(s, d, slot), d', v) == EntryIn(s, d', v)
    ensures MakeTable(s, d, slot).frames == s.frames && MakeTable(s, d, slot).low == s.low
  {
  }

  lemma GrantedAfter(s: State, s1: State, s': State, d: nat, v: nat, now: Rights)
    requires Inv(s) && d in s.dirs && v < ENTRIES * ENTRIES && s1 == MakeTable(s, d, v / ENTRIES)
    requires Granted(s1, s', d, v, now)
    ensures Granted(s, s', d, v, now)
  {
    hide Inv, MakeTable, RightsIn;
    MadeEntries(s, d, v / ENTRIES, d, v);
    forall d' | d' in s.dirs ensures d' in s1.dirs.Keys { MadeEntries(s, d, v / ENTRIES, d', v); }
    forall d', v': nat | d' in s.dirs && v' < ENTRIES * ENTRIES
      ensures d' in s'.dirs && RightsIn(s', d', v') == if Aliased(s.low, d, v, d', v') then now else RightsIn(s, d', v')
    {
      MadeRights(s, d, v / ENTRIES, d', v');
    }
  }

  lemma MadeRights(s: State, d: nat, slot: nat, d': nat, v: nat)
    requires Inv(s) && d in s.dirs && d' in s.dirs && slot < ENTRIES && v < ENTRIES * ENTRIES
    ensures d' in MakeTable(s, d, slot).dirs && RightsIn(MakeTable(s, d, slot), d', v) == RightsIn(s, d', v)
  {
    hide Inv, MakeTable, EntryIn, RightsOf;
    MadeEntries(s, d, slot, d', v);
  }

  // `lazy_alloc` and `alloc` give the page the rights that were asked for.
  lemma LazyAllocGrants(s: State, d: nat, v: nat, user: bool, rw: bool, fill: bool)
    requires Inv(s) && LazyAllocStep(s, d, v, user, rw, fill).Some?
    ensures Granted(s, LazyAllocStep(s, d, v, user, rw, fill).value, d, v, Rights(true, user, rw || user))
  {
    hide CountsOk, StackOk, Exclusive, FixedOnce, DirsOk, Local, MakeTable, Granted;
    MadePage(s, d, v);
    var s1, i := MakeTable(s, d, v / ENTRIES), v % ENTRIES;
    var t := TableOf(s1, d, v);
    LazyAllocLocal(s1, t, i, user, rw, fill);
    NotFixed(s1, t, i);
    LocalGranted(s1, LazyAllocAt(s1, t, i, user, rw, fill), d, v, Rights(true, user, rw || user));
    GrantedAfter(s, s1, LazyAllocAt(s1, t, i, user, rw, fill), d, v, Rights(true, user, rw || user));
  }

  lemma NotFixed(s: State, t: nat, i: nat)
    requires Inv(s) && HasEntry(s, t, i) && t !in s.boot
    ensures EntryAt(s, t, i).addr != 0 ==> EntryAt(s, t, i).allocable
    ensures EntryAt(s, t, i).addr == 0 ==> !EntryAt(s, t, i).present
  {
    assert EntryOk(s, t, s.tables[t][i]);
  }

  lemma AllocGrants(s: State, d: nat, v: nat, user: bool, rw: bool)
    requires Inv(s) && AllocStep(s, d, v, user, rw).Some?
    ensures Granted(s, AllocStep(s, d, v, user, rw).value, d, v, Rights(true, user, rw || user))
  {
    hide CountsOk, StackOk, Exclusive, FixedOnce, DirsOk, Local, MakeTable, Granted;
    MadePage(s, d, v);
    var s1, i := MakeTable(s, d, v / ENTRIES), v % ENTRIES;
    var t := TableOf(s1, d, v);
    AllocLocal(s1, t, i, user, rw);
    NotFixed(s1, t, i);
    LocalGranted(s1, AllocAt(s1, t, i, user, rw).value, d, v, Rights(true, user, rw || user));
    GrantedAfter(s, s1, AllocAt(s1, t, i, user, rw).value, d, v, Rights(true, user, rw || user));
  }

  lemma FreeRevokes(s: State, d: nat, v: nat)
    requires Inv(s) && FreeStep(s, d, v).Some?
    ensures d in s.dirs && v < ENTRIES * ENTRIES
    ensures Granted(s, FreeStep(s, d, v).value, d, v, NO_RIGHTS)
  {
    hide CountsOk, StackOk, Exclusive, FixedOnce, DirsOk, Local, Granted;
    var t, i := TableOf(s, d, v), v % ENTRIES;
    EntryFacts(s, t, i);
    FreeInv(s, t, i);
    FreeLocal(s, t, i);
    LocalGranted(s, FreeAt(s, t, i), d, v, NO_RIGHTS);
  }

  // A fault that is served, and so an access, changes nobody's rights.
  lemma FaultRights(s: State, t: nat, i: nat, write: bool, byUser: bool)
    requires Inv(s) && HasEntry(s, t, i) && FaultAt(s, t, i, write, byUser).Resolved?
    ensures var s' := FaultAt(s, t, i, write, byUser).state;
      HasEntry(s', t, i) && RightsOf(EntryAt(s', t, i)) == RightsOf(EntryAt(s, t, i))
  {
    hide CountsOk, StackOk, EntriesOk, Exclusive, DirsOk, Local;
    FaultEffect(s, t, i, write, byUser);
  }

  lemma {:induction false} AccessKeepsRights(s: State, t: nat, i: nat, write: bool, byUser: bool)
    requires Inv(s) && HasEntry(s, t, i) && AccessAt(s, t, i, write, byUser).Resolved?
    ensures var s' := AccessAt(s, t, i, write, byUser).state;
      HasEntry(s', t, i) && RightsOf(EntryAt(s', t, i)) == RightsOf(EntryAt(s, t, i))
    decreases Missing(EntryAt(s, t, i))
  {
    hide CountsOk, StackOk, EntriesOk, Exclusive, FixedOnce, DirsOk, Local, RightsOf;
    if !Permitted(EntryAt(s, t, i), write, byUser) {
      FaultRights(s, t, i, write, byUser);
      FaultEffect(s, t, i, write, byUser);
      AccessKeepsRights(FaultAt(s, t, i, write, byUser).state, t, i, write, byUser);
    }
  }

  ghost predicate RightsKept(s: State, s': State) {
    && s.dirs.Keys <= s'.dirs.Keys
    && forall d, v :: d in s.dirs && 0 <= v < ENTRIES * ENTRIES ==> RightsIn(s', d, v) == RightsIn(s, d, v)
  }

  lemma AccessKeeps(s: State, d: nat, v: nat, write: bool, byUser: bool)
    requires Inv(s) && AccessStep(s, d, v, write, byUser).Some?
    ensures RightsKept(s, AccessStep(s, d, v, write, byUser).value)
  {
    hide CountsOk, StackOk, EntriesOk, Exclusive, FixedOnce, Local, RightsOf, AccessAt, EntryIn;
    var t, i := TableOf(s, d, v), v % ENTRIES;
    AccessKeepsRights(s, t, i, write, byUser);
    AccessEffect(s, t, i, write, byUser);
    var s' := AccessStep(s, d, v, write, byUser).value;
    LocalGranted(s, s', d, v, RightsOf(EntryAt(s, t, i)));
    forall d', v' | d' in s.dirs && 0 <= v' < ENTRIES * ENTRIES && Aliased(s.low, d, v, d', v')
      ensures RightsIn(s, d', v') == RightsOf(EntryAt(s, t, i))
    {
      SameEntry(s, d, v, d', v');
    }
  }

  lemma SameEntry(s: State, d: nat, v: nat, d': nat, v': nat)
    requires Inv(s) && HasPage(s, d, v) && d' in s.dirs && v < ENTRIES * ENTRIES && Aliased(s.low, d, v, d', v')
    ensures EntryIn(s, d', v') == EntryAt(s, TableOf(s, d, v), v % ENTRIES)
  {
    assert s.dirs[d][v / ENTRIES] == s.dirs[d'][v / ENTRIES];
  }

  lemma WriteKeeps(s: State, d: nat, v: nat, off: nat, val: nat, byUser: bool)
    requires Inv(s) && WriteStep(s, d, v, off, val, byUser).Some?
    ensures RightsKept(s, WriteStep(s, d, v, off, val, byUser).value)
  {
    hide CountsOk, StackOk, EntriesOk, Exclusive, FixedOnce, DirsOk, Local, RightsOf;
    AccessKeeps(s, d, v, true, byUser);
    var t, i, s1 := TableOf(s, d, v), v % ENTRIES, AccessStep(s, d, v, true, byUser).value;
    AccessEffect(s, t, i, true, byUser);
    StoreEffect(s1, t, i, off, val);
    hide RightsKept;
    StoreRights(s, s1, StoreAt(s1, t, i, off, val));
  }

  // Frame contents do not matter.
  lemma StoreRights(s: State, s1: State, s': State)
    requires RightsKept(s, s1) && s'.tables == s1.tables && s'.dirs == s1.dirs
    ensures RightsKept(s, s')
  {
    forall d, v: nat | d in s.dirs && v < ENTRIES * ENTRIES
      ensures d in s'.dirs && RightsIn(s', d, v) == RightsIn(s, d, v)
    {
      assert d in s1.dirs && RightsIn(s1, d, v) == RightsIn(s, d, v);
      assert EntryIn(s', d, v) == EntryIn(s1, d, v);
    }
  }

  // ---- what was asked for is what is granted, as accesses tell ----

  // After `lazy_alloc(user, rw, fill)` of a page, with a frame left: users may use it if and only if
  // `user` was asked for, and it may be written if and only if `rw` or `user` was; in every space that
  // has the page.
  lemma LazyAllocAccess(s: State, d: nat, v: nat, user: bool, rw: bool, fill: bool, d': nat, write: bool, byUser: bool)
    requires Inv(s) && LazyAllocStep(s, d, v, user, rw, fill).Some? && d' in s.dirs && Aliased(s.low, d, v, d', v)
    ensures var s' := LazyAllocStep(s, d, v, user, rw, fill).value;
      Inv(s') && (s'.frames != [] ==>
        (AccessStep(s', d', v, write, byUser).Some? <==> (byUser ==> user) && (write ==> rw || user)))
  {
    hide Inv, LazyAllocStep, AccessStep, RightsIn, NeedsFrame;
    LazyAllocGrants(s, d, v, user, rw, fill);
    LazyAllocChanged(s, d, v, user, rw, fill);
    StepInv(s, LazyAlloc(d, v, user, rw, fill));
    AccessRights(LazyAllocStep(s, d, v, user, rw, fill).value, d', v, write, byUser);
  }

  // The same after `alloc(user, rw)`.
  lemma AllocAccess(s: State, d: nat, v: nat, user: bool, rw: bool, d': nat, write: bool, byUser: bool)
    requires Inv(s) && AllocStep(s, d, v, user, rw).Some? && d' in s.dirs && Aliased(s.low, d, v, d', v)
    ensures var s' := AllocStep(s, d, v, user, rw).value;
      Inv(s') && (s'.frames != [] ==>
        (AccessStep(s', d', v, write, byUser).Some? <==> (byUser ==> user) && (write ==> rw || user)))
  {
    hide Inv, AllocStep, AccessStep, RightsIn, NeedsFrame;
    AllocGrants(s, d, v, user, rw);
    AllocChanged(s, d, v, user, rw);
    StepInv(s, Alloc(d, v, user, rw));
    AccessRights(AllocStep(s, d, v, user, rw).value, d', v, write, byUser);
  }

  // After `free` nobody may use the page.
  lemma FreeAccess(s: State, d: nat, v: nat, d': nat, write: bool, byUser: bool)
    requires Inv(s) && FreeStep(s, d, v).Some? && d' in s.dirs && Aliased(s.low, d, v, d', v)
    ensures Inv(FreeStep(s, d, v).value) && AccessStep(FreeStep(s, d, v).value, d', v, write, byUser).None?
  {
    hide Inv, FreeStep, AccessStep, RightsIn, NeedsFrame;
    FreeRevokes(s, d, v);
    StepInv(s, Free(d, v));
    AccessRights(FreeStep(s, d, v).value, d', v, write, byUser);
  }

  // ---- forks ----

  // A mapped page of the kernel's that is shared by a fork may not be written any more.
  function Withheld(r: Rights, mapped: bool): Rights {
    if mapped && !r.user then r.(writes := false) else r
  }

  // A fork leaves the source and the child the same rights in all pages below the stack slot, the old
  // ones but for that; the child's stack page is for the kernel, which may write it; and no other space
  // is affected.
  ghost predicate ForkedRights(s: State, s': State, src: nat)
    requires src in s.dirs
  {
    && s.next in s'.dirs && s.dirs.Keys <= s'.dirs.Keys
    && (forall d, v :: d in s.dirs && 0 <= v < ENTRIES * ENTRIES ==>
          RightsIn(s', d, v) ==
            if d == src && Copied(s.low, v) then Withheld(RightsIn(s, src, v), FrameOf(s, src, v) != 0)
            else RightsIn(s, d, v))
    && (forall v :: 0 <= v < STACK_SLOT * ENTRIES ==> RightsIn(s', s.next, v) == RightsIn(s', src, v))
    && (forall v :: STACK_SLOT * ENTRIES <= v < ENTRIES * ENTRIES ==>
          RightsIn(s', s.next, v) == if v == STACK_PAGE then Rights(true, false, true) else NO_RIGHTS)
  }

  lemma ForkRights(s: State, src: nat, cur: nat)
    requires Inv(s) && src in s.dirs && cur in s.dirs && ForkAt(s, src, cur).Some?
    ensures ForkedRights(s, ForkAt(s, src, cur).value, src)
  {
    hide Inv, ForkAt, EntryIn, FrameOf, RightsOf;
    ForkEntries(s, src, cur);
    var s' := ForkAt(s, src, cur).value;
    forall d, v | d in s.dirs && 0 <= v < ENTRIES * ENTRIES
      ensures RightsIn(s', d, v) ==
            if d == src && Copied(s.low, v) then Withheld(RightsIn(s, src, v), FrameOf(s, src, v) != 0)
            else RightsIn(s, d, v)
    {
      if d == src && Copied(s.low, v) { ClearedRights(s, src, v); }
    }
    StackRights(EntryIn(s', s.next, STACK_PAGE).addr);
  }

  lemma StackRights(f: nat)
    ensures RightsOf(StackEntry(f)) == Rights(true, false, true)
    ensures RightsOf(NO_ENTRY) == NO_RIGHTS
  {
  }

  lemma ClearedRights(s: State, d: nat, v: nat)
    requires Inv(s) && d in s.dirs && v < ENTRIES * ENTRIES && Copied(s.low, v)
    ensures RightsOf(Cleared(EntryIn(s, d, v))) == Withheld(RightsIn(s, d, v), FrameOf(s, d, v) != 0)
  {
    if HasPage(s, d, v) {
      SlotReady(s, d, v / ENTRIES);
      NotFixed(s, TableOf(s, d, v), v % ENTRIES);
    }
  }

  // After a fork, with a frame left, the child and the source may do with a page below the stack slot
  // what the source might do with it before, except that the kernel may not write its own pages that
  // were mapped in a slot that is cloned.
  lemma ForkAccess(s: State, src: nat, cur: nat, d: nat, v: nat, write: bool, byUser: bool)
    requires Inv(s) && src in s.dirs && cur in s.dirs && ForkAt(s, src, cur).Some?
    requires (d == src || d == s.next) && v < STACK_SLOT * ENTRIES
    ensures var s', e := ForkAt(s, src, cur).value, EntryIn(s, src, v);
      Inv(s') && (s'.frames != [] ==>
        (AccessStep(s', d, v, write, byUser).Some? <==>
          Allowed(e, write, byUser) && !(write && !e.user && e.addr != 0 && Copied(s.low, v))))
  {
    hide Inv, ForkAt, AccessStep, NeedsFrame, EntryIn, FrameOf, Forked;
    ForkEffect(s, src, cur);
    var s' := ForkAt(s, src, cur).value;
    ForkInv(s, s', src, cur);
    ForkRights(s, src, cur);
    AccessRights(s', d, v, write, byUser);
    FrameIs(s, src, v);
  }

  lemma FrameIs(s: State, d: nat, v: nat)
    requires d in s.dirs
    ensures FrameOf(s, d, v) == EntryIn(s, d, v).addr
  {
  }

  // The kernel uses the child's stack page without a fault, and users may not use it.
  lemma ForkStackAccess(s: State, src: nat, cur: nat, write: bool)
    requires Inv(s) && src in s.dirs && cur in s.dirs && ForkAt(s, src, cur).Some?
    ensures var s' := ForkAt(s, src, cur).value;
      && Inv(s') && s.next in s'.dirs && Permitted(EntryIn(s', s.next, STACK_PAGE), write, false)
      && AccessStep(s', s.next, STACK_PAGE, write, false) == Some(s')
      && AccessStep(s', s.next, STACK_PAGE, write, true) == None
  {
    hide Inv, ForkAt, Forked;
    ForkEffect(s, src, cur);
    var s' := ForkAt(s, src, cur).value;
    ForkInv(s, s', src, cur);
    ForkEntries(s, src, cur);
    ForkRights(s, src, cur);
    AccessRights(s', s.next, STACK_PAGE, write, true);
  }

  // ---- runs ----

  // The rights of a page, and whether it is mapped.
  datatype Grant = Grant(rights: Rights, mapped: bool)

  function GrantIn(s: State, d: nat, v: nat): Grant
    requires d in s.dirs
  {
    Grant(RightsIn(s, d, v), FrameOf(s, d, v) != 0)
  }

  // The space whose grant an event starts from.
  function GrantedBy(e: Event, d: nat): nat {
    if e.Fork? && d == e.child then e.src else d
  }

  // What an event makes of the grant of page `v` of space `d`.
  function GrantAfter(low: nat, e: Event, d: nat, v: nat, was: Grant): Grant {
    match e
    case Fork(src, _, child) =>
      if d == child && v == STACK_PAGE then Grant(Rights(true, false, true), true)
      else if d == child && v / ENTRIES >= STACK_SLOT then Grant(NO_RIGHTS, false)
      else if (d == child || d == src) && Copied(low, v) then was.(rights := Withheld(was.rights, was.mapped))
      else was
    case Read(d', v', _) => if Aliased(low, d', v', d, v) then was.(mapped := true) else was
    case Write(d', v', _, _, _) => if Aliased(low, d', v', d, v) then was.(mapped := true) else was
    case LazyAlloc(d', v', user, rw, _) =>
      if Aliased(low, d', v', d, v) then was.(rights := Rights(true, user, rw || user)) else was
    case Alloc(d', v', user, rw) =>
      if Aliased(low, d', v', d, v) then Grant(Rights(true, user, rw || user), true) else was
    case Free(d', v') => if Aliased(low, d', v', d, v) then Grant(NO_RIGHTS, false) else was
  }

  ghost function SimpleGrant(s0: State, events: seq<Event>, d: nat, v: nat): Grant
    requires Inv(s0)
  {
    if events == [] then if d in s0.dirs then GrantIn(s0, d, v) else Grant(NO_RIGHTS, false)
    else
      var e := events[|events| - 1];
      GrantAfter(s0.low, e, d, v, SimpleGrant(s0, events[..|events| - 1], GrantedBy(e, d), v))
  }

  ghost predicate GrantsAgree(s0: State, events: seq<Event>, s: State)
    requires Inv(s0)
  {
    s.low == s0.low
    && forall d, v :: d in s.dirs && 0 <= v < ENTRIES * ENTRIES ==> GrantIn(s, d, v) == SimpleGrant(s0, events, d, v)
  }

  // Over every run each page of each space has the rights that the events gave it, whatever faults,
  // copies and shares there were.
  lemma {:induction false} RightsRun(s0: State, events: seq<Event>)
    requires Inv(s0) && Run(s0, events).Some?
    ensures Inv(Run(s0, events).value) && GrantsAgree(s0, events, Run(s0, events).value)
    decreases |events|
  {
    hide Inv, Step, GrantIn, GrantAfter;
    if events != [] {
      var before, e := events[..|events| - 1], events[|events| - 1];
      RightsRun(s0, before);
      var s, s' := Run(s0, before).value, Run(s0, events).value;
      StepInv(s, e);
      forall d, v | d in s'.dirs && 0 <= v < ENTRIES * ENTRIES
        ensures GrantIn(s', d, v) == SimpleGrant(s0, events, d, v)
      {
        StepGrants(s, e, d, v);
      }
    }
  }

  lemma StepGrants(s: State, e: Event, d: nat, v: nat)
    requires Inv(s) && Step(s, e).Some? && d in Step(s, e).value.dirs && v < ENTRIES * ENTRIES
    ensures GrantedBy(e, d) in s.dirs
    ensures GrantIn(Step(s, e).value, d, v) == GrantAfter(s.low, e, d, v, GrantIn(s, GrantedBy(e, d), v))
  {
    hide Inv, AccessStep, WriteStep, LazyAllocStep, AllocStep, FreeStep, Changed, Forked, RightsIn, FrameOf, Sees;
    var s' := Step(s, e).value;
    match e
    case Fork(src, cur, child) =>
      ForkGrants(s, src, cur, d, v);
    case Read(d', v', byUser) =>
      AccessChanged(s, d', v', false, byUser);
      AccessKeeps(s, d', v', false, byUser);
      ChangedKept(s, s', d', v', SpotOf(s', d', v'), d, v);
    case Write(d', v', off, val, byUser) =>
      WriteChanged(s, d', v', off, val, byUser);
      WriteKeeps(s, d', v', off, val, byUser);
      var p: Page :| Written(s, s', d', v', off, val, p);
      ChangedKept(s, s', d', v', Spot(Known(p[off := val]), true), d, v);
    case LazyAlloc(d', v', user, rw, fill) =>
      LazyAllocChanged(s, d', v', user, rw, fill);
      LazyAllocGrants(s, d', v', user, rw, fill);
      var now := Spot(AfterLazy(Sees(s, d', v'), FrameOf(s, d', v') != 0, fill), FrameOf(s, d', v') != 0);
      ChangedKept(s, s', d', v', now, d, v);
      if Aliased(s.low, d', v', d, v) { AliasedSpot(s, d', v', d, v); }
    case Alloc(d', v', user, rw) =>
      AllocChanged(s, d', v', user, rw);
      AllocGrants(s, d', v', user, rw);
      ChangedKept(s, s', d', v', SpotOf(s', d', v'), d, v);
    case Free(d', v') =>
      FreeChanged(s, d', v');
      FreeRevokes(s, d', v');
      ChangedKept(s, s', d', v', Spot(NoAccess, false), d, v);
  }

  lemma ChangedKept(s: State, s': State, d: nat, v: nat, now: Spot, d': nat, v': nat)
    requires Inv(s) && Changed(s, s', d, v, now) && d' in s'.dirs && v' < ENTRIES * ENTRIES
    ensures d' in s.dirs
    ensures (FrameOf(s', d', v') != 0) == if Aliased(s.low, d, v, d', v') then now.mapped else FrameOf(s, d', v') != 0
  {
    hide Sees, FrameOf, CountsOk, StackOk, EntriesOk, Exclusive, FixedOnce, DirsOk;
    assert d' in s'.dirs.Keys;
    assert SpotOf(s', d', v') == if Aliased(s.low, d, v, d', v') then now else SpotOf(s, d', v');
  }

  lemma ForkGrants(s: State, src: nat, cur: nat, d: nat, v: nat)
    requires Inv(s) && ForkStep(s, src, cur, s.next).Some? && v < ENTRIES * ENTRIES
    requires d in ForkStep(s, src, cur, s.next).value.dirs
    ensures var e := Fork(src, cur, s.next);
      && GrantedBy(e, d) in s.dirs
      && GrantIn(ForkStep(s, src, cur, s.next).value, d, v) ==
         GrantAfter(s.low, e, d, v, GrantIn(s, GrantedBy(e, d), v))
  {
    hide Inv, ForkAt, Forked, EntryIn, FrameOf, RightsIn;
    ForkEffect(s, src, cur);
    ForkEntries(s, src, cur);
    ForkRights(s, src, cur);
    var s' := ForkAt(s, src, cur).value;
    ForkInv(s, s', src, cur);
    ForkKeys(s, s', src, cur);
    OldDirs(s);
    FrameIs(s', d, v);
    FrameIs(s, if d == s.next then src else d, v);
    if d == s.next { StackFrameThere(s', d); } else { assert d in s'.dirs.Keys; }
  }

  lemma ForkKeys(s: State, s': State, src: nat, cur: nat)
    requires Inv(s) && src in s.dirs && cur in s.dirs && FrameOf(s, cur, STACK_PAGE) in s.phys
    requires Forked(s, s', src, cur)
    ensures s'.dirs.Keys == s.dirs.Keys + {s.next}
  {
  }

  lemma StackFrameThere(s: State, d: nat)
    requires Inv(s) && d in s.dirs && EntryIn(s, d, STACK_PAGE).present
    ensures EntryIn(s, d, STACK_PAGE).addr != 0
  {
    EntryFacts(s, s.dirs[d][STACK_PAGE / ENTRIES], STACK_PAGE % ENTRIES);
  }

  // So what goes through in a state that a run leads to is what the events of the run say.
  lemma RunAccess(s0: State, events: seq<Event>, d: nat, v: nat, write: bool, byUser: bool)
    requires Inv(s0) && Run(s0, events).Some? && d in Run(s0, events).value.dirs && v < ENTRIES * ENTRIES
    ensures var s := Run(s0, events).value;
      && (AccessStep(s, d, v, write, byUser).Some? ==> Allows(SimpleGrant(s0, events, d, v).rights, write, byUser))
      && (s.frames != [] && Allows(SimpleGrant(s0, events, d, v).rights, write, byUser) ==>
            AccessStep(s, d, v, write, byUser).Some?)
  {
    hide Inv, Run, RightsIn, AccessStep, NeedsFrame;
    RightsRun(s0, events);
    AccessRights(Run(s0, events).value, d, v, write, byUser);
  }

  // ---- intervals ----

  // `lazy_alloc_interval` grants what it was asked for on each of its pages, and nothing elsewhere.
  lemma {:induction false} LazySpanRights(s: State, d: nat, v: nat, n: nat, user: bool, rw: bool, fill: bool, d': nat,
          v': nat)
    requires Inv(s) && d in s.dirs && d' in s.dirs && v + n <= ENTRIES * ENTRIES && v' < ENTRIES * ENTRIES
    requires LazySpan(s, d, v, n, user, rw, fill).Some?
    ensures var r := LazySpan(s, d, v, n, user, rw, fill).value;
      && d in r.dirs && d' in r.dirs
      && RightsIn(r, d', v') ==
         if InSpan(s.low, d, v, n, d', v') then Rights(true, user, rw || user) else RightsIn(s, d', v')
    decreases n
  {
    hide Inv, LazyAllocStep, RightsIn;
    if n > 0 {
      var r, k := LazySpan(s, d, v, n - 1, user, rw, fill).value, v + n - 1;
      LazySpanRights(s, d, v, n - 1, user, rw, fill, d', v');
      LazyAllocGrants(r, d, k, user, rw, fill);
      assert d' in LazyAllocStep(r, d, k, user, rw, fill).value.dirs.Keys;
    }
  }

  // `free_interval` takes all rights from the pages with a frame in it, and changes no others.
  lemma {:induction false} FreeSpanRights(s: State, d: nat, v: nat, n: nat, d': nat, v': nat)
    requires Inv(s) && d in s.dirs && d' in s.dirs && v + n <= ENTRIES * ENTRIES && v' < ENTRIES * ENTRIES
    requires s.low <= v / ENTRIES
    ensures var r := FreeSpan(s, d, v, n);
      && d in r.dirs && d' in r.dirs
      && RightsIn(r, d', v') ==
         if InSpan(s.low, d, v, n, d', v') && FrameOf(s, d, v') != 0 then NO_RIGHTS else RightsIn(s, d', v')
    decreases n
  {
    hide Inv, FreeStep, RightsIn, FrameOf, Sees, Changed;
    if n > 0 {
      var r, k := FreeSpan(s, d, v, n - 1), v + n - 1;
      FreeSpanRights(s, d, v, n - 1, d', v');
      FreeSpanSees(s, d, v, n - 1, d, k);
      assert d in r.dirs.Keys && d' in r.dirs.Keys && v / ENTRIES <= k / ENTRIES;
      FreeGuard(r, d, k);
      if FreeStep(r, d, k).Some? {
        FreeRevokes(r, d, k);
        assert d' in FreeStep(r, d, k).value.dirs.Keys;
      }
    }
  }

  // ---- the start ----

  // At the start of paging the kernel may use and write its own pages, and nobody anything else.
  lemma StartRights(pages: nat, frames: seq<nat>, phys: map<nat, Page>, v: nat, write: bool, byUser: bool)
    requires BootOk(pages, frames, phys) && v < ENTRIES * ENTRIES
    ensures var s := Start(pages, frames, phys);
      && Inv(s) && RightsIn(s, BOOT_DIR, v) == (if 1 <= v < pages then Rights(true, false, true) else NO_RIGHTS)
      && (AccessStep(s, BOOT_DIR, v, write, byUser).Some? <==> 1 <= v < pages && !byUser)
  {
    hide Inv, AccessStep, BootTables;
    StartInv(pages, frames, phys);
    StartEntry(pages, frames, phys, v);
    AccessRights(Start(pages, frames, phys), BOOT_DIR, v, write, byUser);
  }
}
