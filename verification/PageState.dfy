/** The state of paging: frames, reference counts, tables and directories, and what each
    address space sees through them. */
module PageState {
  import opened Common

  const ENTRIES := 1024

  // `n` copies of `x`.
  function Copies<A>(x: A, n: nat): (s: seq<A>)
    ensures |s| == n && forall i :: 0 <= i < n ==> s[i] == x
  {
    seq(n, _ => x)
  }

  // The words of one page.
  type Page = seq<nat>

  function ZeroPage(): Page { Copies(0, ENTRIES) }

  // A page-table entry; `fill` is the code's `alloc_fill`.
  datatype Entry = Entry(present: bool, rw: bool, user: bool, allocable: bool, fill: bool, addr: nat)

  const NO_ENTRY := Entry(false, false, false, false, false, 0)

  type Table = seq<Entry>

  // The table of each slot, 0 for none.
  type Directory = seq<nat>

  // `frames` is the stack of usable frames and `managed` all frames that were ever on it.  The
  // first `low` slots hold the tables `boot`, which map the kernel's own code and data.  `next` is
  // the address of the next table or directory.
  datatype State = State(
    frames: seq<nat>, refCnt: map<nat, nat>, phys: map<nat, Page>,
    tables: map<nat, Table>, dirs: map<nat, Directory>, managed: set<nat>, low: nat, boot: set<nat>, next: nat)

  const HEAP_SLOT := KERNEL_HEAP_BEGIN / 0x40_0000
  const STACK_SLOT := KERNEL_HEAP_END / 0x40_0000
  const STACK_INDEX := (KERNEL_STACK_POS - KERNEL_STACK_SIZE) / PAGE % ENTRIES

  // Slots whose tables all directories have in common.
  predicate Shared(low: nat, slot: nat) {
    slot < low || HEAP_SLOT <= slot < STACK_SLOT
  }

  // ---- accounting ----

  // The places of all tables that map frame `f`.
  ghost function Refs(tables: map<nat, Table>, f: nat): set<(nat, nat)> {
    set t, i | t in tables && 0 <= i < |tables[t]| && tables[t][i].addr == f :: (t, i)
  }

  ghost predicate CountsOk(s: State) {
    forall f :: f in s.managed ==> f in s.refCnt && s.refCnt[f] == |Refs(s.tables, f)|
  }

  // The stack holds each frame nobody maps once, and nothing else.
  ghost predicate StackOk(s: State) {
    NoDup(s.frames) && forall f :: f in s.frames <==> f in s.managed && f in s.refCnt && s.refCnt[f] == 0
  }

  // Unmapped, or mapped to a managed frame; in the boot tables also fixed to some other frame.
  ghost predicate EntryOk(s: State, t: nat, e: Entry) {
    || (e.addr == 0 && !e.present)
    || (e.addr in s.managed && e.present && e.allocable)
    || (t in s.boot && e.addr != 0 && e.addr in s.phys && e.addr !in s.managed && e.present && !e.allocable)
  }

  ghost predicate EntriesOk(s: State) {
    forall t, i :: t in s.tables && 0 <= i < |s.tables[t]| ==> EntryOk(s, t, s.tables[t][i])
  }

  // A frame that can be written through some entry is mapped by that entry alone.
  ghost predicate Exclusive(s: State) {
    forall t, i :: t in s.tables && 0 <= i < |s.tables[t]| ==>
      var e := s.tables[t][i]; e.rw && e.addr in s.managed && e.addr in s.refCnt ==> s.refCnt[e.addr] == 1
  }

  // A fixed frame is mapped once.
  ghost predicate FixedOnce(tables: map<nat, Table>, managed: set<nat>) {
    forall t, i, u, j {:trigger tables[t][i], tables[u][j]} ::
      (&& t in tables && u in tables && 0 <= i < |tables[t]| && 0 <= j < |tables[u]|
       && tables[t][i].addr == tables[u][j].addr != 0 && tables[t][i].addr !in managed) ==> t == u && i == j
  }

  ghost predicate SizesOk(s: State) {
    && (forall t :: t in s.tables ==> |s.tables[t]| == ENTRIES)
    && (forall d :: d in s.dirs ==> |s.dirs[d]| == ENTRIES)
    && (forall f :: f in s.phys ==> |s.phys[f]| == ENTRIES)
  }

  // Every directory has the shared tables, and no table is used for two different things.
  ghost predicate DirsOk(dirs: map<nat, Directory>, ids: set<nat>, low: nat, boot: set<nat>)
    requires forall d :: d in dirs ==> |dirs[d]| == ENTRIES
  {
    && low <= HEAP_SLOT
    && (forall d, i :: d in dirs && 0 <= i < ENTRIES ==> (dirs[d][i] in boot <==> i < low))
    && (forall d, i :: d in dirs && 0 <= i < ENTRIES ==> dirs[d][i] == 0 || dirs[d][i] in ids)
    && (forall d, i {:trigger dirs[d][i]} :: d in dirs && 0 <= i < ENTRIES && Shared(low, i) ==> dirs[d][i] != 0)
    && (forall c, d, i, j {:trigger dirs[c][i], dirs[d][j]} ::
          c in dirs && d in dirs && 0 <= i < ENTRIES && 0 <= j < ENTRIES && dirs[c][i] == dirs[d][j] != 0 ==>
          i == j && (c == d || Shared(low, i)))
    && (forall c, d, i {:trigger dirs[c][i], dirs[d][i]} ::
          c in dirs && d in dirs && 0 <= i < ENTRIES && Shared(low, i) ==> dirs[c][i] == dirs[d][i])
  }

  ghost predicate NextOk(s: State) {
    s.next > 0 && (forall t :: t in s.tables ==> t < s.next) && (forall d :: d in s.dirs ==> d < s.next)
  }

  ghost predicate Inv(s: State) {
    && SizesOk(s) && NextOk(s) && CountsOk(s) && StackOk(s) && EntriesOk(s) && Exclusive(s)
    && FixedOnce(s.tables, s.managed)
    && DirsOk(s.dirs, s.tables.Keys, s.low, s.boot)
    && s.managed <= s.phys.Keys && 0 !in s.managed && 0 !in s.tables && 0 in s.phys && s.boot <= s.tables.Keys
  }

  // ---- what an address space sees ----

  datatype View = NoAccess | Undefined | Known(page: Page)

  function EntryView(e: Entry, phys: map<nat, Page>): View
    requires e.addr != 0 ==> e.addr in phys
  {
    if e.addr != 0 then Known(phys[e.addr])
    else if !e.allocable then NoAccess
    else if e.fill then Known(ZeroPage())
    else Undefined
  }

  // Page number `v` of directory `d`.
  ghost function Sees(s: State, d: nat, v: nat): View
    requires Inv(s) && d in s.dirs && v < ENTRIES * ENTRIES
  {
    var t := s.dirs[d][v / ENTRIES];
    if t == 0 then NoAccess else
    assert t in s.tables;
    assert EntryOk(s, t, s.tables[t][v % ENTRIES]);
    EntryView(s.tables[t][v % ENTRIES], s.phys)
  }
}
