/** The scheduler as functions of its state, and what every run of it keeps. */
module TaskState {
  import opened Common
  import opened TaskRing

  datatype Context = Context(esp: nat, ebp: nat, eip: nat)

  datatype Mode = Running | Sleeping | Zombie

  datatype Errno = ESRCH | EPERM

  datatype Info = Info(
    mode: Mode, uid: nat, gid: nat, dir: nat, parent: Option<nat>,
    saved: Option<Context>, wakeOn: nat, errno: Option<Errno>)

  // Task number `p` has pid `p`; `running` and `sleeping` are the queues from their `ptr` on.
  datatype Sched = Sched(tasks: seq<Info>, running: seq<nat>, sleeping: seq<nat>, current: nat)

  // ---- the operations ----

  function With(s: Sched, p: nat, info: Info): Sched
    requires p < |s.tasks|
  {
    s.(tasks := s.tasks[p := info])
  }

  // `queue_next` of the current task, in whichever queue it is.
  function NextTask(s: Sched): nat {
    if s.current in s.running then Next<nat>(s.running, s.current)
    else if s.current in s.sleeping then Next<nat>(s.sleeping, s.current)
    else s.current
  }

  function SaveContext(s: Sched, ctx: Context): Sched
    requires s.current < |s.tasks|
  {
    With(s, s.current, s.tasks[s.current].(saved := Some(ctx)))
  }

  // `fork`: `ctx` are the parent's registers, `dir` the cloned directory; the child is the last task.
  function ForkTask(s: Sched, ctx: Context, dir: nat): Sched
    requires s.current < |s.tasks|
  {
    var p := s.tasks[s.current];
    var child := Info(Running, p.uid, p.gid, dir, Some(s.current), Some(ctx), 0, None);
    s.(tasks := s.tasks + [child], running := Joined<nat>(s.running, |s.tasks|))
  }

  // `schedule`.
  function Schedule(s: Sched, ctx: Context): Sched
    requires s.current < |s.tasks|
  {
    SaveContext(s, ctx).(current := NextTask(s))
  }

  // The checks that `sleep` and `wakeup` start with.
  function Check(s: Sched, pid: nat): Option<Errno>
    requires s.current < |s.tasks|
  {
    if pid >= |s.tasks| || s.tasks[pid].mode == Zombie then Some(ESRCH)
    else if s.tasks[pid].uid != s.tasks[s.current].uid && s.tasks[s.current].uid != 0 then Some(EPERM)
    else None
  }

  function Fail(s: Sched, e: Errno): Sched
    requires s.current < |s.tasks|
  {
    With(s, s.current, s.tasks[s.current].(errno := Some(e)))
  }

  // Task `pid` moves to the sleeping queue.
  function PutToSleep(s: Sched, pid: nat, sig: nat): Sched
    requires pid < |s.tasks|
  {
    With(s, pid, s.tasks[pid].(mode := Sleeping, wakeOn := sig))
    .(running := Left<nat>(s.running, pid), sleeping := Joined<nat>(s.sleeping, pid))
  }

  // `sleep`; a task that puts itself to sleep passes its turn on.
  function Sleep(s: Sched, pid: nat, sig: nat, ctx: Context): Sched
    requires s.current < |s.tasks|
  {
    match Check(s, pid)
    case Some(e) => Fail(s, e)
    case None =>
      if s.tasks[pid].mode != Running then s
      else if pid == s.current then SaveContext(PutToSleep(s, pid, sig), ctx).(current := NextTask(s))
      else PutToSleep(s, pid, sig)
  }

  // Task `pid` moves back to the running queue.
  function Awaken(s: Sched, pid: nat): Sched
    requires pid < |s.tasks|
  {
    With(s, pid, s.tasks[pid].(mode := Running)).(sleeping := Left<nat>(s.sleeping, pid),
        running := Joined<nat>(s.running, pid))
  }

  // `wakeup`.
  function Wakeup(s: Sched, pid: nat): Sched
    requires s.current < |s.tasks|
  {
    match Check(s, pid)
    case Some(e) => Fail(s, e)
    case None =>
      if s.tasks[pid].mode != Sleeping then s
      else Awaken(s, pid)
  }

  // ---- the invariant ----

  ghost predicate Inv(s: Sched) {
    && NoDup<nat>(s.running) && NoDup<nat>(s.sleeping)
    && s.current in s.running
    && (forall p :: p in s.running <==> 0 <= p < |s.tasks| && s.tasks[p].mode == Running)
    && (forall p :: p in s.sleeping <==> 0 <= p < |s.tasks| && s.tasks[p].mode == Sleeping)
    && (forall p :: 0 <= p < |s.tasks| ==> s.tasks[p].mode != Zombie && (p != s.current ==> s.tasks[p].saved.Some?))
  }

  // The order in which the running tasks get their turn, the current one first.
  function Line(s: Sched): seq<nat> {
    Turns<nat>(s.running, s.current)
  }

  lemma InitInv(dir: nat)
    ensures Inv(Sched([Info(Running, 0, 0, dir, None, None, 0, None)], [0], [], 0))
  {
  }

  lemma ForkKeeps(s: Sched, ctx: Context, dir: nat) returns (p: nat)
    requires Inv(s)
    ensures Inv(ForkTask(s, ctx, dir))
    ensures 0 < p <= |Line(s)| && Line(ForkTask(s, ctx, dir)) == Line(s)[..p] + [|s.tasks|] + Line(s)[p..]
    ensures s.running != [] && Line(s)[p - 1] == s.running[0]
  {
    JoinedFacts<nat>(s.running, |s.tasks|);
    p := JoinTurns<nat>(s.running, s.current, |s.tasks|);
    hide Joined, Turns, Left;
  }

  // A tick passes the turn on; the task that gets it has a saved context.
  lemma ScheduleKeeps(s: Sched, ctx: Context)
    requires Inv(s)
    ensures Inv(Schedule(s, ctx)) && Line(Schedule(s, ctx)) == Line(s)[1..] + [s.current]
    ensures Schedule(s, ctx).tasks[Schedule(s, ctx).current].saved.Some?
  {
    TickRotates<nat>(s.running, s.current);
    TurnsFirst<nat>(s.running, s.current);
    hide Turns, Next;
  }

  // `sleep` keeps the invariant except when the only running task puts itself to sleep.
  lemma SleepKeeps(s: Sched, pid: nat, sig: nat, ctx: Context)
    requires Inv(s)
    ensures Inv(Sleep(s, pid, sig, ctx)) <==> !(pid == s.current && |s.running| == 1)
  {
    hide Turns, Left, Joined, Next;
    if Check(s, pid).None? && s.tasks[pid].mode == Running {
      LeftFacts<nat>(s.running, pid);
      JoinedFacts<nat>(s.sleeping, pid);
      if pid == s.current {
        if |s.running| > 1 {
          LeaveSelf<nat>(s.running, pid);
        } else {
          assert Left<nat>(s.running, pid) == [];
        }
      } else {
        LeaveOther<nat>(s.running, s.current, pid);
      }
    }
  }

  lemma SleepTurns(s: Sched, pid: nat, sig: nat, ctx: Context)
    requires Inv(s) && !(pid == s.current && |s.running| == 1)
    ensures var s' := Sleep(s, pid, sig, ctx);
      Line(s') ==
        if pid == s.current then Line(s)[1..]
        else if Check(s, pid).None? && s.tasks[pid].mode == Running then Left<nat>(Line(s), pid)
        else Line(s)
    ensures |Line(s)| > 0
  {
    TurnsFirst<nat>(s.running, s.current);
    hide Turns, Left, Joined, Next;
    if Check(s, pid).None? && s.tasks[pid].mode == Running {
      if pid == s.current { LeaveSelf<nat>(s.running, pid); } else { LeaveOther<nat>(s.running, s.current, pid); }
    }
  }

  lemma LoneNext(s: Sched)
    requires Inv(s) && |s.running| == 1
    ensures NextTask(s) == s.current
  {
    assert s.running == [s.current];
  }

  lemma NextJoined(q: seq<nat>, x: nat)
    requires x !in q
    ensures x in Joined<nat>(q, x) && if q == [] then Next<nat>(Joined<nat>(q, x), x) == x
      else Next<nat>(Joined<nat>(q, x), x) in q
  {
  }

  // When the only running task puts itself to sleep it stays current, and the next tick gives the
  // turn to a sleeping task if there is one.
  lemma LoneSleep(s: Sched, sig: nat, ctx: Context, ctx': Context)
    requires Inv(s) && |s.running| == 1
    ensures var s1 := Sleep(s, s.current, sig, ctx);
      && s1.current == s.current && s1.running == [] && s1.current < |s1.tasks|
      && var s2 := Schedule(s1, ctx');
        s2.current < |s2.tasks| && s2.tasks[s2.current].mode == Sleeping
            && (s.sleeping != [] ==> s2.current in s.sleeping)
  {
    hide Turns, Left, Joined, Next;
    LoneNext(s);
    LeftFacts<nat>(s.running, s.current);
    assert Left<nat>(s.running, s.current) == [];
    JoinedFacts<nat>(s.sleeping, s.current);
    TickRotates<nat>(Joined<nat>(s.sleeping, s.current), s.current);
    NextJoined(s.sleeping, s.current);
  }

  lemma WakeupInv(s: Sched, pid: nat)
    requires Inv(s)
    ensures Inv(Wakeup(s, pid))
  {
    hide Joined, Turns, Left;
    if Check(s, pid).None? && s.tasks[pid].mode == Sleeping {
      JoinedFacts<nat>(s.running, pid);
      LeftFacts<nat>(s.sleeping, pid);
    }
  }

  lemma WakeupTurns(s: Sched, pid: nat) returns (p: nat)
    requires Inv(s)
    ensures if Check(s, pid).None? && s.tasks[pid].mode == Sleeping
      then 0 < p <= |Line(s)| && Line(Wakeup(s, pid)) == Line(s)[..p] + [pid] + Line(s)[p..]
        && s.running != [] && Line(s)[p - 1] == s.running[0]
      else Line(Wakeup(s, pid)) == Line(s)
  {
    p := 0;
    if Check(s, pid).None? && s.tasks[pid].mode == Sleeping {
      p := JoinTurns<nat>(s.running, s.current, pid);
      hide Joined, Turns, Left;
    }
  }
}
