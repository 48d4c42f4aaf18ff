/** Runs of the scheduler: queues and states agree, tasks keep what they own, nobody waits without bound. */
module TaskRuns {
  import opened Common
  import opened TaskRing
  import opened TaskState

  datatype Event =
    | Forks(ctx: Context, dir: nat)
    | Tick(ctx: Context)
    | Sleeps(pid: nat, sig: nat, ctx: Context)
    | Wakes(pid: nat)

  // One step; none for the step that leaves no task running.
  function Step(s: Sched, e: Event): Option<Sched>
    requires s.current < |s.tasks|
  {
    match e
    case Forks(ctx, dir) => Some(ForkTask(s, ctx, dir))
    case Tick(ctx) => Some(Schedule(s, ctx))
    case Sleeps(pid, sig, ctx) => if pid == s.current && |s.running| == 1 then None else Some(Sleep(s, pid, sig, ctx))
    case Wakes(pid) => Some(Wakeup(s, pid))
  }

  lemma StepInv(s: Sched, e: Event)
    requires Inv(s)
    ensures s.current < |s.tasks| && (Step(s, e).Some? ==> Inv(Step(s, e).value))
  {
    hide Turns, Joined, Left, Next;
    match e
    case Forks(ctx, dir) => var p := ForkKeeps(s, ctx, dir);
    case Tick(ctx) => ScheduleKeeps(s, ctx);
    case Sleeps(pid, sig, ctx) => SleepKeeps(s, pid, sig, ctx);
    case Wakes(pid) => WakeupInv(s, pid);
  }

  ghost function Run(s: Sched, events: seq<Event>): (r: Option<Sched>)
    requires Inv(s)
    ensures r.Some? ==> Inv(r.value)
    decreases |events|
  {
    if events == [] then Some(s)
    else
      StepInv(s, events[0]);
      match Step(s, events[0])
      case None => None
      case Some(s1) => Run(s1, events[1..])
  }

  // ---- what tasks keep ----

  function ForkCount(events: seq<Event>): nat {
    if events == [] then 0 else (if events[0].Forks? then 1 else 0) + ForkCount(events[1..])
  }

  // Over every run tasks are added by forks only, and each keeps its place among them, its owner, its
  // directory and its parent.
  lemma {:induction false} TasksKeep(s: Sched, events: seq<Event>, p: nat)
    requires Inv(s) && Run(s, events).Some? && p < |s.tasks|
    ensures var s' := Run(s, events).value;
      && |s'.tasks| == |s.tasks| + ForkCount(events)
      && s'.tasks[p].uid == s.tasks[p].uid && s'.tasks[p].gid == s.tasks[p].gid
      && s'.tasks[p].dir == s.tasks[p].dir && s'.tasks[p].parent == s.tasks[p].parent
    decreases |events|
  {
    hide Inv, Step;
    if events != [] {
      StepInv(s, events[0]);
      StepTasks(s, events[0], p);
      TasksKeep(Step(s, events[0]).value, events[1..], p);
    }
  }

  lemma StepTasks(s: Sched, e: Event, p: nat)
    requires s.current < |s.tasks| && Step(s, e).Some? && p < |s.tasks|
    ensures var s' := Step(s, e).value;
      && |s'.tasks| == |s.tasks| + (if e.Forks? then 1 else 0)
      && s'.tasks[p].uid == s.tasks[p].uid && s'.tasks[p].gid == s.tasks[p].gid
      && s'.tasks[p].dir == s.tasks[p].dir && s'.tasks[p].parent == s.tasks[p].parent
  {
    hide Joined, Left, Next;
  }

  // ---- waiting ----

  // The turns that were passed on.
  ghost function TurnCount(s: Sched, events: seq<Event>): nat
    requires Inv(s) && Run(s, events).Some?
    decreases |events|
  {
    if events == [] then 0
    else
      StepInv(s, events[0]);
      (if PassesTurn(s, events[0]) then 1 else 0) + TurnCount(Step(s, events[0]).value, events[1..])
  }

  predicate PassesTurn(s: Sched, e: Event) {
    e.Tick? || (e.Sleeps? && e.pid == s.current)
  }

  function Arrivals(events: seq<Event>): nat {
    if events == [] then 0 else (if events[0].Forks? || events[0].Wakes? then 1 else 0) + Arrivals(events[1..])
  }

  // How many turns come before that of task `t`.
  function Wait(s: Sched, t: nat): nat {
    Place(Line(s), t)
  }

  lemma PlaceAfter(q: seq<nat>, x: nat, t: nat)
    requires q != [] && q[0] != t
    ensures Place(q, t) == 1 + Place(q[1..], t)
    ensures t in q ==> Place(q[1..] + [x], t) == Place(q[1..], t)
  {
    assert q == [q[0]] + q[1..];
    if t in q { PlaceJoin(q[1..], [x], t); }
  }

  lemma PlaceJoin(a: seq<nat>, b: seq<nat>, t: nat)
    ensures Place(a + b, t) == if t in a then Place(a, t) else |a| + Place(b, t)
  {
    if a == [] {
      assert a + b == b;
    } else {
      assert a + b == [a[0]] + (a[1..] + b);
      assert (a + b)[1..] == a[1..] + b;
      if a[0] != t { PlaceJoin(a[1..], b, t); }
    }
  }

  lemma PlaceInsert(q: seq<nat>, p: nat, x: nat, t: nat)
    requires p <= |q| && t in q
    ensures Place(q[..p] + [x] + q[p..], t) <= Place(q, t) + 1
  {
    PlaceJoin(q[..p] + [x], q[p..], t);
    PlaceJoin(q[..p], [x], t);
    PlaceJoin(q[..p], q[p..], t);
    assert q == q[..p] + q[p..];
  }

  lemma PlaceOut(a: seq<nat>, x: nat, b: seq<nat>, t: nat)
    requires t in a + b && t != x
    ensures Place(a + b, t) <= Place(a + [x] + b, t)
  {
    hide Place;
    PlaceJoin(a, b, t);
    PlaceJoin(a + [x], b, t);
    PlaceJoin(a, [x], t);
  }

  lemma PlaceRemove(q: seq<nat>, x: nat, t: nat)
    requires x in q && t in q && t != x
    ensures Place(Left(q, x), t) <= Place(q, t)
  {
    var a, b := Split<nat>(q, x);
    PlaceOut(a, x, b, t);
  }

  // Who waits moves up by one whenever the turn is passed on, and back by at most one when a task
  // arrives.
  lemma WaitStep(s: Sched, e: Event, t: nat)
    requires Inv(s) && Step(s, e).Some? && t in s.running && t != s.current && !(e.Sleeps? && e.pid == t)
    ensures var s' := Step(s, e).value;
      && Inv(s') && t in s'.running
      && Wait(s', t) + (if PassesTurn(s, e) then 1 else 0) <= Wait(s, t) + (if e.Forks? || e.Wakes? then 1 else 0)
  {
    hide Turns, Joined, Left, Next, Place;
    StepInv(s, e);
    var q := Line(s);
    TurnsFirst<nat>(s.running, s.current);
    match e
    case Forks(ctx, dir) =>
      var p := ForkKeeps(s, ctx, dir);
      PlaceInsert(q, p, |s.tasks|, t);
    case Tick(ctx) =>
      ScheduleKeeps(s, ctx);
      PlaceAfter(q, s.current, t);
    case Sleeps(pid, sig, ctx) =>
      SleepTurns(s, pid, sig, ctx);
      if pid == s.current {
        PlaceAfter(q, s.current, t);
      } else if Check(s, pid).None? && s.tasks[pid].mode == Running {
        PlaceRemove(q, pid, t);
      }
    case Wakes(pid) =>
      var p := WakeupTurns(s, pid);
      if Check(s, pid).None? && s.tasks[pid].mode == Sleeping { PlaceInsert(q, p, pid, t); }
  }

  // Task `t` is current in some state of the run.
  ghost predicate GetsTurn(s: Sched, events: seq<Event>, t: nat)
    requires Inv(s) && Run(s, events).Some?
    decreases |events|
  {
    s.current == t || (events != [] && (StepInv(s, events[0]); GetsTurn(Step(s, events[0]).value, events[1..], t)))
  }

  // A running task that nobody puts to sleep gets its turn at the latest after as many turns as
  // were before it at first, and one more for each task that was forked or woken up since.
  lemma {:induction false} BoundedWaiting(s: Sched, events: seq<Event>, t: nat)
    requires Inv(s) && Run(s, events).Some? && t in s.running
    requires forall e :: e in events ==> !(e.Sleeps? && e.pid == t)
    requires TurnCount(s, events) >= Wait(s, t) + Arrivals(events)
    ensures GetsTurn(s, events, t)
    decreases |events|
  {
    hide Turns, Line;
    if s.current != t {
      WaitPositive(s, t);
      if events != [] {
        assert events[0] in events;
        WaitStep(s, events[0], t);
        BoundedWaiting(Step(s, events[0]).value, events[1..], t);
      }
    }
  }

  lemma WaitPositive(s: Sched, t: nat)
    requires Inv(s) && t != s.current
    ensures Wait(s, t) > 0
  {
    TurnsFirst<nat>(s.running, s.current);
  }

  // ---- round robin ----

  ghost function Ticks(s: Sched, ctxs: seq<Context>): (r: Sched)
    requires Inv(s)
    ensures Inv(r)
  {
    if ctxs == [] then s
    else
      var r := Ticks(s, ctxs[..|ctxs| - 1]);
      ScheduleKeeps(r, ctxs[|ctxs| - 1]);
      Schedule(r, ctxs[|ctxs| - 1])
  }

  // Over as many ticks as there are running tasks each of them gets one turn, in the order of the
  // queue, and then the round starts again.
  lemma {:induction false} RoundRobin(s: Sched, ctxs: seq<Context>)
    requires Inv(s) && |ctxs| <= |s.running|
    ensures |Line(s)| == |s.running| && NoDup(Line(s)) && (forall t :: t in Line(s) <==> t in s.running)
    ensures Line(Ticks(s, ctxs)) == From(Line(s), |ctxs|)
    ensures Ticks(s, ctxs).current == Line(s)[if |ctxs| < |s.running| then |ctxs| else 0]
    decreases |ctxs|
  {
    hide Turns, Line, Next, Inv, From, Schedule;
    LineFacts(s);
    FromFirst(Line(s), 0);
    if ctxs != [] {
      var before, k := ctxs[..|ctxs| - 1], |ctxs| - 1;
      RoundRobin(s, before);
      var r := Ticks(s, before);
      LineFacts(r);
      ScheduleKeeps(r, ctxs[k]);
      FromNext(Line(s), k);
    }
    FromFirst(Line(s), |ctxs|);
    LineFacts(Ticks(s, ctxs));
  }

  lemma FromNext(q: seq<nat>, k: nat)
    requires k < |q|
    ensures From(q, k)[1..] + [q[k]] == From(q, k + 1) && From(q, k)[0] == q[k]
  {
    assert q[k..] == [q[k]] + q[k + 1..];
    assert q[..k + 1] == q[..k] + [q[k]];
  }

  lemma FromFirst(q: seq<nat>, k: nat)
    requires k <= |q| && q != []
    ensures |From(q, k)| == |q| && From(q, k)[0] == q[if k < |q| then k else 0] && From(q, 0) == q
  {
  }

  lemma LineFacts(s: Sched)
    requires Inv(s)
    ensures |Line(s)| == |s.running| && |Line(s)| > 0 && NoDup(Line(s)) && Line(s)[0] == s.current
    ensures forall t :: t in Line(s) <==> t in s.running
  {
    TurnsFirst<nat>(s.running, s.current);
    TurnsDistinct<nat>(s.running, s.current);
  }
}
