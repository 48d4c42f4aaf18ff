/** What each operation of the scheduler does to each field of each task, and with which context a task
    resumes. */
module TaskEffects {
  import opened Common
  import opened TaskRing
  import opened TaskState
  import opened TaskRuns

  // ---- one operation ----

  // Task `pid` exists and is no zombie.
  predicate Exists(s: Sched, pid: nat) {
    pid < |s.tasks| && s.tasks[pid].mode != Zombie
  }

  // The current task may act on `pid`: they have one owner, or it is root.
  predicate MayActOn(s: Sched, pid: nat)
    requires s.current < |s.tasks| && pid < |s.tasks|
  {
    s.tasks[s.current].uid == 0 || s.tasks[s.current].uid == s.tasks[pid].uid
  }

  // A task that does not exist gives ESRCH, whoever asks; one that may not be acted on gives EPERM.
  lemma CheckExact(s: Sched, pid: nat)
    requires s.current < |s.tasks|
    ensures Check(s, pid) == Some(ESRCH) <==> !Exists(s, pid)
    ensures Check(s, pid) == Some(EPERM) <==> Exists(s, pid) && !MayActOn(s, pid)
    ensures Check(s, pid) == None <==> Exists(s, pid) && MayActOn(s, pid)
  {
  }

  // What no operation changes.
  predicate SameOwner(a: Info, b: Info) {
    a.uid == b.uid && a.gid == b.gid && a.dir == b.dir && a.parent == b.parent
  }

  // The child runs with its parent's owner and registers in its own directory; nobody else changes.
  lemma ForkEffect(s: Sched, ctx: Context, dir: nat)
    requires s.current < |s.tasks|
    ensures var s', parent := ForkTask(s, ctx, dir), s.tasks[s.current];
      && |s'.tasks| == |s.tasks| + 1 && s'.current == s.current && s'.sleeping == s.sleeping
      && (forall p :: 0 <= p < |s.tasks| ==> s'.tasks[p] == s.tasks[p])
      && var child := s'.tasks[|s.tasks|];
      && child.mode == Running && child.uid == parent.uid && child.gid == parent.gid && child.dir == dir
      && child.parent == Some(s.current) && child.saved == Some(ctx) && child.errno == None
  {
  }

  // A tick saves the registers of the current task and changes no other task.
  lemma TickEffect(s: Sched, ctx: Context)
    requires s.current < |s.tasks|
    ensures var s' := Schedule(s, ctx);
      && |s'.tasks| == |s.tasks| && s'.running == s.running && s'.sleeping == s.sleeping
      && (forall p :: 0 <= p < |s.tasks| ==>
            s'.tasks[p].saved == (if p == s.current then Some(ctx) else s.tasks[p].saved))
      && (forall p :: 0 <= p < |s.tasks| ==>
            SameOwner(s'.tasks[p], s.tasks[p]) && s'.tasks[p].mode == s.tasks[p].mode
            && s'.tasks[p].wakeOn == s.tasks[p].wakeOn && s'.tasks[p].errno == s.tasks[p].errno)
  {
    hide NextTask;
  }

  // `sleep` changes the state and the signal of its target, if that was running; the saved registers of
  // a task that puts itself to sleep; and the error number of the caller, if it is refused.
  lemma SleepEffect(s: Sched, pid: nat, sig: nat, ctx: Context)
    requires Inv(s)
    ensures var s', found := Sleep(s, pid, sig, ctx), Exists(s, pid) && MayActOn(s, pid);
      && |s'.tasks| == |s.tasks| && (pid != s.current ==> s'.current == s.current) && (pid == s.current ==> found)
      && (forall p :: 0 <= p < |s.tasks| ==>
            s'.tasks[p].saved == (if p == pid == s.current then Some(ctx) else s.tasks[p].saved))
      && (forall p :: 0 <= p < |s.tasks| ==>
            s'.tasks[p].mode == (if p == pid && found then Sleeping else s.tasks[p].mode))
      && (forall p :: 0 <= p < |s.tasks| ==>
            s'.tasks[p].wakeOn == (if p == pid && found && s.tasks[p].mode == Running then sig else s.tasks[p].wakeOn))
      && (forall p :: 0 <= p < |s.tasks| ==>
            s'.tasks[p].errno ==
              if p != s.current || found then s.tasks[p].errno
              else if Exists(s, pid) then Some(EPERM) else Some(ESRCH))
      && (forall p :: 0 <= p < |s.tasks| ==> SameOwner(s'.tasks[p], s.tasks[p]))
  {
    hide NextTask, Left, Joined, NoDup;
    CheckExact(s, pid);
  }

  lemma WakeupEffect(s: Sched, pid: nat)
    requires Inv(s)
    ensures var s', found := Wakeup(s, pid), Exists(s, pid) && MayActOn(s, pid);
      && |s'.tasks| == |s.tasks| && s'.current == s.current
      && (forall p :: 0 <= p < |s.tasks| ==>
            s'.tasks[p].saved == s.tasks[p].saved && s'.tasks[p].wakeOn == s.tasks[p].wakeOn
            && SameOwner(s'.tasks[p], s.tasks[p]))
      && (forall p :: 0 <= p < |s.tasks| ==>
            s'.tasks[p].mode == (if p == pid && found then Running else s.tasks[p].mode))
      && (forall p :: 0 <= p < |s.tasks| ==>
            s'.tasks[p].errno ==
              if p != s.current || found then s.tasks[p].errno
              else if Exists(s, pid) then Some(EPERM) else Some(ESRCH))
  {
    hide NextTask, Left, Joined, NoDup;
    CheckExact(s, pid);
  }

  // ---- the context a task resumes with ----

  // Task `p` is left with registers to resume with: it passes its turn on, or is made by a fork.
  predicate Leaves(s: Sched, e: Event, p: nat) {
    (PassesTurn(s, e) && s.current == p) || (e.Forks? && p == |s.tasks|)
  }

  ghost predicate Runs(s: Sched, events: seq<Event>) {
    Inv(s) && Run(s, events).Some?
  }

  ghost function After(s: Sched, events: seq<Event>, k: nat): Sched
    requires Runs(s, events) && k <= |events|
  {
    RunPrefix(s, events, k);
    Run(s, events[..k]).value
  }

  // A run goes through the runs of its beginnings.
  lemma {:induction false} RunPrefix(s: Sched, events: seq<Event>, k: nat)
    requires Runs(s, events) && k <= |events|
    ensures Run(s, events[..k]).Some?
    ensures var s1 := Run(s, events[..k]).value;
      && Inv(s1) && s1.current < |s1.tasks|
      && (k < |events| ==> Step(s1, events[k]).Some? && Run(s, events[..k + 1]) == Step(s1, events[k]))
    decreases |events|
  {
    hide Inv, Step;
    CurrentThere(s);
    if k > 0 {
      StepInv(s, events[0]);
      var s1 := Step(s, events[0]).value;
      RunPrefix(s1, events[1..], k - 1);
      assert events[..k][1..] == events[1..][..k - 1];
      if k < |events| { assert events[..k + 1][1..] == events[1..][..k]; }
    } else if |events| > 0 {
      StepInv(s, events[0]);
      assert events[..1] == [events[0]];
      assert events[..1][1..] == [];
    }
  }

  lemma CurrentThere(s: Sched)
    requires Inv(s)
    ensures s.current < |s.tasks|
  {
  }

  // What one step does to the registers that task `p` resumes with.
  lemma StepSaves(s: Sched, e: Event, p: nat)
    requires Inv(s) && Step(s, e).Some?
    ensures s.current < |s.tasks|
    ensures var s' := Step(s, e).value;
      && |s.tasks| <= |s'.tasks| <= |s.tasks| + 1
      && (p < |s'.tasks| ==> (p < |s.tasks| || Leaves(s, e, p)))
      && (Leaves(s, e, p) ==> p < |s'.tasks| && !e.Wakes? && s'.tasks[p].saved == Some(e.ctx))
      && (!Leaves(s, e, p) && p < |s.tasks| ==> s'.tasks[p].saved == s.tasks[p].saved)
      && (!PassesTurn(s, e) ==> s'.current == s.current)
  {
    hide NextTask, Left, Joined, NoDup;
    match e
    case Forks(ctx, dir) => ForkEffect(s, ctx, dir);
    case Tick(ctx) => TickEffect(s, ctx);
    case Sleeps(pid, sig, ctx) => SleepEffect(s, pid, sig, ctx);
    case Wakes(pid) => WakeupEffect(s, pid);
  }

  // Event `k` was the last before place `n` by which task `p` was left.
  ghost predicate LastLeft(s: Sched, events: seq<Event>, n: nat, p: nat, k: nat)
    requires Runs(s, events) && n <= |events|
  {
    && k < n && Leaves(After(s, events, k), events[k], p)
    && forall j :: k < j < n ==> !Leaves(After(s, events, j), events[j], p)
  }

  // Over every run the registers of a task are those of the event by which it was left last.
  lemma {:induction false} SavedLast(s: Sched, events: seq<Event>, n: nat, p: nat, k: nat)
    requires Runs(s, events) && n <= |events| && LastLeft(s, events, n, p, k)
    ensures p < |After(s, events, n).tasks| && !events[k].Wakes?
    ensures After(s, events, n).tasks[p].saved == Some(events[k].ctx)
    decreases n
  {
    hide Inv, Step, Run;
    RunPrefix(s, events, n - 1);
    StepSaves(After(s, events, n - 1), events[n - 1], p);
    if k < n - 1 { SavedLast(s, events, n - 1, p, k); }
  }

  // From the start of the scheduler on every task but the current one was left by some event.
  lemma {:induction false} EveryoneLeft(dir: nat, events: seq<Event>, n: nat, p: nat)
    requires var s := Sched([Info(Running, 0, 0, dir, None, None, 0, None)], [0], [], 0);
      && Runs(s, events) && n <= |events|
      && p < |After(s, events, n).tasks| && p != After(s, events, n).current
    ensures var s := Sched([Info(Running, 0, 0, dir, None, None, 0, None)], [0], [], 0);
      exists k :: LastLeft(s, events, n, p, k)
    decreases n
  {
    hide Inv, Step, Run, Leaves, PassesTurn;
    var s := Sched([Info(Running, 0, 0, dir, None, None, 0, None)], [0], [], 0);
    if n == 0 {
      StartsThere(s, events);
      assert false;
    } else {
      RunPrefix(s, events, n - 1);
      var s1 := After(s, events, n - 1);
      StepSaves(s1, events[n - 1], p);
      if Leaves(s1, events[n - 1], p) {
        assert LastLeft(s, events, n, p, n - 1);
      } else {
        NotCurrent(s1, events[n - 1], p);
        EveryoneLeft(dir, events, n - 1, p);
        var k :| LastLeft(s, events, n - 1, p, k);
        assert LastLeft(s, events, n, p, k);
      }
    }
  }

  lemma StartsThere(s: Sched, events: seq<Event>)
    requires Runs(s, events)
    ensures After(s, events, 0) == s
  {
    assert events[..0] == [];
  }

  lemma NotCurrent(s: Sched, e: Event, p: nat)
    requires Inv(s) && Step(s, e).Some? && !Leaves(s, e, p) && Step(s, e).value.current != p
    ensures s.current != p
  {
    StepSaves(s, e, p);
    hide Inv, Step;
  }

  // Whoever gets the turn resumes with the registers of the event by which it was left last; a task
  // that is alone resumes with its own.
  lemma ResumesWith(s: Sched, events: seq<Event>, n: nat, k: nat)
    requires Runs(s, events) && n < |events| && PassesTurn(After(s, events, n), events[n])
    ensures var s', p := After(s, events, n + 1), After(s, events, n + 1).current;
      && p < |s'.tasks| && !events[n].Wakes?
      && (p == After(s, events, n).current ==> s'.tasks[p].saved == Some(events[n].ctx))
      && (p != After(s, events, n).current && LastLeft(s, events, n, p, k) ==>
            !events[k].Wakes? && s'.tasks[p].saved == Some(events[k].ctx))
  {
    RunPrefix(s, events, n);
    RunPrefix(s, events, n + 1);
    var s1, p := After(s, events, n), After(s, events, n + 1).current;
    StepSaves(s1, events[n], p);
    StepSaves(s1, events[n], s1.current);
    if p != s1.current && LastLeft(s, events, n, p, k) { SavedLast(s, events, n, p, k); }
    hide Inv, Step, Run;
  }
}
