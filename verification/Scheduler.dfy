/** The scheduler: forking, round robin, sleeping and waking, with pids found through a tree. */
module Scheduler {
  import opened Common
  import opened TaskRing
  import opened TaskState
  import opened TaskQueues
  import RbShape
  import RbTree

  // `Pair_id_task`, ordered by id alone.
  datatype Pair = Pair(id: nat, task: Task?)

  function IdRank(p: Pair): int {
    p.id
  }

  // The tree lists the tasks in the order of their pids, which are 0, 1, 2, ...
  ghost predicate Indexed(keys: seq<Pair>, tasks: seq<Task>) {
    |keys| == |tasks| && forall p :: 0 <= p < |tasks| ==> keys[p] == Pair(p, tasks[p])
  }

  ghost predicate Numbered(tasks: seq<Task>) {
    forall p :: 0 <= p < |tasks| ==> tasks[p].id == p
  }

  ghost predicate Within(q: seq<Task>, tasks: seq<Task>) {
    forall t :: t in q ==> t in tasks
  }

  function Ids(q: seq<Task>): (r: seq<nat>)
    ensures |r| == |q| && forall i :: 0 <= i < |q| ==> r[i] == q[i].id
  {
    seq(|q|, i requires 0 <= i < |q| => q[i].id)
  }

  ghost function Infos(tasks: seq<Task>): (r: seq<Info>)
    reads tasks`mode, tasks`saved, tasks`wakeOn, tasks`errno
    ensures |r| == |tasks| && forall i :: 0 <= i < |tasks| ==> r[i] == tasks[i].AsInfo()
  {
    if tasks == [] then [] else Infos(tasks[..|tasks| - 1]) + [tasks[|tasks| - 1].AsInfo()]
  }

  // Tasks of which only the links changed.
  twostate lemma InfosSame(tasks: seq<Task>)
    requires forall t :: t in tasks ==> t.AsInfo() == old(t.AsInfo())
    ensures Infos(tasks) == old(Infos(tasks))
  {
  }

  // Tasks of which one changed since they showed `was`.
  lemma InfosOne(tasks: seq<Task>, was: seq<Info>, t: Task)
    requires Numbered(tasks) && t in tasks && |was| == |tasks|
    requires forall i :: 0 <= i < |tasks| && tasks[i] != t ==> tasks[i].AsInfo() == was[i]
    ensures t.id < |tasks| && Infos(tasks) == was[t.id := t.AsInfo()]
  {
  }

  lemma SameTask(tasks: seq<Task>, t: Task, u: Task)
    requires Numbered(tasks) && t in tasks && u in tasks && t.id == u.id
    ensures t == u && t.id < |tasks| && tasks[t.id] == t
  {
  }

  lemma {:induction false} IdsPlace(q: seq<Task>, t: Task, tasks: seq<Task>)
    requires Numbered(tasks) && Within(q, tasks) && t in tasks
    ensures Place<nat>(Ids(q), t.id) == Place(q, t) && (t in q <==> t.id in Ids(q))
  {
    if q != [] {
      assert q[0] in q;
      if q[0].id == t.id { SameTask(tasks, q[0], t); }
      assert Ids(q)[1..] == Ids(q[1..]);
      assert Ids(q) == [q[0].id] + Ids(q[1..]);
      assert q == [q[0]] + q[1..];
      IdsPlace(q[1..], t, tasks);
    }
  }

  lemma IdsLeft(q: seq<Task>, t: Task, tasks: seq<Task>)
    requires Numbered(tasks) && Within(q, tasks) && t in tasks
    ensures Ids(Left(q, t)) == Left<nat>(Ids(q), t.id)
  {
    IdsPlace(q, t, tasks);
    hide Ids, Place, Numbered, Within;
    if Place(q, t) < |q| { IdsCut(q, Place(q, t)); }
  }

  lemma IdsCut(q: seq<Task>, i: nat)
    requires i < |q|
    ensures Ids(q[..i] + q[i + 1..]) == Ids(q)[..i] + Ids(q)[i + 1..]
  {
  }

  lemma IdsJoined(q: seq<Task>, t: Task)
    ensures Ids(Joined(q, t)) == Joined<nat>(Ids(q), t.id)
  {
  }

  lemma IdsNext(q: seq<Task>, t: Task, tasks: seq<Task>)
    requires Numbered(tasks) && Within(q, tasks) && t in q
    ensures t.id in Ids(q) && Next(q, t).id == Next<nat>(Ids(q), t.id)
  {
    IdsPlace(q, t, tasks);
  }

  // The successor of a member of a circular queue.
  lemma QueueNext(q: seq<Task>, t: Task)
    requires NoDup(q) && Circular(q) && t in q
    ensures t.queueNext == Next(q, t)
  {
    Neighbours(q, Place(q, t));
  }

  // A key that sorts behind all pids of the tree is listed last, and one of them at its own place.
  lemma IndexPlace(keys: seq<Pair>, tasks: seq<Task>, at: nat, pid: nat, t: RbTree.Rbt<Pair>)
    requires Indexed(keys, tasks) && t.rank == IdRank && t.Splits(keys, at, pid)
    ensures at == if pid < |tasks| then pid else |tasks|
  {
    if at < |tasks| { assert keys[at] == Pair(at, tasks[at]); }
    if pid < |tasks| { assert keys[pid] == Pair(pid, tasks[pid]); }
  }

  // A task with the next pid is listed behind all others.
  lemma IndexedAppend(keys: seq<Pair>, tasks: seq<Task>, at: nat, t: Task, index: RbTree.Rbt<Pair>)
    requires Indexed(keys, tasks) && index.rank == IdRank && index.Splits(keys, at, |tasks|)
    ensures Indexed(keys[..at] + [Pair(|tasks|, t)] + keys[at..], tasks + [t])
  {
    IndexPlace(keys, tasks, at, |tasks|, index);
  }

  lemma IndexedNone(keys: seq<Pair>)
    requires keys == []
    ensures Indexed(keys, [])
  {
  }

  lemma FailInv(s: Sched, e: Errno)
    requires Inv(s)
    ensures Inv(Fail(s, e))
  {
  }

  lemma SleepFails(s: Sched, pid: nat, sig: nat, ctx: Context)
    requires Inv(s) && Check(s, pid).Some?
    ensures Sleep(s, pid, sig, ctx) == Fail(s, Check(s, pid).value)
    ensures pid != s.current
  {
  }

  lemma ForkInv(s: Sched, ctx: Context, dir: nat)
    requires Inv(s)
    ensures Inv(ForkTask(s, ctx, dir))
  {
    hide Inv;
    var p := ForkKeeps(s, ctx, dir);
  }

  class Scheduling {
    const running: TaskQueue
    const sleeping: TaskQueue
    const index: RbTree.Rbt<Pair>
    var current: Task
    var nextPid: nat
    ghost var tasks: seq<Task>

    ghost predicate Queues()
      reads `tasks, `current, running, sleeping, running.order`queueNext, running.order`queuePrev
      reads sleeping.order`queueNext, sleeping.order`queuePrev
    {
      && running != sleeping && running.Valid() && sleeping.Valid()
      && (forall t: Task :: t in running.order ==> t !in sleeping.order)
      && Numbered(tasks) && Within(running.order, tasks) && Within(sleeping.order, tasks) && current in tasks
    }

    ghost predicate Listed()
      reads `tasks, index, index.nil, index.nodes
    {
      index.Valid() && index.rank == IdRank && Indexed(index.Contents(), tasks)
    }

    ghost function View(): Sched
      reads this, running, sleeping, tasks
    {
      Sched(Infos(tasks), Ids(running.order), Ids(sleeping.order), current.id)
    }

    ghost predicate Valid()
      reads this, running, sleeping, running.order`queueNext, running.order`queuePrev
      reads sleeping.order`queueNext, sleeping.order`queuePrev, tasks, index, index.nil, index.nodes
    {
      Queues() && Listed() && nextPid == |tasks| && Inv(View())
    }

    // `Task::init`: the first task, owned by user 0.
    constructor (dir: nat)
      ensures Valid() && View() == Sched([Info(Running, 0, 0, dir, None, None, 0, None)], [0], [], 0)
    {
      hide RbTree.Rbt.Valid, RbTree.Rbt.Contents, Indexed, Circular, Inv, Infos, NoDup, Within, Numbered;
      var first := new Task(0, dir, None, 0, 0);
      var s := new TaskQueue();
      var r := QueueOf(first);
      var ix := IndexOf(first);
      running, sleeping, index, current, nextPid, tasks := r, s, ix, first, 1, [first];
      new;
      InitValid(dir);
    }

    static method QueueOf(first: Task) returns (q: TaskQueue)
      modifies first`queueNext, first`queuePrev
      ensures fresh(q) && q.Valid() && q.order == [first]
    {
      q := new TaskQueue();
      q.Insert(first);
    }

    static method IndexOf(first: Task) returns (ix: RbTree.Rbt<Pair>)
      requires first.id == 0
      ensures fresh(ix.Repr()) && ix.Valid() && ix.rank == IdRank && Indexed(ix.Contents(), [first])
    {
      hide RbTree.Rbt.Valid, RbTree.Rbt.Contents, Indexed;
      ix := new RbTree.Rbt(IdRank, Pair(0, null));
      ghost var keys := ix.Contents();
      IndexedNone(keys);
      var at := ix.Insert(Pair(0, first));
      IndexedAppend(keys, [], at, first, ix);
      assert [] + [first] == [first];
    }

    lemma InitValid(dir: nat)
      requires running != sleeping && running.Valid() && sleeping.Valid() && Listed()
      requires tasks == [current] && running.order == [current] && sleeping.order == [] && current.id == 0
      requires nextPid == 1
      requires current.AsInfo() == Info(Running, 0, 0, dir, None, None, 0, None)
      ensures Valid() && View() == Sched([Info(Running, 0, 0, dir, None, None, 0, None)], [0], [], 0)
    {
      assert Infos(tasks) == [current.AsInfo()];
      InitInv(dir);
    }

    // `id2task`: a bare `find_ge`, exact because the pids have no gap.
    method Id2Task(pid: nat) returns (t: Task?)
      requires Listed()
      ensures t == if pid < |tasks| then tasks[pid] else null
    {
      hide RbTree.Rbt.Valid, RbTree.Rbt.Contents;
      var r, at, steps := index.FindGe(Pair(pid, null));
      IndexPlace(index.Contents(), tasks, at, pid, index);
      if r != null { return r.key.task; }
      return null;
    }

    // `get_next_pid`, before the counter wraps around.
    method GetNextPid() returns (pid: nat)
      requires Listed() && nextPid <= |tasks| && |tasks| + 1 < WORD
      modifies `nextPid
      ensures pid == |tasks| && nextPid == |tasks| + 1
    {
      hide RbTree.Rbt.Valid, RbTree.Rbt.Contents, Indexed;
      var t := Id2Task(nextPid);
      while t != null
        invariant Listed() && nextPid <= |tasks| && t == if nextPid < |tasks| then tasks[nextPid] else null
        decreases |tasks| - nextPid
      {
        nextPid := Add32(nextPid, 1);
        t := Id2Task(nextPid);
      }
      pid := nextPid;
      nextPid := Add32(nextPid, 1);
    }

    // Saves the context of the current task and, by `switch_task`, gives the turn to `next`, which
    // resumes where it was left.
    method SwitchTo(next: Task, ctx: Context) returns (resumed: Context)
      requires Queues() && Listed() && next in tasks && (next != current ==> next.saved.Some?)
      modifies `current, current`saved
      ensures Queues() && Listed() && current == next && Some(resumed) == next.saved
      ensures old(current).saved == Some(ctx)
      ensures View() == SaveContext(old(View()), ctx).(current := next.id)
    {
      hide RbTree.Rbt.Valid, RbTree.Rbt.Contents, Indexed, Circular, NoDup, Within, Infos;
      SameTask(tasks, current, current);
      ghost var was := Infos(tasks);
      current.saved := Some(ctx);
      InfosOne(tasks, was, current);
      current := next;
      resumed := current.saved.value;
    }

    // The current task is in the running queue, and its successor there is next.
    lemma NextFacts()
      requires Queues() && Inv(View())
      ensures current in running.order && current.queueNext != null
      ensures var next: Task := current.queueNext;
        && next in tasks && next.id == NextTask(View()) && (next != current ==> next.saved.Some?)
        && next in running.order && next == Next(running.order, current)
    {
      IdsPlace(running.order, current, tasks);
      IdsNext(running.order, current, tasks);
      QueueNext(running.order, current);
      var next := Next(running.order, current);
      assert next in running.order;
      SameTask(tasks, next, next);
      SameTask(tasks, current, current);
      assert View().tasks[next.id] == next.AsInfo();
    }

    // `schedule`.
    method Tick(ctx: Context) returns (resumed: Context)
      requires Valid()
      modifies `current, current`saved
      ensures Valid() && View() == Schedule(old(View()), ctx)
      ensures old(current).saved == Some(ctx) && Some(resumed) == current.saved
    {
      hide RbTree.Rbt.Valid, RbTree.Rbt.Contents, Indexed, Inv, Circular, NoDup, Within, NextTask, Turns, Infos;
      NextFacts();
      ScheduleKeeps(View(), ctx);
      resumed := SwitchTo(current.queueNext, ctx);
      SameTask(tasks, current, current);
    }

    // A new task joins the running queue.
    method Enter(child: Task)
      requires Queues() && child !in tasks && child.id == |tasks|
      modifies `tasks, running`ptr, running`order, running.order`queueNext, running.order`queuePrev, child`queueNext,
          child`queuePrev
      ensures Queues() && tasks == old(tasks) + [child] && running.order == Joined(old(running.order), child)
      ensures Infos(old(tasks)) == old(Infos(tasks))
    {
      hide Circular, Joined, Infos;
      JoinedPlaces<Task>(running.order, child);
      ghost var q := running.order;
      running.Insert(child);
      tasks := tasks + [child];
      assert forall t: Task :: t in running.order ==> t in q || t == child;
      CircularSame(sleeping.order);
      InfosSame(old(tasks));
    }

    // A task with the next pid gets its place in the tree.
    method Index(child: Task)
      requires Listed() && Queues() && child.id == |tasks|
      modifies index.Repr()
      ensures Queues() && index.Valid() && index.rank == IdRank && Indexed(index.Contents(), tasks + [child])
    {
      hide RbTree.Rbt.Valid, RbTree.Rbt.Contents, Indexed, Circular, NoDup, Within, Numbered;
      ghost var keys := index.Contents();
      var at := index.Insert(Pair(child.id, child));
      IndexedAppend(keys, tasks, at, child, index);
    }

    lemma CurrentIn()
      requires Queues()
      ensures current in tasks
    {
    }

    // A task for the child of `fork`, with the next pid and its place in the tree.
    method Register(ctx: Context, dir: nat) returns (child: Task)
      requires Queues() && Listed() && nextPid == |tasks| && |tasks| + 1 < WORD
      modifies `nextPid, index.Repr()
      ensures Queues() && nextPid == |tasks| + 1 && fresh(child) && child !in tasks && child.id == |tasks|
      ensures index.Valid() && index.rank == IdRank && Indexed(index.Contents(), tasks + [child])
      ensures Infos(tasks) == old(Infos(tasks))
      ensures child.AsInfo() == Info(Running, current.uid, current.gid, dir, Some(current.id), Some(ctx), 0, None)
    {
      hide RbTree.Rbt.Valid, RbTree.Rbt.Contents, Indexed, Queues, Infos;
      CurrentIn();
      var pid := GetNextPid();
      child := new Task(pid, dir, Some(current.id), current.uid, current.gid);
      child.saved := Some(ctx);
      Index(child);
      InfosSame(tasks);
    }

    // The child of `fork`, in the tree and in the running queue.
    method Spawn(ctx: Context, dir: nat) returns (child: Task)
      requires Queues() && Listed() && nextPid == |tasks| && |tasks| + 1 < WORD
      modifies `nextPid, `tasks, running`ptr, running`order, running.order`queueNext, running.order`queuePrev,
          index.Repr()
      ensures Queues() && Listed() && nextPid == |tasks| && tasks == old(tasks) + [child] && child.id == |old(tasks)|
      ensures running.order == Joined(old(running.order), child)
      ensures child.AsInfo() == Info(Running, current.uid, current.gid, dir, Some(current.id), Some(ctx), 0, None)
      ensures Infos(old(tasks)) == old(Infos(tasks))
    {
      hide RbTree.Rbt.Valid, RbTree.Rbt.Contents, Indexed, Queues, Infos, Joined;
      child := Register(ctx, dir);
      Enter(child);
    }

    // `fork`.
    method Fork(ctx: Context, dir: nat) returns (pid: nat)
      requires Valid() && |tasks| + 1 < WORD
      modifies `nextPid, `tasks, running`ptr, running`order, running.order`queueNext, running.order`queuePrev,
          index.Repr()
      ensures Valid() && View() == ForkTask(old(View()), ctx, dir) && pid == |old(View()).tasks|
      ensures tasks[..pid] == old(tasks) && |tasks| == pid + 1 && tasks[pid].id == pid && current == old(current)
      ensures tasks[pid].saved == Some(ctx) && tasks[pid].dir == dir && tasks[pid].parent == Some(current.id)
      ensures tasks[pid].uid == current.uid && tasks[pid].gid == current.gid && tasks[pid].mode == Running
    {
      hide RbTree.Rbt.Valid, RbTree.Rbt.Contents, Indexed, Circular, NoDup, Within, Inv, Infos, Joined;
      ghost var v, q, r := View(), tasks, running.order;
      ForkInv(v, ctx, dir);
      SameTask(tasks, current, current);
      var child := Spawn(ctx, dir);
      ForkView(v, q, r, child, ctx, dir);
      return child.id;
    }

    lemma ForkView(v: Sched, before: seq<Task>, queue: seq<Task>, child: Task, ctx: Context, dir: nat)
      requires v.tasks == Infos(before) && v.running == Ids(queue) && v.sleeping == Ids(sleeping.order)
      requires v.current == current.id
      requires tasks == before + [child] && child.id == |before| && current.id < |before|
      requires before[current.id] == current
      requires running.order == Joined(queue, child)
      requires child.AsInfo() == Info(Running, current.uid, current.gid, dir, Some(current.id), Some(ctx), 0, None)
      ensures View() == ForkTask(v, ctx, dir)
    {
      hide Joined;
      assert tasks[..|tasks| - 1] == before;
      IdsJoined(queue, child);
    }

    // A task leaves one queue and joins the other.
    static method Transfer(t: Task, a: TaskQueue, b: TaskQueue)
      requires a != b && a.Valid() && b.Valid() && t in a.order && forall u: Task :: u in a.order ==> u !in b.order
      modifies a`ptr, a`order, a.order`queueNext, a.order`queuePrev, b`ptr, b`order, b.order`queueNext,
          b.order`queuePrev
      ensures a.Valid() && b.Valid() && a.order == Left(old(a.order), t) && b.order == Joined(old(b.order), t)
      ensures forall u: Task :: u in a.order ==> u in old(a.order) && u !in b.order
      ensures forall u: Task :: u in b.order ==> u in old(b.order) || u == t
    {
      hide Circular, Left, Joined, NoDup;
      LeftPlaces<Task>(a.order, t);
      JoinedPlaces<Task>(b.order, t);
      ghost var p, q := a.order, b.order;
      a.Remove(t);
      CircularSame(b.order);
      label Removed:
      ghost var r := a.order;
      assert forall u: Task :: u in r ==> u in p && u != t;
      b.Insert(t);
      assert forall u: Task :: u in b.order ==> u in q || u == t;
      CircularSame@Removed(a.order);
    }

    // The queue changes of `sleep`.
    method Suspend(t: Task, sig: nat)
      requires Queues() && t in running.order
      modifies running`ptr, running`order, running.order`queueNext, running.order`queuePrev
      modifies sleeping`ptr, sleeping`order, sleeping.order`queueNext, sleeping.order`queuePrev, t`mode, t`wakeOn
      ensures Queues() && t.id < |tasks|
      ensures running.order == Left(old(running.order), t) && sleeping.order == Joined(old(sleeping.order), t)
      ensures t.AsInfo() == old(t.AsInfo()).(mode := Sleeping, wakeOn := sig)
      ensures Infos(tasks) == old(Infos(tasks))[t.id := t.AsInfo()]
    {
      hide Circular, Left, Joined, Infos, NoDup;
      ghost var was := Infos(tasks);
      Transfer(t, running, sleeping);
      t.mode, t.wakeOn := Sleeping, sig;
      InfosOne(tasks, was, t);
    }

    method PutAside(t: Task, sig: nat)
      requires Valid() && t in running.order && t in tasks
      modifies running`ptr, running`order, running.order`queueNext, running.order`queuePrev
      modifies sleeping`ptr, sleeping`order, sleeping.order`queueNext, sleeping.order`queuePrev, t`mode, t`wakeOn
      ensures Queues() && Listed() && t.id < |tasks| && View() == PutToSleep(old(View()), t.id, sig)
    {
      hide RbTree.Rbt.Valid, RbTree.Rbt.Contents, Indexed, Circular, NoDup, Inv, Infos, Left, Joined;
      SameTask(tasks, t, t);
      IdsLeft(running.order, t, tasks);
      IdsJoined(sleeping.order, t);
      Suspend(t, sig);
    }

    // The queue changes of `wakeup`.
    method Resume(t: Task)
      requires Queues() && t in sleeping.order
      modifies running`ptr, running`order, running.order`queueNext, running.order`queuePrev
      modifies sleeping`ptr, sleeping`order, sleeping.order`queueNext, sleeping.order`queuePrev, t`mode
      ensures Queues() && t.id < |tasks|
      ensures sleeping.order == Left(old(sleeping.order), t) && running.order == Joined(old(running.order), t)
      ensures t.AsInfo() == old(t.AsInfo()).(mode := Running)
      ensures Infos(tasks) == old(Infos(tasks))[t.id := t.AsInfo()]
    {
      hide Circular, Left, Joined, Infos, NoDup;
      ghost var was := Infos(tasks);
      Transfer(t, sleeping, running);
      t.mode := Running;
      InfosOne(tasks, was, t);
    }

    method TakeBack(t: Task)
      requires Valid() && t in sleeping.order && t in tasks
      modifies running`ptr, running`order, running.order`queueNext, running.order`queuePrev
      modifies sleeping`ptr, sleeping`order, sleeping.order`queueNext, sleeping.order`queuePrev, t`mode
      ensures Queues() && Listed() && t.id < |tasks| && View() == Awaken(old(View()), t.id)
    {
      hide RbTree.Rbt.Valid, RbTree.Rbt.Contents, Indexed, Circular, NoDup, Inv, Infos, Left, Joined;
      SameTask(tasks, t, t);
      IdsLeft(sleeping.order, t, tasks);
      IdsJoined(running.order, t);
      Resume(t);
    }

    // A task is in the queue its state names.
    lemma QueueOfState(t: Task)
      requires Queues() && Inv(View()) && t in tasks
      ensures t.id < |tasks| && tasks[t.id] == t && View().tasks[t.id] == t.AsInfo() && t.mode != Zombie
      ensures (t.mode == Running <==> t in running.order) && (t.mode == Sleeping <==> t in sleeping.order)
      ensures t == current <==> t.id == current.id
    {
      SameTask(tasks, t, t);
      if t.id == current.id { SameTask(tasks, t, current); }
      IdsPlace(running.order, t, tasks);
      IdsPlace(sleeping.order, t, tasks);
      assert View().tasks[t.id] == t.AsInfo();
    }

    // The errors `sleep` and `wakeup` leave in the current task.
    method SetErrno(e: Errno)
      requires Valid()
      modifies current`errno
      ensures Valid() && View() == Fail(old(View()), e)
    {
      hide RbTree.Rbt.Valid, RbTree.Rbt.Contents, Indexed, Circular, NoDup, Within, Inv, Infos;
      QueueOfState(current);
      FailInv(View(), e);
      ghost var was := Infos(tasks);
      current.errno := Some(e);
      InfosOne(tasks, was, current);
    }

    // The task `pid` names, after the checks of existence and permission.
    method Target(pid: nat) returns (t: Task?, e: Option<Errno>)
      requires Valid()
      ensures e == Check(View(), pid)
      ensures e == Some(ESRCH) <==> t == null
      ensures t != null ==> t in tasks && t.id == pid
      ensures t != null ==> (e == Some(EPERM) <==> t.uid != current.uid && current.uid != 0)
    {
      hide RbTree.Rbt.Valid, RbTree.Rbt.Contents, Indexed, Circular, NoDup, Within, Inv, Infos;
      t := Id2Task(pid);
      QueueOfState(current);
      if t != null { QueueOfState(t); }
      if t == null || t.mode == Zombie { return t, Some(ESRCH); }
      if t.uid != current.uid && current.uid != 0 { return t, Some(EPERM); }
      return t, None;
    }

    // `sleep` of a task that was found.
    method SleepFound(t: Task, sig: nat, ctx: Context) returns (resumed: Option<Context>)
      requires Valid() && t in tasks && t.id < |View().tasks| && Check(View(), t.id).None?
      modifies `current, tasks`mode, tasks`wakeOn, tasks`saved
      modifies running`ptr, running`order, running.order`queueNext, running.order`queuePrev
      modifies sleeping`ptr, sleeping`order, sleeping.order`queueNext, sleeping.order`queuePrev
      ensures View() == Sleep(old(View()), t.id, sig, ctx)
      ensures Valid() <==> !(t.id == old(View()).current && |old(View()).running| == 1)
      ensures resumed.Some? <==> t == old(current)
      ensures resumed.Some? ==> old(current).saved == Some(ctx) && resumed == current.saved
    {
      hide RbTree.Rbt.Valid, RbTree.Rbt.Contents, Indexed, Circular, NoDup, Within, Inv, Infos, Ids, NextTask,
          PutToSleep, SaveContext, Check, Fail;
      SleepKeeps(View(), t.id, sig, ctx);
      resumed := None;
      QueueOfState(t);
      NextFacts();
      if t == current { QueueOfState(current); }
      if t.mode == Running {
        var next := current.queueNext;
        PutAside(t, sig);
        if t == current {
          var c := SwitchTo(next, ctx);
          resumed := Some(c);
        }
      }
    }

    // `sleep`.
    method SleepTask(pid: nat, sig: nat, ctx: Context) returns (e: Option<Errno>, resumed: Option<Context>)
      requires Valid()
      modifies `current, tasks`errno, tasks`mode, tasks`wakeOn, tasks`saved
      modifies running`ptr, running`order, running.order`queueNext, running.order`queuePrev
      modifies sleeping`ptr, sleeping`order, sleeping.order`queueNext, sleeping.order`queuePrev
      ensures View() == Sleep(old(View()), pid, sig, ctx) && e == Check(old(View()), pid)
      ensures Valid() <==> !(pid == old(View()).current && |old(View()).running| == 1)
      ensures resumed.Some? <==> pid == old(current.id)
      ensures resumed.Some? ==> old(current).saved == Some(ctx) && resumed == current.saved
    {
      hide RbTree.Rbt.Valid, RbTree.Rbt.Contents, Indexed, Circular, NoDup, Within, Inv, Infos, Ids, NextTask,
          Sleep, Check, Fail;
      ghost var v := View();
      resumed := None;
      var t;
      t, e := Target(pid);
      if e.Some? {
        SleepFails(v, pid, sig, ctx);
        SetErrno(e.value);
        return;
      }
      QueueOfState(t);
      resumed := SleepFound(t, sig, ctx);
    }

    // `wakeup`.
    method WakeupTask(pid: nat) returns (e: Option<Errno>)
      requires Valid()
      modifies tasks`errno, tasks`mode
      modifies running`ptr, running`order, running.order`queueNext, running.order`queuePrev
      modifies sleeping`ptr, sleeping`order, sleeping.order`queueNext, sleeping.order`queuePrev
      ensures Valid() && View() == Wakeup(old(View()), pid) && e == Check(old(View()), pid)
    {
      hide RbTree.Rbt.Valid, RbTree.Rbt.Contents, Indexed, Circular, NoDup, Within, Inv, Infos, Ids, Awaken, Check,
          Fail;
      ghost var v := View();
      WakeupInv(v, pid);
      var t;
      t, e := Target(pid);
      if e.Some? {
        SetErrno(e.value);
        return;
      }
      QueueOfState(t);
      if t.mode == Sleeping {
        TakeBack(t);
      }
    }
  }
}
