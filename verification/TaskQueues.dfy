/** Tasks and the circular queues they are in, changed in place. */
module TaskQueues {
  import opened Common
  import opened TaskRing
  import opened TaskState

  class Task {
    const id: nat
    const dir: nat
    const parent: Option<nat>
    const uid: nat
    const gid: nat
    var mode: Mode
    var saved: Option<Context>
    var wakeOn: nat
    var errno: Option<Errno>
    var queueNext: Task?
    var queuePrev: Task?

    constructor (id: nat, dir: nat, parent: Option<nat>, uid: nat, gid: nat)
      ensures this.id == id && this.dir == dir && this.parent == parent && this.uid == uid && this.gid == gid
      ensures mode == Running && saved == None && wakeOn == 0 && errno == None && queueNext == null && queuePrev == null
    {
      this.id, this.dir, this.parent, this.uid, this.gid := id, dir, parent, uid, gid;
      mode, saved, wakeOn, errno, queueNext, queuePrev := Running, None, 0, None, null, null;
    }

    function AsInfo(): Info
      reads this`mode, this`saved, this`wakeOn, this`errno
    {
      Info(mode, uid, gid, dir, parent, saved, wakeOn, errno)
    }
  }

  // ---- Task_queue ----

  // The members of `q` are linked in a circle.
  ghost predicate Circular(q: seq<Task>)
    reads q`queueNext, q`queuePrev
  {
    && (forall i {:trigger q[i].queueNext} :: 0 <= i < |q| - 1 ==> q[i].queueNext == q[i + 1])
    && (forall i {:trigger q[i].queuePrev} :: 0 < i < |q| ==> q[i].queuePrev == q[i - 1])
    && (q != [] ==> q[|q| - 1].queueNext == q[0] && q[0].queuePrev == q[|q| - 1])
  }

  // A queue whose links were not touched is still circular.
  twostate lemma CircularSame(q: seq<Task>)
    requires old(Circular(q))
    requires forall t :: t in q ==> t.queueNext == old(t.queueNext) && t.queuePrev == old(t.queuePrev)
    ensures Circular(q)
  {
  }

  lemma Neighbours(q: seq<Task>, i: nat)
    requires Circular(q) && i < |q|
    ensures q[i].queueNext == q[if i + 1 < |q| then i + 1 else 0]
      && q[i].queuePrev == q[if i > 0 then i - 1 else |q| - 1]
  {
  }

  function After(n: nat, i: nat): nat {
    if i + 1 < n then i + 1 else 0
  }

  function Behind(n: nat, i: nat): nat {
    if i > 0 then i - 1 else if n > 0 then n - 1 else 0
  }

  // Every member but the one at place `i` is linked past that place.
  ghost predicate LinkedPast(q: seq<Task>, i: nat)
    reads q`queueNext, q`queuePrev
  {
    && (forall j {:trigger q[j].queueNext} :: 0 <= j < |q| && j != i ==>
          q[j].queueNext == q[if After(|q|, j) == i then After(|q|, i) else After(|q|, j)])
    && (forall j {:trigger q[j].queuePrev} :: 0 <= j < |q| && j != i ==>
          q[j].queuePrev == q[if Behind(|q|, j) == i then Behind(|q|, i) else Behind(|q|, j)])
  }

  lemma WithoutCircular(q: seq<Task>, i: nat)
    requires i < |q| && |q| > 1 && LinkedPast(q, i)
    ensures Circular(q[..i] + q[i + 1..])
  {
    var r := q[..i] + q[i + 1..];
    forall k | 0 <= k < |r| - 1 ensures r[k].queueNext == r[k + 1] {
      var j := if k < i then k else k + 1;
      assert r[k] == q[j] && r[k + 1] == q[if k + 1 < i then k + 1 else k + 2];
    }
    forall k | 0 < k < |r| ensures r[k].queuePrev == r[k - 1] {
      var j := if k < i then k else k + 1;
      assert r[k] == q[j] && r[k - 1] == q[if k - 1 < i then k - 1 else k];
    }
    assert r[0] == q[if i == 0 then 1 else 0];
    assert r[|r| - 1] == q[if i == |q| - 1 then |q| - 2 else |q| - 1];
  }

  lemma EmptyCircular(q: seq<Task>)
    requires |q| == 0
    ensures Circular(q)
  {
  }

  lemma FirstNext(q: seq<Task>)
    requires q != [] && Circular(q) && NoDup(q)
    ensures q[0].queueNext == q[if |q| > 1 then 1 else 0] && (q[0].queueNext == q[0] <==> |q| == 1)
  {
    Neighbours(q, 0);
  }

  lemma LeftParts(q: seq<Task>, task: Task)
    requires NoDup(q) && task in q
    ensures var i := Place(q, task); i < |q| && q[i] == task && Left(q, task) == q[..i] + q[i + 1..]
    ensures |q| > 1 ==> |Left(q, task)| > 0 && Left(q, task)[0] == if q[0] == task then q[1] else q[0]
  {
  }

  lemma AllNeighbours(q: seq<Task>)
    requires Circular(q)
    ensures forall j {:trigger q[j].queueNext} :: 0 <= j < |q| ==> q[j].queueNext == q[After(|q|, j)]
    ensures forall j {:trigger q[j].queuePrev} :: 0 <= j < |q| ==> q[j].queuePrev == q[Behind(|q|, j)]
  {
    forall j | 0 <= j < |q| ensures q[j].queueNext == q[After(|q|, j)] && q[j].queuePrev == q[Behind(|q|, j)] {
      Neighbours(q, j);
    }
  }

  lemma AfterBehind(n: nat)
    ensures forall i, j {:trigger After(n, j), Behind(n, i)} :: 0 <= i < n && 0 <= j < n ==>
      (After(n, j) == i <==> j == Behind(n, i))
    ensures forall j :: 0 <= j < n ==>
      After(n, j) < n && Behind(n, j) < n && (n > 1 ==> After(n, j) != j && Behind(n, j) != j)
  {
  }

  // The neighbours of a task are linked past it.
  method Unlink(task: Task, ghost q: seq<Task>, ghost i: nat)
    requires NoDup(q) && |q| > 1 && i < |q| && task == q[i]
    requires forall j {:trigger q[j].queueNext} :: 0 <= j < |q| ==> q[j].queueNext == q[After(|q|, j)]
    requires forall j {:trigger q[j].queuePrev} :: 0 <= j < |q| ==> q[j].queuePrev == q[Behind(|q|, j)]
    modifies q`queueNext, q`queuePrev
    ensures LinkedPast(q, i) && task.queueNext == null && task.queuePrev == null
  {
    AfterBehind(|q|);
    ghost var b, a := Behind(|q|, i), After(|q|, i);
    assert task.queuePrev == q[b] && task.queueNext == q[a];
    hide After, Behind;
    task.queuePrev.queueNext := task.queueNext;
    task.queueNext.queuePrev := task.queuePrev;
    task.queuePrev, task.queueNext := null, null;
    assert forall j {:trigger q[j].queueNext} :: 0 <= j < |q| && j != i ==>
        q[j].queueNext == if j == b then q[a] else old(q[j].queueNext);
    assert forall j {:trigger q[j].queuePrev} :: 0 <= j < |q| && j != i ==>
        q[j].queuePrev == if j == a then q[b] else old(q[j].queuePrev);
  }

  class TaskQueue {
    var ptr: Task?
    ghost var order: seq<Task>

    ghost predicate Valid()
      reads this, order`queueNext, order`queuePrev
    {
      NoDup(order) && Circular(order) && ptr == if order == [] then null else order[0]
    }

    constructor ()
      ensures Valid() && order == []
    {
      ptr, order := null, [];
    }

    method Insert(task: Task)
      requires Valid() && task !in order
      modifies `ptr, `order, task`queueNext, task`queuePrev, order`queueNext, order`queuePrev
      ensures Valid() && order == Joined(old(order), task)
      ensures ptr == if old(ptr) == null then task else old(ptr)
      ensures task.queuePrev == ptr && ptr.queueNext == task
      ensures task.queueNext == if old(ptr) == null then task else old(ptr.queueNext)
    {
      if ptr == null {
        ptr := task;
        task.queueNext, task.queuePrev := task, task;
      } else {
        Neighbours(order, 0);
        task.queueNext := ptr.queueNext;
        task.queueNext.queuePrev := task;
        ptr.queueNext := task;
        task.queuePrev := ptr;
      }
      order := Joined(order, task);
    }

    method Remove(task: Task)
      requires Valid() && task in order
      modifies `ptr, `order, order`queueNext, order`queuePrev
      ensures Valid() && order == Left(old(order), task)
      ensures ptr ==
        if old(ptr) != task then old(ptr) else if old(task.queueNext) == task then null else old(task.queueNext)
      ensures old(task.queueNext) != task ==> task.queueNext == null && task.queuePrev == null
    {
      hide Circular, Left, Place, LinkedPast, NoDup, After, Behind;
      ghost var q, i := order, Place(order, task);
      AllNeighbours(q);
      LeftFacts(q, task);
      LeftParts(q, task);
      FirstNext(q);
      if ptr.queueNext == ptr {
        EmptyCircular(Left(q, task));
        ptr := null;
      } else {
        if ptr == task { ptr := ptr.queueNext; }
        Unlink(task, q, i);
        WithoutCircular(q, i);
      }
      order := Left(order, task);
    }
  }
}
