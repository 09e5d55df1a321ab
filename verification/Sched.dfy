// The scheduler of pc.c: the timer tick, and which tasks are on the run queue.
module Sched {
  import opened RbShape
  import opened CfsSpec
  import opened Cfs

  // The first process alone, running.
  ghost function OneRunning(init: RbNode): Rq {
    Rq([Task(init, 0, NICE_0_LOAD, 0, 0)], init, init, 0, 1, NICE_0_LOAD, false)
  }

  method FirstQueue() returns (queue: CfsRq, init: RbNode)
    ensures fresh(queue) && fresh(init) && fresh(queue.timeline) && queue.Valid() && queue.Queued() == {init}
    ensures queue.Abs() == OneRunning(init)
  {
    queue := new CfsRq();
    init := new RbNode(PRIO_TO_WEIGHT[20], 0);
    ghost var t := Snap(init);
    assert t == Task(init, 0, NICE_0_LOAD, 0, 0);
    assert queue.Abs() == Rq([], null, null, 0, 0, 0, false);
    FirstTask(t);
    queue.EnqueueTaskFair(init);
    queue.SetCurr(init);
  }

  class Scheduler {
    const rq: CfsRq
    var currentTask: RbNode
    var ready: seq<RbNode>
    ghost var parts: set<object>

    ghost predicate Valid()
      reads this, rq, rq.timeline, rq.timeline.nodes
      reads rq.Queue()`vruntime, rq.Queue()`weight, rq.Queue()`sumExec, rq.Queue()`prevSumExec
      reads (if rq.curr == null then {} else {rq.curr})`onRq
    {
      && rq in parts && rq.timeline in parts
      && rq.Valid() && rq.curr == currentTask && currentTask in rq.Queued()
      && (forall n :: n in ready ==> n in rq.Queued())
      && (forall n :: n in rq.Queued() ==> n in ready)
    }

    // init_task_module
    constructor ()
      ensures Valid() && fresh(rq) && LeftmostCached(rq.Abs())
      ensures rq.Abs() == OneRunning(currentTask)
    {
      var queue, init := FirstQueue();
      rq, currentTask, ready := queue, init, [init];
      parts := {queue, queue.timeline};
    }

    // The first half of task_tick: charge the running task and test its slice.
    method ChargeTick()
      requires Valid() && CanTick(rq.Abs())
      modifies rq, rq.timeline
      modifies rq.Queued()`left, rq.Queued()`right, rq.Queued()`parent, rq.Queued()`color
      modifies rq.Queued()`vruntime, rq.Queued()`sumExec
      ensures Valid() && rq.Queued() == old(rq.Queued())
      ensures rq.Abs() == Preempted(old(rq.Abs()))
    {
      ghost var a := rq.Abs();
      rq.UpdateCurr(TICK, ready);
      ghost var b := rq.Abs();
      PreemptedIs(a, b);
      TestSlice(b);
    }

    // check_preempt_tick on the current task
    method TestSlice(ghost b: Rq)
      requires Valid() && rq.Abs() == b && CanCharge(b) && b.load != 0
      modifies rq`needSched
      ensures Valid() && rq.Abs() == CfsSpec.CheckPreemptTick(b)
    {
      rq.QueuedTask(currentTask);
      rq.CheckPreemptTick(currentTask);
    }

    // The second half: give the processor to the leftmost task.
    method Switch()
      requires Valid() && (rq.needSched ==> rq.leftmost != null && rq.leftmost in rq.Queued())
      modifies this`currentTask, rq`curr, rq`needSched, rq.Queued()`prevSumExec
      ensures Valid() && rq.Queued() == old(rq.Queued())
      ensures rq.Abs() == Reschedule(old(rq.Abs()))
    {
      if rq.needSched {
        var next := rq.PickNext();
        if currentTask != next {
          GiveTo(next);
        }
        ClearFlag();
      }
    }

    method GiveTo(next: RbNode)
      requires Valid() && next in rq.Queued()
      modifies this`currentTask, rq`curr, currentTask`prevSumExec
      ensures Valid() && rq.Queued() == old(rq.Queued())
      ensures rq.Abs() == (var a := old(rq.Abs()); a.(tasks := Saved(a.tasks, old(currentTask)), curr := next))
    {
      rq.HandOver(next);
      currentTask := next;
    }

    method ClearFlag()
      requires Valid()
      modifies rq`needSched
      ensures Valid() && rq.Queued() == old(rq.Queued())
      ensures rq.Abs() == old(rq.Abs()).(needSched := false)
    {
      rq.ClearFlag();
    }

    // task_tick
    method TaskTick()
      requires Valid() && CanTick(rq.Abs()) && !NullPick(rq.Abs())
      modifies this`currentTask, rq, rq.timeline, rq.Queued()
      ensures Valid() && rq.Queued() == old(rq.Queued())
      ensures rq.Abs() == Tick(old(rq.Abs()))
    {
      LeftmostHas(rq.Abs(), TICK);
      PickUndefinedIff(rq.Abs());
      ChargeTick();
      if rq.leftmost != null {
        rq.QueuedTask(rq.leftmost);
      }
      Switch();
    }

    // task_create, as far as the run queue goes
    method TaskCreate(nice: int) returns (p: RbNode)
      requires Valid() && 0 <= nice + 20 < 40
      modifies this`ready, rq, rq.timeline
      modifies rq.Queued()`left, rq.Queued()`right, rq.Queued()`parent, rq.Queued()`color
      ensures Valid() && fresh(p) && rq.Queued() == old(rq.Queued()) + {p}
      ensures currentTask == old(currentTask) && LeftmostCached(rq.Abs())
      ensures rq.Abs() == UpdateMinVruntime(EnqueueTaskFair(old(rq.Abs()),
                            Task(p, currentTask.vruntime, PRIO_TO_WEIGHT[nice + 20], 0, 0)))
    {
      p := NewTask(nice);
      AddTask(p);
    }

    // The new process, not yet queued.
    method NewTask(nice: int) returns (p: RbNode)
      requires Valid() && 0 <= nice + 20 < 40
      ensures fresh(p) && Valid() && p !in rq.Queued() && rq.Abs() == old(rq.Abs()) && TaskOk(Snap(p))
      ensures Snap(p) == Task(p, currentTask.vruntime, PRIO_TO_WEIGHT[nice + 20], 0, 0)
    {
      ghost var q, ts := rq.Queue(), Tasks(rq.Queue());
      rq.CurrOk();
      InorderNodes(rq.timeline.tree);
      forall i | 0 <= i < |q| ensures q[i] in rq.timeline.nodes && ts[i] == Snap(q[i]) { TaskAt(q, i); }
      p := new RbNode(PRIO_TO_WEIGHT[nice + 20], currentTask.vruntime);
      TasksAre(q, ts);
      WeightsPositive(nice);
    }

    method AddTask(p: RbNode)
      requires Valid() && p !in rq.Queued() && TaskOk(Snap(p))
      modifies this`ready, rq, rq.timeline, p`left, p`right, p`parent, p`color, p`onRq
      modifies rq.Queued()`left, rq.Queued()`right, rq.Queued()`parent, rq.Queued()`color
      ensures Valid() && rq.Queued() == old(rq.Queued()) + {p}
      ensures currentTask == old(currentTask) && LeftmostCached(rq.Abs())
      ensures rq.Abs() == UpdateMinVruntime(EnqueueTaskFair(old(rq.Abs()), old(Snap(p))))
    {
      Insert(p);
      RefreshMinVruntime();
    }

    method Insert(p: RbNode)
      requires Valid() && p !in rq.Queued() && TaskOk(Snap(p))
      modifies this`ready, rq, rq.timeline, p`left, p`right, p`parent, p`color, p`onRq
      modifies rq.Queued()`left, rq.Queued()`right, rq.Queued()`parent, rq.Queued()`color
      ensures Valid() && rq.Queued() == old(rq.Queued()) + {p} && currentTask == old(currentTask)
      ensures rq.Abs() == EnqueueTaskFair(old(rq.Abs()), old(Snap(p)))
    {
      rq.EnqueueTaskFair(p);
      ready := ready + [p];
    }

    method RefreshMinVruntime()
      requires Valid()
      modifies rq`leftmost, rq`minVruntime
      ensures Valid() && rq.Queued() == old(rq.Queued()) && LeftmostCached(rq.Abs())
      ensures rq.Abs() == UpdateMinVruntime(old(rq.Abs()))
    {
      rq.RefreshMinVruntime();
    }

    method Remove(p: RbNode)
      requires Valid() && p in rq.Queued() && p != currentTask
      modifies this`ready, rq, rq.timeline, p`onRq
      modifies rq.Queued()`left, rq.Queued()`right, rq.Queued()`parent, rq.Queued()`color
      ensures Valid() && rq.Queued() == old(rq.Queued()) - {p} && currentTask == old(currentTask)
      ensures Has(old(rq.Abs()).tasks, p) && rq.Abs() == DequeueTaskFair(old(rq.Abs()), p)
    {
      ghost var a := rq.Abs();
      ready := FilterOut(ready, p);
      assert rq.Valid() && rq.Abs() == a;
      rq.DequeueTaskFair(p);
    }

    // task_kill of a queued task other than the running one
    method TaskKill(p: RbNode)
      requires Valid() && p in rq.Queued() && p != currentTask
      modifies this`ready, rq, rq.timeline, p`onRq
      modifies rq.Queued()`left, rq.Queued()`right, rq.Queued()`parent, rq.Queued()`color
      ensures Valid() && rq.Queued() == old(rq.Queued()) - {p} && currentTask == old(currentTask)
      ensures LeftmostCached(rq.Abs())
      ensures Has(old(rq.Abs()).tasks, p)
      ensures rq.Abs() == UpdateMinVruntime(DequeueTaskFair(old(rq.Abs()), p))
    {
      Remove(p);
      RefreshMinVruntime();
    }
  }

  // list_del of a task from the ready list
  function FilterOut(s: seq<RbNode>, p: RbNode): (r: seq<RbNode>)
    ensures forall n :: n in r ==> n in s && n != p
    ensures forall n :: n in s && n != p ==> n in r
  {
    if s == [] then [] else if s[0] == p then FilterOut(s[1..], p) else [s[0]] + FilterOut(s[1..], p)
  }
}
