// struct cfs_rq and the operations of cfs.c, in place over the red-black tree.
module Cfs {
  import opened Lists
  import opened Words
  import opened RbShape
  import opened RbColor
  import opened RbTree
  import opened CfsSpec

  ghost function Snap(n: RbNode): Task
    reads n`vruntime, n`weight, n`sumExec, n`prevSumExec
  {
    Task(n, n.vruntime, n.weight, n.sumExec, n.prevSumExec)
  }

  ghost function Tasks(q: seq<RbNode>): (r: seq<Task>)
    reads q`vruntime, q`weight, q`sumExec, q`prevSumExec
    ensures |r| == |q|
  {
    if q == [] then [] else [Snap(q[0])] + Tasks(q[1..])
  }

  lemma {:induction false} TaskAt(q: seq<RbNode>, i: nat)
    requires i < |q|
    ensures Tasks(q)[i] == Snap(q[i])
  {
    if i > 0 {
      TaskAt(q[1..], i - 1);
    }
  }

  lemma {:induction false} TasksAre(q: seq<RbNode>, ts: seq<Task>)
    requires |ts| == |q| && forall i :: 0 <= i < |q| ==> Snap(q[i]) == ts[i]
    ensures Tasks(q) == ts
  {
    if q != [] {
      TasksAre(q[1..], ts[1..]);
    }
  }

  class CfsRq {
    var nrRunning: u32
    var loadWeight: u32
    var minVruntime: u32
    const timeline: RbRoot
    var leftmost: RbNode?
    var curr: RbNode?
    var needSched: bool

    ghost function Queued(): set<RbNode>
      reads timeline
    {
      timeline.nodes
    }

    ghost function Queue(): seq<RbNode>
      reads timeline
    {
      Inorder(timeline.tree)
    }

    ghost predicate Linked()
      reads timeline, Queued()`left, Queued()`right, Queued()`parent, Queued()`color
    {
      timeline.Valid() && RedBlack(timeline.tree)
    }

    // The run queue as a value.
    ghost function Abs(): Rq
      reads this, timeline, Queue()`vruntime, Queue()`weight, Queue()`sumExec, Queue()`prevSumExec
    {
      Rq(Tasks(Queue()), curr, leftmost, minVruntime, nrRunning, loadWeight, needSched)
    }

    // The descent of enqueue_entity: where the new leaf goes.
    method FindSlot(se: RbNode) returns (parent: RbNode?, left: bool, isLeftmost: bool, ghost c: Ctx)
      requires Linked() && QueueOk(Tasks(Queue())) && TaskOk(Snap(se))
      ensures timeline.tree == Plug(c, Leaf) && parent == Parent(c) && left == c.InLeft?
      ensures Precede(Before(c), se, After(c))
      ensures isLeftmost == (Before(c) == []) && Linked() && Tasks(Queue()) == old(Tasks(Queue()))
      ensures Queue() == old(Queue())
    {
      ghost var t := timeline.tree;
      c := Top;
      timeline.See(c, t);
      var link := timeline.rbNode;
      parent, left, isLeftmost := null, false, true;
      while link != null
        invariant Linked() && QueueOk(Tasks(Queue())) && TaskOk(Snap(se))
        invariant Queue() == old(Queue()) && Tasks(Queue()) == old(Tasks(Queue()))
        invariant timeline.tree == Plug(c, t) && link == Root(t) && parent == Parent(c) && left == c.InLeft?
        invariant Precede(Before(c), se, After(c))
        invariant isLeftmost == (Before(c) == [])
        decreases t
      {
        timeline.See(c, t);
        SlotStep(c, t, se);
        parent := link;
        if EntityBefore(se.vruntime, parent.vruntime) {
          link, left := parent.left, true;
          c, t := InLeft(c, t.node, t.color, t.r), t.l;
        } else {
          link, left := parent.right, false;
          isLeftmost := false;
          c, t := InRight(c, t.node, t.color, t.l), t.r;
        }
      }
    }

    // enqueue_entity
    method EnqueueEntity(se: RbNode)
      requires Linked() && se !in Queued()
      requires QueueOk(Tasks(Queue())) && TaskOk(Snap(se))
      modifies this`leftmost, timeline
      modifies Queued()`left, Queued()`right, Queued()`parent, Queued()`color, se`left, se`right, se`parent, se`color
      ensures Linked() && Queued() == old(Queued()) + {se}
      ensures Abs() == CfsSpec.EnqueueEntity(old(Abs()), old(Snap(se)))
    {
      var parent, left, isLeftmost, c := FindSlot(se);
      SlotOrder(c, se);
      LinkAt(se, parent, left, isLeftmost, c, Enqueued(Tasks(Queue()), Snap(se)));
    }

    method LinkAt(se: RbNode, parent: RbNode?, left: bool, isLeftmost: bool, ghost c: Ctx, ghost ts: seq<Task>)
      requires Linked() && se !in Queued()
      requires timeline.tree == Plug(c, Leaf) && parent == Parent(c) && left == c.InLeft?
      requires Tasks(Before(c) + [se] + After(c)) == ts
      modifies this`leftmost, timeline
      modifies Queued()`left, Queued()`right, Queued()`parent, Queued()`color, se`left, se`right, se`parent, se`color
      ensures Linked() && Queued() == old(Queued()) + {se}
      ensures Abs() == old(Abs()).(tasks := ts, leftmost := if isLeftmost then se else old(leftmost))
    {
      if isLeftmost {
        leftmost := se;
      }
      PutIn(se, parent, left, c, ts);
    }

    method PutIn(se: RbNode, parent: RbNode?, left: bool, ghost c: Ctx, ghost ts: seq<Task>)
      requires Linked() && se !in Queued()
      requires timeline.tree == Plug(c, Leaf) && parent == Parent(c) && left == c.InLeft?
      requires Tasks(Before(c) + [se] + After(c)) == ts
      modifies timeline
      modifies Queued()`left, Queued()`right, Queued()`parent, Queued()`color, se`left, se`right, se`parent, se`color
      ensures Linked() && Queued() == old(Queued()) + {se}
      ensures Tasks(Queue()) == ts
    {
      ghost var q := Before(c) + [se] + After(c);
      forall i | 0 <= i < |q| ensures ts[i] == Snap(q[i]) { TaskAt(q, i); }
      timeline.Insert(se, parent, left, c);
      TasksAre(q, ts);
    }

    // dequeue_entity
    method DequeueEntity(se: RbNode)
      requires Linked() && se in Queued()
      modifies this`leftmost, timeline, Queued()`left, Queued()`right, Queued()`parent, Queued()`color
      ensures Linked() && Queued() == old(Queued()) - {se}
      ensures Abs() == CfsSpec.DequeueEntity(old(Abs()), se)
    {
      OutOfQueue(Queue(), se);
      if leftmost == se {
        var next := NextQueued(se);
        SetLeftmost(next);
      }
      TakeOut(se);
    }

    method NextQueued(se: RbNode) returns (next: RbNode?)
      requires Linked() && se in Queued()
      ensures next == Following(old(Queue()), se)
      ensures Linked() && Abs() == old(Abs()) && Queue() == old(Queue()) && Queued() == old(Queued())
    {
      ghost var q, ts := Queue(), Tasks(Queue());
      next := timeline.Next(se);
      assert Queue() == q && Tasks(q) == ts;
    }

    method SetLeftmost(next: RbNode?)
      requires Linked()
      modifies this`leftmost
      ensures Linked() && Abs() == old(Abs()).(leftmost := next)
    {
      leftmost := next;
    }

    method Store(next: RbNode?, min: u32)
      requires Linked()
      modifies this`leftmost, this`minVruntime
      ensures Linked() && Abs() == old(Abs()).(leftmost := next, minVruntime := min)
    {
      leftmost := next;
      minVruntime := min;
    }

    method TakeOut(se: RbNode)
      requires Linked() && se in Queued()
      modifies timeline, Queued()`left, Queued()`right, Queued()`parent, Queued()`color
      ensures Linked() && Queued() == old(Queued()) - {se}
      ensures Tasks(Queue()) == Dequeued(old(Tasks(Queue())), se)
    {
      ghost var q, ts := Without(Queue(), se), Dequeued(Tasks(Queue()), se);
      OutOfQueue(Queue(), se);
      InorderNodes(timeline.tree);
      WithoutIn(Queue(), se);
      forall i | 0 <= i < |q| ensures q[i] in timeline.nodes && ts[i] == Snap(q[i]) {
        TaskAt(q, i);
        assert q[i] in q;
      }
      timeline.Erase(se);
      TasksAre(q, ts);
    }

    method FirstQueued() returns (first: RbNode?)
      requires Linked()
      ensures Linked() && Abs() == old(Abs()) && Queue() == old(Queue())
      ensures first == if old(Queue()) == [] then null else old(Queue()[0])
    {
      ghost var q, ts := Queue(), Tasks(Queue());
      first := timeline.First();
      assert Queue() == q && Tasks(q) == ts;
    }

    // update_min_vruntime
    method UpdateMinVruntime()
      requires Linked() && Ok(Abs())
      requires curr != null ==> (curr.onRq <==> curr in Queued())
      modifies this`leftmost, this`minVruntime
      ensures Linked() && Abs() == CfsSpec.UpdateMinVruntime(old(Abs()))
    {
      ghost var rq, q := Abs(), Queue();
      if q != [] {
        TaskAt(q, 0);
      }
      var first := FirstQueued();
      var vruntime := LeastVruntime(first);
      Store(first, MaxVruntime(minVruntime, vruntime));
    }

    // What the minimum may rise to: the least of the current entity, if it is
    // queued, and the first of the tree.
    method LeastVruntime(first: RbNode?) returns (vruntime: u32)
      requires Linked() && Ok(Abs()) && first == if Queue() == [] then null else Queue()[0]
      requires curr != null ==> (curr.onRq <==> curr in Queued())
      ensures Linked() && Abs() == old(Abs())
      ensures MaxVruntime(minVruntime, vruntime) == CfsSpec.UpdateMinVruntime(old(Abs())).minVruntime
    {
      ghost var q := Queue();
      InorderNodes(timeline.tree);
      vruntime := minVruntime;
      var running := curr;
      if running != null {
        TaskOf(q, running);
        if running.onRq {
          vruntime := running.vruntime;
        } else {
          running := null;
        }
      }
      if first != null {
        TaskAt(q, 0);
        if running == null {
          vruntime := first.vruntime;
        } else {
          vruntime := MinVruntime(vruntime, first.vruntime);
        }
      }
    }

    // What every export of cfs.c keeps, but for the cached leftmost node.
    ghost predicate Valid()
      reads this, timeline, Queued()`left, Queued()`right, Queued()`parent, Queued()`color, Queued()`onRq
      reads Queue()`vruntime, Queue()`weight, Queue()`sumExec, Queue()`prevSumExec
      reads (if curr == null then {} else {curr})`onRq
    {
      Linked() && Ok(Abs()) && Flagged()
    }

    // on_cfs_rq says which entities are queued.
    ghost predicate Flagged()
      reads this, timeline, Queued()`onRq, (if curr == null then {} else {curr})`onRq
    {
      && (forall n :: n in Queued() ==> n.onRq)
      && (curr != null ==> (curr.onRq <==> curr in Queued()))
    }

    // The first half of update_curr: time is charged while the entity is still linked.
    method ChargeTime(delta: u32)
      requires Linked() && curr != null && curr in Queued() && curr.weight != 0
      modifies curr`vruntime, curr`sumExec
      ensures Linked()
      ensures Snap(curr) == Charged(old(Snap(curr)), delta)
      ensures SameBut(old(Tasks(Queue())), Tasks(Queue()), curr)
    {
      ghost var q, ts := Queue(), Tasks(Queue());
      forall i | 0 <= i < |q| ensures ts[i] == Snap(q[i]) { TaskAt(q, i); }
      curr.sumExec := Add32(curr.sumExec, delta);
      var d := CalcDeltaFair(delta, curr.weight);
      if Add32(curr.vruntime, d) >= U32_MAX {
        curr.vruntime := U32_MAX;
      } else {
        curr.vruntime := Add32(curr.vruntime, d);
      }
      forall i | 0 <= i < |q| ensures Tasks(q)[i] == Snap(q[i]) { TaskAt(q, i); }
    }

    // The loop of reassign_vruntime over the list of ready tasks.
    static method ZeroVruntimes(ready: seq<RbNode>)
      modifies ready`vruntime
      ensures forall n :: n in ready ==> n.vruntime == 0
    {
      for k := 0 to |ready|
        invariant forall i :: 0 <= i < k ==> ready[i].vruntime == 0
      {
        ready[k].vruntime := 0;
      }
    }

    method ResetTasks(ready: seq<RbNode>)
      requires Linked() && (forall n :: n in ready <==> n in Queued())
      modifies Queued()`vruntime
      ensures Linked() && Tasks(Queue()) == Reset(old(Tasks(Queue())))
    {
      ghost var q, ts, m := Queue(), Tasks(Queue()), LinksOf(Queued());
      forall i | 0 <= i < |q| ensures ts[i] == Snap(q[i]) { TaskAt(q, i); }
      InorderNodes(timeline.tree);
      ZeroVruntimes(ready);
      LinksAre(Queued(), m);
      AllReset(q, ts);
    }

    // reassign_vruntime
    method ReassignVruntime(ready: seq<RbNode>)
      requires Linked() && (forall n :: n in ready <==> n in Queued())
      requires leftmost != null && leftmost in Queued()
      modifies this`leftmost, this`minVruntime, Queued()`vruntime
      ensures Linked() && Abs() == CfsSpec.ReassignVruntime(old(Abs()))
    {
      ghost var q, ts := Queue(), Tasks(Queue());
      OutOfQueue(q, leftmost);
      ResetTasks(ready);
      assert Queue() == q;
      var next := NextQueued(leftmost);
      Store(next, 0);
    }

    // The current entity is taken out and put back where its vruntime now belongs.
    method Requeue(se: RbNode)
      requires Linked() && Flagged() && se in Queued()
      requires QueueOk(Dequeued(Tasks(Queue()), se)) && TaskOk(Snap(se))
      modifies this`leftmost, timeline, Queued()`left, Queued()`right, Queued()`parent, Queued()`color
      ensures Linked() && Flagged() && Queued() == old(Queued())
      ensures Abs() == CfsSpec.EnqueueEntity(CfsSpec.DequeueEntity(old(Abs()), se), old(Snap(se)))
    {
      TakeAndPut(se);
    }

    method TakeAndPut(se: RbNode)
      requires Linked() && se in Queued()
      requires QueueOk(Dequeued(Tasks(Queue()), se)) && TaskOk(Snap(se))
      modifies this`leftmost, timeline, Queued()`left, Queued()`right, Queued()`parent, Queued()`color
      ensures Linked() && Queued() == old(Queued())
      ensures Abs() == CfsSpec.EnqueueEntity(CfsSpec.DequeueEntity(old(Abs()), se), old(Snap(se)))
    {
      DequeueEntity(se);
      EnqueueEntity(se);
    }

    // update_curr up to the overflow test
    method ChargeCurr(delta: u32)
      requires Valid() && curr != null && curr in Queued()
      modifies this`leftmost, this`minVruntime, timeline
      modifies Queued()`left, Queued()`right, Queued()`parent, Queued()`color, curr`vruntime, curr`sumExec
      ensures Valid() && Queued() == old(Queued()) && CanCharge(old(Abs()))
      ensures Abs() == CfsSpec.ChargeCurr(old(Abs()), delta)
    {
      CurrOk();
      ChargeAndRequeue(delta);
      RefreshMinVruntime();
    }

    method ChargeAndRequeue(delta: u32)
      requires Valid() && CanCharge(Abs())
      requires curr in Queued() && Get(Abs().tasks, curr) == Snap(curr)
      modifies this`leftmost, timeline
      modifies Queued()`left, Queued()`right, Queued()`parent, Queued()`color, curr`vruntime, curr`sumExec
      ensures Valid() && Queued() == old(Queued())
      ensures Abs() == var t := Charged(Get(old(Abs()).tasks, curr), delta);
                       CfsSpec.EnqueueEntity(CfsSpec.DequeueEntity(old(Abs()), curr), t)
    {
      ghost var rq := Abs();
      ChargeTime(delta);
      ChargeSteps(rq, Abs(), delta);
      Requeue(curr);
    }

    lemma CurrOk()
      requires Valid() && curr != null && curr in Queued()
      ensures CanCharge(Abs()) && Get(Abs().tasks, curr) == Snap(curr) && TaskOk(Snap(curr))
    {
      InorderNodes(timeline.tree);
      QueuedTask(curr);
      var i :| 0 <= i < |Queue()| && Queue()[i] == curr;
      TaskAt(Queue(), i);
    }

    // update_min_vruntime between the other operations
    method RefreshMinVruntime()
      requires Valid()
      modifies this`leftmost, this`minVruntime
      ensures Valid() && LeftmostCached(Abs()) && Queued() == old(Queued())
      ensures Abs() == CfsSpec.UpdateMinVruntime(old(Abs()))
    {
      UpdateMinVruntimeOk(Abs());
      UpdateMinVruntime();
    }

    // update_curr
    method UpdateCurr(delta: u32, ready: seq<RbNode>)
      requires Valid() && (curr != null ==> curr in Queued())
      requires forall n :: n in ready <==> n in Queued()
      modifies this`leftmost, this`minVruntime, timeline
      modifies Queued()`left, Queued()`right, Queued()`parent, Queued()`color, Queued()`vruntime, Queued()`sumExec
      ensures Valid() && Queued() == old(Queued())
      ensures curr == null ==> Abs() == old(Abs())
      ensures curr != null ==> CanCharge(old(Abs())) && Abs() == CfsSpec.UpdateCurr(old(Abs()), delta)
    {
      if curr == null {
        return;
      }
      ChargeAndSettle(delta, ready);
    }

    method ChargeAndSettle(delta: u32, ready: seq<RbNode>)
      requires Valid() && curr != null && curr in Queued()
      requires forall n :: n in ready <==> n in Queued()
      modifies this`leftmost, this`minVruntime, timeline
      modifies Queued()`left, Queued()`right, Queued()`parent, Queued()`color, Queued()`vruntime, Queued()`sumExec
      ensures Valid() && Queued() == old(Queued())
      ensures CanCharge(old(Abs())) && Abs() == CfsSpec.UpdateCurr(old(Abs()), delta)
    {
      ChargeFacts(delta);
      ChargeCurr(delta);
      Settle(ready);
    }

    lemma ChargeFacts(delta: u32)
      requires Valid() && curr != null && curr in Queued()
      ensures CanCharge(Abs()) && Ok(CfsSpec.UpdateCurr(Abs(), delta))
      ensures LeftmostCached(CfsSpec.ChargeCurr(Abs(), delta)) && CfsSpec.ChargeCurr(Abs(), delta).tasks != []
    {
      CurrOk();
      UpdateCurrOk(Abs(), delta);
      ChargeCurrOk(Abs(), delta);
    }

    // The overflow test of update_curr.
    method Settle(ready: seq<RbNode>)
      requires Valid() && LeftmostCached(Abs()) && Abs().tasks != [] && Ok(Settled(Abs()))
      requires forall n :: n in ready <==> n in Queued()
      modifies this`leftmost, this`minVruntime, Queued()`vruntime
      ensures Valid() && Queued() == old(Queued()) && Abs() == Settled(old(Abs()))
    {
      if Add32(minVruntime, 10) >= U32_MAX {
        LeftmostQueued();
        ReassignVruntime(ready);
      }
    }

    lemma LeftmostQueued()
      requires Linked() && LeftmostCached(Abs()) && Abs().tasks != []
      ensures leftmost != null && leftmost in Queued()
    {
      InorderNodes(timeline.tree);
      TaskAt(Queue(), 0);
      assert Queue()[0] in Queue();
    }

    // enqueue_task_fair
    method EnqueueTaskFair(se: RbNode)
      requires Valid() && se !in Queued() && TaskOk(Snap(se))
      modifies this`leftmost, this`loadWeight, this`nrRunning, timeline
      modifies Queued()`left, Queued()`right, Queued()`parent, Queued()`color, se`left, se`right, se`parent
      modifies se`color, se`onRq
      ensures Valid() && Queued() == old(Queued()) + {se}
      ensures Abs() == CfsSpec.EnqueueTaskFair(old(Abs()), old(Snap(se)))
    {
      ghost var rq, t := Abs(), Snap(se);
      QueuedTask(se);
      EnqueueTaskFairOk(rq, t);
      EnqueueEntity(se);
      ghost var rq1 := Abs();
      CountIn(se);
      assert Abs() == rq1.(load := Add32(rq1.load, t.weight), nrRunning := Add32(rq1.nrRunning, 1));
    }

    // on_cfs_rq is right for everyone but se.
    ghost predicate FlaggedBut(se: RbNode)
      reads this, timeline, Queued()`onRq, (if curr == null then {} else {curr})`onRq
    {
      && (forall n :: n in Queued() && n != se ==> n.onRq)
      && (curr != null && curr != se ==> (curr.onRq <==> curr in Queued()))
    }

    lemma QueuedTask(se: RbNode)
      requires Linked()
      ensures se in Queued() <==> Has(Abs().tasks, se)
      ensures se in Queued() ==> Get(Abs().tasks, se) == Snap(se)
    {
      InorderNodes(timeline.tree);
      TaskOf(Queue(), se);
    }

    // update_load_add, add_nr_running
    method CountIn(se: RbNode)
      requires Linked() && se in Queued() && FlaggedBut(se)
      modifies this`loadWeight, this`nrRunning, se`onRq
      ensures Linked() && Flagged() && Queued() == old(Queued())
      ensures Abs() == (var a := old(Abs());
                        a.(load := Add32(a.load, old(Snap(se)).weight), nrRunning := Add32(a.nrRunning, 1)))
    {
      loadWeight := Add32(loadWeight, se.weight);
      nrRunning := Add32(nrRunning, 1);
      se.onRq := true;
    }

    // update_load_sub, sub_nr_running
    method CountOut(se: RbNode)
      requires Linked() && se !in Queued() && FlaggedBut(se)
      modifies this`loadWeight, this`nrRunning, se`onRq
      ensures Linked() && Flagged() && Queued() == old(Queued()) && !se.onRq
      ensures Abs() == (var a := old(Abs());
                        a.(load := Sub32(a.load, old(Snap(se)).weight), nrRunning := Sub32(a.nrRunning, 1)))
    {
      loadWeight := Sub32(loadWeight, se.weight);
      nrRunning := Sub32(nrRunning, 1);
      se.onRq := false;
    }

    // dequeue_task_fair
    method DequeueTaskFair(se: RbNode)
      requires Valid() && se in Queued()
      modifies this`leftmost, this`loadWeight, this`nrRunning, timeline
      modifies Queued()`left, Queued()`right, Queued()`parent, Queued()`color, se`onRq
      ensures Valid() && Queued() == old(Queued()) - {se} && !se.onRq
      ensures Has(old(Abs()).tasks, se) && Abs() == CfsSpec.DequeueTaskFair(old(Abs()), se)
    {
      ghost var rq := Abs();
      QueuedTask(se);
      DequeueTaskFairOk(rq, se);
      DequeueEntity(se);
      CountOut(se);
    }

    // sched_slice
    function SchedSlice(se: RbNode): u32
      requires (if se.onRq then loadWeight else Add32(loadWeight, se.weight)) != 0
      reads this`loadWeight, this`nrRunning, se`onRq, se`weight
    {
      var period := NormalizedPeriod(Add32(nrRunning, if se.onRq then 0 else 1));
      CalcDelta(period, se.weight, if se.onRq then loadWeight else Add32(loadWeight, se.weight))
    }

    // check_preempt_tick
    method CheckPreemptTick(se: RbNode)
      requires (if se.onRq then loadWeight else Add32(loadWeight, se.weight)) != 0
      modifies this`needSched
      ensures needSched == (old(needSched) || Sub32(se.sumExec, se.prevSumExec) > SchedSlice(se))
      ensures SchedSlice(se) == CfsSpec.SchedSlice(Abs(), Snap(se), se.onRq)
      ensures Abs() == old(Abs()).(needSched := needSched)
    {
      var idealRuntime := SchedSlice(se);
      var deltaExec := Sub32(se.sumExec, se.prevSumExec);
      if deltaExec > idealRuntime {
        needSched := true;
        return;
      }
    }

    // prev_sum_exec_runtime of the entity that leaves the processor
    method SaveRuntime(se: RbNode)
      requires Linked()
      modifies se`prevSumExec
      ensures Linked() && Tasks(Queue()) == Saved(old(Tasks(Queue())), se)
      ensures Snap(se) == old(Snap(se)).(prev := se.sumExec)
    {
      ghost var q, ts := Queue(), Tasks(Queue());
      forall i | 0 <= i < |q| ensures ts[i] == Snap(q[i]) { TaskAt(q, i); }
      SavedKeeps(ts, se);
      se.prevSumExec := se.sumExec;
      forall i | 0 <= i < |q| ensures Tasks(q)[i] == Saved(ts, se)[i] { TaskAt(q, i); }
    }

    // The current entity hands over to a queued one.
    method HandOver(next: RbNode)
      requires Valid() && curr != null && curr in Queued() && next in Queued()
      modifies this`curr, curr`prevSumExec
      ensures Valid() && curr == next
      ensures Abs() == (var a := old(Abs()); a.(tasks := Saved(a.tasks, old(curr)), curr := next))
    {
      SaveCurr();
      SetCurr(next);
    }

    method SaveCurr()
      requires Valid() && curr != null && curr in Queued()
      modifies curr`prevSumExec
      ensures Valid() && Abs() == old(Abs()).(tasks := Saved(old(Abs()).tasks, curr))
    {
      ghost var a := Abs();
      SavedOk(a.tasks, curr);
      SavedKeeps(a.tasks, curr);
      SaveRuntime(curr);
    }

    // cfs_rq.curr = &current_task->se
    method SetCurr(se: RbNode)
      requires Valid() && se in Queued()
      modifies this`curr
      ensures Valid() && Abs() == old(Abs()).(curr := se)
    {
      curr := se;
    }

    // cfs_rq.NEED_SCHED = false
    method ClearFlag()
      requires Valid()
      modifies this`needSched
      ensures Valid() && Abs() == old(Abs()).(needSched := false)
    {
      needSched := false;
    }

    // pick_next_entity
    function PickNext(): RbNode?
      reads this`leftmost
    {
      leftmost
    }

    constructor ()
      ensures fresh(timeline) && Valid() && Queue() == []
      ensures nrRunning == 0 && loadWeight == 0 && minVruntime == 0 && leftmost == null && curr == null && !needSched
    {
      nrRunning, loadWeight, minVruntime, leftmost, curr, needSched := 0, 0, 0, null, null, false;
      timeline := new RbRoot();
    }
  }

  lemma TasksCons(x: RbNode, q: seq<RbNode>)
    ensures Tasks([x] + q) == [Snap(x)] + Tasks(q)
  {
    assert ([x] + q)[1..] == q;
  }

  lemma {:induction false} TasksAppend(a: seq<RbNode>, b: seq<RbNode>)
    ensures Tasks(a + b) == Tasks(a) + Tasks(b)
  {
    if a == [] {
      assert a + b == b;
    } else {
      var rest := a[1..];
      TasksAppend(rest, b);
      TasksCons(a[0], rest + b);
      TasksCons(a[0], rest);
      assert a == [a[0]] + rest && a + b == [a[0]] + (rest + b);
    }
  }

  // Membership and lookup in the queue as a value.
  lemma {:induction false} TaskOf(q: seq<RbNode>, n: RbNode)
    ensures n in q <==> Has(Tasks(q), n)
    ensures n in q ==> Get(Tasks(q), n) == Snap(n)
  {
    if q != [] {
      TaskOf(q[1..], n);
      assert n in q <==> q[0] == n || n in q[1..];
      assert Has(Tasks(q), n) ==> Tasks(q)[0].id == n || Has(Tasks(q[1..]), n);
      if Has(Tasks(q[1..]), n) {
        var i :| 0 <= i < |q[1..]| && Tasks(q[1..])[i].id == n;
        assert Tasks(q)[i + 1].id == n;
      }
      if q[0] == n { assert Tasks(q)[0].id == n; }
    }
  }

  lemma {:induction false} OutOfQueue(q: seq<RbNode>, n: RbNode)
    ensures Tasks(Without(q, n)) == Dequeued(Tasks(q), n)
    ensures Following(q, n) == Behind(Tasks(q), n)
  {
    if q != [] && q[0] != n {
      OutOfQueue(q[1..], n);
    }
  }

  lemma {:induction false} AllReset(q: seq<RbNode>, ts: seq<Task>)
    requires |ts| == |q| && forall i :: 0 <= i < |q| ==> Snap(q[i]) == ts[i].(vruntime := 0)
    ensures Tasks(q) == Reset(ts)
  {
    if q != [] {
      AllReset(q[1..], ts[1..]);
    }
  }

  // No one before the slot has a greater vruntime than se, and everyone after it has.
  ghost predicate Precede(before: seq<RbNode>, se: RbNode, after: seq<RbNode>)
    reads se`vruntime, before`vruntime, after`vruntime
  {
    && (forall n :: n in before ==> n.vruntime <= se.vruntime)
    && (forall n :: n in after ==> se.vruntime < n.vruntime)
  }

  lemma SlotOrder(c: Ctx, se: RbNode)
    requires Precede(Before(c), se, After(c))
    ensures Inorder(Plug(c, Leaf)) == Before(c) + After(c)
    ensures Inorder(Plug(c, Node(Leaf, se, Red, Leaf))) == Before(c) + [se] + After(c)
    ensures Tasks(Before(c) + [se] + After(c)) == Enqueued(Tasks(Inorder(Plug(c, Leaf))), Snap(se))
    ensures var q := Tasks(Inorder(Plug(c, Leaf))); Before(c) == [] <==> q == [] || se.vruntime < q[0].vruntime
  {
    InorderPlug(c, Leaf);
    InorderPlug(c, Node(Leaf, se, Red, Leaf));
    EnqueuedBetween(Before(c), se, After(c));
    assert Before(c) != [] ==> Before(c)[0] in Before(c);
    assert After(c) != [] ==> After(c)[0] in After(c);
  }

  lemma EnqueuedBetween(a: seq<RbNode>, se: RbNode, b: seq<RbNode>)
    requires Precede(a, se, b)
    ensures Tasks(a + [se] + b) == Enqueued(Tasks(a + b), Snap(se))
  {
    TasksAppend(a, b);
    TasksAppend(a + [se], b);
    TasksAppend(a, [se]);
    forall i | 0 <= i < |a| ensures Tasks(a)[i].vruntime <= se.vruntime { TaskAt(a, i); }
    EnqueuedSplit(Tasks(a), Snap(se), Tasks(b));
  }

  // Going left or right by the source's test keeps the slot in order.
  lemma SlotStep(c: Ctx, t: Tree, se: RbNode)
    requires t.Node? && QueueOk(Tasks(Inorder(Plug(c, t)))) && TaskOk(Snap(se))
    requires Precede(Before(c), se, After(c))
    ensures EntityBefore(se.vruntime, t.node.vruntime) ==>
      Precede(Before(c), se, After(InLeft(c, t.node, t.color, t.r)))
    ensures !EntityBefore(se.vruntime, t.node.vruntime) ==>
      Precede(Before(InRight(c, t.node, t.color, t.l)), se, After(c))
  {
    ByOrder(c, t);
    ClampedOrder(se.vruntime, t.node.vruntime);
  }

  // In a sorted queue, who stands before the focus has at most its vruntime, and who stands behind at least.
  lemma ByOrder(c: Ctx, t: Tree)
    requires t.Node? && QueueOk(Tasks(Inorder(Plug(c, t))))
    ensures TaskOk(Snap(t.node))
    ensures forall n :: n in Inorder(t.l) ==> n.vruntime <= t.node.vruntime
    ensures forall n :: n in Inorder(t.r) ==> t.node.vruntime <= n.vruntime
  {
    var q, k := Inorder(Plug(c, t)), |Before(c)| + |Inorder(t.l)|;
    InorderPlug(c, t);
    Regroup(Before(c), Inorder(t.l), t.node, Inorder(t.r), After(c));
    InOrder(Before(c) + Inorder(t.l), t.node, Inorder(t.r) + After(c), q);
  }

  lemma InOrder(a: seq<RbNode>, x: RbNode, b: seq<RbNode>, q: seq<RbNode>)
    requires q == a + [x] + b && QueueOk(Tasks(q))
    ensures TaskOk(Snap(x))
    ensures forall n :: n in a ==> n.vruntime <= x.vruntime
    ensures forall n :: n in b ==> x.vruntime <= n.vruntime
  {
    var k := |a|;
    TaskAt(q, k);
    forall n | n in a ensures n.vruntime <= x.vruntime {
      var i :| 0 <= i < |a| && a[i] == n;
      TaskAt(q, i);
    }
    forall n | n in b ensures x.vruntime <= n.vruntime {
      var i :| 0 <= i < |b| && b[i] == n;
      TaskAt(q, k + 1 + i);
    }
  }
}
