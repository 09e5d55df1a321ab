// The run queue of cfs.c as a value: the queued tasks in tree order and the
// bookkeeping fields of struct cfs_rq, with what each operation makes of them.
module CfsSpec {
  import opened RbShape
  import opened Words

  // The clamp constant of cfs.h, which is 2^31 - 1 in spite of its name.
  const U32_MAX: u32 := 2147483647
  const NICE_0_LOAD: u32 := 1024
  const SCHED_LATENCY: u32 := 9600000
  const MIN_GRANULARITY: u32 := 1200000
  const TIME_UNIT: u32 := 20000
  const NR_LATENCY: u32 := 8
  const TICK: u32 := MIN_GRANULARITY / TIME_UNIT

  // The load weights of the nice levels -20 to 19.
  const PRIO_TO_WEIGHT: seq<u32> := [
    88761, 71755, 56483, 46273, 36291, 29154, 23254, 18705, 14949, 11916,
    9548, 7620, 6100, 4904, 3906, 3121, 2501, 1991, 1586, 1277,
    1024, 820, 655, 526, 423, 335, 272, 215, 172, 137,
    110, 87, 70, 56, 45, 36, 29, 23, 18, 15]

  lemma WeightsPositive(nice: int)
    requires 0 <= nice + 20 < 40
    ensures PRIO_TO_WEIGHT[nice + 20] > 0
  {
    assert forall i :: 0 <= i < 40 ==> PRIO_TO_WEIGHT[i] > 0;
  }

  // ----- virtual time -----

  function MaxVruntime(a: u32, b: u32): u32 {
    if Signed(Sub32(b, a)) > 0 then b else a
  }

  function MinVruntime(a: u32, b: u32): u32 {
    if Signed(Sub32(b, a)) < 0 then b else a
  }

  predicate EntityBefore(a: u32, b: u32) {
    Signed(Sub32(a, b)) < 0
  }

  // Up to the clamp, the wrapped comparisons are the ordinary ones.
  lemma {:induction false} ClampedOrder(a: u32, b: u32)
    requires a <= U32_MAX && b <= U32_MAX
    ensures EntityBefore(a, b) <==> a < b
    ensures MaxVruntime(a, b) == if a < b then b else a
    ensures MinVruntime(a, b) == if b < a then b else a
  {}

  // Beyond it they are not even transitive.
  lemma {:induction false} UnclampedOrderCycles()
    ensures exists a: u32, b: u32, c: u32 :: EntityBefore(a, b) && EntityBefore(b, c) && EntityBefore(c, a)
  {
    assert EntityBefore(0, 0x6000_0000) && EntityBefore(0x6000_0000, 0xC000_0000) && EntityBefore(0xC000_0000, 0);
  }

  function CalcDelta(delta: u32, weight: u32, load: u32): u32
    requires load != 0
  {
    Mul32(delta, weight) / load
  }

  function CalcDeltaFair(delta: u32, weight: u32): u32
    requires weight != 0
  {
    if weight != NICE_0_LOAD then CalcDelta(delta, NICE_0_LOAD, weight) else delta
  }

  function Advance(vruntime: u32, d: u32): u32 {
    if Add32(vruntime, d) >= U32_MAX then U32_MAX else Add32(vruntime, d)
  }

  function SchedPeriod(nr: u32): u32 {
    if nr > NR_LATENCY then Mul32(nr, MIN_GRANULARITY) else SCHED_LATENCY
  }

  function NormalizedPeriod(nr: u32): u32 {
    SchedPeriod(nr) / TIME_UNIT
  }

  // ----- the queue -----

  datatype Task = Task(id: RbNode, vruntime: u32, weight: u32, sum: u32, prev: u32)

  ghost predicate Has(q: seq<Task>, id: RbNode) {
    exists i :: 0 <= i < |q| && q[i].id == id
  }

  ghost function Get(q: seq<Task>, id: RbNode): (t: Task)
    requires Has(q, id)
    ensures t.id == id && t in q
  {
    if q[0].id == id then q[0] else Get(q[1..], id)
  }

  ghost predicate Sorted(q: seq<Task>) {
    forall i, j :: 0 <= i < j < |q| ==> q[i].vruntime <= q[j].vruntime
  }

  ghost predicate Unique(q: seq<Task>) {
    forall i, j :: 0 <= i < j < |q| ==> q[i].id != q[j].id
  }

  ghost predicate TaskOk(t: Task) {
    t.vruntime <= U32_MAX && t.weight > 0
  }

  ghost predicate QueueOk(q: seq<Task>) {
    Sorted(q) && Unique(q) && forall i :: 0 <= i < |q| ==> TaskOk(q[i])
  }

  ghost function TotalWeight(q: seq<Task>): nat {
    if q == [] then 0 else q[0].weight + TotalWeight(q[1..])
  }

  // A newcomer goes behind every task it does not precede.
  ghost function Enqueued(q: seq<Task>, t: Task): seq<Task> {
    if q == [] || t.vruntime < q[0].vruntime then [t] + q else [q[0]] + Enqueued(q[1..], t)
  }

  ghost function Dequeued(q: seq<Task>, id: RbNode): seq<Task> {
    if q == [] then [] else if q[0].id == id then q[1..] else [q[0]] + Dequeued(q[1..], id)
  }

  ghost function First(q: seq<Task>): RbNode? {
    if q == [] then null else q[0].id
  }

  lemma {:induction false} EnqueuedSplit(a: seq<Task>, t: Task, b: seq<Task>)
    requires forall i :: 0 <= i < |a| ==> a[i].vruntime <= t.vruntime
    requires b != [] ==> t.vruntime < b[0].vruntime
    ensures Enqueued(a + b, t) == a + [t] + b
  {
    if a == [] {
      assert a + b == b;
    } else {
      EnqueuedSplit(a[1..], t, b);
      assert (a + b)[1..] == a[1..] + b;
    }
  }

  lemma {:induction false} EnqueuedMembers(q: seq<Task>, t: Task, u: Task)
    ensures u in Enqueued(q, t) <==> u == t || u in q
    ensures |Enqueued(q, t)| == |q| + 1 && TotalWeight(Enqueued(q, t)) == TotalWeight(q) + t.weight
  {
    if !(q == [] || t.vruntime < q[0].vruntime) {
      EnqueuedMembers(q[1..], t, u);
    }
  }

  lemma {:induction false} DequeuedMembers(q: seq<Task>, id: RbNode, u: Task)
    requires Unique(q)
    ensures u in Dequeued(q, id) <==> u in q && u.id != id
    ensures Has(q, id) ==>
      |Dequeued(q, id)| == |q| - 1 && TotalWeight(Dequeued(q, id)) == TotalWeight(q) - Get(q, id).weight
    ensures !Has(q, id) ==> Dequeued(q, id) == q
  {
    if q != [] {
      if q[0].id != id {
        DequeuedMembers(q[1..], id, u);
        assert Has(q, id) ==> Has(q[1..], id);
        assert Has(q[1..], id) ==> Has(q, id);
      }
    }
  }

  lemma HasTail(q: seq<Task>, id: RbNode)
    requires q != []
    ensures Has(q, id) <==> q[0].id == id || Has(q[1..], id)
  {
    if i :| 0 <= i < |q[1..]| && q[1..][i].id == id {
      assert q[i + 1].id == id;
    }
  }

  // Putting a task in front, and taking the first away.
  lemma ConsKeeps(t: Task, q: seq<Task>)
    requires Unique(q) && forall u :: u in q ==> u.id != t.id
    ensures Unique([t] + q)
    ensures Sorted(q) && (forall u :: u in q ==> t.vruntime <= u.vruntime) ==> Sorted([t] + q)
  {}

  lemma RestKeeps(q: seq<Task>)
    requires Unique(q) && q != []
    ensures Unique(q[1..]) && forall u :: u in q[1..] ==> u.id != q[0].id
    ensures Sorted(q) ==> Sorted(q[1..]) && forall u :: u in q[1..] ==> q[0].vruntime <= u.vruntime
  {}

  lemma {:induction false} EnqueuedKeeps(q: seq<Task>, t: Task)
    requires Sorted(q) && Unique(q) && !Has(q, t.id)
    ensures Sorted(Enqueued(q, t)) && Unique(Enqueued(q, t))
  {
    if q != [] && t.vruntime >= q[0].vruntime {
      RestKeeps(q);
      HasTail(q, t.id);
      EnqueuedKeeps(q[1..], t);
      forall u | u in Enqueued(q[1..], t) ensures u.vruntime >= q[0].vruntime && u.id != q[0].id {
        EnqueuedMembers(q[1..], t, u);
      }
      ConsKeeps(q[0], Enqueued(q[1..], t));
    } else {
      forall u | u in q ensures u.id != t.id && (q != [] ==> t.vruntime <= u.vruntime) {
        var i :| 0 <= i < |q| && q[i] == u;
      }
      ConsKeeps(t, q);
    }
  }

  lemma {:induction false} DequeuedKeeps(q: seq<Task>, id: RbNode)
    requires Unique(q)
    ensures Unique(Dequeued(q, id)) && (Sorted(q) ==> Sorted(Dequeued(q, id)))
  {
    if q != [] {
      RestKeeps(q);
      if q[0].id != id {
        DequeuedKeeps(q[1..], id);
        forall u | u in Dequeued(q[1..], id) ensures u in q[1..] { DequeuedMembers(q[1..], id, u); }
        ConsKeeps(q[0], Dequeued(q[1..], id));
      }
    }
  }

  // Two queues that agree on everything but the fields of one task.
  ghost predicate SameBut(q: seq<Task>, q': seq<Task>, id: RbNode) {
    && |q'| == |q|
    && forall i :: 0 <= i < |q| ==> q'[i].id == q[i].id && (q[i].id != id ==> q'[i] == q[i])
  }

  lemma {:induction false} DequeuedSameBut(q: seq<Task>, q': seq<Task>, id: RbNode)
    requires SameBut(q, q', id) && Unique(q)
    ensures Dequeued(q', id) == Dequeued(q, id) && Behind(q', id) == Behind(q, id)
  {
    if q != [] {
      if q[0].id == id {
        assert q'[1..] == q[1..];
      } else {
        DequeuedSameBut(q[1..], q'[1..], id);
      }
    }
  }

  // ----- struct cfs_rq -----

  datatype Rq = Rq(
    tasks: seq<Task>, curr: RbNode?, leftmost: RbNode?,
    minVruntime: u32, nrRunning: u32, load: u32, needSched: bool)

  // What every operation keeps. The cached leftmost node is stated apart, since
  // one step of the source leaves it wrong.
  ghost predicate Ok(rq: Rq) {
    && QueueOk(rq.tasks)
    && rq.load == TotalWeight(rq.tasks) % TWO32
    && rq.nrRunning == |rq.tasks| % TWO32
    && rq.minVruntime <= U32_MAX
  }

  ghost predicate LeftmostCached(rq: Rq) {
    rq.leftmost == First(rq.tasks)
  }

  // enqueue_entity: the cache follows when the newcomer went left all the way.
  ghost function EnqueueEntity(rq: Rq, t: Task): Rq {
    rq.(tasks := Enqueued(rq.tasks, t),
        leftmost := if rq.tasks == [] || t.vruntime < rq.tasks[0].vruntime then t.id else rq.leftmost)
  }

  // The id behind `id` in the queue.
  ghost function Behind(q: seq<Task>, id: RbNode): RbNode? {
    if q == [] then null else if q[0].id == id then First(q[1..]) else Behind(q[1..], id)
  }

  // dequeue_entity
  ghost function DequeueEntity(rq: Rq, id: RbNode): Rq {
    rq.(tasks := Dequeued(rq.tasks, id),
        leftmost := if rq.leftmost == id then Behind(rq.tasks, id) else rq.leftmost)
  }

  ghost function EnqueueTaskFair(rq: Rq, t: Task): Rq {
    EnqueueEntity(rq, t).(load := Add32(rq.load, t.weight), nrRunning := Add32(rq.nrRunning, 1))
  }

  ghost function DequeueTaskFair(rq: Rq, id: RbNode): Rq
    requires Has(rq.tasks, id)
  {
    DequeueEntity(rq, id).(load := Sub32(rq.load, Get(rq.tasks, id).weight), nrRunning := Sub32(rq.nrRunning, 1))
  }

  // update_min_vruntime: a current entity counts only while it is queued.
  ghost function UpdateMinVruntime(rq: Rq): Rq {
    var runs := rq.curr != null && Has(rq.tasks, rq.curr);
    var v0 := if runs then Get(rq.tasks, rq.curr).vruntime else rq.minVruntime;
    var v1 := if rq.tasks == [] then v0
              else if runs then MinVruntime(v0, rq.tasks[0].vruntime) else rq.tasks[0].vruntime;
    rq.(leftmost := First(rq.tasks), minVruntime := MaxVruntime(rq.minVruntime, v1))
  }

  ghost function Reset(q: seq<Task>): seq<Task> {
    if q == [] then [] else [q[0].(vruntime := 0)] + Reset(q[1..])
  }

  // reassign_vruntime: every ready task starts again from 0, and the cache moves
  // on to the node behind it.
  ghost function ReassignVruntime(rq: Rq): Rq {
    rq.(tasks := Reset(rq.tasks), minVruntime := 0,
        leftmost := if rq.leftmost == null then null else Behind(rq.tasks, rq.leftmost))
  }

  ghost function Charged(t: Task, delta: u32): Task
    requires t.weight != 0
  {
    t.(sum := Add32(t.sum, delta), vruntime := Advance(t.vruntime, CalcDeltaFair(delta, t.weight)))
  }

  ghost predicate CanCharge(rq: Rq) {
    rq.curr != null && Has(rq.tasks, rq.curr) && Get(rq.tasks, rq.curr).weight != 0
  }

  // update_curr up to the overflow test: the running task is charged and re-sorted.
  ghost function ChargeCurr(rq: Rq, delta: u32): Rq
    requires CanCharge(rq)
  {
    var t := Charged(Get(rq.tasks, rq.curr), delta);
    UpdateMinVruntime(EnqueueEntity(DequeueEntity(rq, rq.curr), t))
  }

  ghost predicate AllNearOverflow(rq: Rq) {
    Add32(rq.minVruntime, 10) >= U32_MAX
  }

  ghost function UpdateCurr(rq: Rq, delta: u32): Rq
    requires CanCharge(rq)
  {
    Settled(ChargeCurr(rq, delta))
  }

  // The overflow test at the end of update_curr.
  ghost function Settled(rq: Rq): Rq {
    if AllNearOverflow(rq) then ReassignVruntime(rq) else rq
  }

  ghost function SchedSlice(rq: Rq, t: Task, queued: bool): u32
    requires (if queued then rq.load else Add32(rq.load, t.weight)) != 0
  {
    var period := NormalizedPeriod(Add32(rq.nrRunning, if queued then 0 else 1));
    CalcDelta(period, t.weight, if queued then rq.load else Add32(rq.load, t.weight))
  }

  // ----- what the operations keep -----

  lemma {:induction false} HeadIsLeast(q: seq<Task>, id: RbNode)
    requires Sorted(q) && Has(q, id)
    ensures q != [] && q[0].vruntime <= Get(q, id).vruntime
  {
    var t := Get(q, id);
    var i :| 0 <= i < |q| && q[i] == t;
  }

  lemma {:induction false} BehindInQueue(q: seq<Task>, id: RbNode)
    requires Unique(q)
    ensures Has(q, id) && First(q) == id ==> Behind(q, id) == First(Dequeued(q, id))
    ensures First(q) != id ==> First(Dequeued(q, id)) == First(q)
  {}

  lemma {:induction false} EnqueuedOk(q: seq<Task>, t: Task)
    requires QueueOk(q) && !Has(q, t.id) && TaskOk(t)
    ensures QueueOk(Enqueued(q, t)) && Has(Enqueued(q, t), t.id) && Get(Enqueued(q, t), t.id) == t
    ensures |Enqueued(q, t)| == |q| + 1 && TotalWeight(Enqueued(q, t)) == TotalWeight(q) + t.weight
  {
    var q' := Enqueued(q, t);
    EnqueuedKeeps(q, t);
    EnqueuedMembers(q, t, t);
    var i :| 0 <= i < |q'| && q'[i] == t;
    assert q'[i].id == t.id;
    GetUnique(q', t.id, i);
    forall j | 0 <= j < |q'| ensures TaskOk(q'[j]) { EnqueuedMembers(q, t, q'[j]); }
  }

  lemma {:induction false} DequeuedOk(q: seq<Task>, id: RbNode)
    requires QueueOk(q) && Has(q, id)
    ensures QueueOk(Dequeued(q, id)) && !Has(Dequeued(q, id), id)
    ensures |Dequeued(q, id)| == |q| - 1 && TotalWeight(Dequeued(q, id)) == TotalWeight(q) - Get(q, id).weight
  {
    var q' := Dequeued(q, id);
    DequeuedKeeps(q, id);
    DequeuedMembers(q, id, Get(q, id));
    forall j | 0 <= j < |q'| ensures TaskOk(q'[j]) && q'[j].id != id { DequeuedMembers(q, id, q'[j]); }
  }

  lemma {:induction false} GetUnique(q: seq<Task>, id: RbNode, i: nat)
    requires Unique(q) && i < |q| && q[i].id == id
    ensures Has(q, id) && Get(q, id) == q[i]
  {
    if i > 0 {
      GetUnique(q[1..], id, i - 1);
    }
  }

  lemma LookUp(q: seq<Task>, t: Task)
    requires Unique(q) && t in q
    ensures Has(q, t.id) && Get(q, t.id) == t
  {
    var i :| 0 <= i < |q| && q[i] == t;
    GetUnique(q, t.id, i);
  }

  lemma EnqueuedGet(q: seq<Task>, t: Task, id: RbNode)
    requires QueueOk(q) && !Has(q, t.id) && TaskOk(t)
    ensures Has(Enqueued(q, t), id) <==> id == t.id || Has(q, id)
    ensures id != t.id && Has(q, id) ==> Get(Enqueued(q, t), id) == Get(q, id)
  {
    var q' := Enqueued(q, t);
    EnqueuedOk(q, t);
    if Has(q, id) && id != t.id {
      EnqueuedMembers(q, t, Get(q, id));
      LookUp(q', Get(q, id));
    }
    if Has(q', id) && id != t.id {
      EnqueuedMembers(q, t, Get(q', id));
      LookUp(q, Get(q', id));
    }
  }

  lemma DequeuedGet(q: seq<Task>, x: RbNode, id: RbNode)
    requires QueueOk(q) && Has(q, x)
    ensures Has(Dequeued(q, x), id) <==> id != x && Has(q, id)
    ensures id != x && Has(q, id) ==> Get(Dequeued(q, x), id) == Get(q, id)
  {
    var q' := Dequeued(q, x);
    DequeuedOk(q, x);
    if Has(q, id) && id != x {
      DequeuedMembers(q, x, Get(q, id));
      LookUp(q', Get(q, id));
    }
    if Has(q', id) {
      DequeuedMembers(q, x, Get(q', id));
      LookUp(q, Get(q', id));
    }
  }

  lemma {:induction false} EnqueueTaskFairOk(rq: Rq, t: Task)
    requires Ok(rq) && !Has(rq.tasks, t.id) && TaskOk(t)
    ensures Ok(EnqueueTaskFair(rq, t)) && Has(EnqueueTaskFair(rq, t).tasks, t.id)
    ensures LeftmostCached(rq) ==> LeftmostCached(EnqueueTaskFair(rq, t))
  {
    EnqueuedOk(rq.tasks, t);
    WrappedSum(TotalWeight(rq.tasks), t.weight);
    WrappedSum(|rq.tasks|, 1);
  }

  lemma FirstTask(t: Task)
    requires t.weight < TWO32
    ensures EnqueueTaskFair(Rq([], null, null, 0, 0, 0, false), t) == Rq([t], null, t.id, 0, 1, t.weight, false)
  {
    assert Enqueued([], t) == [t];
  }

  lemma {:induction false} DequeueTaskFairOk(rq: Rq, id: RbNode)
    requires Ok(rq) && Has(rq.tasks, id)
    ensures Ok(DequeueTaskFair(rq, id)) && !Has(DequeueTaskFair(rq, id).tasks, id)
    ensures LeftmostCached(rq) ==> LeftmostCached(DequeueTaskFair(rq, id))
  {
    DequeuedOk(rq.tasks, id);
    BehindInQueue(rq.tasks, id);
    var t := Get(rq.tasks, id);
    assert TotalWeight(Dequeued(rq.tasks, id)) >= 0;
    WrappedDifference(TotalWeight(rq.tasks), t.weight);
    WrappedDifference(|rq.tasks|, 1);
  }

  // update_min_vruntime never goes back, and follows the least queued vruntime.
  lemma UpdateMinVruntimeOk(rq: Rq)
    requires Ok(rq)
    ensures var rq' := UpdateMinVruntime(rq);
      && Ok(rq') && LeftmostCached(rq') && rq'.tasks == rq.tasks
      && rq'.minVruntime == if rq.tasks != [] && rq.minVruntime < rq.tasks[0].vruntime
                            then rq.tasks[0].vruntime else rq.minVruntime
  {
    if rq.curr != null && Has(rq.tasks, rq.curr) {
      HeadIsLeast(rq.tasks, rq.curr);
      var v0 := Get(rq.tasks, rq.curr).vruntime;
      ClampedOrder(v0, rq.tasks[0].vruntime);
    }
    if rq.tasks != [] {
      ClampedOrder(rq.minVruntime, rq.tasks[0].vruntime);
    }
  }

  lemma {:induction false} ChargeCurrOk(rq: Rq, delta: u32)
    requires Ok(rq) && CanCharge(rq)
    ensures var rq' := ChargeCurr(rq, delta);
      && Ok(rq') && LeftmostCached(rq') && Has(rq'.tasks, rq.curr)
      && rq'.tasks == Enqueued(Dequeued(rq.tasks, rq.curr), Charged(Get(rq.tasks, rq.curr), delta))
      && rq'.minVruntime >= rq.minVruntime && rq'.load == rq.load && rq'.nrRunning == rq.nrRunning
  {
    var t' := Charged(Get(rq.tasks, rq.curr), delta);
    DequeuedOk(rq.tasks, rq.curr);
    EnqueuedOk(Dequeued(rq.tasks, rq.curr), t');
    UpdateMinVruntimeOk(EnqueueEntity(DequeueEntity(rq, rq.curr), t'));
  }

  // Charging the entity while it is still queued comes to the same.
  lemma ChargeSteps(rq: Rq, rq1: Rq, delta: u32)
    requires Ok(rq) && CanCharge(rq)
    requires rq1 == rq.(tasks := rq1.tasks) && SameBut(rq.tasks, rq1.tasks, rq.curr)
    ensures var t' := Charged(Get(rq.tasks, rq.curr), delta);
      && TaskOk(t') && QueueOk(Dequeued(rq1.tasks, rq.curr))
      && DequeueEntity(rq1, rq.curr) == DequeueEntity(rq, rq.curr)
      && Ok(EnqueueEntity(DequeueEntity(rq, rq.curr), t'))
      && Has(Enqueued(Dequeued(rq.tasks, rq.curr), t'), rq.curr)
  {
    DequeuedSameBut(rq.tasks, rq1.tasks, rq.curr);
    DequeuedOk(rq.tasks, rq.curr);
    EnqueuedOk(Dequeued(rq.tasks, rq.curr), Charged(Get(rq.tasks, rq.curr), delta));
  }

  lemma {:induction false} ResetKeeps(q: seq<Task>)
    ensures |Reset(q)| == |q| && TotalWeight(Reset(q)) == TotalWeight(q)
    ensures forall i :: 0 <= i < |q| ==> Reset(q)[i] == q[i].(vruntime := 0)
  {
    if q != [] {
      ResetKeeps(q[1..]);
    }
  }

  // update_curr keeps everything but the cached leftmost node, and keeps that
  // one exactly when the vruntimes are not reassigned.
  lemma {:induction false} UpdateCurrOk(rq: Rq, delta: u32)
    requires Ok(rq) && CanCharge(rq)
    ensures Ok(UpdateCurr(rq, delta))
    ensures LeftmostCached(UpdateCurr(rq, delta)) <==> !AllNearOverflow(ChargeCurr(rq, delta))
    ensures Has(UpdateCurr(rq, delta).tasks, rq.curr)
  {
    var rq' := ChargeCurr(rq, delta);
    ChargeCurrOk(rq, delta);
    if AllNearOverflow(rq') {
      ResetOk(rq'.tasks, rq.curr);
      BehindInQueue(rq'.tasks, rq'.leftmost);
    }
  }

  lemma ResetOk(q: seq<Task>, id: RbNode)
    requires QueueOk(q) && Has(q, id)
    ensures QueueOk(Reset(q)) && Has(Reset(q), id) && First(Reset(q)) == First(q) != Behind(q, First(q))
    ensures |Reset(q)| == |q| && TotalWeight(Reset(q)) == TotalWeight(q)
  {
    ResetKeeps(q);
    ResetSorted(q);
    var i :| 0 <= i < |q| && q[i].id == id;
    assert Reset(q)[i].id == id;
    assert |q| > 1 ==> q[0].id != q[1].id;
  }

  lemma ResetSorted(q: seq<Task>)
    requires QueueOk(q)
    ensures QueueOk(Reset(q))
  {
    ResetKeeps(q);
    var r := Reset(q);
    forall i, j | 0 <= i < j < |r| ensures r[i].vruntime <= r[j].vruntime && r[i].id != r[j].id {
      assert q[i].id != q[j].id;
    }
    forall i | 0 <= i < |r| ensures TaskOk(r[i]) { assert TaskOk(q[i]); }
  }

  // ----- the timer tick -----

  // The switch saves the runtime of the outgoing task.
  ghost function Saved(q: seq<Task>, id: RbNode): seq<Task> {
    if q == [] then []
    else [if q[0].id == id then q[0].(prev := q[0].sum) else q[0]] + Saved(q[1..], id)
  }

  ghost function CheckPreemptTick(rq: Rq): Rq
    requires CanCharge(rq) && rq.load != 0
  {
    var t := Get(rq.tasks, rq.curr);
    rq.(needSched := rq.needSched || Sub32(t.sum, t.prev) > SchedSlice(rq, t, true))
  }

  // The part of task_tick behind `if (cfs_rq.NEED_SCHED)`.
  ghost function Reschedule(rq: Rq): Rq {
    if !rq.needSched then rq
    else if rq.leftmost == rq.curr || rq.curr == null then rq.(needSched := false)
    else rq.(tasks := Saved(rq.tasks, rq.curr), curr := rq.leftmost, needSched := false)
  }

  ghost predicate CanTick(rq: Rq) {
    Ok(rq) && CanCharge(rq) && rq.load != 0
  }

  ghost function Preempted(rq: Rq): Rq
    requires CanTick(rq)
  {
    UpdateCurrOk(rq, TICK);
    CheckPreemptTick(UpdateCurr(rq, TICK))
  }

  lemma PreemptedIs(rq: Rq, rq': Rq)
    requires CanTick(rq) && rq' == UpdateCurr(rq, TICK)
    ensures CanCharge(rq') && rq'.load != 0 && Preempted(rq) == CheckPreemptTick(rq')
  {
    UpdateCurrOk(rq, TICK);
  }

  // task_tick picks a task at the leftmost pointer without a null test.
  ghost predicate PickDefined(rq: Rq)
    requires CanTick(rq)
  {
    Preempted(rq).needSched ==> Preempted(rq).leftmost != null
  }

  ghost function Tick(rq: Rq): Rq
    requires CanTick(rq)
  {
    Reschedule(Preempted(rq))
  }

  // A lone task, some vruntime about to overflow, and a switch due.
  ghost predicate NullPick(rq: Rq)
    requires CanTick(rq)
  {
    var t := Get(rq.tasks, rq.curr);
    && |rq.tasks| == 1
    && (rq.minVruntime + 10 >= U32_MAX || Charged(t, TICK).vruntime + 10 >= U32_MAX)
    && (rq.needSched || Sub32(Add32(t.sum, TICK), t.prev) > SchedSlice(rq, t, true))
  }

  // That is exactly when the tick follows a null pointer.
  lemma {:induction false} PickUndefinedIff(rq: Rq)
    requires CanTick(rq)
    ensures !PickDefined(rq) <==> NullPick(rq)
  {
    var rq' := ChargeCurr(rq, TICK);
    ChargeCurrOk(rq, TICK);
    DequeuedOk(rq.tasks, rq.curr);
    EnqueuedOk(Dequeued(rq.tasks, rq.curr), Charged(Get(rq.tasks, rq.curr), TICK));
    ChargedFlag(rq);
    if AllNearOverflow(rq') {
      ResetOk(rq'.tasks, rq.curr);
      ResetCache(rq'.tasks);
    }
    if |rq.tasks| == 1 {
      LoneCharge(rq);
    }
  }

  lemma ResetCache(q: seq<Task>)
    requires Unique(q) && q != []
    ensures Behind(q, q[0].id) == null <==> |q| == 1
  {}

  // The reset changes neither weights nor runtimes, so the slice test does not see it.
  lemma ChargedFlag(rq: Rq)
    requires CanTick(rq)
    ensures var t := Get(rq.tasks, rq.curr);
      Preempted(rq).needSched <==> rq.needSched || Sub32(Add32(t.sum, TICK), t.prev) > SchedSlice(rq, t, true)
  {
    var t, rq' := Charged(Get(rq.tasks, rq.curr), TICK), ChargeCurr(rq, TICK);
    ChargeCurrOk(rq, TICK);
    DequeuedOk(rq.tasks, rq.curr);
    EnqueuedOk(Dequeued(rq.tasks, rq.curr), t);
    PreemptedIs(rq, UpdateCurr(rq, TICK));
    if AllNearOverflow(rq') {
      ResetGet(rq'.tasks, rq.curr);
    }
  }

  lemma {:induction false} ResetGet(q: seq<Task>, id: RbNode)
    requires Has(q, id)
    ensures Has(Reset(q), id) && Get(Reset(q), id) == Get(q, id).(vruntime := 0)
  {
    HasTail(q, id);
    HasTail(Reset(q), id);
    if q[0].id != id {
      ResetGet(q[1..], id);
    }
  }

  lemma LoneCharge(rq: Rq)
    requires CanTick(rq) && |rq.tasks| == 1
    ensures AllNearOverflow(ChargeCurr(rq, TICK)) <==>
      rq.minVruntime + 10 >= U32_MAX || Charged(Get(rq.tasks, rq.curr), TICK).vruntime + 10 >= U32_MAX
  {
    var t := Charged(Get(rq.tasks, rq.curr), TICK);
    assert rq.tasks == [rq.tasks[0]] && rq.tasks[0].id == rq.curr;
    assert Dequeued(rq.tasks, rq.curr) == [];
    assert Enqueued([], t) == [t];
    DequeuedOk(rq.tasks, rq.curr);
    EnqueuedOk([], t);
    UpdateMinVruntimeOk(EnqueueEntity(DequeueEntity(rq, rq.curr), t));
  }

  lemma {:induction false} SavedKeeps(q: seq<Task>, id: RbNode)
    ensures |Saved(q, id)| == |q| && TotalWeight(Saved(q, id)) == TotalWeight(q)
    ensures forall i :: 0 <= i < |q| ==>
      Saved(q, id)[i] == if q[i].id == id then q[i].(prev := q[i].sum) else q[i]
  {
    if q != [] {
      SavedKeeps(q[1..], id);
    }
  }

  lemma {:induction false} SavedGet(q: seq<Task>, id: RbNode, other: RbNode)
    ensures Has(Saved(q, id), other) <==> Has(q, other)
    ensures Has(q, other) ==>
      Get(Saved(q, id), other) == (var t := Get(q, other); if other == id then t.(prev := t.sum) else t)
  {
    if q != [] {
      SavedGet(q[1..], id, other);
      HasTail(q, other);
      HasTail(Saved(q, id), other);
    }
  }

  lemma SavedOk(q: seq<Task>, id: RbNode)
    requires QueueOk(q)
    ensures QueueOk(Saved(q, id)) && First(Saved(q, id)) == First(q)
  {
    SavedKeeps(q, id);
  }

  // A tick keeps the queue in order and leaves a queued task current.
  lemma {:induction false} TickOk(rq: Rq)
    requires CanTick(rq) && !NullPick(rq)
    ensures Ok(Tick(rq)) && CanCharge(Tick(rq)) && Tick(rq).load == rq.load
    ensures LeftmostCached(Tick(rq)) <==> !AllNearOverflow(ChargeCurr(rq, TICK))
  {
    var rq1, rq2 := UpdateCurr(rq, TICK), Preempted(rq);
    PickUndefinedIff(rq);
    UpdateCurrOk(rq, TICK);
    ChargeCurrOk(rq, TICK);
    if rq2.needSched {
      LeftmostHas(rq, TICK);
      SavedOk(rq2.tasks, rq2.curr);
      SavedGet(rq2.tasks, rq2.curr, rq2.leftmost);
      SavedKeeps(rq2.tasks, rq2.curr);
    }
  }

  lemma LeftmostHas(rq: Rq, delta: u32)
    requires Ok(rq) && CanCharge(rq)
    ensures var rq' := UpdateCurr(rq, delta); rq'.leftmost != null ==> Has(rq'.tasks, rq'.leftmost)
  {
    ChargeCurrOk(rq, delta);
    SettledLeftmost(ChargeCurr(rq, delta));
  }

  lemma SettledLeftmost(rq: Rq)
    requires Ok(rq) && LeftmostCached(rq)
    ensures Settled(rq).leftmost != null ==> Has(Settled(rq).tasks, Settled(rq).leftmost)
  {
    if rq.tasks != [] {
      assert rq.tasks[0].id == rq.leftmost;
      if AllNearOverflow(rq) {
        ResetKeeps(rq.tasks);
        assert Behind(rq.tasks, rq.leftmost) == if |rq.tasks| > 1 then rq.tasks[1].id else null;
        assert |rq.tasks| > 1 ==> Reset(rq.tasks)[1].id == rq.tasks[1].id;
      }
    }
  }

  // ----- the failing inputs -----

  // Two tasks at the clamp: after the reset the cache names the second one.
  lemma {:induction false} ResetLosesCache(a: RbNode, b: RbNode)
    requires a != b
    ensures var t, u := Task(a, U32_MAX, NICE_0_LOAD, 0, 0), Task(b, U32_MAX, NICE_0_LOAD, 0, 0);
      var rq := Rq([t, u], a, a, U32_MAX, 2, 2048, false);
      && Ok(rq) && CanCharge(rq) && LeftmostCached(rq)
      && First(UpdateCurr(rq, TICK).tasks) == b && UpdateCurr(rq, TICK).leftmost == a
  {
    var t, u := Task(a, U32_MAX, NICE_0_LOAD, 0, 0), Task(b, U32_MAX, NICE_0_LOAD, 0, 0);
    var rq := Rq([t, u], a, a, U32_MAX, 2, 2048, false);
    assert rq.tasks[1..] == [u] && rq.tasks[0].id == a;
    assert TotalWeight([u]) == 1024 && TotalWeight(rq.tasks) == 2048;
    var t' := Charged(t, TICK);
    assert Dequeued(rq.tasks, a) == [u];
    assert Enqueued([], t') == [t'] && Enqueued([u], t') == [u, t'];
    ChargeCurrOk(rq, TICK);
    var rq' := ChargeCurr(rq, TICK);
    assert rq'.minVruntime == U32_MAX;
    ResetKeeps(rq'.tasks);
    assert [u, t'][1..] == [t'];
  }

  // One task about to be clamped, past its slice: the tick has nobody to pick.
  lemma {:induction false} LonePickIsNull(a: RbNode)
    ensures var rq := Rq([Task(a, U32_MAX, NICE_0_LOAD, 480, 0)], a, a, U32_MAX, 1, 1024, false);
      CanTick(rq) && LeftmostCached(rq) && !PickDefined(rq)
  {
    var t := Task(a, U32_MAX, NICE_0_LOAD, 480, 0);
    var rq := Rq([t], a, a, U32_MAX, 1, 1024, false);
    assert rq.tasks[0].id == a && Get(rq.tasks, a) == t;
    assert TotalWeight(rq.tasks) == 1024 + TotalWeight([]);
    assert SchedSlice(rq, t, true) == 480;
    PickUndefinedIff(rq);
  }
}
