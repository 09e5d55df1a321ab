// What the timer tick does over whole runs with a fixed set of ready tasks:
// no task runs far ahead of the rest, and the slices share out the period.
module Fairness {
  import opened Arith
  import opened Words
  import opened RbShape
  import opened CfsSpec
  import T = Turns

  // ----- one tick, task by task -----

  // Vruntime gained by one tick.
  function Gain(weight: u32): u32
    requires weight != 0
  {
    CalcDeltaFair(TICK, weight)
  }

  lemma {:induction false} GainIsQuotient(weight: u32)
    requires weight != 0
    ensures Gain(weight) == 61440 / weight
    ensures Gain(weight) >= 1 <==> weight <= 61440
  {
    var g := 61440 / weight;
    assert Mul32(TICK, NICE_0_LOAD) == 61440 && TICK == 60;
    assert 61440 == weight * g + 61440 % weight;
    if g >= 1 {
      assert weight * g >= weight;
    }
  }

  // Between operations of the scheduler, with the true sum of weights in `load`.
  ghost predicate Steady(rq: Rq) {
    CanTick(rq) && LeftmostCached(rq) && !rq.needSched && TotalWeight(rq.tasks) < TWO32
  }

  // Neither the running task nor the whole queue is near the clamp.
  ghost predicate NoClamp(rq: Rq)
    requires CanTick(rq)
  {
    var t := Get(rq.tasks, rq.curr);
    t.vruntime + Gain(t.weight) < U32_MAX && !AllNearOverflow(ChargeCurr(rq, TICK))
  }

  ghost function Slice(rq: Rq, t: Task): u32
    requires rq.load != 0
  {
    SchedSlice(rq, t, true)
  }

  // How long the running task has run since it was switched in.
  ghost function Ran(t: Task): u32 {
    Sub32(t.sum, t.prev)
  }

  ghost function Ticked(t: Task): Task
    requires t.weight != 0 && t.vruntime + Gain(t.weight) < U32_MAX
  {
    t.(vruntime := t.vruntime + Gain(t.weight), sum := Add32(t.sum, TICK))
  }

  // The running task after the tick, before any switch.
  ghost function Runner(rq: Rq): Task
    requires CanTick(rq) && NoClamp(rq)
  {
    Ticked(Get(rq.tasks, rq.curr))
  }

  ghost function Requeued(rq: Rq): seq<Task>
    requires CanTick(rq) && NoClamp(rq)
  {
    Enqueued(Dequeued(rq.tasks, rq.curr), Runner(rq))
  }

  // The tick takes the processor away.
  ghost predicate Switches(rq: Rq)
    requires CanTick(rq) && NoClamp(rq)
  {
    Ran(Runner(rq)) > Slice(rq, Runner(rq)) && First(Requeued(rq)) != rq.curr
  }

  lemma AdvanceExact(v: u32, d: u32)
    requires v + d < U32_MAX
    ensures Advance(v, d) == v + d
  {}

  lemma TickedIsCharged(t: Task)
    requires t.weight != 0 && t.vruntime + Gain(t.weight) < U32_MAX
    ensures Charged(t, TICK) == Ticked(t)
  {
    AdvanceExact(t.vruntime, Gain(t.weight));
  }

  // The charge without an overflow.
  lemma ChargeShape(rq: Rq)
    requires Steady(rq) && NoClamp(rq)
    ensures var rq' := UpdateCurr(rq, TICK);
      && rq' == ChargeCurr(rq, TICK) && rq'.curr == rq.curr
      && rq'.tasks == Requeued(rq) && rq'.leftmost == First(Requeued(rq))
      && rq'.load == rq.load && rq'.nrRunning == rq.nrRunning && !rq'.needSched
  {
    TickedIsCharged(Get(rq.tasks, rq.curr));
    ChargeCurrOk(rq, TICK);
  }

  lemma RequeuedFacts(rq: Rq)
    requires Steady(rq) && NoClamp(rq)
    ensures Has(Requeued(rq), rq.curr) && Get(Requeued(rq), rq.curr) == Runner(rq)
    ensures TotalWeight(Requeued(rq)) == TotalWeight(rq.tasks) && QueueOk(Requeued(rq)) && Requeued(rq) != []
  {
    DequeuedOk(rq.tasks, rq.curr);
    TickedIsCharged(Get(rq.tasks, rq.curr));
    EnqueuedOk(Dequeued(rq.tasks, rq.curr), Runner(rq));
  }

  // The slice test on the charged entity.
  lemma PreemptShape(rq: Rq)
    requires Steady(rq) && NoClamp(rq)
    ensures Preempted(rq) == UpdateCurr(rq, TICK).(needSched := Ran(Runner(rq)) > Slice(rq, Runner(rq)))
  {
    ChargeShape(rq);
    RequeuedFacts(rq);
    PreemptedIs(rq, UpdateCurr(rq, TICK));
  }

  lemma SwitchShape(rq: Rq, rq1: Rq)
    requires Steady(rq) && NoClamp(rq) && rq1 == Preempted(rq)
    requires rq1.tasks == Requeued(rq) && rq1.leftmost == First(Requeued(rq)) && rq1.curr == rq.curr
    requires rq1.needSched <==> Ran(Runner(rq)) > Slice(rq, Runner(rq))
    ensures Tick(rq) == if Switches(rq)
                        then rq1.(tasks := Saved(Requeued(rq), rq.curr), curr := First(Requeued(rq)),
                                  needSched := false)
                        else rq1.(needSched := false)
  {}

  lemma TickShape(rq: Rq)
    requires Steady(rq) && NoClamp(rq)
    ensures PickDefined(rq) && Steady(Tick(rq))
    ensures Tick(rq).tasks == if Switches(rq) then Saved(Requeued(rq), rq.curr) else Requeued(rq)
    ensures Tick(rq).curr == if Switches(rq) then First(Requeued(rq)) else rq.curr
    ensures Tick(rq).load == rq.load && Tick(rq).nrRunning == rq.nrRunning
  {
    ChargeShape(rq);
    RequeuedFacts(rq);
    PreemptShape(rq);
    SwitchShape(rq, Preempted(rq));
    PickUndefinedIff(rq);
    TickOk(rq);
    SavedKeeps(Requeued(rq), rq.curr);
    SavedOk(Requeued(rq), rq.curr);
  }

  // ----- lookups across a tick -----

  // A tick changes one task: the one that ran.
  lemma TickGet(rq: Rq, id: RbNode)
    requires Steady(rq) && NoClamp(rq)
    ensures Has(Tick(rq).tasks, id) <==> Has(rq.tasks, id)
    ensures id != rq.curr && Has(rq.tasks, id) ==> Get(Tick(rq).tasks, id) == Get(rq.tasks, id)
    ensures id == rq.curr ==>
      Get(Tick(rq).tasks, id) == (if Switches(rq) then Runner(rq).(prev := Runner(rq).sum) else Runner(rq))
  {
    TickShape(rq);
    var q := Dequeued(rq.tasks, rq.curr);
    DequeuedOk(rq.tasks, rq.curr);
    DequeuedGet(rq.tasks, rq.curr, id);
    EnqueuedOk(q, Runner(rq));
    EnqueuedGet(q, Runner(rq), id);
    SavedGet(Requeued(rq), rq.curr, id);
  }

  // Nobody in the queue has a smaller vruntime than its head.
  lemma HeadLeads(rq: Rq, id: RbNode)
    requires Steady(rq) && Has(rq.tasks, id)
    ensures rq.tasks[0].vruntime <= Get(rq.tasks, id).vruntime
    ensures Has(rq.tasks, rq.tasks[0].id) && Get(rq.tasks, rq.tasks[0].id) == rq.tasks[0]
  {
    HeadIsLeast(rq.tasks, id);
    GetUnique(rq.tasks, rq.tasks[0].id, 0);
  }

  // ----- the queue as a set of jobs taking turns -----

  ghost function Ids(q: seq<Task>): set<RbNode> {
    set t | t in q :: t.id
  }

  lemma InIds(q: seq<Task>, id: RbNode)
    ensures id in Ids(q) <==> Has(q, id)
  {
    if id in Ids(q) {
      var t :| t in q && t.id == id;
    }
    if Has(q, id) {
      assert Get(q, id) in q;
    }
  }

  ghost function JobOf(rq: Rq, t: Task): T.Job
    requires rq.load != 0 && t.weight != 0
  {
    T.Job(t.vruntime, Ran(t), Slice(rq, t), Gain(t.weight))
  }

  ghost function JobAt(rq: Rq, id: RbNode): T.Job
    requires Steady(rq)
  {
    if Has(rq.tasks, id) && Get(rq.tasks, id).weight != 0 then JobOf(rq, Get(rq.tasks, id)) else T.Job(0, 0, 0, 0)
  }

  ghost function View(rq: Rq): T.State
    requires Steady(rq)
  {
    T.State(map id | id in Ids(rq.tasks) :: JobAt(rq, id), rq.curr, rq.tasks[0].id)
  }

  lemma TaskWeight(rq: Rq, id: RbNode)
    requires Steady(rq) && Has(rq.tasks, id)
    ensures Get(rq.tasks, id).weight != 0 && JobAt(rq, id) == JobOf(rq, Get(rq.tasks, id))
  {
    var t := Get(rq.tasks, id);
    var i :| 0 <= i < |rq.tasks| && rq.tasks[i] == t;
  }

  // The slice never exceeds the period, even when the product wraps.
  lemma SliceBound(rq: Rq, id: RbNode)
    requires Steady(rq) && Has(rq.tasks, id)
    ensures Slice(rq, Get(rq.tasks, id)) <= NormalizedPeriod(rq.nrRunning) <= 214748
  {
    WeightInTotal(rq.tasks, id);
    ShareBound(NormalizedPeriod(rq.nrRunning), Get(rq.tasks, id).weight, rq.load);
    SliceIsShare(rq, Get(rq.tasks, id));
  }

  lemma SliceIsShare(rq: Rq, t: Task)
    requires rq.load != 0
    ensures Slice(rq, t) == CalcDelta(NormalizedPeriod(rq.nrRunning), t.weight, rq.load)
  {
    assert Add32(rq.nrRunning, 0) == rq.nrRunning;
  }

  lemma {:induction false} WeightInTotal(q: seq<Task>, id: RbNode)
    requires Has(q, id)
    ensures Get(q, id).weight <= TotalWeight(q)
  {
    if q[0].id != id {
      WeightInTotal(q[1..], id);
    }
  }

  lemma ShareBound(p: u32, w: u32, load: u32)
    requires 0 < load && w <= load
    ensures CalcDelta(p, w, load) <= p
  {
    var x := Mul32(p, w);
    MulMono(w, load, p);
    ModAtMost(p * w);
    QuotientBound(x, p, load);
  }

  lemma ModAtMost(x: nat)
    ensures x % TWO32 <= x
  {}

  lemma ModSame(x: nat)
    requires x < TWO32
    ensures x % TWO32 == x
  {}

  lemma MulMono(a: nat, b: nat, g: nat)
    requires a <= b
    ensures a * g <= b * g
  {}

  lemma QuotientBound(x: nat, p: nat, d: nat)
    requires d > 0 && x <= p * d
    ensures x / d <= p
  {
    assert x == d * (x / d) + x % d;
    if x / d > p {
      MulMono(p + 1, x / d, d);
    }
  }

  lemma ViewWf(rq: Rq)
    requires Steady(rq)
    ensures T.Wf(View(rq))
  {
    InIds(rq.tasks, rq.curr);
    InIds(rq.tasks, rq.tasks[0].id);
    GetUnique(rq.tasks, rq.tasks[0].id, 0);
    var a := View(rq);
    forall id | id in a.jobs ensures T.Bounded(a.jobs[id]) && a.jobs[a.head].vruntime <= a.jobs[id].vruntime {
      InIds(rq.tasks, id);
      SliceBound(rq, id);
      HeadLeads(rq, id);
      TaskWeight(rq, id);
      TaskWeight(rq, a.head);
    }
  }

  // Every tick is a turn.
  lemma {:induction false} TickIsTurn(rq: Rq)
    requires Steady(rq) && NoClamp(rq)
    ensures Steady(Tick(rq)) && T.Wf(View(rq)) && T.Turn(View(rq), View(Tick(rq)))
  {
    TickShape(rq);
    ViewWf(rq);
    ViewWf(Tick(rq));
    SameIds(rq);
    var a, b := View(rq), View(Tick(rq));
    forall id | id in a.jobs && id != a.curr ensures b.jobs[id] == a.jobs[id] { SameJob(rq, id); }
    RunnerJob(rq);
    InIds(rq.tasks, rq.curr);
    InIds(Tick(rq).tasks, rq.curr);
    TickHead(rq);
  }

  lemma TickHead(rq: Rq)
    requires Steady(rq) && NoClamp(rq)
    ensures Tick(rq).tasks != [] && Tick(rq).tasks[0].id == First(Requeued(rq))
  {
    TickShape(rq);
    SavedKeeps(Requeued(rq), rq.curr);
  }

  lemma SameIds(rq: Rq)
    requires Steady(rq) && NoClamp(rq)
    ensures Ids(Tick(rq).tasks) == Ids(rq.tasks)
  {
    var s, s' := Ids(rq.tasks), Ids(Tick(rq).tasks);
    forall id ensures id in s <==> id in s' { SameId(rq, id); }
  }

  lemma SameId(rq: Rq, id: RbNode)
    requires Steady(rq) && NoClamp(rq)
    ensures id in Ids(rq.tasks) <==> id in Ids(Tick(rq).tasks)
  {
    TickShape(rq);
    InIds(rq.tasks, id);
    InIds(Tick(rq).tasks, id);
    TickGet(rq, id);
  }

  lemma SameJob(rq: Rq, id: RbNode)
    requires Steady(rq) && NoClamp(rq) && Steady(Tick(rq)) && id in Ids(rq.tasks) && id != rq.curr
    ensures JobAt(Tick(rq), id) == JobAt(rq, id)
  {
    TickShape(rq);
    InIds(rq.tasks, id);
    TickGet(rq, id);
    TaskWeight(rq, id);
    TaskWeight(Tick(rq), id);
    JobAfter(rq, Tick(rq), Get(rq.tasks, id), Get(rq.tasks, id));
  }

  // Slice and gain depend on the weight and the totals only.
  lemma JobAfter(rq: Rq, rq': Rq, t: Task, t': Task)
    requires rq.load != 0 && rq'.load == rq.load && rq'.nrRunning == rq.nrRunning
    requires t.weight != 0 && t'.weight == t.weight
    ensures JobOf(rq', t') == JobOf(rq, t).(vruntime := t'.vruntime, ran := Ran(t'))
  {}

  lemma RunnerJob(rq: Rq)
    requires Steady(rq) && NoClamp(rq) && Steady(Tick(rq))
    ensures var c, c' := JobAt(rq, rq.curr), JobAt(Tick(rq), rq.curr);
      && (T.RanNext(c) > c.slice && First(Requeued(rq)) != rq.curr <==> Switches(rq))
      && c' == c.(vruntime := c.vruntime + c.gain, ran := if Switches(rq) then 0 else T.RanNext(c))
  {
    var t := Get(rq.tasks, rq.curr);
    TickShape(rq);
    TickGet(rq, rq.curr);
    TaskWeight(rq, rq.curr);
    TaskWeight(Tick(rq), rq.curr);
    RunnerJobOf(rq, Tick(rq), t, Get(Tick(rq).tasks, rq.curr), Switches(rq));
    JobAfter(rq, rq, t, Runner(rq));
  }

  // A charged task as a job, before and after the switch.
  lemma RunnerJobOf(rq: Rq, rq': Rq, t: Task, t': Task, switched: bool)
    requires rq.load != 0 && rq'.load == rq.load && rq'.nrRunning == rq.nrRunning
    requires t.weight != 0 && t.vruntime + Gain(t.weight) < U32_MAX
    requires t' == if switched then Ticked(t).(prev := Ticked(t).sum) else Ticked(t)
    ensures T.RanNext(JobOf(rq, t)) == Ran(Ticked(t))
    ensures JobOf(rq', t') == JobOf(rq, t).(vruntime := t.vruntime + Gain(t.weight),
                                            ran := if switched then 0 else Ran(Ticked(t)))
  {
    RanWraps(t);
    SubSelf(Ticked(t).sum);
    assert Ran(t') == if switched then 0 else Ran(Ticked(t));
    JobAfter(rq, rq', t, t');
  }

  lemma SubSelf(a: u32)
    ensures Sub32(a, a) == 0
  {}

  lemma RanWraps(t: Task)
    ensures Sub32(Add32(t.sum, TICK), t.prev) == (Ran(t) + TICK) % TWO32
  {}

  // ----- the theorems, for runs of ticks -----

  // A run of ticks without clamping.
  ghost predicate TickRun(run: seq<Rq>) {
    && run != [] && Steady(run[0])
    && (|run| > 1 ==> NoClamp(run[0]) && run[1] == Tick(run[0]) && TickRun(run[1..]))
  }

  lemma {:induction false} RunAt(run: seq<Rq>, k: nat)
    requires TickRun(run) && k < |run|
    ensures Steady(run[k])
    ensures k + 1 < |run| ==> NoClamp(run[k]) && run[k + 1] == Tick(run[k])
  {
    if k > 0 {
      RunAt(run[1..], k - 1);
    }
  }

  ghost function Views(run: seq<Rq>): (s: seq<T.State>)
    requires TickRun(run)
    ensures |s| == |run|
    decreases |run|
  {
    if |run| == 1 then [View(run[0])] else [View(run[0])] + Views(run[1..])
  }

  lemma {:induction false} ViewAt(run: seq<Rq>, k: nat)
    requires TickRun(run) && k < |run|
    ensures Steady(run[k]) && Views(run)[k] == View(run[k])
    decreases |run|
  {
    if k > 0 {
      ViewAt(run[1..], k - 1);
    }
  }

  lemma ViewsRun(run: seq<Rq>)
    requires TickRun(run)
    ensures T.Run(Views(run))
  {
    var s := Views(run);
    forall i | 0 <= i < |s| ensures T.Wf(s[i]) {
      ViewAt(run, i);
      ViewWf(run[i]);
    }
    forall i | 0 <= i < |s| - 1 ensures T.Turn(s[i], s[i + 1]) {
      ViewTurn(run, i, i + 1);
    }
  }

  lemma ViewTurn(run: seq<Rq>, i: nat, next: nat)
    requires TickRun(run) && next == i + 1 < |run|
    ensures T.Wf(Views(run)[i]) && T.Turn(Views(run)[i], Views(run)[next])
  {
    ViewAt(run, i);
    ViewAt(run, next);
    RunAt(run, i);
    TickIsTurn(run[i]);
  }

  // The vruntime a task may be ahead of the least: one tick more than fits its slice.
  ghost function MaxLead(rq: Rq, t: Task): int
    requires rq.load != 0 && t.weight != 0
  {
    (Slice(rq, t) / 60 + 1) * (61440 / t.weight)
  }

  // Every task starts from the same vruntime with nothing outstanding.
  ghost predicate LevelStart(rq: Rq) {
    forall t :: t in rq.tasks ==> t.vruntime == rq.tasks[0].vruntime && t.sum == t.prev && t.weight in PRIO_TO_WEIGHT
  }

  lemma LevelView(rq: Rq)
    requires Steady(rq) && LevelStart(rq)
    ensures T.Wf(View(rq)) && T.Level(View(rq))
  {
    ViewWf(rq);
    var a := View(rq);
    forall id | id in a.jobs
      ensures a.jobs[id].vruntime == a.jobs[a.head].vruntime && a.jobs[id].ran == 0 && a.jobs[id].gain <= 4096 {
      InIds(rq.tasks, id);
      LevelJob(rq, id);
      LevelJob(rq, a.head);
    }
  }

  lemma LevelJob(rq: Rq, id: RbNode)
    requires Steady(rq) && LevelStart(rq) && id in Ids(rq.tasks)
    ensures var j := JobAt(rq, id); j.vruntime == rq.tasks[0].vruntime && j.ran == 0 && j.gain <= 4096
  {
    InIds(rq.tasks, id);
    TaskWeight(rq, id);
    var t := Get(rq.tasks, id);
    GainIsQuotient(t.weight);
    assert t.weight >= 15;
    QuotientBound(61440, 4096, t.weight);
  }

  // Fairness: in every state of the run no task is further ahead than MaxLead.
  lemma {:induction false} FairnessBound(run: seq<Rq>, k: nat, t: Task)
    requires TickRun(run) && LevelStart(run[0]) && k < |run| && t in run[k].tasks
    ensures Steady(run[k]) && t.weight != 0
    ensures t.vruntime <= run[k].tasks[0].vruntime + MaxLead(run[k], t)
  {
    var rq := run[k];
    ViewsRun(run);
    ViewAt(run, 0);
    ViewAt(run, k);
    LevelView(run[0]);
    T.RunStaysBalanced(Views(run), k);
    T.BalancedIsFair(View(rq));
    LookUp(rq.tasks, t);
    InIds(rq.tasks, t.id);
    TaskWeight(rq, t.id);
    LeadInTask(rq, t);
  }

  lemma LeadInTask(rq: Rq, t: Task)
    requires Steady(rq) && T.Wf(View(rq)) && T.Fair(View(rq)) && t in rq.tasks && t.weight != 0
    requires Has(rq.tasks, t.id) && Get(rq.tasks, t.id) == t
    ensures t.vruntime <= rq.tasks[0].vruntime + MaxLead(rq, t)
  {
    var a := View(rq);
    InIds(rq.tasks, t.id);
    InIds(rq.tasks, a.head);
    GetUnique(rq.tasks, a.head, 0);
    TaskWeight(rq, a.head);
    TaskWeight(rq, t.id);
    var j := a.jobs[t.id];
    assert j == JobOf(rq, t);
    LeadProduct(j, MaxLead(rq, t), Slice(rq, t), t.weight);
  }

  lemma LeadProduct(j: T.Job, lead: int, slice: u32, weight: u32)
    requires T.Bounded(j) && weight != 0 && j.slice == slice && j.gain == Gain(weight)
    requires lead == (slice / 60 + 1) * (61440 / weight)
    ensures T.MaxLead(j) == lead
  {
    GainIsQuotient(weight);
    T.GainedIsProduct(j.slice / 60 + 1, j.gain);
  }

  // ----- the slices share out the period -----

  ghost function SliceSum(q: seq<Task>, period: u32, load: u32): int
    requires load != 0
  {
    if q == [] then 0 else CalcDelta(period, q[0].weight, load) + SliceSum(q[1..], period, load)
  }

  lemma ShareIsQuotient(period: u32, w: u32, load: u32)
    requires load != 0 && period * w < TWO32
    ensures var s := CalcDelta(period, w, load); s * load <= period * w < s * load + load
  {
    var x := period * w;
    ModSame(x);
    assert Mul32(period, w) == x;
    assert x == load * (x / load) + x % load;
  }

  lemma {:induction false} SliceSumBounds(q: seq<Task>, period: u32, load: u32)
    requires load != 0 && forall i :: 0 <= i < |q| ==> period * q[i].weight < TWO32
    ensures SliceSum(q, period, load) * load <= period * TotalWeight(q)
    ensures q != [] ==> period * TotalWeight(q) < SliceSum(q, period, load) * load + |q| * load
    ensures q == [] ==> SliceSum(q, period, load) == 0 == TotalWeight(q)
  {
    if q != [] {
      var w, rest := q[0].weight, q[1..];
      SliceSumBounds(rest, period, load);
      ShareIsQuotient(period, w, load);
      SumStep(period, w, TotalWeight(rest), CalcDelta(period, w, load), SliceSum(rest, period, load), |rest|, load);
    }
  }

  lemma SumStep(p: int, w: int, rest: int, s: int, sum: int, n: int, load: int)
    ensures p * (w + rest) == p * w + p * rest
    ensures (s + sum) * load == s * load + sum * load
    ensures (n + 1) * load == n * load + load
  {}

  // The slices sched_slice gives to the tasks of q.
  ghost function SlicesOf(rq: Rq, q: seq<Task>): int
    requires rq.load != 0
  {
    if q == [] then 0 else Slice(rq, q[0]) + SlicesOf(rq, q[1..])
  }

  lemma {:induction false} SlicesAreShares(rq: Rq, q: seq<Task>)
    requires rq.load != 0
    ensures SlicesOf(rq, q) == SliceSum(q, NormalizedPeriod(rq.nrRunning), rq.load)
  {
    if q != [] {
      SliceIsShare(rq, q[0]);
      SlicesAreShares(rq, q[1..]);
    }
  }

  ghost predicate TableWeights(q: seq<Task>) {
    forall t :: t in q ==> t.weight in PRIO_TO_WEIGHT
  }

  // For up to 806 tasks of table weight the slices of the queued tasks add up to
  // the period but for less than one unit each.
  lemma {:induction false} SlicesShareThePeriod(rq: Rq)
    requires Steady(rq) && |rq.tasks| <= 806 && TableWeights(rq.tasks)
    ensures var p := NormalizedPeriod(rq.nrRunning);
      && p == (if |rq.tasks| > 8 then 60 * |rq.tasks| else 480)
      && p - |rq.tasks| < SlicesOf(rq, rq.tasks) <= p
  {
    CountsExact(rq);
    PeriodExact(rq.nrRunning);
    SharesOf(rq.tasks, NormalizedPeriod(rq.nrRunning), rq.load);
    SlicesAreShares(rq, rq.tasks);
  }

  lemma CountsExact(rq: Rq)
    requires Steady(rq) && |rq.tasks| <= 806
    ensures rq.nrRunning == |rq.tasks| != 0 && rq.load == TotalWeight(rq.tasks)
  {}

  // One that is not queued is counted in, with its weight.
  lemma {:induction false} NewcomerSlice(rq: Rq, t: Task, n: u32, load: u32)
    requires Steady(rq) && TableWeights(rq.tasks) && t.weight in PRIO_TO_WEIGHT
    requires n == |rq.tasks| + 1 <= 806 && load == TotalWeight(rq.tasks) + t.weight
    ensures Add32(rq.load, t.weight) == load != 0
    ensures SchedSlice(rq, t, false) == (if n > 8 then 60 * n else 480) * t.weight / load
  {
    CountsExact(rq);
    AddsUp(rq.load, t.weight, load);
    AddsUp(rq.nrRunning, 1, n);
    PeriodExact(n);
    NoOverflow(NormalizedPeriod(n), t.weight);
    NewcomerShare(rq, t, n, load);
    WholeShare(NormalizedPeriod(n), t.weight, load);
  }

  lemma NewcomerShare(rq: Rq, t: Task, n: u32, load: u32)
    requires Add32(rq.load, t.weight) == load != 0 && Add32(rq.nrRunning, 1) == n
    ensures SchedSlice(rq, t, false) == CalcDelta(NormalizedPeriod(n), t.weight, load)
  {}

  lemma AddsUp(a: u32, b: u32, c: u32)
    requires a + b == c
    ensures Add32(a, b) == c
  {}

  // The 32-bit product does not overflow there, and the slice is the share of the
  // true period that the weight is of the true sum of weights.
  lemma {:induction false} SliceIsFairShare(rq: Rq, t: Task)
    requires Steady(rq) && |rq.tasks| <= 806 && TableWeights(rq.tasks) && t in rq.tasks
    ensures var p := if |rq.tasks| > 8 then 60 * |rq.tasks| else 480;
      && p * t.weight < TWO32
      && Slice(rq, t) == p * t.weight / TotalWeight(rq.tasks)
  {
    CountsExact(rq);
    PeriodExact(rq.nrRunning);
    NoOverflow(NormalizedPeriod(rq.nrRunning), t.weight);
    SliceIsShare(rq, t);
    WholeShare(NormalizedPeriod(rq.nrRunning), t.weight, rq.load);
  }

  lemma WholeShare(p: u32, w: u32, load: u32)
    requires load != 0 && p * w < TWO32
    ensures CalcDelta(p, w, load) == p * w / load
  {
    ShareIsQuotient(p, w, load);
    var x, q := p * w, CalcDelta(p, w, load);
    assert load * q == q * load;
    Remainder(x, load, q, x - q * load);
  }

  lemma SharesOf(q: seq<Task>, p: u32, load: u32)
    requires q != [] && p <= 48360 && load == TotalWeight(q) != 0
    requires TableWeights(q)
    ensures p - |q| < SliceSum(q, p, load) <= p
  {
    forall i | 0 <= i < |q| ensures p * q[i].weight < TWO32 {
      assert q[i] in q;
      NoOverflow(p, q[i].weight);
    }
    SliceSumBounds(q, p, load);
    SliceSumNatural(q, p, load);
    CancelLoad(SliceSum(q, p, load), p, |q|, load);
  }

  lemma {:induction false} SliceSumNatural(q: seq<Task>, p: u32, load: u32)
    requires load != 0
    ensures SliceSum(q, p, load) >= 0
  {
    if q != [] {
      SliceSumNatural(q[1..], p, load);
    }
  }

  lemma NoOverflow(p: u32, w: u32)
    requires p <= 48360 && w in PRIO_TO_WEIGHT
    ensures p * w < TWO32
  {
    WeightRange(w);
    MulMono(p, 48360, w);
  }

  lemma WeightRange(w: u32)
    requires w in PRIO_TO_WEIGHT
    ensures 15 <= w <= 88761
  {}

  lemma PeriodExact(nr: u32)
    requires nr <= 806
    ensures NormalizedPeriod(nr) == if nr > 8 then 60 * nr else 480
  {
    PeriodWraps(nr);
  }

  // The period of more than eight entities is sixty units for each, if and only if
  // their product with the granularity fits a word.
  lemma {:induction false} PeriodWraps(nr: u32)
    ensures nr <= 8 ==> NormalizedPeriod(nr) == 480
    ensures nr > 8 ==> NormalizedPeriod(nr) == nr * 1200000 % 0x1_0000_0000 / 20000
    ensures nr > 8 ==> (NormalizedPeriod(nr) == 60 * nr <==> nr <= 3579)
  {
    if nr <= 3579 {
      assert nr * 1200000 % 0x1_0000_0000 == nr * 1200000;
    }
  }

  lemma CancelLoad(s: nat, p: nat, n: nat, load: nat)
    requires load > 0 && s * load <= p * load < s * load + n * load
    ensures p - n < s <= p
  {
    if s > p {
      MulMono(p + 1, s, load);
    }
    if p - n >= s {
      MulMono(s + n, p, load);
    }
  }
}
