// Runs of two tasks: one in which a wait ends within its bound, and ones of every
// length in which it does not end.
module WaitExamples {
  import opened Words
  import opened RbShape
  import opened CfsSpec
  import opened Fairness
  import opened Starvation

  // ----- two tasks of nice 19 -----

  // A level start, a ahead by k ticks, and b after it has taken over.
  ghost function LevelPair(b: RbNode, a: RbNode): Rq {
    Rq([Task(a, 0, 15, 0, 0), Task(b, 0, 15, 0, 0)], a, a, 0, 2, 30, false)
  }

  ghost function LeadPair(b: RbNode, a: RbNode, k: nat): Rq
    requires k <= 5
  {
    Rq([Task(b, 0, 15, 0, 0), Task(a, 4096 * k, 15, 60 * k, 0)], a, b, 0, 2, 30, false)
  }

  ghost function Pair(b: RbNode, a: RbNode): Rq {
    Rq([Task(b, 0, 15, 0, 0), Task(a, 20480, 15, 300, 300)], b, b, 0, 2, 30, false)
  }

  ghost predicate IsPair(rq: Rq) {
    && |rq.tasks| == 2 && rq.tasks[0].id != rq.tasks[1].id && rq.tasks[0].vruntime <= rq.tasks[1].vruntime <= 20480
    && rq.tasks[0].weight == rq.tasks[1].weight == 15
    && rq == Rq(rq.tasks, rq.curr, rq.tasks[0].id, 0, 2, 30, false)
    && (rq.curr == rq.tasks[0].id || rq.curr == rq.tasks[1].id)
  }

  lemma PairSteady(rq: Rq)
    requires IsPair(rq)
    ensures Steady(rq) && rq.tasks == [rq.tasks[0]] + [rq.tasks[1]]
    ensures forall i :: 0 <= i < 2 ==> Has(rq.tasks, rq.tasks[i].id) && Get(rq.tasks, rq.tasks[i].id) == rq.tasks[i]
  {
    var t, u := rq.tasks[0], rq.tasks[1];
    assert rq.tasks[1..] == [u] && [u][1..] == [];
    assert TotalWeight(rq.tasks) == 15 + TotalWeight([u]) && TotalWeight([u]) == 15 + TotalWeight([]);
    GetUnique(rq.tasks, t.id, 0);
    GetUnique(rq.tasks, u.id, 1);
  }

  lemma PairSlice(rq: Rq, t: Task)
    requires rq.nrRunning == 2 && rq.load == 30 && t.weight == 15
    ensures NormalizedPeriod(rq.nrRunning) == 480 && Slice(rq, t) == CalcDelta(480, 15, 30) == 240
  {
    SliceIsShare(rq, t);
  }

  lemma PairRequeue(rq: Rq, t: Task, other: Task)
    requires IsPair(rq) && t in rq.tasks && rq.curr == t.id && other in rq.tasks && other.id != t.id
    requires other.vruntime == 0 && t.sum + 60 < TWO32
    ensures Steady(rq) && Get(rq.tasks, t.id) == t
    ensures var t' := t.(vruntime := t.vruntime + 4096, sum := t.sum + 60);
      Charged(t, TICK) == t' == Ticked(t) && Enqueued(Dequeued(rq.tasks, t.id), t') == [other, t']
  {
    PairSteady(rq);
    GainIsQuotient(15);
    TickedIsCharged(t);
    var t' := Ticked(t);
    assert Dequeued(rq.tasks, t.id) == [other];
    assert Enqueued([], t') == [t'] && Enqueued([other], t') == [other, t'];
  }

  // The charged runner goes behind the other one, and the minimum stays 0.
  lemma PairCharge(rq: Rq, t: Task, other: Task)
    requires IsPair(rq) && t in rq.tasks && rq.curr == t.id && other in rq.tasks && other.id != t.id
    requires other.vruntime == 0 && t.sum + 60 < TWO32
    ensures var t' := t.(vruntime := t.vruntime + 4096, sum := t.sum + 60);
      Steady(rq) && NoClamp(rq) && Runner(rq) == t' && Requeued(rq) == [other, t']
    ensures ChargeCurr(rq, TICK).minVruntime == 0
  {
    PairRequeue(rq, t, other);
    RequeuedLow(rq);
    UpdateMinVruntimeOk(EnqueueEntity(DequeueEntity(rq, t.id), Charged(t, TICK)));
    NotNear(ChargeCurr(rq, TICK));
  }

  lemma SavedTwo(t: Task, u: Task)
    requires t.id != u.id
    ensures Saved([t, u], u.id) == [t, u.(prev := u.sum)]
  {
    assert Saved([], u.id) == [] && Saved([u], u.id) == [u.(prev := u.sum)];
    assert [t, u][1..] == [u];
  }

  lemma PairTick(rq: Rq, t: Task, other: Task)
    requires IsPair(rq) && t in rq.tasks && rq.curr == t.id && other in rq.tasks && other.id != t.id
    requires other.vruntime == 0 && t.sum + 60 < TWO32
    ensures Steady(rq) && NoClamp(rq)
    ensures var t' := t.(vruntime := t.vruntime + 4096, sum := t.sum + 60);
      Tick(rq) == if Sub32(t'.sum, t'.prev) > 240
                  then Rq([other, t'.(prev := t'.sum)], other.id, other.id, 0, 2, 30, false)
                  else Rq([other, t'], t.id, other.id, 0, 2, 30, false)
  {
    PairCharge(rq, t, other);
    var t' := Runner(rq);
    PairSlice(rq, t');
    TickShape(rq);
    TickMin(rq);
    SavedTwo(other, t');
    assert Tick(rq) == Rq(Tick(rq).tasks, Tick(rq).curr, other.id, 0, 2, 30, false);
  }

  lemma RanSinceZero(sum: u32)
    ensures Sub32(sum, 0) == sum
  {}

  lemma LeadStep(rq: Rq, t: Task, u: Task)
    requires t.id != u.id && t.vruntime == 0 && t.weight == u.weight == 15 && u.vruntime <= 20480
    requires u.sum + 60 < TWO32 && u.prev == 0 && rq == Rq([t, u], u.id, t.id, 0, 2, 30, false)
    ensures Steady(rq) && NoClamp(rq)
    ensures var u' := u.(vruntime := u.vruntime + 4096, sum := u.sum + 60);
      Tick(rq) == if u.sum + 60 > 240
                  then Rq([t, u'.(prev := u'.sum)], t.id, t.id, 0, 2, 30, false)
                  else Rq([t, u'], u.id, t.id, 0, 2, 30, false)
  {
    assert rq.tasks[0] == t && rq.tasks[1] == u && t in rq.tasks && u in rq.tasks;
    RanSinceZero(u.sum + 60);
    PairTick(rq, u, t);
  }

  lemma LeadTick(b: RbNode, a: RbNode, k: nat)
    requires a != b && 1 <= k <= 4
    ensures var rq := LeadPair(b, a, k);
      Steady(rq) && NoClamp(rq) && Tick(rq) == if k < 4 then LeadPair(b, a, k + 1) else Pair(b, a)
  {
    LeadStep(LeadPair(b, a, k), Task(b, 0, 15, 0, 0), Task(a, 4096 * k, 15, 60 * k, 0));
  }

  lemma LevelTick(b: RbNode, a: RbNode)
    requires a != b
    ensures var rq := LevelPair(b, a);
      Steady(rq) && NoClamp(rq) && LevelStart(rq) && Tick(rq) == LeadPair(b, a, 1)
  {
    var rq := LevelPair(b, a);
    assert rq.tasks[0] in rq.tasks && rq.tasks[1] in rq.tasks;
    PairTick(rq, rq.tasks[0], rq.tasks[1]);
    assert 15 == PRIO_TO_WEIGHT[39];
  }

  // Five ticks lead from the level start to b at 0 and current and a at 20480.
  lemma {:induction false} PairReached(b: RbNode, a: RbNode) returns (run: seq<Rq>)
    requires a != b
    ensures |run| == 6 && TickRun(run) && run[0] == LevelPair(b, a) && run[5] == Pair(b, a)
    ensures LevelStart(run[0])
  {
    LevelTick(b, a);
    var rest := PairOn(b, a, 1);
    run := RunFrom(LevelPair(b, a), rest);
  }

  lemma {:induction false} PairOn(b: RbNode, a: RbNode, k: nat) returns (run: seq<Rq>)
    requires a != b && 1 <= k <= 4
    ensures |run| == 6 - k && TickRun(run) && run[0] == LeadPair(b, a, k) && run[5 - k] == Pair(b, a)
    decreases 4 - k
  {
    LeadTick(b, a, k);
    var rest;
    if k < 4 {
      rest := PairOn(b, a, k + 1);
    } else {
      PairSteady(Pair(b, a));
      rest := [Pair(b, a)];
    }
    run := RunFrom(LeadPair(b, a, k), rest);
  }

  lemma PairBound(b: RbNode, a: RbNode)
    requires a != b
    ensures Waits(Pair(b, a), a) && WaitBound(Pair(b, a), a) == 12 && Clear(Pair(b, a), a)
    ensures !HeavyBelow(Pair(b, a).tasks, VruntimeOf(Pair(b, a), a))
  {
    var rq := Pair(b, a);
    var t, u := rq.tasks[0], rq.tasks[1];
    PairSteady(rq);
    PairSlice(rq, t);
    PairSlice(rq, u);
    GainIsQuotient(15);
    assert rq.tasks[1..] == [u];
    assert Ahead(480, 30, [u], a, 20480) == 0;
    assert Room(480, 30, t, 20480) == 12;
  }

  // There a waits at most twelve ticks: runs longer than that exist, and the ticks
  // lead to a.
  lemma {:induction false} PairRuns(b: RbNode, a: RbNode, n: nat) returns (run: seq<Rq>, k: nat)
    requires a != b && 12 <= n <= 500_000
    ensures |run| == n + 1 && run[0] == Pair(b, a) && TickRun(run)
    ensures Waits(run[0], a) && |run| > WaitBound(run[0], a)
    ensures k <= 12 && run[k].curr == a
  {
    PairBound(b, a);
    GainIsQuotient(15);
    MulMono(n, 500_000, 4096);
    run := LongRun(Pair(b, a), n);
    k := NoStarvation(run, a);
  }

  // ----- a run that starves a task -----

  // Nice -20 at vruntime 0 and current, nice 0 at vruntime 1.
  ghost predicate Stuck(rq: Rq, y: RbNode, x: RbNode) {
    && x != y && |rq.tasks| == 2
    && rq.tasks[0] == Task(y, 0, 88761, rq.tasks[0].sum, rq.tasks[0].prev)
    && rq.tasks[1] == Task(x, 1, 1024, 0, 0)
    && rq == Rq(rq.tasks, y, y, 0, 2, 89785, false)
  }

  lemma StuckTick(rq: Rq, y: RbNode, x: RbNode)
    requires Stuck(rq, y, x)
    ensures Steady(rq) && NoClamp(rq) && Stuck(Tick(rq), y, x)
  {
    StuckSteady(rq, y, x);
    var a, b := rq.tasks[0], rq.tasks[1];
    GainIsQuotient(88761);
    TickedIsCharged(a);
    assert rq.tasks[1..] == [b];
    assert Dequeued(rq.tasks, y) == [b];
    assert Enqueued([b], Ticked(a)) == [Ticked(a), b];
    StuckCharge(rq, y, x);
    TickShape(rq);
    TickHead(rq);
    PreemptShape(rq);
    ChargeShape(rq);
  }

  lemma StuckSteady(rq: Rq, y: RbNode, x: RbNode)
    requires Stuck(rq, y, x)
    ensures Steady(rq) && Get(rq.tasks, y) == rq.tasks[0]
  {
    var b := rq.tasks[1];
    assert rq.tasks[1..] == [b] && [b][1..] == [];
    assert TotalWeight(rq.tasks) == 88761 + TotalWeight([b]) && TotalWeight([b]) == 1024 + TotalWeight([]);
    assert rq.tasks[0].id == y;
  }

  lemma StuckCharge(rq: Rq, y: RbNode, x: RbNode)
    requires Stuck(rq, y, x) && Steady(rq) && Get(rq.tasks, y) == rq.tasks[0]
    requires Charged(rq.tasks[0], TICK).vruntime == 0 && Dequeued(rq.tasks, y) == [rq.tasks[1]]
    requires Enqueued([rq.tasks[1]], Charged(rq.tasks[0], TICK)) == [Charged(rq.tasks[0], TICK), rq.tasks[1]]
    ensures ChargeCurr(rq, TICK).minVruntime == 0
  {
    var t := Charged(rq.tasks[0], TICK);
    DequeuedOk(rq.tasks, y);
    EnqueuedOk(Dequeued(rq.tasks, y), t);
    UpdateMinVruntimeOk(EnqueueEntity(DequeueEntity(rq, y), t));
  }

  ghost function StuckStart(y: RbNode, x: RbNode): Rq {
    Rq([Task(y, 0, 88761, 0, 0), Task(x, 1, 1024, 0, 0)], y, y, 0, 2, 89785, false)
  }

  // There are clamp-free runs of every length in which x waits to the end.
  lemma {:induction false} Starves(y: RbNode, x: RbNode, n: nat) returns (run: seq<Rq>)
    requires x != y
    ensures |run| == n + 1 && run[0] == StuckStart(y, x) && TickRun(run)
    ensures forall k :: 0 <= k <= n ==> Has(run[k].tasks, x) && run[k].curr != x
  {
    run := StarvesOn(StuckStart(y, x), y, x, n);
  }

  lemma {:induction false} StarvesOn(rq: Rq, y: RbNode, x: RbNode, n: nat) returns (run: seq<Rq>)
    requires Stuck(rq, y, x)
    ensures |run| == n + 1 && run[0] == rq && TickRun(run)
    ensures forall k :: 0 <= k <= n ==> Has(run[k].tasks, x) && run[k].curr != x
    decreases n
  {
    StuckTick(rq, y, x);
    assert rq.tasks[1].id == x;
    if n == 0 {
      run := [rq];
    } else {
      var rest := StarvesOn(Tick(rq), y, x, n - 1);
      run := RunFrom(rq, rest);
    }
  }
}
