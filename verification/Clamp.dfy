// What the charge of update_curr does at the clamp, in numbers: where the vruntime
// stops, how a run of ticks gets there, and from where the queue starts again.
module Clamp {
  import opened Arith
  import opened Words
  import opened RbShape
  import opened CfsSpec

  // Neighbouring weights differ by a quarter, give or take, and nice 0 has 1024.
  lemma {:induction false} WeightsFall(nice: int)
    requires -20 <= nice < 19
    ensures |PRIO_TO_WEIGHT| == 40 && PRIO_TO_WEIGHT[20] == 1024
    ensures 6 * PRIO_TO_WEIGHT[nice + 21] <= 5 * PRIO_TO_WEIGHT[nice + 20]
    ensures 25 * PRIO_TO_WEIGHT[nice + 20] <= 32 * PRIO_TO_WEIGHT[nice + 21]
  {}

  lemma SumBelow(a: nat, b: nat)
    ensures a + b < TWO32 ==> (a + b) % TWO32 == a + b
    ensures TWO32 <= a + b < 2 * TWO32 ==> (a + b) % TWO32 == a + b - TWO32
  {}

  // The charge leaves every other task alone. The one charged stops at the clamp,
  // unless the 32-bit sum wraps before it is compared.
  lemma {:induction false} ChargeExact(rq: Rq, delta: u32, id: RbNode)
    requires Ok(rq) && CanCharge(rq)
    ensures var q, q' := rq.tasks, ChargeCurr(rq, delta).tasks;
      && |q'| == |q| && (Has(q', id) <==> Has(q, id))
      && (id != rq.curr && Has(q, id) ==> Get(q', id) == Get(q, id))
      && (id == rq.curr ==>
            var t, t' := Get(q, id), Get(q', id);
            var v := t.vruntime + (if t.weight == 1024 then delta else delta * 1024 % 0x1_0000_0000 / t.weight);
            && t'.vruntime == (if v < 2147483647 then v
                               else if v < 0x1_0000_0000 then 2147483647 else v - 0x1_0000_0000)
            && t'.weight == t.weight && t'.prev == t.prev && t'.sum == (t.sum + delta) % 0x1_0000_0000)
  {
    var t := Get(rq.tasks, rq.curr);
    var t' := Charged(t, delta);
    var d := CalcDeltaFair(delta, t.weight);
    CurrOk(rq);
    SumBelow(t.vruntime, d);
    ChargeCurrOk(rq, delta);
    DequeuedOk(rq.tasks, rq.curr);
    EnqueuedOk(Dequeued(rq.tasks, rq.curr), t');
    DequeuedGet(rq.tasks, rq.curr, id);
    EnqueuedGet(Dequeued(rq.tasks, rq.curr), t', id);
  }

  lemma CurrOk(rq: Rq)
    requires Ok(rq) && CanCharge(rq)
    ensures TaskOk(Get(rq.tasks, rq.curr))
  {
    var t := Get(rq.tasks, rq.curr);
    var i :| 0 <= i < |rq.tasks| && rq.tasks[i] == t;
  }

  // The clamp holds if and only if the sum fits the word.
  lemma {:induction false} ClampHoldsIff(rq: Rq, delta: u32, sum: int)
    requires Ok(rq) && CanCharge(rq)
    requires var t := Get(rq.tasks, rq.curr); sum == t.vruntime + CalcDeltaFair(delta, t.weight)
    ensures var q' := ChargeCurr(rq, delta).tasks;
      && Has(q', rq.curr)
      && (Get(q', rq.curr).vruntime == (if sum < 2147483647 then sum else 2147483647) <==> sum < 0x1_0000_0000)
  {
    var t := Get(rq.tasks, rq.curr);
    CurrOk(rq);
    ChargeExact(rq, delta, rq.curr);
    assert CalcDeltaFair(delta, t.weight) < 0x1_0000_0000;
  }

  // An entity at the clamp, charged 2^31 + 1 units, starts from 0.
  lemma {:induction false} ChargeWraps(a: RbNode)
    ensures var rq := Rq([Task(a, 2147483647, 1024, 0, 0)], a, a, 2147483647, 1, 1024, false);
      && Ok(rq) && CanCharge(rq) && var q' := ChargeCurr(rq, 0x8000_0001).tasks;
      Has(q', a) && Get(q', a).vruntime == 0
  {
    var t := Task(a, 2147483647, 1024, 0, 0);
    var rq := Rq([t], a, a, 2147483647, 1, 1024, false);
    assert rq.tasks[0].id == a && Get(rq.tasks, a) == t;
    assert TotalWeight(rq.tasks) == 1024 + TotalWeight([]);
    ChargeExact(rq, 0x8000_0001, a);
  }

  // No reading of the 32-bit clock, in units of time, is enough to wrap the sum.
  lemma {:induction false} ClockFits(rq: Rq, clock: u32, delta: u32, gain: int)
    requires Ok(rq) && CanCharge(rq) && delta == clock / 20000
    requires gain == delta * 1024 / Get(rq.tasks, rq.curr).weight
    ensures var t, q' := Get(rq.tasks, rq.curr), ChargeCurr(rq, delta).tasks;
      && Has(q', rq.curr)
      && Get(q', rq.curr).vruntime == if t.vruntime + gain < 2147483647 then t.vruntime + gain else 2147483647
  {
    var t := Get(rq.tasks, rq.curr);
    CurrOk(rq);
    UnitsBelow(clock, delta);
    PlainGain(delta, t.weight, gain);
    ChargeExact(rq, delta, rq.curr);
  }

  lemma UnitsBelow(clock: u32, delta: u32)
    requires delta == clock / 20000
    ensures delta <= 214748
  {}

  // Up to 2^32 / 20000 units the product with 1024 fits a word and half of it is left.
  lemma PlainGain(delta: u32, w: u32, gain: int)
    requires w > 0 && delta <= 214748 && gain == delta * 1024 / w
    ensures gain == (if w == 1024 then delta else delta * 1024 % 0x1_0000_0000 / w) < 0x8000_0000
  {
    var x := delta * 1024;
    assert x % 0x1_0000_0000 == x;
    QuotientAtMost(x, w);
  }

  lemma QuotientAtMost(x: nat, w: nat)
    requires w > 0
    ensures x / w <= x
  {
    assert x == w * (x / w) + x % w;
    Grow(w, x / w);
  }

  // ----- the tick -----

  // Where the vruntime of a task stands once the running one is charged for a tick.
  ghost function Reached(rq: Rq, id: RbNode): int
    requires CanCharge(rq) && Has(rq.tasks, id)
  {
    var t := Get(rq.tasks, id);
    if id != rq.curr then t.vruntime
    else if t.vruntime + 61440 / t.weight < 2147483647 then t.vruntime + 61440 / t.weight else 2147483647
  }

  lemma ReachedIs(rq: Rq, id: RbNode)
    requires Ok(rq) && CanCharge(rq) && Has(rq.tasks, id)
    ensures var q' := ChargeCurr(rq, TICK).tasks;
      Has(q', id) && Get(q', id).vruntime == Reached(rq, id) && Get(q', id).weight == Get(rq.tasks, id).weight
  {
    ChargeExact(rq, TICK, id);
    if id == rq.curr {
      ClockFits(rq, 1200000, TICK, 61440 / Get(rq.tasks, id).weight);
    }
  }

  // The vruntimes start again when the minimum, or all of them, come within ten units
  // of the clamp.
  ghost predicate Restarts(rq: Rq)
    requires CanCharge(rq)
  {
    rq.minVruntime + 10 >= 2147483647 || forall t :: t in rq.tasks ==> Reached(rq, t.id) + 10 >= 2147483647
  }

  lemma {:induction false} RestartsIff(rq: Rq)
    requires Ok(rq) && CanCharge(rq)
    ensures AllNearOverflow(ChargeCurr(rq, TICK)) <==> Restarts(rq)
  {
    var rq' := ChargeCurr(rq, TICK);
    ChargedMinimum(rq);
    NearClamp(rq', rq.minVruntime, rq'.tasks[0].vruntime);
    RestartsWhen(rq, rq'.tasks[0].vruntime);
  }

  lemma NearClamp(rq: Rq, least: u32, head: u32)
    requires rq.minVruntime == (if least < head then head else least) <= 2147483647
    ensures AllNearOverflow(rq) <==> least + 10 >= 2147483647 || head + 10 >= 2147483647
  {}

  lemma RestartsWhen(rq: Rq, head: u32)
    requires Ok(rq) && CanCharge(rq)
    requires var q' := ChargeCurr(rq, TICK).tasks; q' != [] && q'[0].vruntime == head
    ensures Restarts(rq) <==> rq.minVruntime + 10 >= 2147483647 || head + 10 >= 2147483647
  {
    var h := LeastReached(rq, head);
  }

  // The head of the charged queue has the least vruntime reached.
  lemma LeastReached(rq: Rq, head: u32) returns (h: Task)
    requires Ok(rq) && CanCharge(rq)
    requires var q' := ChargeCurr(rq, TICK).tasks; q' != [] && q'[0].vruntime == head
    ensures h in rq.tasks && Reached(rq, h.id) == head
    ensures forall t :: t in rq.tasks ==> Reached(rq, t.id) >= head
  {
    ChargedMinimum(rq);
    var q' := ChargeCurr(rq, TICK).tasks;
    GetUnique(q', q'[0].id, 0);
    ChargeExact(rq, TICK, q'[0].id);
    h := Get(rq.tasks, q'[0].id);
    ReachedIs(rq, h.id);
    forall t | t in rq.tasks ensures Reached(rq, t.id) >= head {
      LookUp(rq.tasks, t);
      ReachedIs(rq, t.id);
      HeadIsLeast(q', t.id);
    }
  }

  lemma ChargedMinimum(rq: Rq)
    requires Ok(rq) && CanCharge(rq)
    ensures var rq' := ChargeCurr(rq, TICK);
      && rq'.tasks != [] && QueueOk(rq'.tasks)
      && rq'.minVruntime <= 2147483647
      && rq'.minVruntime == if rq.minVruntime < rq'.tasks[0].vruntime then rq'.tasks[0].vruntime else rq.minVruntime
  {
    var t := Charged(Get(rq.tasks, rq.curr), TICK);
    ChargeCurrOk(rq, TICK);
    ChargeSteps(rq, rq, TICK);
    UpdateMinVruntimeOk(EnqueueEntity(DequeueEntity(rq, rq.curr), t));
  }

  // Behind the charge a tick changes no vruntime, weight or runtime but by the reset.
  lemma TickBehindCharge(rq: Rq, id: RbNode)
    requires CanTick(rq) && !NullPick(rq)
    ensures var q1, q' := ChargeCurr(rq, TICK).tasks, Tick(rq).tasks;
      && |q'| == |q1| && (Has(q', id) <==> Has(q1, id))
      && (Has(q1, id) ==>
            var t, t' := Get(q1, id), Get(q', id);
            && t'.vruntime == (if AllNearOverflow(ChargeCurr(rq, TICK)) then 0 else t.vruntime)
            && t'.weight == t.weight && t'.sum == t.sum)
  {
    PreemptedIs(rq, UpdateCurr(rq, TICK));
    SettledGet(ChargeCurr(rq, TICK), id);
    SavedKeeps(UpdateCurr(rq, TICK).tasks, rq.curr);
    SavedGet(UpdateCurr(rq, TICK).tasks, rq.curr, id);
  }

  lemma SettledGet(rq: Rq, id: RbNode)
    ensures var q, q' := rq.tasks, Settled(rq).tasks;
      && |q'| == |q| && (Has(q', id) <==> Has(q, id))
      && (Has(q, id) ==> Get(q', id) == if AllNearOverflow(rq) then Get(q, id).(vruntime := 0) else Get(q, id))
  {
    ResetKeeps(rq.tasks);
    ResetHas(rq.tasks, id);
    if Has(rq.tasks, id) {
      ResetGet(rq.tasks, id);
    }
  }

  // A tick, task by task, at the clamp and away from it.
  lemma {:induction false} TickExact(rq: Rq, id: RbNode)
    requires CanTick(rq) && !NullPick(rq)
    ensures var q, q' := rq.tasks, Tick(rq).tasks;
      && |q'| == |q| && (Has(q', id) <==> Has(q, id))
      && (Has(q, id) ==>
            var t, t' := Get(q, id), Get(q', id);
            && t'.vruntime == (if Restarts(rq) then 0 else Reached(rq, id))
            && t'.weight == t.weight && t'.sum == if id == rq.curr then (t.sum + 60) % 0x1_0000_0000 else t.sum)
  {
    TickBehindCharge(rq, id);
    RestartsIff(rq);
    ChargeExact(rq, TICK, id);
    if Has(rq.tasks, id) {
      ReachedIs(rq, id);
    }
  }

  lemma {:induction false} ResetHas(q: seq<Task>, id: RbNode)
    ensures Has(Reset(q), id) <==> Has(q, id)
  {
    if q != [] {
      HasTail(q, id);
      HasTail(Reset(q), id);
      ResetHas(q[1..], id);
    }
  }

  // After a restart the queue stands at 0 in the old order, and the next tick does
  // not restart it again.
  lemma {:induction false} RestartedOnce(rq: Rq)
    requires CanTick(rq) && !NullPick(rq) && Restarts(rq)
    ensures Tick(rq).minVruntime == 0 && CanTick(Tick(rq)) && !Restarts(Tick(rq))
    ensures forall t :: t in Tick(rq).tasks ==> t.vruntime == 0
    ensures var q, q' := ChargeCurr(rq, TICK).tasks, Tick(rq).tasks;
      |q'| == |q| && forall i :: 0 <= i < |q| ==> q'[i].id == q[i].id
  {
    TickOk(rq);
    RestartsIff(rq);
    ResetShape(rq);
    AtZero(Tick(rq));
  }

  lemma ResetShape(rq: Rq)
    requires CanTick(rq) && AllNearOverflow(ChargeCurr(rq, TICK))
    ensures var q, q' := ChargeCurr(rq, TICK).tasks, Tick(rq).tasks;
      && Tick(rq).minVruntime == 0
      && |q'| == |q| && (forall i :: 0 <= i < |q| ==> q'[i].id == q[i].id && q'[i].vruntime == 0)
  {
    PreemptedIs(rq, UpdateCurr(rq, TICK));
    ResetKeeps(ChargeCurr(rq, TICK).tasks);
    SavedKeeps(UpdateCurr(rq, TICK).tasks, rq.curr);
  }

  lemma AtZero(rq: Rq)
    requires CanCharge(rq) && rq.minVruntime == 0
    requires forall t :: t in rq.tasks ==> t.vruntime == 0
    ensures !Restarts(rq)
  {
    var t := Get(rq.tasks, rq.curr);
    QuotientAtMost(61440, t.weight);
    assert t in rq.tasks && t.id == rq.curr;
  }

  // ----- runs -----

  // Ticks in a row that leave the same task current and restart nothing.
  ghost predicate Holds(run: seq<Rq>, c: RbNode) {
    && run != [] && CanTick(run[0]) && run[0].curr == c
    && (|run| > 1 ==> !NullPick(run[0]) && !Restarts(run[0]) && run[1] == Tick(run[0]) && Holds(run[1..], c))
  }

  // The vruntime of the running task grows with every tick until it is at the clamp,
  // and stays there.
  lemma {:induction false} RunnerSaturates(run: seq<Rq>, c: RbNode, gain: nat, top: int)
    requires Holds(run, c) && 61440 / Get(run[0].tasks, c).weight == gain
    requires top == Get(run[0].tasks, c).vruntime + (|run| - 1) * gain
    ensures var last := run[|run| - 1];
      Has(last.tasks, c) && Get(last.tasks, c).vruntime == if top < 2147483647 then top else 2147483647
    decreases |run|
  {
    CurrOk(run[0]);
    if |run| > 1 {
      var rest, v := run[1..], Get(run[0].tasks, c).vruntime;
      var n := |rest| - 1;
      assert rest[n] == run[|run| - 1];
      RunnerTick(run[0], rest[0], gain);
      var v' := Get(rest[0].tasks, c).vruntime;
      RunnerSaturates(rest, c, gain, v' + n * gain);
      Climb(v, v', n, |run| - 1, gain, top, v' + n * gain);
    }
  }

  lemma Climb(v: int, v': int, n: nat, next: nat, gain: nat, top: int, top': int)
    requires next == n + 1 && top == v + next * gain && top' == v' + n * gain
    requires v' == if v + gain < 2147483647 then v + gain else 2147483647
    ensures (if top' < 2147483647 then top' else 2147483647) == if top < 2147483647 then top else 2147483647
  {
    assert next * gain == n * gain + gain;
    assert n * gain >= 0;
  }

  lemma RunnerTick(rq: Rq, rq': Rq, gain: nat)
    requires CanTick(rq) && !NullPick(rq) && !Restarts(rq) && rq' == Tick(rq)
    requires 61440 / Get(rq.tasks, rq.curr).weight == gain
    ensures Has(rq'.tasks, rq.curr)
    ensures var t, t' := Get(rq.tasks, rq.curr), Get(rq'.tasks, rq.curr);
      && t'.weight == t.weight
      && t'.vruntime == if t.vruntime + gain < 2147483647 then t.vruntime + gain else 2147483647
  {
    TickExact(rq, rq.curr);
  }

  // Ticks in a row that leave the same task current.
  ghost predicate Stays(run: seq<Rq>, c: RbNode) {
    && run != [] && CanTick(run[0]) && run[0].curr == c
    && (|run| > 1 ==> !NullPick(run[0]) && run[1] == Tick(run[0]) && Stays(run[1..], c))
  }

  // c is at the clamp, or the next tick restarts the vruntimes.
  ghost predicate AtTheEnd(rq: Rq, c: RbNode) {
    Has(rq.tasks, c) && (Get(rq.tasks, c).vruntime == 2147483647 || (CanCharge(rq) && Restarts(rq)))
  }

  lemma {:induction false} StaysHolds(run: seq<Rq>, c: RbNode)
    requires Stays(run, c) && forall k :: 0 <= k < |run| ==> !AtTheEnd(run[k], c)
    ensures Holds(run, c)
    decreases |run|
  {
    if |run| > 1 {
      assert !AtTheEnd(run[0], c);
      forall k | 0 <= k < |run[1..]| ensures !AtTheEnd(run[1..][k], c) {
        assert !AtTheEnd(run[k + 1], c);
      }
      StaysHolds(run[1..], c);
    }
  }

  // As many ticks as would carry the running task past the clamp lead it to the clamp
  // or to a restart.
  lemma {:induction false} ClampOrRestart(run: seq<Rq>, c: RbNode, gain: nat, top: int)
    requires Stays(run, c) && 61440 / Get(run[0].tasks, c).weight == gain
    requires top == Get(run[0].tasks, c).vruntime + (|run| - 1) * gain >= 2147483647
    ensures exists k :: 0 <= k < |run| && AtTheEnd(run[k], c)
  {
    if forall k :: 0 <= k < |run| ==> !AtTheEnd(run[k], c) {
      StaysHolds(run, c);
      RunnerSaturates(run, c, gain, top);
      assert AtTheEnd(run[|run| - 1], c);
    }
  }

  // Two tasks of weight 15 close to the clamp: one tick brings the first to it.
  ghost function NearPair(a: RbNode, b: RbNode): Rq {
    Rq([Task(b, 2147482000, 15, 0, 0), Task(a, 2147483000, 15, 0, 0)], a, b, 2147482000, 2, 30, false)
  }

  lemma {:induction false} ClampMet(a: RbNode, b: RbNode)
    requires a != b
    ensures CanTick(NearPair(a, b)) && Holds([NearPair(a, b), Tick(NearPair(a, b))], a)
    ensures Has(Tick(NearPair(a, b)).tasks, a) && Get(Tick(NearPair(a, b)).tasks, a).vruntime == 2147483647
  {
    var rq := NearPair(a, b);
    NearPairOk(a, b, rq);
    TickExact(rq, a);
    TickOk(rq);
    NearPairStays(a, b, rq);
    assert [rq, Tick(rq)][1..] == [Tick(rq)];
  }

  lemma NearPairOk(a: RbNode, b: RbNode, rq: Rq)
    requires a != b && rq == NearPair(a, b)
    ensures CanTick(rq) && !NullPick(rq) && Has(rq.tasks, a) && Get(rq.tasks, a) == rq.tasks[1]
    ensures !Restarts(rq)
  {
    var q := rq.tasks;
    assert q[0].id == b && q[1].id == a && q[1..] == [q[1]] && [q[1]][1..] == [];
    assert TotalWeight(q) == 15 + TotalWeight([q[1]]) && TotalWeight([q[1]]) == 15 + TotalWeight([]);
    GetUnique(q, a, 1);
    GetUnique(q, b, 0);
    assert q[0] in q && Reached(rq, q[0].id) == 2147482000;
  }

  // It has run for 60 of the 240 units of its slice.
  lemma NearPairStays(a: RbNode, b: RbNode, rq: Rq)
    requires a != b && rq == NearPair(a, b) && CanTick(rq) && Has(rq.tasks, a) && Get(rq.tasks, a) == rq.tasks[1]
    ensures Tick(rq).curr == a
  {
    NearPairSlice(rq, rq.tasks[1]);
    NotDue(rq, rq.tasks[1]);
  }

  lemma NotDue(rq: Rq, t: Task)
    requires CanTick(rq) && t == Get(rq.tasks, rq.curr) && !rq.needSched && t.sum == t.prev == 0
    requires SchedSlice(rq, t, true) >= 60
    ensures Tick(rq).curr == rq.curr
  {
    assert Sub32(Add32(0, TICK), 0) == 60;
    ChargedFlag(rq);
    StaysUnflagged(rq);
  }

  lemma NearPairSlice(rq: Rq, t: Task)
    requires rq.nrRunning == 2 && rq.load == 30 && t.weight == 15
    ensures SchedSlice(rq, t, true) == 240
  {
    assert NormalizedPeriod(2) == 480 && Add32(2, 0) == 2;
    assert Mul32(480, 15) == 7200;
  }

  lemma StaysUnflagged(rq: Rq)
    requires CanTick(rq) && !Preempted(rq).needSched
    ensures Tick(rq).curr == rq.curr
  {
    PreemptedIs(rq, UpdateCurr(rq, TICK));
  }
}
