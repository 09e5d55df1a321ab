// Who waits for ever: over runs of ticks a waiting task becomes current, unless a
// task that gains nothing from a tick stands strictly below it.
module Starvation {
  import opened Arith
  import opened Words
  import opened RbShape
  import opened CfsSpec
  import opened Fairness

  ghost function VruntimeOf(rq: Rq, x: RbNode): u32
    requires Has(rq.tasks, x)
  {
    Get(rq.tasks, x).vruntime
  }

  // A tick of 60 units is worth less than one unit of vruntime to t.
  ghost predicate Heavy(t: Task, v: u32) {
    t.weight > 61440 && t.vruntime < v
  }

  ghost predicate HeavyBelow(q: seq<Task>, v: u32) {
    exists t :: t in q && Heavy(t, v)
  }

  ghost predicate Blocks(q: seq<Task>, y: RbNode, v: u32) {
    Has(q, y) && Heavy(Get(q, y), v)
  }

  // ----- kept out -----

  // Whoever is current, the heavy task stays below x, so x is never the first of
  // the queue.
  lemma BlockedTick(rq: Rq, x: RbNode, y: RbNode)
    requires Steady(rq) && NoClamp(rq) && Has(rq.tasks, x) && rq.curr != x && Blocks(rq.tasks, y, VruntimeOf(rq, x))
    ensures var b := Tick(rq);
      Steady(b) && Has(b.tasks, x) && b.curr != x && VruntimeOf(b, x) == VruntimeOf(rq, x)
      && Blocks(b.tasks, y, VruntimeOf(b, x))
  {
    TickShape(rq);
    TickGet(rq, x);
    TickGet(rq, y);
    TaskWeight(rq, y);
    GainIsQuotient(Get(rq.tasks, y).weight);
    if Switches(rq) {
      TickHead(rq);
      HeadLeads(Tick(rq), y);
    }
  }

  lemma {:induction false} KeptOut(run: seq<Rq>, x: RbNode, y: RbNode, k: nat)
    requires TickRun(run) && Has(run[0].tasks, x) && run[0].curr != x && k < |run|
    requires Blocks(run[0].tasks, y, VruntimeOf(run[0], x))
    ensures run[k].curr != x
  {
    if k > 0 {
      BlockedTick(run[0], x, y);
      KeptOut(run[1..], x, y, k - 1);
    }
  }

  // ----- who is ahead in the queue -----

  ghost predicate Precedes(q: seq<Task>, c: RbNode, x: RbNode) {
    q != [] && q[0].id != x && (q[0].id == c || Precedes(q[1..], c, x))
  }

  // Ticks t may take before a task at vruntime v runs: those that bring it level, one
  // more, and once a slice. p and load are the period and the weights it is cut by.
  ghost function Room(p: u32, load: u32, t: Task, v: int): int
    requires load != 0
  {
    CatchUp(t, v) + 1 + SliceTicks(p, load, t)
  }

  ghost function CatchUp(t: Task, v: int): int {
    if t.weight == 0 || Gain(t.weight) == 0 then 0 else (v - t.vruntime) / Gain(t.weight)
  }

  // The ticks of a whole slice, and of the test that ends it.
  ghost function SliceTicks(p: u32, load: u32, t: Task): int
    requires load != 0
  {
    CalcDelta(p, t.weight, load) / 60 + 2
  }

  // The room of the tasks ahead of x.
  ghost function Ahead(p: u32, load: u32, q: seq<Task>, x: RbNode, v: int): int
    requires load != 0
  {
    if q == [] || q[0].id == x then 0 else Room(p, load, q[0], v) + Ahead(p, load, q[1..], x, v)
  }

  lemma {:induction false} AheadDequeued(p: u32, load: u32, q: seq<Task>, c: RbNode, x: RbNode, v: int)
    requires load != 0 && Unique(q) && Has(q, c) && c != x
    ensures Ahead(p, load, Dequeued(q, c), x, v) ==
            Ahead(p, load, q, x, v) - if Precedes(q, c, x) then Room(p, load, Get(q, c), v) else 0
  {
    if q[0].id == x {
    } else if q[0].id != c {
      HasTail(q, c);
      AheadDequeued(p, load, q[1..], c, x, v);
    }
  }

  lemma {:induction false} AheadEnqueued(p: u32, load: u32, q: seq<Task>, t: Task, x: RbNode, v: int)
    requires load != 0 && Sorted(q) && Has(q, x) && Get(q, x).vruntime == v && t.id != x
    ensures Ahead(p, load, Enqueued(q, t), x, v) ==
            Ahead(p, load, q, x, v) + if t.vruntime < v then Room(p, load, t, v) else 0
  {
    HeadIsLeast(q, x);
    if t.vruntime >= q[0].vruntime && q[0].id != x {
      HasTail(q, x);
      AheadEnqueued(p, load, q[1..], t, x, v);
    }
  }

  lemma {:induction false} AheadSaved(p: u32, load: u32, q: seq<Task>, id: RbNode, x: RbNode, v: int)
    requires load != 0
    ensures Ahead(p, load, Saved(q, id), x, v) == Ahead(p, load, q, x, v)
  {
    if q != [] {
      AheadSaved(p, load, q[1..], id, x, v);
    }
  }

  lemma {:induction false} PrecedesOrder(q: seq<Task>, c: RbNode, x: RbNode)
    requires Sorted(q) && Has(q, c) && Has(q, x) && c != x
    ensures Precedes(q, c, x) ==> Get(q, c).vruntime <= Get(q, x).vruntime
    ensures !Precedes(q, c, x) ==> Get(q, x).vruntime <= Get(q, c).vruntime
  {
    if q[0].id == x {
      HeadIsLeast(q, c);
    } else if q[0].id == c {
      HeadIsLeast(q, x);
    } else {
      HasTail(q, c);
      HasTail(q, x);
      PrecedesOrder(q[1..], c, x);
    }
  }

  lemma RoomPositive(p: u32, load: u32, t: Task, v: int)
    requires load != 0 && t.vruntime <= v
    ensures CatchUp(t, v) >= 0 && Room(p, load, t, v) > SliceTicks(p, load, t) >= 2
  {
    if t.weight != 0 && Gain(t.weight) != 0 {
      QuotientNatural(v - t.vruntime, Gain(t.weight), CatchUp(t, v));
    }
  }

  lemma QuotientNatural(x: nat, g: u32, q: int)
    requires g > 0 && q == x / g
    ensures q >= 0
  {}

  lemma {:induction false} AheadPositive(p: u32, load: u32, q: seq<Task>, x: RbNode, v: int)
    requires load != 0 && Sorted(q) && Has(q, x) && Get(q, x).vruntime == v
    ensures Ahead(p, load, q, x, v) >= 0 && (q[0].id != x ==> Ahead(p, load, q, x, v) >= 1)
  {
    if q[0].id != x {
      HeadIsLeast(q, x);
      HasTail(q, x);
      RoomPositive(p, load, q[0], v);
      AheadPositive(p, load, q[1..], x, v);
    }
  }

  // ----- the measure of a wait -----

  // Ticks until a task is tested past its slice, by the time it will have run then.
  function LeftFrom(next: nat, slice: nat): nat {
    if next > slice then 1 else (slice - next) / 60 + 2
  }

  function TicksLeft(ran: u32, slice: u32): nat {
    LeftFrom((ran + TICK) % TWO32, slice)
  }

  lemma TicksLeftBound(ran: u32, slice: u32)
    ensures 1 <= TicksLeft(ran, slice) <= slice / 60 + 2
  {}

  lemma LeftFalls(next: nat, slice: nat)
    requires next <= slice
    ensures LeftFrom(next + 60, slice) < LeftFrom(next, slice)
  {}

  lemma TicksLeftFalls(ran: u32, next: u32, slice: u32)
    requires next == (ran + TICK) % TWO32 && next <= slice <= 214748
    ensures TicksLeft(next, slice) < TicksLeft(ran, slice)
  {
    assert (next + 60) % TWO32 == next + 60;
    LeftFalls(next, slice);
  }

  ghost function RunnerLeft(rq: Rq): nat
    requires Steady(rq)
  {
    TicksLeft(Ran(Get(rq.tasks, rq.curr)), Slice(rq, Get(rq.tasks, rq.curr)))
  }

  ghost predicate Waits(rq: Rq, x: RbNode) {
    Steady(rq) && Has(rq.tasks, x) && rq.curr != x
  }

  ghost function RoomOf(rq: Rq, t: Task, v: int): int
    requires rq.load != 0
  {
    Room(NormalizedPeriod(rq.nrRunning), rq.load, t, v)
  }

  ghost function AheadOf(rq: Rq, x: RbNode): int
    requires rq.load != 0 && Has(rq.tasks, x)
  {
    Ahead(NormalizedPeriod(rq.nrRunning), rq.load, rq.tasks, x, VruntimeOf(rq, x))
  }

  // Falls with every tick until x runs.
  ghost function Measure(rq: Rq, x: RbNode): int
    requires Waits(rq, x)
  {
    AheadOf(rq, x) + if Precedes(rq.tasks, rq.curr, x) then 0 else RunnerLeft(rq)
  }

  lemma RunnerLeftBound(rq: Rq)
    requires Steady(rq)
    ensures 1 <= RunnerLeft(rq) <= Slice(rq, Get(rq.tasks, rq.curr)) / 60 + 2
  {
    TicksLeftBound(Ran(Get(rq.tasks, rq.curr)), Slice(rq, Get(rq.tasks, rq.curr)));
  }

  // The room the running task takes up ahead of x, before and after the tick.
  ghost function RoomBefore(rq: Rq, x: RbNode, v: int): int
    requires Steady(rq)
  {
    if Precedes(rq.tasks, rq.curr, x) then RoomOf(rq, Get(rq.tasks, rq.curr), v) else 0
  }

  ghost function RoomAfter(rq: Rq, v: int): int
    requires Steady(rq) && NoClamp(rq)
  {
    if Runner(rq).vruntime < v then RoomOf(rq, Runner(rq), v) else 0
  }

  lemma {:induction false} AheadTick(rq: Rq, x: RbNode, v: int)
    requires Waits(rq, x) && NoClamp(rq) && v == VruntimeOf(rq, x)
    ensures Steady(Tick(rq)) && Has(Tick(rq).tasks, x) && VruntimeOf(Tick(rq), x) == v
    ensures AheadOf(Tick(rq), x) == AheadOf(rq, x) - RoomBefore(rq, x, v) + RoomAfter(rq, v)
  {
    var q, p := Dequeued(rq.tasks, rq.curr), NormalizedPeriod(rq.nrRunning);
    TickShape(rq);
    TickGet(rq, x);
    DequeuedOk(rq.tasks, rq.curr);
    DequeuedGet(rq.tasks, rq.curr, x);
    AheadDequeued(p, rq.load, rq.tasks, rq.curr, x, v);
    AheadEnqueued(p, rq.load, q, Runner(rq), x, v);
    AheadSaved(p, rq.load, Requeued(rq), rq.curr, x, v);
  }

  // A tick of gain g brings a task one tick nearer to v.
  lemma RoomStep(p: u32, load: u32, t: Task, t': Task, v: int)
    requires load != 0 && t.weight != 0 && t'.weight == t.weight && Gain(t.weight) >= 1
    requires t'.vruntime == t.vruntime + Gain(t.weight)
    ensures Room(p, load, t', v) == Room(p, load, t, v) - 1
  {
    QuotientStep(v - t.vruntime, Gain(t.weight));
  }

  lemma QuotientStep(d: int, g: int)
    requires g >= 1
    ensures (d - g) / g == d / g - 1
  {
    var q, r := d / g, d % g;
    assert d == g * q + r;
    assert d - g == g * (q - 1) + r;
    var q', r' := (d - g) / g, (d - g) % g;
    assert d - g == g * q' + r';
    assert g * (q - 1 - q') == r' - r;
    SmallMultiple(g, q - 1 - q');
  }

  // A running task ahead of x loses room: a tick while it stays below, and all of it,
  // which is more than a slice, once it is level and goes behind. One behind x never
  // comes before it.
  lemma RoomFalls(rq: Rq, x: RbNode, v: int)
    requires Waits(rq, x) && NoClamp(rq) && v == VruntimeOf(rq, x) && !HeavyBelow(rq.tasks, v)
    ensures Precedes(rq.tasks, rq.curr, x) && Runner(rq).vruntime < v ==>
      RoomAfter(rq, v) == RoomBefore(rq, x, v) - 1
    ensures Precedes(rq.tasks, rq.curr, x) && Runner(rq).vruntime >= v ==>
      RoomAfter(rq, v) == 0 && RoomBefore(rq, x, v) > Slice(rq, Runner(rq)) / 60 + 2
    ensures !Precedes(rq.tasks, rq.curr, x) ==> RoomAfter(rq, v) == 0 && Runner(rq).vruntime >= v
  {
    var t, p := Get(rq.tasks, rq.curr), NormalizedPeriod(rq.nrRunning);
    PrecedesOrder(rq.tasks, rq.curr, x);
    assert !Heavy(t, v);
    GainIsQuotient(t.weight);
    SliceIsShare(rq, Runner(rq));
    if Precedes(rq.tasks, rq.curr, x) {
      RoomPositive(p, rq.load, t, v);
      if Runner(rq).vruntime < v {
        RoomStep(p, rq.load, t, Runner(rq), v);
      }
    }
  }

  // Behind x and past its slice, the running task is switched out.
  lemma SwitchedOut(rq: Rq, x: RbNode)
    requires Waits(rq, x) && NoClamp(rq) && !Precedes(rq.tasks, rq.curr, x)
    requires Ran(Runner(rq)) > Slice(rq, Runner(rq))
    ensures Switches(rq)
  {
    var q := Dequeued(rq.tasks, rq.curr);
    PrecedesOrder(rq.tasks, rq.curr, x);
    DequeuedOk(rq.tasks, rq.curr);
    DequeuedGet(rq.tasks, rq.curr, x);
    HeadIsLeast(q, x);
    forall i | 0 <= i < |q| ensures q[i].id != rq.curr {}
  }

  lemma RunnerStays(rq: Rq)
    requires Steady(rq) && NoClamp(rq) && Ran(Runner(rq)) <= Slice(rq, Runner(rq))
    ensures Steady(Tick(rq)) && Tick(rq).curr == rq.curr && Get(Tick(rq).tasks, rq.curr) == Runner(rq)
    ensures Slice(Tick(rq), Runner(rq)) == Slice(rq, Runner(rq))
  {
    TickShape(rq);
    TickGet(rq, rq.curr);
  }

  // A slice depends on the weight and the totals only.
  lemma SameSliceIn(rq: Rq, rq': Rq, t: Task, t': Task)
    requires rq.load != 0 && rq'.load == rq.load && rq'.nrRunning == rq.nrRunning && t'.weight == t.weight
    ensures Slice(rq', t') == Slice(rq, t)
  {}

  lemma RunnerLeftIs(rq: Rq, ran: u32, slice: u32)
    requires Steady(rq) && ran == Ran(Get(rq.tasks, rq.curr)) && slice == Slice(rq, Get(rq.tasks, rq.curr))
    ensures RunnerLeft(rq) == TicksLeft(ran, slice)
  {}

  lemma RunnerRan(rq: Rq)
    requires Steady(rq) && NoClamp(rq)
    ensures Ran(Runner(rq)) == (Ran(Get(rq.tasks, rq.curr)) + TICK) % TWO32
    ensures Slice(rq, Runner(rq)) == Slice(rq, Get(rq.tasks, rq.curr)) <= 214748
  {
    RanWraps(Get(rq.tasks, rq.curr));
    SliceBound(rq, rq.curr);
    SameSliceIn(rq, rq, Get(rq.tasks, rq.curr), Runner(rq));
  }

  lemma RunnerLeftFalls(rq: Rq)
    requires Steady(rq) && NoClamp(rq) && Ran(Runner(rq)) <= Slice(rq, Runner(rq))
    ensures Steady(Tick(rq)) && Tick(rq).curr == rq.curr && RunnerLeft(Tick(rq)) < RunnerLeft(rq)
  {
    var t, t' := Get(rq.tasks, rq.curr), Runner(rq);
    var ran, next, slice := Ran(t), Ran(t'), Slice(rq, t');
    RunnerStays(rq);
    RunnerRan(rq);
    RunnerLeftIs(rq, ran, slice);
    RunnerLeftIs(Tick(rq), next, slice);
    TicksLeftFalls(ran, next, slice);
  }

  lemma FirstPrecedes(q: seq<Task>, x: RbNode)
    requires q != [] && q[0].id != x
    ensures Precedes(q, q[0].id, x)
  {}

  // Whoever takes over is ahead of x, being the first.
  lemma NextPrecedes(rq: Rq, x: RbNode)
    requires Steady(rq) && NoClamp(rq) && Switches(rq) && Tick(rq).curr != x
    ensures Precedes(Tick(rq).tasks, Tick(rq).curr, x)
  {
    TickShape(rq);
    TickHead(rq);
    FirstPrecedes(Tick(rq).tasks, x);
  }

  // The running task after a tick: ahead of x if it is still below, switched out for
  // one ahead, or in its slice behind x.
  lemma RunnerPlace(rq: Rq, x: RbNode)
    requires Waits(rq, x) && NoClamp(rq) && Tick(rq).curr != x
    ensures Waits(Tick(rq), x) && VruntimeOf(Tick(rq), x) == VruntimeOf(rq, x)
    ensures Precedes(Tick(rq).tasks, Tick(rq).curr, x) ||
            (Tick(rq).curr == rq.curr && Get(Tick(rq).tasks, rq.curr) == Runner(rq)
             && Runner(rq).vruntime >= VruntimeOf(rq, x))
  {
    TickShape(rq);
    TickGet(rq, x);
    TickGet(rq, rq.curr);
    if Switches(rq) {
      NextPrecedes(rq, x);
    } else {
      PrecedesOrder(Tick(rq).tasks, rq.curr, x);
    }
  }

  lemma SameSlice(rq: Rq)
    requires Steady(rq) && NoClamp(rq)
    ensures Steady(Tick(rq)) && Slice(Tick(rq), Runner(rq)) == Slice(rq, Runner(rq))
  {
    TickShape(rq);
    SameSliceIn(rq, Tick(rq), Runner(rq), Runner(rq));
  }

  lemma {:induction false} MeasureFalls(rq: Rq, x: RbNode)
    requires Waits(rq, x) && NoClamp(rq) && !HeavyBelow(rq.tasks, VruntimeOf(rq, x))
    requires Tick(rq).curr != x
    ensures Waits(Tick(rq), x) && Measure(Tick(rq), x) < Measure(rq, x)
  {
    var b, v := Tick(rq), VruntimeOf(rq, x);
    RunnerPlace(rq, x);
    AheadTick(rq, x, v);
    RoomFalls(rq, x, v);
    RunnerLeftBound(rq);
    RunnerLeftBound(b);
    SameSlice(rq);
    if !Precedes(rq.tasks, rq.curr, x) && !Precedes(b.tasks, b.curr, x) {
      StaysInSlice(rq, x);
    }
  }

  // A task running behind x is still running there only within its slice.
  lemma StaysInSlice(rq: Rq, x: RbNode)
    requires Waits(rq, x) && NoClamp(rq) && !Precedes(rq.tasks, rq.curr, x)
    requires Tick(rq).curr != x && !Precedes(Tick(rq).tasks, Tick(rq).curr, x)
    ensures Steady(Tick(rq)) && Tick(rq).curr == rq.curr && RunnerLeft(Tick(rq)) < RunnerLeft(rq)
  {
    if Ran(Runner(rq)) > Slice(rq, Runner(rq)) {
      SwitchedOut(rq, x);
      NextPrecedes(rq, x);
    } else {
      RunnerLeftFalls(rq);
    }
  }

  // Who is light or not below x stays so: vruntimes only grow, and x's stays.
  lemma StaysLight(rq: Rq, x: RbNode)
    requires Waits(rq, x) && NoClamp(rq) && !HeavyBelow(rq.tasks, VruntimeOf(rq, x))
    ensures Has(Tick(rq).tasks, x) && !HeavyBelow(Tick(rq).tasks, VruntimeOf(Tick(rq), x))
  {
    TickGet(rq, x);
    var v := VruntimeOf(rq, x);
    TickShape(rq);
    forall t | t in Tick(rq).tasks ensures !Heavy(t, v) {
      TickGet(rq, t.id);
      LookUp(Tick(rq).tasks, t);
      assert !Heavy(Get(rq.tasks, t.id), v);
    }
  }

  lemma MeasurePositive(rq: Rq, x: RbNode)
    requires Waits(rq, x)
    ensures Measure(rq, x) >= 1
  {
    RunnerLeftBound(rq);
    AheadPositive(NormalizedPeriod(rq.nrRunning), rq.load, rq.tasks, x, VruntimeOf(rq, x));
  }

  // ----- the theorems -----

  ghost predicate WaitsAtMost(rq: Rq, x: RbNode, m: int) {
    Waits(rq, x) && !HeavyBelow(rq.tasks, VruntimeOf(rq, x)) && Measure(rq, x) <= m
  }

  lemma OneTickLess(rq: Rq, x: RbNode, m: int)
    requires WaitsAtMost(rq, x, m) && NoClamp(rq)
    ensures Tick(rq).curr == x || WaitsAtMost(Tick(rq), x, m - 1)
  {
    if Tick(rq).curr != x {
      MeasureFalls(rq, x);
      StaysLight(rq, x);
    }
  }

  lemma {:induction false} StillWaits(run: seq<Rq>, x: RbNode, m: int, k: nat)
    requires TickRun(run) && k < |run| && forall j :: 0 <= j <= k ==> run[j].curr != x
    ensures WaitsAtMost(run[0], x, m) ==> WaitsAtMost(run[k], x, m - k)
  {
    if k > 0 && WaitsAtMost(run[0], x, m) {
      StillWaits(run, x, m, k - 1);
      RunAt(run, k - 1);
      OneTickLess(run[k - 1], x, m - k + 1);
    }
  }

  lemma RunsWithin(run: seq<Rq>, x: RbNode, m: nat)
    requires TickRun(run) && WaitsAtMost(run[0], x, m) && |run| > m
    ensures exists k :: 0 <= k <= m && run[k].curr == x
  {
    if forall k :: 0 <= k <= m ==> run[k].curr != x {
      StillWaits(run, x, m, m);
      MeasurePositive(run[m], x);
    }
  }

  // Ticks within which x runs: for each task ahead of it those that bring the task
  // level and its slice once, and what a task running behind x has left.
  ghost function WaitBound(rq: Rq, x: RbNode): int
    requires Steady(rq) && Has(rq.tasks, x)
  {
    if rq.curr == x then 0 else Measure(rq, x)
  }

  // A task that no heavy one stands strictly below becomes current within
  // WaitBound ticks.
  lemma {:induction false} NoStarvation(run: seq<Rq>, x: RbNode) returns (k: nat)
    requires TickRun(run) && Has(run[0].tasks, x) && |run| > WaitBound(run[0], x)
    requires !HeavyBelow(run[0].tasks, VruntimeOf(run[0], x))
    ensures k <= WaitBound(run[0], x) && run[k].curr == x
  {
    if run[0].curr == x {
      k := 0;
    } else {
      MeasurePositive(run[0], x);
      var m := Measure(run[0], x);
      RunsWithin(run, x, m);
      k :| 0 <= k <= m && run[k].curr == x;
    }
  }

  // The exact condition: in a run that is long enough x becomes current if and
  // only if it is so from the start or no heavy task stands strictly below it.
  lemma {:induction false} RunsIff(run: seq<Rq>, x: RbNode)
    requires TickRun(run) && Has(run[0].tasks, x) && |run| > WaitBound(run[0], x)
    ensures (exists k :: 0 <= k < |run| && run[k].curr == x) <==>
            run[0].curr == x || !HeavyBelow(run[0].tasks, VruntimeOf(run[0], x))
  {
    if !HeavyBelow(run[0].tasks, VruntimeOf(run[0], x)) {
      var k := NoStarvation(run, x);
    } else if run[0].curr != x {
      var t :| t in run[0].tasks && Heavy(t, VruntimeOf(run[0], x));
      LookUp(run[0].tasks, t);
      forall k | 0 <= k < |run| ensures run[k].curr != x { KeptOut(run, x, t.id, k); }
    }
  }

  // ----- runs that are long enough exist -----

  // How far above v a task may be carried by the tick that passes v and its slice.
  ghost function Overrun(rq: Rq, t: Task): int
    requires rq.load != 0
  {
    if t.weight == 0 then 0 else (Slice(rq, t) / 60 + 3) * Gain(t.weight)
  }

  // Neither x, nor the minimum, nor any task carried past x comes within ten of the
  // clamp, nor does a task running behind x before its slice is over.
  ghost predicate Clear(rq: Rq, x: RbNode)
    requires Waits(rq, x)
  {
    var v, t := VruntimeOf(rq, x), Get(rq.tasks, rq.curr);
    && rq.minVruntime + 10 < U32_MAX && v + 10 < U32_MAX
    && (forall u :: u in rq.tasks ==> v + Overrun(rq, u) + 10 < U32_MAX)
    && (!Precedes(rq.tasks, rq.curr, x) ==> Fits(t, RunnerLeft(rq)))
  }

  // n more ticks leave t ten below the clamp.
  ghost predicate Fits(t: Task, n: nat) {
    t.vruntime + n * GainOf(t) + 10 < U32_MAX
  }

  ghost function GainOf(t: Task): nat {
    if t.weight == 0 then 0 else Gain(t.weight)
  }

  // The first of the queue after the charge is one of the rest or the charged task.
  lemma RequeuedLow(rq: Rq)
    requires CanTick(rq)
    ensures var q := Enqueued(Dequeued(rq.tasks, rq.curr), Charged(Get(rq.tasks, rq.curr), TICK));
      QueueOk(q) && q != [] && Ok(EnqueueEntity(DequeueEntity(rq, rq.curr), Charged(Get(rq.tasks, rq.curr), TICK)))
      && (q[0] in rq.tasks || q[0] == Charged(Get(rq.tasks, rq.curr), TICK))
  {
    var t := Charged(Get(rq.tasks, rq.curr), TICK);
    var q := Enqueued(Dequeued(rq.tasks, rq.curr), t);
    DequeuedOk(rq.tasks, rq.curr);
    EnqueuedOk(Dequeued(rq.tasks, rq.curr), t);
    EnqueuedMembers(Dequeued(rq.tasks, rq.curr), t, q[0]);
    DequeuedMembers(rq.tasks, rq.curr, q[0]);
  }

  // The minimum follows the first of the queue, which x keeps low.
  lemma ChargedMin(rq: Rq, x: RbNode)
    requires Waits(rq, x) && Clear(rq, x)
    ensures ChargeCurr(rq, TICK).minVruntime + 10 < U32_MAX
  {
    var t := Charged(Get(rq.tasks, rq.curr), TICK);
    RequeuedLow(rq);
    RequeuedBelow(rq, x);
    UpdateMinVruntimeOk(EnqueueEntity(DequeueEntity(rq, rq.curr), t));
  }

  lemma RequeuedBelow(rq: Rq, x: RbNode)
    requires Waits(rq, x)
    ensures var q := Enqueued(Dequeued(rq.tasks, rq.curr), Charged(Get(rq.tasks, rq.curr), TICK));
      q != [] && q[0].vruntime <= VruntimeOf(rq, x)
  {
    var t, q := Charged(Get(rq.tasks, rq.curr), TICK), Dequeued(rq.tasks, rq.curr);
    DequeuedOk(rq.tasks, rq.curr);
    DequeuedGet(rq.tasks, rq.curr, x);
    EnqueuedOk(q, t);
    EnqueuedGet(q, t, x);
    HeadIsLeast(Enqueued(q, t), x);
  }

  lemma ProductBound(n: int, g: nat)
    requires n >= 1
    ensures n * g >= g && (n - 1) * g == n * g - g
  {}

  lemma OverrunCovers(rq: Rq, t: Task)
    requires rq.load != 0 && t.weight != 0
    ensures Overrun(rq, t) >= Gain(t.weight)
  {
    ProductBound(Slice(rq, t) / 60 + 3, Gain(t.weight));
  }

  lemma RunnerFits(rq: Rq, x: RbNode)
    requires Waits(rq, x) && Clear(rq, x)
    ensures Get(rq.tasks, rq.curr).vruntime + Gain(Get(rq.tasks, rq.curr).weight) < U32_MAX
  {
    var t := Get(rq.tasks, rq.curr);
    if Precedes(rq.tasks, rq.curr, x) {
      PrecedesOrder(rq.tasks, rq.curr, x);
      OverrunCovers(rq, t);
    } else {
      RunnerLeftBound(rq);
      ProductBound(RunnerLeft(rq), Gain(t.weight));
    }
  }

  lemma ClearNoClamp(rq: Rq, x: RbNode)
    requires Waits(rq, x) && Clear(rq, x)
    ensures NoClamp(rq)
  {
    RunnerFits(rq, x);
    ChargedMin(rq, x);
    NotNear(ChargeCurr(rq, TICK));
  }

  lemma NotNear(rq: Rq)
    requires rq.minVruntime + 10 < U32_MAX
    ensures !AllNearOverflow(rq)
  {}

  lemma TickMin(rq: Rq)
    requires Steady(rq) && NoClamp(rq)
    ensures Tick(rq).minVruntime == ChargeCurr(rq, TICK).minVruntime
  {
    ChargeShape(rq);
    PreemptShape(rq);
  }

  lemma SameTotals(rq: Rq, u: Task)
    requires Steady(rq) && NoClamp(rq) && u in Tick(rq).tasks
    ensures Steady(Tick(rq)) && Has(rq.tasks, u.id) && Get(rq.tasks, u.id).weight == u.weight
    ensures Tick(rq).load == rq.load && Tick(rq).nrRunning == rq.nrRunning
  {
    TickShape(rq);
    LookUp(Tick(rq).tasks, u);
    TickGet(rq, u.id);
  }

  lemma OverrunIn(rq: Rq, rq': Rq, t: Task, t': Task)
    requires rq.load != 0 && rq'.load == rq.load && rq'.nrRunning == rq.nrRunning && t'.weight == t.weight
    ensures Overrun(rq', t') == Overrun(rq, t)
  {
    SameSliceIn(rq, rq', t, t');
  }

  lemma SameOverrun(rq: Rq, u: Task)
    requires Steady(rq) && NoClamp(rq) && u in Tick(rq).tasks
    ensures Steady(Tick(rq)) && Has(rq.tasks, u.id) && Overrun(Tick(rq), u) == Overrun(rq, Get(rq.tasks, u.id))
  {
    SameTotals(rq, u);
    OverrunIn(rq, Tick(rq), Get(rq.tasks, u.id), u);
  }

  // One of the ticks provided for is used up.
  lemma StaysBelow(vruntime: nat, v: nat, left: nat, ticks: nat, g: nat, rise: int)
    requires vruntime <= v && left + 1 <= ticks && rise == ticks * g && v + rise + 10 < U32_MAX
    ensures vruntime + g + left * g + 10 < U32_MAX
  {
    MulMono(left + 1, ticks, g);
    ProductBound(left + 1, g);
  }

  lemma OverrunIs(rq: Rq, t: Task)
    requires rq.load != 0 && t.weight != 0
    ensures Overrun(rq, t) == (Slice(rq, t) / 60 + 3) * Gain(t.weight) >= 0
  {
    ProductBound(Slice(rq, t) / 60 + 3, Gain(t.weight));
  }

  // The task running behind x after the tick: it has just passed x ...
  lemma PassedClear(rq: Rq, t: Task, v: int, left: nat)
    requires rq.load != 0 && t.weight != 0 && t.vruntime <= v && t.vruntime + Gain(t.weight) < U32_MAX
    requires v + Overrun(rq, t) + 10 < U32_MAX && left <= Slice(rq, t) / 60 + 2
    ensures Fits(Ticked(t), left)
  {
    OverrunIs(rq, t);
    StaysBelow(t.vruntime, v, left, Slice(rq, t) / 60 + 3, Gain(t.weight), Overrun(rq, t));
  }

  // ... or has one tick less.
  lemma StillClear(t: Task, left: nat, n: nat)
    requires t.weight != 0 && t.vruntime + Gain(t.weight) < U32_MAX && Fits(t, n) && left < n
    ensures Fits(Ticked(t), left)
  {
    StaysBelow(t.vruntime, t.vruntime, left, n, Gain(t.weight), n * Gain(t.weight));
  }

  lemma BehindClear(rq: Rq, x: RbNode)
    requires Waits(rq, x) && NoClamp(rq) && Clear(rq, x)
    requires Waits(Tick(rq), x) && !Precedes(Tick(rq).tasks, Tick(rq).curr, x)
    ensures Fits(Get(Tick(rq).tasks, Tick(rq).curr), RunnerLeft(Tick(rq)))
  {
    var t, left := Get(rq.tasks, rq.curr), RunnerLeft(Tick(rq));
    RunnerPlace(rq, x);
    TaskWeight(rq, rq.curr);
    if Precedes(rq.tasks, rq.curr, x) {
      RunnerLeftBound(Tick(rq));
      SameSlice(rq);
      SameSliceIn(rq, rq, t, Runner(rq));
      PrecedesOrder(rq.tasks, rq.curr, x);
      PassedClear(rq, t, VruntimeOf(rq, x), left);
    } else {
      StaysInSlice(rq, x);
      StillClear(t, left, RunnerLeft(rq));
    }
  }

  lemma ClearTick(rq: Rq, x: RbNode)
    requires Waits(rq, x) && Clear(rq, x) && Tick(rq).curr != x
    ensures NoClamp(rq) && Waits(Tick(rq), x) && Clear(Tick(rq), x)
  {
    var b := Tick(rq);
    ClearNoClamp(rq, x);
    RunnerPlace(rq, x);
    ChargedMin(rq, x);
    TickMin(rq);
    forall u | u in b.tasks ensures VruntimeOf(b, x) + Overrun(b, u) + 10 < U32_MAX { SameOverrun(rq, u); }
    if !Precedes(b.tasks, b.curr, x) {
      BehindClear(rq, x);
    }
  }

  lemma RunFrom(rq: Rq, rest: seq<Rq>) returns (run: seq<Rq>)
    requires Steady(rq) && NoClamp(rq) && TickRun(rest) && rest[0] == Tick(rq)
    ensures run == [rq] + rest && TickRun(run)
  {
    run := [rq] + rest;
    assert run[1..] == rest;
  }

  // From there the ticks lead to x within the bound, and no clamp is met on the way.
  lemma {:induction false} GetsThere(rq: Rq, x: RbNode, m: int) returns (run: seq<Rq>)
    requires Waits(rq, x) && Clear(rq, x) && WaitsAtMost(rq, x, m)
    ensures 1 < |run| <= m + 1 && run[0] == rq && TickRun(run) && run[|run| - 1].curr == x
    decreases m
  {
    MeasurePositive(rq, x);
    ClearNoClamp(rq, x);
    OneTickLess(rq, x, m);
    if Tick(rq).curr == x {
      TickShape(rq);
      run := RunFrom(rq, [Tick(rq)]);
    } else {
      ClearTick(rq, x);
      MeasurePositive(Tick(rq), x);
      var rest := GetsThere(Tick(rq), x, m - 1);
      run := RunFrom(rq, rest);
    }
  }

  ghost predicate LeadsTo(run: seq<Rq>, rq: Rq, x: RbNode) {
    TickRun(run) && run[0] == rq && run[|run| - 1].curr == x
  }

  // Without a hypothesis on a run: a task waiting clear of the clamp becomes current
  // if and only if no heavy one stands strictly below it, and then within the bound.
  lemma {:induction false} BecomesCurrentIff(rq: Rq, x: RbNode)
    requires Waits(rq, x) && Clear(rq, x)
    ensures (exists run :: LeadsTo(run, rq, x)) <==> !HeavyBelow(rq.tasks, VruntimeOf(rq, x))
    ensures !HeavyBelow(rq.tasks, VruntimeOf(rq, x)) ==>
      exists run :: LeadsTo(run, rq, x) && |run| <= WaitBound(rq, x) + 1
  {
    if !HeavyBelow(rq.tasks, VruntimeOf(rq, x)) {
      var run := GetsThere(rq, x, Measure(rq, x));
      assert LeadsTo(run, rq, x);
    } else {
      var t :| t in rq.tasks && Heavy(t, VruntimeOf(rq, x));
      LookUp(rq.tasks, t);
      forall run | LeadsTo(run, rq, x) ensures false { KeptOut(run, x, t.id, |run| - 1); }
    }
  }

  // Far enough from the clamp there are clamp-free runs of n ticks, whoever waits.
  ghost predicate Far(rq: Rq, n: nat) {
    && Steady(rq) && rq.minVruntime + 10 < U32_MAX
    && forall t :: t in rq.tasks ==> Fits(t, n)
  }

  lemma FarNoClamp(rq: Rq, n: nat)
    requires Far(rq, n) && n > 0
    ensures NoClamp(rq) && ChargeCurr(rq, TICK).minVruntime + 10 < U32_MAX
  {
    var t := Get(rq.tasks, rq.curr);
    var q := Dequeued(rq.tasks, rq.curr);
    TaskWeight(rq, rq.curr);
    ProductBound(n, Gain(t.weight));
    TickedIsCharged(t);
    RequeuedLow(rq);
    UpdateMinVruntimeOk(EnqueueEntity(DequeueEntity(rq, rq.curr), Charged(t, TICK)));
    NotNear(ChargeCurr(rq, TICK));
  }

  lemma FarTick(rq: Rq, n: nat)
    requires Far(rq, n) && n > 0
    ensures NoClamp(rq) && Far(Tick(rq), n - 1)
  {
    FarNoClamp(rq, n);
    TickShape(rq);
    TickMin(rq);
    forall t | t in Tick(rq).tasks ensures Fits(t, n - 1) {
      LookUp(Tick(rq).tasks, t);
      TickGet(rq, t.id);
      TaskWeight(rq, t.id);
      ProductBound(n, GainOf(t));
    }
  }

  lemma {:induction false} LongRun(rq: Rq, n: nat) returns (run: seq<Rq>)
    requires Far(rq, n)
    ensures |run| == n + 1 && run[0] == rq && TickRun(run)
    decreases n
  {
    run := [rq];
    if n > 0 {
      FarTick(rq, n);
      var rest := LongRun(Tick(rq), n - 1);
      run := RunFrom(rq, rest);
    }
  }
}
