// Processor turns among a fixed set of jobs, without the run queue: the running
// job gains vruntime tick by tick, and once it is past its slice a job with the
// least vruntime takes over. Which of several least jobs it is stays open.
module Turns {
  import opened Words
  import opened RbShape

  const TICK: int := 60

  // ran: time since the job was switched in, in a 32-bit word;
  // gain: vruntime added by each tick.
  datatype Job = Job(vruntime: int, ran: int, slice: int, gain: int)

  datatype State = State(jobs: map<RbNode, Job>, curr: RbNode, head: RbNode)

  ghost predicate Wf(a: State) {
    && a.curr in a.jobs && a.head in a.jobs
    && (forall id :: id in a.jobs ==> a.jobs[a.head].vruntime <= a.jobs[id].vruntime)
    && (forall id :: id in a.jobs ==> Bounded(a.jobs[id]))
  }

  ghost predicate Bounded(j: Job) {
    0 <= j.ran < TWO32 && 0 <= j.slice <= 214748 && 0 <= j.gain
  }

  ghost function RanNext(j: Job): int {
    (j.ran + TICK) % TWO32
  }

  // One tick from a to b.
  ghost predicate Turn(a: State, b: State)
    requires Wf(a)
  {
    var c := a.jobs[a.curr];
    var switched := RanNext(c) > c.slice && b.head != a.curr;
    && Wf(b) && b.jobs.Keys == a.jobs.Keys
    && (forall id :: id in a.jobs && id != a.curr ==> b.jobs[id] == a.jobs[id])
    && b.jobs[a.curr] == c.(vruntime := c.vruntime + c.gain, ran := if switched then 0 else RanNext(c))
    && b.curr == if switched then b.head else a.curr
  }

  // ----- fairness -----

  // Vruntime gained in k ticks of gain g.
  ghost function Gained(k: nat, g: nat): nat {
    if k == 0 then 0 else Gained(k - 1, g) + g
  }

  lemma {:induction false} GainedIsProduct(k: nat, g: nat)
    ensures Gained(k, g) == k * g
  {
    if k > 0 {
      GainedIsProduct(k - 1, g);
    }
  }

  lemma {:induction false} GainedMono(k: nat, k': nat, g: nat, g': nat)
    requires k <= k' && g <= g'
    ensures Gained(k, g) <= Gained(k', g')
    decreases k'
  {
    if k > 0 {
      GainedMono(k - 1, k' - 1, g, g');
    }
  }

  // How far a job may get ahead of the least vruntime.
  ghost function MaxLead(j: Job): nat
    requires Bounded(j)
  {
    Gained(j.slice / TICK + 1, j.gain)
  }

  ghost predicate Fair(a: State)
    requires Wf(a)
  {
    forall id :: id in a.jobs ==> a.jobs[id].vruntime <= a.jobs[a.head].vruntime + MaxLead(a.jobs[id])
  }

  // The vruntime of the running job when it was switched in.
  ghost function StartOf(a: State): int
    requires Wf(a)
  {
    var c := a.jobs[a.curr];
    c.vruntime - Gained(c.ran / TICK, c.gain)
  }

  ghost predicate Waiting(a: State, j: Job)
    requires Wf(a) && Bounded(j)
  {
    j.ran == 0 && StartOf(a) <= j.vruntime <= StartOf(a) + MaxLead(j)
  }

  // Everyone else waits between the start of the running job and their own lead
  // above it; the running job has run whole ticks, and past its slice only as
  // long as it is least.
  ghost predicate Balanced(a: State) {
    && Wf(a)
    && (forall id :: id in a.jobs ==> a.jobs[id].gain <= 4096)
    && (|a.jobs| >= 2 ==> Staggered(a))
  }

  ghost predicate Staggered(a: State)
    requires Wf(a)
  {
    var c := a.jobs[a.curr];
    && (forall id :: id in a.jobs && id != a.curr ==> Waiting(a, a.jobs[id]))
    && (c.gain > 0 ==> c.ran % TICK == 0)
    && (c.gain > 0 && c.ran > c.slice ==> c.vruntime == a.jobs[a.head].vruntime)
  }

  lemma LeadBound(j: Job)
    requires Bounded(j) && j.gain <= 4096
    ensures j.gain <= MaxLead(j) <= 3580 * 4096
  {
    GainedMono(j.slice / TICK + 1, 3580, j.gain, 4096);
    GainedMono(1, j.slice / TICK + 1, j.gain, j.gain);
    GainedIsProduct(3580, 4096);
  }

  // Up to its slice a job gains at most slice / 60 ticks' worth, and one more may follow.
  lemma LeadOfRunner(a: State)
    requires Wf(a) && a.jobs[a.curr].ran <= a.jobs[a.curr].slice
    ensures var c := a.jobs[a.curr]; c.vruntime + c.gain <= StartOf(a) + MaxLead(c)
  {
    var c := a.jobs[a.curr];
    GainedMono(c.ran / TICK + 1, c.slice / TICK + 1, c.gain, c.gain);
  }

  lemma StartBelowHead(a: State)
    requires Balanced(a) && |a.jobs| >= 2
    ensures StartOf(a) <= a.jobs[a.head].vruntime
  {}

  lemma BalancedIsFair(a: State)
    requires Balanced(a)
    ensures Fair(a)
  {
    var c := a.jobs[a.curr];
    forall id | id in a.jobs ensures a.jobs[id].vruntime <= a.jobs[a.head].vruntime + MaxLead(a.jobs[id]) {
      if |a.jobs| < 2 {
        OnlyOne(a.jobs.Keys, id, a.head);
      } else {
        StartBelowHead(a);
        if id == a.curr && c.ran <= c.slice {
          LeadOfRunner(a);
        } else if id == a.curr && c.gain == 0 {
          GainedIsProduct(c.ran / TICK, 0);
        }
      }
    }
  }

  lemma OnlyOne(s: set<RbNode>, x: RbNode, y: RbNode)
    requires x in s && y in s && |s| < 2
    ensures x == y
  {
    assert |s - {x}| == |s| - 1;
    assert x != y ==> y in s - {x};
  }

  lemma Another(s: set<RbNode>, x: RbNode) returns (y: RbNode)
    requires x in s && |s| >= 2
    ensures y in s && y != x
  {
    var rest := s - {x};
    assert |rest| == |s| - 1;
    y :| y in rest;
  }

  // The runtime counter cannot wrap while vruntime grows: past its slice the
  // running job is least, so the others bound how long it has run.
  lemma RanBounded(a: State)
    requires Balanced(a) && |a.jobs| >= 2 && a.jobs[a.curr].gain > 0
    ensures a.jobs[a.curr].ran + TICK < TWO32
  {
    var c := a.jobs[a.curr];
    if c.ran > c.slice {
      var id := Another(a.jobs.Keys, a.curr);
      LeadBound(a.jobs[id]);
      assert Gained(c.ran / TICK, c.gain) <= 3580 * 4096;
      GainedMono(c.ran / TICK, c.ran / TICK, 1, c.gain);
      GainedIsProduct(c.ran / TICK, 1);
    }
  }

  // Without a switch the start of the running job stays where it was.
  lemma StartStays(a: State, b: State)
    requires Balanced(a) && |a.jobs| >= 2 && Turn(a, b) && b.jobs[a.curr].ran == RanNext(a.jobs[a.curr])
    requires b.curr == a.curr
    ensures StartOf(b) == StartOf(a)
    ensures a.jobs[a.curr].gain > 0 ==> b.jobs[b.curr].ran == a.jobs[a.curr].ran + TICK
  {
    var c := a.jobs[a.curr];
    if c.gain > 0 {
      RanBounded(a);
    } else {
      GainedIsProduct(c.ran / TICK, 0);
      GainedIsProduct(RanNext(c) / TICK, 0);
    }
  }

  lemma {:induction false} BalancedTurn(a: State, b: State)
    requires Balanced(a) && Turn(a, b)
    ensures Balanced(b)
  {
    var c := a.jobs[a.curr];
    assert |b.jobs| == |b.jobs.Keys| == |a.jobs.Keys| == |a.jobs|;
    if |a.jobs| >= 2 {
      if RanNext(c) > c.slice && b.head != a.curr {
        SwitchStaggers(a, b);
      } else {
        StartStays(a, b);
      }
    }
  }

  lemma SwitchStaggers(a: State, b: State)
    requires Balanced(a) && Turn(a, b) && |a.jobs| >= 2
    requires RanNext(a.jobs[a.curr]) > a.jobs[a.curr].slice && b.head != a.curr
    ensures Staggered(b)
  {
    var c := a.jobs[a.curr];
    assert StartOf(b) == b.jobs[b.head].vruntime;
    LeadBound(c);
    if c.ran <= c.slice {
      LeadOfRunner(a);
    } else if c.gain == 0 {
      GainedIsProduct(c.ran / TICK, 0);
    }
  }

  // All vruntimes are equal and nobody has time outstanding.
  ghost predicate Level(a: State) {
    && Wf(a)
    && forall id :: id in a.jobs ==>
         a.jobs[id].vruntime == a.jobs[a.head].vruntime && a.jobs[id].ran == 0 && a.jobs[id].gain <= 4096
  }

  ghost predicate Run(s: seq<State>) {
    && |s| > 0
    && (forall i :: 0 <= i < |s| ==> Wf(s[i]))
    && (forall i :: 0 <= i < |s| - 1 ==> Turn(s[i], s[i + 1]))
  }

  lemma {:induction false} RunStaysBalanced(s: seq<State>, k: nat)
    requires Run(s) && Level(s[0]) && k < |s|
    ensures Balanced(s[k])
  {
    if k > 0 {
      RunStaysBalanced(s, k - 1);
      BalancedTurn(s[k - 1], s[k]);
    }
  }
}
