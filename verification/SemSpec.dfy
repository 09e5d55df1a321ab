// A counting semaphore with a queue of waiting processes, and its runs.
module SemSpec {
  import opened Options
  datatype Sem = Sem(count: int, wait: seq<nat>)
  datatype Event = Wait(pid: nat) | Signal

  predicate Consistent(s: Sem) {
    |s.wait| == if s.count < 0 then -s.count else 0
  }

  function WaitOn(s: Sem, pid: nat): Sem {
    if s.count - 1 < 0 then Sem(s.count - 1, s.wait + [pid]) else Sem(s.count - 1, s.wait)
  }

  // The longest waiting process is released if the new count is not positive.
  predicate CanSignal(s: Sem) {
    s.count + 1 <= 0 ==> s.wait != []
  }

  function Released(s: Sem): Option<nat>
    requires CanSignal(s)
  {
    if s.count + 1 <= 0 then Some(s.wait[0]) else None
  }

  function SignalOn(s: Sem): Sem
    requires CanSignal(s)
  {
    if s.count + 1 <= 0 then Sem(s.count + 1, s.wait[1..]) else Sem(s.count + 1, s.wait)
  }

  // ----- runs -----

  // The state after a run, with who was blocked and who released, in order.
  datatype History = History(sem: Sem, blocked: seq<nat>, released: seq<nat>)

  function After(init: int, run: seq<Event>): (h: History)
    requires init >= 0
    ensures Consistent(h.sem)
  {
    if run == [] then History(Sem(init, []), [], [])
    else
      var h := After(init, run[..|run| - 1]);
      match run[|run| - 1]
      case Wait(pid) =>
        History(WaitOn(h.sem, pid), if h.sem.count <= 0 then h.blocked + [pid] else h.blocked, h.released)
      case Signal =>
        History(SignalOn(h.sem), h.blocked,
                match Released(h.sem) case Some(pid) => h.released + [pid] case None => h.released)
  }

  function Waits(run: seq<Event>): nat {
    if run == [] then 0 else Waits(run[..|run| - 1]) + if run[|run| - 1].Wait? then 1 else 0
  }

  function Signals(run: seq<Event>): nat {
    if run == [] then 0 else Signals(run[..|run| - 1]) + if run[|run| - 1].Signal? then 1 else 0
  }

  // In every run the count is the initial one plus signals minus waits, the
  // queue is as long as the count is negative, and the released processes are
  // the blocked ones in the order they arrived.
  lemma {:induction false} RunKeepsCount(init: int, run: seq<Event>)
    requires init >= 0
    ensures var h := After(init, run);
      && h.sem.count == init + Signals(run) - Waits(run)
      && |h.sem.wait| == (if h.sem.count < 0 then -h.sem.count else 0)
      && h.blocked == h.released + h.sem.wait
  {
    if run != [] {
      RunKeepsCount(init, run[..|run| - 1]);
      var h := After(init, run[..|run| - 1]);
      if run[|run| - 1].Signal? && h.sem.count + 1 <= 0 {
        assert h.sem.wait == [h.sem.wait[0]] + h.sem.wait[1..];
      }
    }
  }

  // The k-th process released is the k-th one that was blocked.
  lemma {:induction false} ReleasedInArrivalOrder(init: int, run: seq<Event>, k: nat)
    requires init >= 0 && k < |After(init, run).released|
    ensures k < |After(init, run).blocked| && After(init, run).released[k] == After(init, run).blocked[k]
  {
    RunKeepsCount(init, run);
  }

  // At no time are more processes past their wait than the initial count and
  // the signals so far allow.
  lemma {:induction false} PassedAtMost(init: int, run: seq<Event>)
    requires init >= 0
    ensures Waits(run) - |After(init, run).sem.wait| <= init + Signals(run)
    ensures After(init, run).sem.wait != [] ==> Waits(run) - |After(init, run).sem.wait| == init + Signals(run)
  {
    RunKeepsCount(init, run);
  }

  // ----- runs from any initial count -----

  // Stuck: a signal took the head of an empty queue.
  datatype Outcome = Fine(sem: Sem) | Stuck

  function Step(s: Sem, e: Event): Outcome {
    match e
    case Wait(pid) => Fine(WaitOn(s, pid))
    case Signal => if CanSignal(s) then Fine(SignalOn(s)) else Stuck
  }

  function Play(init: int, run: seq<Event>): Outcome {
    if run == [] then Fine(Sem(init, []))
    else
      match Play(init, run[..|run| - 1])
      case Stuck => Stuck
      case Fine(s) => Step(s, run[|run| - 1])
  }

  // Before every signal there are more waits than signals.
  ghost predicate Covered(run: seq<Event>) {
    forall k :: 0 <= k < |run| && run[k].Signal? ==> Signals(run[..k]) < Waits(run[..k])
  }

  // Every signal of a run has somebody to release, or none to release, if and only
  // if the initial count is not negative or every signal comes after more waits
  // than signals.
  lemma {:induction false} SignalDefinedIff(init: int, run: seq<Event>)
    ensures Play(init, run).Fine? <==> init >= 0 || Covered(run)
    ensures init >= 0 ==> Play(init, run).Fine? && Play(init, run).sem == After(init, run).sem
    ensures init < 0 && Covered(run) ==>
      Play(init, run).sem.count == init + Signals(run) - Waits(run) < 0
      && |Play(init, run).sem.wait| == Waits(run) - Signals(run)
  {
    if run != [] {
      var n := |run| - 1;
      SignalDefinedIff(init, run[..n]);
      CoveredStep(run, n);
    }
  }

  lemma CoveredStep(run: seq<Event>, n: nat)
    requires n + 1 == |run|
    ensures Covered(run) <==> Covered(run[..n]) && (run[n].Signal? ==> Signals(run[..n]) < Waits(run[..n]))
  {
    forall k | 0 <= k < n ensures run[..n][..k] == run[..k] && run[..n][k] == run[k] {}
  }

  // Created with -1: a signal at once finds nobody, one after a wait does.
  lemma {:induction false} NegativeCount(pid: nat)
    ensures Play(-1, [Signal]) == Stuck
    ensures Play(-1, [Wait(pid), Signal]) == Fine(Sem(-1, []))
  {
    assert [Signal][..0] == [];
    assert Play(-1, []) == Fine(Sem(-1, []));
    assert [Wait(pid), Signal][..1] == [Wait(pid)] && [Wait(pid)][..0] == [];
    assert Play(-1, [Wait(pid)]) == Fine(Sem(-2, [pid]));
  }
}
