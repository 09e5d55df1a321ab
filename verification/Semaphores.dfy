// The list of named semaphores. Waiting and signalling are atomic; a process
// whose wait blocks stays asleep until a signal releases it.
module Semaphores {
  import opened Options
  import opened SemSpec

  class Semaphore {
    const name: string
    var count: int
    var wait: seq<nat>

    constructor (name: string, count: int)
      ensures this.name == name && this.count == count && this.wait == []
    {
      this.name, this.count, this.wait := name, count, [];
    }

    function Abs(): Sem
      reads this
    {
      Sem(count, wait)
    }
  }

  class SemaphoreList {
    var list: seq<Semaphore>
    var asleep: set<nat>

    ghost predicate Distinct()
      reads this
    {
      forall i, j :: 0 <= i < j < |list| ==> list[i].name != list[j].name
    }

    ghost predicate Known(name: string)
      reads this
    {
      exists i :: 0 <= i < |list| && list[i].name == name
    }

    method Get(name: string) returns (s: Semaphore?)
      requires Distinct()
      ensures s == null <==> !Known(name)
      ensures s == null ==> forall t :: t in list ==> t.name != name
      ensures s != null ==> s in list && forall t :: t in list && t.name == name ==> t == s
      ensures s != null ==> s.name == name
    {
      s := null;
      for i := 0 to |list|
        invariant forall j :: 0 <= j < i ==> list[j].name != name
      {
        if list[i].name == name {
          return list[i];
        }
      }
    }

    constructor ()
      ensures list == [] && asleep == {} && Distinct()
    {
      list, asleep := [], {};
    }

    // False, with nothing changed, if the name is taken.
    method Create(name: string, count: int) returns (ok: bool)
      requires Distinct()
      modifies this`list
      ensures Distinct() && ok == !old(Known(name))
      ensures !ok ==> list == old(list)
      ensures ok ==> |list| > 0 && fresh(list[0]) && list[1..] == old(list) && list[0].name == name
      ensures ok ==> list[0].Abs() == Sem(count, [])
    {
      var s := Get(name);
      if s != null {
        return false;
      }
      s := new Semaphore(name, count);
      list := [s] + list;
      ok := true;
    }

    method Wait(name: string, pid: nat)
      requires Distinct()
      modifies this`asleep, list
      ensures !Known(name) ==> asleep == old(asleep) && forall s :: s in list ==> s.Abs() == old(s.Abs())
      ensures forall s :: s in list && s.name == name ==> s.Abs() == WaitOn(old(s.Abs()), pid)
      ensures forall s :: s in list && s.name == name ==>
        asleep == if old(s.count) <= 0 then old(asleep) + {pid} else old(asleep)
      ensures forall s :: s in list && s.name != name ==> s.Abs() == old(s.Abs())
    {
      var s := Get(name);
      if s == null {
        return;
      }
      s.count := s.count - 1;
      if s.count < 0 {
        s.wait := s.wait + [pid];
        asleep := asleep + {pid};
      }
    }

    method Signal(name: string)
      requires Distinct()
      requires forall s :: s in list && s.name == name ==> CanSignal(s.Abs())
      modifies this`asleep, list
      ensures !Known(name) ==> asleep == old(asleep) && forall s :: s in list ==> s.Abs() == old(s.Abs())
      ensures forall s :: s in list && s.name == name ==> s.Abs() == SignalOn(old(s.Abs()))
      ensures forall s :: s in list && s.name == name ==>
        asleep == match Released(old(s.Abs())) case Some(pid) => old(asleep) - {pid} case None => old(asleep)
      ensures forall s :: s in list && s.name != name ==> s.Abs() == old(s.Abs())
    {
      var s := Get(name);
      if s == null {
        return;
      }
      s.count := s.count + 1;
      if s.count <= 0 {
        asleep := asleep - {s.wait[0]};
        s.wait := s.wait[1..];
      }
    }

    // The named semaphore leaves the list; a name nobody has changes nothing.
    method Delete(name: string)
      requires Distinct()
      modifies this`list
      ensures Distinct() && !Known(name)
      ensures forall s :: s in list <==> s in old(list) && s.name != name
    {
      for i := 0 to |list|
        invariant list == old(list) && forall j :: 0 <= j < i ==> list[j].name != name
      {
        if list[i].name == name {
          list := list[..i] + list[i + 1..];
          return;
        }
      }
    }
  }
}
