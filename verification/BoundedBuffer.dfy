// One producer and one consumer over a ring of n slots, guarded by the
// semaphores mutex, full and empty, as interleaved atomic steps. Products
// 0, 1, ... last are sent; the consumer stops at the last without giving the
// mutex back.
module BoundedBuffer {
  import opened Arith
  import opened SemSpec

  const PRODUCER: nat := 0
  const CONSUMER: nat := 1

  datatype Producer = WaitEmpty | WaitMutex | Write | SignalMutex | SignalFull | Exited
  datatype Consumer = AwaitFull | AwaitMutex | Read | GiveMutex | GiveEmpty | Finished

  datatype World = World(
    mutex: Sem, full: Sem, empty: Sem, page: seq<int>,
    producer: Producer, product: int, producerPos: int,
    consumer: Consumer, received: seq<int>, consumerPos: int)

  predicate Asleep(w: World, pid: nat) {
    pid in w.mutex.wait || pid in w.full.wait || pid in w.empty.wait
  }

  // The semaphores have been created; the page holds anything.
  predicate Start(w: World, n: nat) {
    && w.mutex == Sem(1, []) && w.full == Sem(0, []) && w.empty == Sem(n, []) && |w.page| == n
    && w.producer == WaitEmpty && w.product == 0 && w.producerPos == 0
    && w.consumer == AwaitFull && w.received == [] && w.consumerPos == 0
  }

  predicate ProducerCanStep(w: World) {
    w.producer != Exited && !Asleep(w, PRODUCER)
  }

  predicate ConsumerCanStep(w: World) {
    w.consumer != Finished && !Asleep(w, CONSUMER)
  }

  // A process that blocks in a wait goes on after it once released.
  function ProducerStep(w: World, n: nat, last: nat): World
    requires n > 0 && |w.page| == n && ProducerCanStep(w) && 0 <= w.producerPos < n
    requires CanSignal(w.mutex) && CanSignal(w.full)
  {
    match w.producer
    case WaitEmpty => w.(empty := WaitOn(w.empty, PRODUCER), producer := WaitMutex)
    case WaitMutex => w.(mutex := WaitOn(w.mutex, PRODUCER), producer := Write)
    case Write =>
      w.(page := w.page[w.producerPos := w.product], product := w.product + 1,
         producerPos := (w.producerPos + 1) % n, producer := SignalMutex)
    case SignalMutex => w.(mutex := SignalOn(w.mutex), producer := SignalFull)
    case SignalFull =>
      w.(full := SignalOn(w.full), producer := if w.product > last then Exited else WaitEmpty)
    case Exited => w
  }

  function ConsumerStep(w: World, n: nat, last: nat): World
    requires n > 0 && |w.page| == n && ConsumerCanStep(w) && 0 <= w.consumerPos < n
    requires CanSignal(w.mutex) && CanSignal(w.empty)
  {
    match w.consumer
    case AwaitFull => w.(full := WaitOn(w.full, CONSUMER), consumer := AwaitMutex)
    case AwaitMutex => w.(mutex := WaitOn(w.mutex, CONSUMER), consumer := Read)
    case Read =>
      var product := w.page[w.consumerPos];
      var w' := w.(received := w.received + [product]);
      if product == last then w'.(consumer := Finished)
      else w'.(consumerPos := (w.consumerPos + 1) % n, consumer := GiveMutex)
    case GiveMutex => w.(mutex := SignalOn(w.mutex), consumer := GiveEmpty)
    case GiveEmpty => w.(empty := SignalOn(w.empty), consumer := AwaitFull)
    case Finished => w
  }

  // ----- the invariant -----

  function B(b: bool): int { if b then 1 else 0 }

  // A semaphore only one process waits on.
  predicate Single(s: Sem, pid: nat, waiting: bool) {
    && s.count >= -1 && s.wait == (if s.count == -1 then [pid] else [])
    && (s.count == -1 ==> waiting)
  }

  predicate Counts(w: World, n: nat) {
    && w.empty.count == n + |w.received| - B(w.consumer in {GiveMutex, GiveEmpty, Finished})
                        - w.product - B(w.producer in {WaitMutex, Write})
    && w.full.count == w.product - B(w.producer in {SignalMutex, SignalFull})
                       - |w.received| - B(w.consumer in {AwaitMutex, Read})
    && w.mutex.count == 1 - B(w.producer in {Write, SignalMutex}) - B(w.consumer in {Read, GiveMutex, Finished})
  }

  predicate Queues(w: World) {
    && Single(w.empty, PRODUCER, w.producer == WaitMutex)
    && Single(w.full, CONSUMER, w.consumer == AwaitMutex)
    && (w.mutex.count >= 0 ==> w.mutex.wait == [])
    && (w.mutex.count < 0 ==>
          || (w.mutex.wait == [PRODUCER] && w.producer == Write)
          || (w.mutex.wait == [CONSUMER] && w.consumer == Read))
  }

  // The unread products stand in their slots.
  predicate Slots(w: World, n: nat)
    requires n > 0
  {
    && |w.page| == n && |w.received| <= w.product <= |w.received| + n
    && w.producerPos == w.product % n
    && (w.consumer != Finished ==> w.consumerPos == |w.received| % n)
    && (w.consumer == Finished ==> 0 <= w.consumerPos < n)
    && forall k :: |w.received| <= k < w.product ==> w.page[k % n] == k
  }

  predicate Received(w: World, last: nat) {
    && (forall k :: 0 <= k < |w.received| ==> w.received[k] == k)
    && w.product <= last + 1
    && (w.producer == Exited <==> w.product == last + 1 && w.producer !in {SignalMutex, SignalFull})
    && (w.consumer == Finished <==> |w.received| == last + 1)
  }

  predicate Inv(w: World, n: nat, last: nat)
    requires n > 0
  {
    Counts(w, n) && Queues(w) && Slots(w, n) && Received(w, last)
  }

  lemma StartInv(w: World, n: nat, last: nat)
    requires n > 0 && Start(w, n)
    ensures Inv(w, n, last)
  {}

  // The next slot written differs from every unread one.
  lemma SlotsApart(p: nat, k: nat, n: nat)
    requires n > 0 && k < p < k + n
    ensures p % n != k % n
  {
    assert p == n * (p / n) + p % n && k == n * (k / n) + k % n;
    assert n * (p / n - k / n) == n * (p / n) - n * (k / n);
    if p % n == k % n {
      SmallMultiple(n, p / n - k / n);
    }
  }

  lemma NextPos(p: nat, n: nat)
    requires n > 0
    ensures (p % n + 1) % n == (p + 1) % n
  {
    var q, r := p / n, p % n;
    assert p == n * q + r;
    if r + 1 == n {
      assert n * (q + 1) == n * q + n;
      Remainder(p + 1, n, q + 1, 0);
      Remainder(r + 1, n, 1, 0);
    } else {
      Remainder(p + 1, n, q, r + 1);
      Remainder(r + 1, n, 0, r + 1);
    }
  }

  lemma ProducerKeeps(w: World, n: nat, last: nat)
    requires n > 0 && Inv(w, n, last) && ProducerCanStep(w)
    ensures CanSignal(w.mutex) && CanSignal(w.full)
    ensures Inv(ProducerStep(w, n, last), n, last)
  {
    var w' := ProducerStep(w, n, last);
    if w.producer == Write {
      assert w.product < |w.received| + n;
      NextPos(w.product, n);
      forall k | |w.received| <= k < w'.product
        ensures w'.page[k % n] == k {
        if k < w.product {
          SlotsApart(w.product, k, n);
        }
      }
    }
  }

  lemma ConsumerKeeps(w: World, n: nat, last: nat)
    requires n > 0 && Inv(w, n, last) && ConsumerCanStep(w)
    ensures CanSignal(w.mutex) && CanSignal(w.empty)
    ensures Inv(ConsumerStep(w, n, last), n, last)
  {
    if w.consumer == Read {
      assert |w.received| < w.product;
      NextPos(|w.received|, n);
    }
  }

  // ----- runs -----

  datatype Who = P | C

  predicate CanStep(w: World, who: Who) {
    match who case P => ProducerCanStep(w) case C => ConsumerCanStep(w)
  }

  // What the code needs to hold for the step not to go astray: slots within the
  // page, and somebody to release when a signal releases somebody.
  predicate Defined(w: World, n: nat) {
    && n > 0 && |w.page| == n && 0 <= w.producerPos < n && 0 <= w.consumerPos < n
    && CanSignal(w.mutex) && CanSignal(w.full) && CanSignal(w.empty)
  }

  function Step(w: World, n: nat, last: nat, who: Who): World
    requires CanStep(w, who) && Defined(w, n)
  {
    match who case P => ProducerStep(w, n, last) case C => ConsumerStep(w, n, last)
  }

  // The worlds of an interleaving, one after the other.
  predicate Run(ws: seq<World>, n: nat, last: nat) {
    && ws != [] && Start(ws[0], n)
    && forall i :: 0 <= i < |ws| - 1 ==> Defined(ws[i], n) && Follows(ws[i], ws[i + 1], n, last)
  }

  predicate Follows(w: World, w': World, n: nat, last: nat)
    requires Defined(w, n)
  {
    (CanStep(w, P) && w' == Step(w, n, last, P)) || (CanStep(w, C) && w' == Step(w, n, last, C))
  }

  lemma StepKeeps(w: World, n: nat, last: nat, who: Who)
    requires n > 0 && Inv(w, n, last) && CanStep(w, who)
    ensures Defined(w, n) && Inv(Step(w, n, last, who), n, last)
  {
    match who
    case P => ProducerKeeps(w, n, last);
    case C => ConsumerKeeps(w, n, last);
  }

  lemma {:induction false} RunKeepsInv(ws: seq<World>, n: nat, last: nat, i: nat)
    requires n > 0 && Run(ws, n, last) && i < |ws|
    ensures Inv(ws[i], n, last) && Defined(ws[i], n)
  {
    if i == 0 {
      StartInv(ws[0], n, last);
    } else {
      RunKeepsInv(ws, n, last, i - 1);
      var w := ws[i - 1];
      assert Follows(w, ws[i], n, last);
      if CanStep(w, P) && ws[i] == Step(w, n, last, P) {
        StepKeeps(w, n, last, P);
      } else {
        StepKeeps(w, n, last, C);
      }
    }
  }

  // ----- what every run guarantees -----

  // Past its wait on the mutex, not yet past its signal, and awake.
  predicate ProducerInside(w: World) {
    w.producer in {Write, SignalMutex} && !Asleep(w, PRODUCER)
  }

  predicate ConsumerInside(w: World) {
    w.consumer in {Read, GiveMutex, Finished} && !Asleep(w, CONSUMER)
  }

  lemma {:induction false} MutualExclusion(ws: seq<World>, n: nat, last: nat, i: nat)
    requires n > 0 && Run(ws, n, last) && i < |ws|
    ensures !(ProducerInside(ws[i]) && ConsumerInside(ws[i]))
  {
    RunKeepsInv(ws, n, last, i);
  }

  // The k-th product received is k.
  lemma {:induction false} ReceivedInOrder(ws: seq<World>, n: nat, last: nat, i: nat, k: nat)
    requires n > 0 && Run(ws, n, last) && i < |ws| && k < |ws[i].received|
    ensures ws[i].received[k] == k && k < ws[i].product && k <= last
  {
    RunKeepsInv(ws, n, last, i);
  }

  // A write never hits a slot whose product has not been read.
  lemma {:induction false} NoOverwrite(ws: seq<World>, n: nat, last: nat, i: nat, k: nat)
    requires n > 0 && Run(ws, n, last) && i < |ws|
    requires ProducerCanStep(ws[i]) && ws[i].producer == Write && |ws[i].received| <= k < ws[i].product
    ensures |ws[i].page| == n && k % n != ws[i].producerPos && ws[i].page[k % n] == k
  {
    RunKeepsInv(ws, n, last, i);
    SlotsApart(ws[i].product, k, n);
  }

  // Until the last product is received, one of the two can take a step.
  lemma {:induction false} NoDeadlock(ws: seq<World>, n: nat, last: nat, i: nat)
    requires n > 0 && Run(ws, n, last) && i < |ws| && ws[i].consumer != Finished
    ensures CanStep(ws[i], P) || CanStep(ws[i], C)
  {
    RunKeepsInv(ws, n, last, i);
  }

  // The consumer keeps the mutex when it stops, and nobody is left to want it.
  lemma {:induction false} LastOneOut(ws: seq<World>, n: nat, last: nat, i: nat)
    requires n > 0 && Run(ws, n, last) && i < |ws| && ws[i].consumer == Finished
    ensures ws[i].producer == Exited && ws[i].mutex == Sem(0, []) && |ws[i].received| == last + 1
    ensures !CanStep(ws[i], P) && !CanStep(ws[i], C)
  {
    RunKeepsInv(ws, n, last, i);
  }

  // ----- progress -----

  function ProducerStage(w: World): nat {
    match w.producer
    case WaitEmpty => 0 case WaitMutex => 1 case Write => 2 case SignalMutex => 3 case SignalFull => 4 case Exited => 5
  }

  function ConsumerStage(w: World): nat {
    match w.consumer
    case AwaitFull => 0 case AwaitMutex => 1 case Read => 2 case GiveMutex => 3 case GiveEmpty => 4 case Finished => 3
  }

  // Steps taken so far: five a product, less the two the consumer leaves out.
  function Taken(w: World): int {
    var sent := if w.producer in {SignalMutex, SignalFull, Exited} then w.product - 1 else w.product;
    var read := if w.consumer in {GiveMutex, GiveEmpty, Finished} then |w.received| - 1 else |w.received|;
    5 * sent + ProducerStage(w) + 5 * read + ConsumerStage(w)
  }

  lemma OneStepCounts(w: World, n: nat, last: nat, who: Who)
    requires n > 0 && Inv(w, n, last) && CanStep(w, who) && Defined(w, n)
    ensures Taken(Step(w, n, last, who)) == Taken(w) + 1
  {}

  lemma {:induction false} EachStepCounts(ws: seq<World>, n: nat, last: nat, i: nat)
    requires n > 0 && Run(ws, n, last) && i < |ws|
    ensures Taken(ws[i]) == i
  {
    if i > 0 {
      EachStepCounts(ws, n, last, i - 1);
      var w := ws[i - 1];
      RunKeepsInv(ws, n, last, i - 1);
      assert Follows(w, ws[i], n, last);
      if CanStep(w, P) && ws[i] == Step(w, n, last, P) {
        OneStepCounts(w, n, last, P);
      } else {
        OneStepCounts(w, n, last, C);
      }
    }
  }

  // Every interleaving ends within ten steps a product, and the ones that cannot
  // go on have received every product, in order.
  lemma {:induction false} EveryRunDelivers(ws: seq<World>, n: nat, last: nat)
    requires n > 0 && Run(ws, n, last)
    ensures |ws| <= 10 * (last + 1) - 1
    ensures var w := ws[|ws| - 1];
      !CanStep(w, P) && !CanStep(w, C) ==> w.received == seq(last + 1, k => k) && |ws| == 10 * (last + 1) - 1
  {
    var w := ws[|ws| - 1];
    RunKeepsInv(ws, n, last, |ws| - 1);
    EachStepCounts(ws, n, last, |ws| - 1);
    if !CanStep(w, P) && !CanStep(w, C) {
      if w.consumer != Finished {
        NoDeadlock(ws, n, last, |ws| - 1);
      }
    }
  }
}
