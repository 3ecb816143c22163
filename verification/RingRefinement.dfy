/** The ring refines a bounded FIFO queue in every run. */
module RingRefinement {
  import opened Wrappers
  import opened RingInvariant
  import opened RingMachine

  datatype QueueOp<T> = Stutter | Enqueue(v: T) | Dequeue(v: T)

  function Queue<T>(s: State<T>): (q: seq<T>)
    requires s.head <= s.tail == |s.accepted|
  {
    s.accepted[s.head..]
  }

  /** The queue operation an event performs: the CAS that claims a ticket is the one that counts. */
  function Effect<T>(s: State<T>, e: Event<T>): QueueOp<T>
    requires Shape(s)
  {
    if e.Advance? && e.thread < |s.threads| && s.threads[e.thread].PushCas? && s.threads[e.thread].ticket == s.tail then
      Enqueue(s.threads[e.thread].v)
    else if e.Advance? && e.thread < |s.threads| && s.threads[e.thread].PopCas? && s.threads[e.thread].ticket == s.head
            && s.head < |s.accepted| then
      Dequeue(s.accepted[s.head])
    else Stutter
  }

  function Effects<T>(s: State<T>, events: seq<Event<T>>): seq<QueueOp<T>>
    requires Shape(s)
    decreases |events|
  {
    if events == [] then [] else [Effect(s, events[0])] + Effects(Exec(s, events[0]), events[1..])
  }

  /** A queue of at most cap values; None once an operation was not allowed. */
  function BoundedFifo<T(==)>(cap: nat, q: seq<T>, ops: seq<QueueOp<T>>): Option<seq<T>>
    decreases |ops|
  {
    if ops == [] then Some(q)
    else match ops[0]
      case Stutter => BoundedFifo(cap, q, ops[1..])
      case Enqueue(v) => if |q| < cap then BoundedFifo(cap, q + [v], ops[1..]) else None
      case Dequeue(v) => if q != [] && q[0] == v then BoundedFifo(cap, q[1..], ops[1..]) else None
  }

  lemma ExecRefines<T>(s: State<T>, e: Event<T>)
    requires Inv(s) && Inv(Exec(s, e))
    ensures match Effect(s, e)
            case Stutter => Queue(Exec(s, e)) == Queue(s)
            case Enqueue(v) => |Queue(s)| < s.cap && Queue(Exec(s, e)) == Queue(s) + [v]
            case Dequeue(v) => Queue(s) != [] && Queue(s)[0] == v && Queue(Exec(s, e)) == Queue(s)[1..]
  {
    if e.Advance? && e.thread < |s.threads| && s.threads[e.thread].PushCas? {
      TailCasEnqueues(s, e.thread);
    } else if e.Advance? && e.thread < |s.threads| && s.threads[e.thread].PopCas? {
      assert Holds(s, e.thread);
      if s.threads[e.thread].ticket == s.head {
        HeadPublished(s);
      }
      HeadCasDequeues(s, e.thread);
    } else {
      CountersAndHistory(s, e);
    }
  }

  lemma TailCasEnqueues<T>(s: State<T>, i: nat)
    requires Shape(s) && Counters(s) && i < |s.threads| && s.threads[i].PushCas? && Counters(Step(s, i))
    ensures if s.threads[i].ticket == s.tail
            then |Queue(s)| < s.cap && Queue(Step(s, i)) == Queue(s) + [s.threads[i].v]
            else Queue(Step(s, i)) == Queue(s)
  {
  }

  lemma HeadCasDequeues<T>(s: State<T>, i: nat)
    requires Shape(s) && Counters(s) && i < |s.threads| && s.threads[i].PopCas? && Counters(Step(s, i))
    ensures if s.threads[i].ticket == s.head
            then Queue(s) != [] && Queue(s)[0] == s.accepted[s.head] && Queue(Step(s, i)) == Queue(s)[1..]
            else Queue(Step(s, i)) == Queue(s)
  {
  }

  // No other event moves a counter or accepts a value.
  lemma CountersAndHistory<T>(s: State<T>, e: Event<T>)
    requires Shape(s)
    requires !(e.Advance? && e.thread < |s.threads| && (s.threads[e.thread].PushCas? || s.threads[e.thread].PopCas?))
    ensures Exec(s, e).head == s.head && Exec(s, e).tail == s.tail && Exec(s, e).accepted == s.accepted
  {
  }

  lemma {:induction false} RunRefines<T>(s: State<T>, events: seq<Event<T>>)
    requires Inv(s)
    ensures Inv(Run(s, events))
    ensures BoundedFifo(s.cap, Queue(s), Effects(s, events)) == Some(Queue(Run(s, events)))
    decreases |events|
  {
    if events != [] {
      ExecInv(s, events[0]);
      ExecRefines(s, events[0]);
      var ops := Effects(s, events);
      assert ops[1..] == Effects(Exec(s, events[0]), events[1..]);
      RunRefines(Exec(s, events[0]), events[1..]);
    }
  }

  /** The ring refines a bounded FIFO in every run, with the winning CAS as linearization point. */
  lemma EveryRunRefinesBoundedFifo<T>(cap: nat, zero: T, n: nat, events: seq<Event<T>>)
    requires cap >= 2
    ensures var s := Run(Init(cap, zero, n), events);
            && s.head <= s.tail == |s.accepted|
            && BoundedFifo(cap, [], Effects(Init(cap, zero, n), events)) == Some(Queue(s))
  {
    InitInv(cap, zero, n);
    RunRefines(Init(cap, zero, n), events);
  }

  /** A pop answers with the value its CAS took off the queue: the one accepted with its ticket. */
  lemma PopAnswersItsTicket<T>(cap: nat, zero: T, n: nat, events: seq<Event<T>>, i: nat)
    requires cap >= 2 && i < n
    requires Run(Init(cap, zero, n), events).threads[i].PopRelease?
    ensures var s := Run(Init(cap, zero, n), events);
            var h := s.threads[i].ticket;
            && h < s.head <= |s.accepted|
            && Step(s, i).threads[i] == PopReturned(Some(s.accepted[h]))
            && h in Step(s, i).taken && Step(s, i).taken[h] == s.accepted[h]
  {
    InitInv(cap, zero, n);
    RunInv(Init(cap, zero, n), events);
    assert Holds(Run(Init(cap, zero, n), events), i);
  }
}
