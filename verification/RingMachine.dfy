/**
The lock-free ring buffer as a step machine.

Any number of threads call Push and Pop on one ring.  Every atomic access of the
source is one step of one thread: load the counter, load the slot's sequence
number, compare-and-swap the counter, touch the slot's value, store the sequence
number.  A run is a sequence of events that names, at each point, the thread that
moves next, so a statement about every sequence of events is a statement about
every interleaving.
*/
module RingMachine {
  import opened Wrappers
  import Modular

  /**
  The slot of a ticket.  The source masks the ticket with capacity - 1, which for a
  power of two is the remainder; written by subtraction so that the solver meets no
  nonlinear arithmetic, and equal to the remainder by IndexIsRemainder.
  */
  function Index(t: int, cap: nat): (i: nat)
    requires cap > 0
    ensures i < cap
    decreases if t < 0 then cap - t else t
  {
    if t < 0 then Index(t + cap, cap) else if t < cap then t else Index(t - cap, cap)
  }

  lemma {:induction false} IndexIsRemainder(t: int, cap: nat)
    requires cap > 0
    ensures Index(t, cap) == t % cap
    decreases if t < 0 then cap - t else t
  {
    if t < 0 {
      IndexIsRemainder(t + cap, cap);
      Modular.Lap(t, cap);
    } else if t >= cap {
      IndexIsRemainder(t - cap, cap);
      Modular.Lap(t - cap, cap);
    }
  }

  lemma IndexLap(t: int, cap: nat)
    requires cap > 0
    ensures Index(t + cap, cap) == Index(t, cap)
  {
    IndexIsRemainder(t, cap);
    IndexIsRemainder(t + cap, cap);
    Modular.Lap(t, cap);
  }

  lemma IndexDistinct(lo: int, cap: nat)
    requires cap > 0
    ensures forall a: int, b: int {:trigger Index(a, cap), Index(b, cap)} ::
              lo <= a < lo + cap && lo <= b < lo + cap && a != b ==> Index(a, cap) != Index(b, cap)
  {
    forall a: int, b: int {:trigger Index(a, cap), Index(b, cap)} |
      lo <= a < lo + cap && lo <= b < lo + cap && a != b
      ensures Index(a, cap) != Index(b, cap)
    {
      IndexIsRemainder(a, cap);
      IndexIsRemainder(b, cap);
      if a < b { Modular.Distinct(a, b, cap); } else { Modular.Distinct(b, a, cap); }
    }
  }

  function At<A>(cells: seq<A>, t: int): A
    requires |cells| > 0
  {
    cells[Index(t, |cells|)]
  }

  /** Where a thread stands.  The names say what it does next. */
  datatype PC<T> =
    | Idle
    | PushLoadTail(v: T)
    | PushLoadSeq(v: T, ticket: nat)
    | PushCas(v: T, ticket: nat)
    | PushWrite(v: T, ticket: nat)
    | PushPublish(v: T, ticket: nat)
    | PushReturned(ok: bool)
    | PopLoadHead
    | PopLoadSeq(ticket: nat)
    | PopCas(ticket: nat)
    | PopRead(ticket: nat)
    | PopRelease(ticket: nat, v: T)
    | PopReturned(result: Option<T>)

  /**
  The shared memory (`head`, `tail` and the slots), the threads, and a record of
  what happened that no step reads: the values accepted in the order their tail
  CAS succeeded, the values that completed pops returned, by head ticket, and the
  thread that holds each claimed ticket.
  */
  datatype State<T> = State(
    cap: nat,
    head: nat,
    tail: nat,
    seqs: seq<nat>,
    vals: seq<T>,
    threads: seq<PC<T>>,
    accepted: seq<T>,
    taken: map<nat, T>,
    writer: map<nat, nat>,
    reader: map<nat, nat>)

  datatype Event<T> = CallPush(thread: nat, v: T) | CallPop(thread: nat) | Advance(thread: nat)

  ghost predicate Shape<T>(s: State<T>) {
    s.cap > 0 && |s.seqs| == s.cap && |s.vals| == s.cap
  }

  function Init<T>(cap: nat, zero: T, n: nat): (s: State<T>)
    requires cap > 0
    ensures Shape(s)
  {
    State(cap, 0, 0, seq(cap, i => i), seq(cap, i => zero), seq(n, i => Idle), [], map[], map[], map[])
  }

  predicate AtRest<T>(pc: PC<T>) {
    pc.Idle? || pc.PushReturned? || pc.PopReturned?
  }

  /** One atomic access of thread `i`. */
  function Step<T>(s: State<T>, i: nat): (s': State<T>)
    requires Shape(s) && i < |s.threads|
    ensures Shape(s') && s'.cap == s.cap && |s'.threads| == |s.threads|
  {
    match s.threads[i]
    case Idle => s
    case PushReturned(_) => s
    case PopReturned(_) => s
    case PushLoadTail(v) =>
      s.(threads := s.threads[i := PushLoadSeq(v, s.tail)])
    case PushLoadSeq(v, t) =>
      var difference := s.seqs[Index(t, s.cap)] - t;
      var next :=
        if difference == 0 then PushCas(v, t)
        else if difference < 0 then PushReturned(false)
        else PushLoadTail(v);
      s.(threads := s.threads[i := next])
    case PushCas(v, t) =>
      if s.tail == t then
        s.(tail := t + 1,
           threads := s.threads[i := PushWrite(v, t)],
           accepted := s.accepted + [v],
           writer := s.writer[t := i])
      else
        s.(threads := s.threads[i := PushLoadTail(v)])
    case PushWrite(v, t) =>
      s.(vals := s.vals[Index(t, s.cap) := v], threads := s.threads[i := PushPublish(v, t)])
    case PushPublish(v, t) =>
      s.(seqs := s.seqs[Index(t, s.cap) := t + 1],
         threads := s.threads[i := PushReturned(true)],
         writer := s.writer - {t})
    case PopLoadHead =>
      s.(threads := s.threads[i := PopLoadSeq(s.head)])
    case PopLoadSeq(h) =>
      var difference := s.seqs[Index(h, s.cap)] - (h + 1);
      var next :=
        if difference == 0 then PopCas(h)
        else if difference < 0 then PopReturned(None)
        else PopLoadHead;
      s.(threads := s.threads[i := next])
    case PopCas(h) =>
      if s.head == h then
        s.(head := h + 1,
           threads := s.threads[i := PopRead(h)],
           reader := s.reader[h := i])
      else
        s.(threads := s.threads[i := PopLoadHead])
    case PopRead(h) =>
      s.(threads := s.threads[i := PopRelease(h, s.vals[Index(h, s.cap)])])
    case PopRelease(h, v) =>
      s.(seqs := s.seqs[Index(h, s.cap) := h + s.cap],
         threads := s.threads[i := PopReturned(Some(v))],
         taken := s.taken[h := v],
         reader := s.reader - {h})
  }

  /** A thread at rest may call Push or Pop; any thread may take its next step. */
  function Exec<T>(s: State<T>, e: Event<T>): (s': State<T>)
    requires Shape(s)
    ensures Shape(s') && s'.cap == s.cap && |s'.threads| == |s.threads|
  {
    if e.thread >= |s.threads| then s
    else match e
      case CallPush(i, v) =>
        if AtRest(s.threads[i]) then s.(threads := s.threads[i := PushLoadTail(v)]) else s
      case CallPop(i) =>
        if AtRest(s.threads[i]) then s.(threads := s.threads[i := PopLoadHead]) else s
      case Advance(i) => Step(s, i)
  }

  function Run<T>(s: State<T>, events: seq<Event<T>>): (s': State<T>)
    requires Shape(s)
    ensures Shape(s') && s'.cap == s.cap && |s'.threads| == |s.threads|
    decreases |events|
  {
    if events == [] then s else Run(Exec(s, events[0]), events[1..])
  }

  // ---------------------------------------------------------------- invariant

  /** What the slot of ticket t, one of the last cap tickets given out, must show. */
  function Expected(cap: nat, head: nat, writer: map<nat, nat>, reader: map<nat, nat>, t: int): int {
    if t >= 0 && t in writer then t
    else if t >= 0 && (t >= head || t in reader) then t + 1
    else t + cap
  }

  ghost predicate Counters<T>(s: State<T>) {
    s.cap >= 2 && s.head <= s.tail <= s.head + s.cap && |s.accepted| == s.tail
  }

  ghost predicate Slots<T>(s: State<T>)
    requires Shape(s)
  {
    forall t: int :: s.tail - s.cap <= t < s.tail ==> At(s.seqs, t) == Expected(s.cap, s.head, s.writer, s.reader, t)
  }

  ghost predicate Values<T>(s: State<T>)
    requires Shape(s) && Counters(s)
  {
    forall t: int :: s.tail - s.cap <= t < s.tail && t >= 0 && t !in s.writer && (t >= s.head || t in s.reader) ==>
      At(s.vals, t) == s.accepted[t]
  }

  ghost predicate Owners<T>(s: State<T>) {
    && (forall t :: t in s.writer ==>
          s.head <= t < s.tail && s.writer[t] < |s.threads| &&
          var pc := s.threads[s.writer[t]];
          (pc.PushWrite? || pc.PushPublish?) && pc.ticket == t)
    && (forall t :: t in s.reader ==>
          s.tail - s.cap <= t < s.head && s.reader[t] < |s.threads| &&
          var pc := s.threads[s.reader[t]];
          (pc.PopRead? || pc.PopRelease?) && pc.ticket == t)
  }

  /** What thread i may rely on. */
  ghost predicate Holds<T>(s: State<T>, i: nat)
    requires Shape(s) && Counters(s) && i < |s.threads|
  {
    match s.threads[i]
    case PushLoadSeq(v, t) => t <= s.tail
    case PushCas(v, t) => t <= s.tail && (t == s.tail ==> At(s.seqs, t) == t)
    case PushWrite(v, t) => t in s.writer && s.writer[t] == i && t < s.tail && s.accepted[t] == v
    case PushPublish(v, t) =>
      t in s.writer && s.writer[t] == i && t < s.tail && s.accepted[t] == v && At(s.vals, t) == v
    case PopLoadSeq(h) => h <= s.head
    case PopCas(h) => h <= s.head && (h == s.head ==> At(s.seqs, h) == h + 1)
    case PopRead(h) => h in s.reader && s.reader[h] == i
    case PopRelease(h, v) => h in s.reader && s.reader[h] == i && h < s.tail && s.accepted[h] == v
    case _ => true
  }

  ghost predicate Threads<T>(s: State<T>)
    requires Shape(s) && Counters(s)
  {
    forall i :: 0 <= i < |s.threads| ==> Holds(s, i)
  }

  /** Every ticket below head is being read or was returned, with the accepted value. */
  ghost predicate Taken<T>(s: State<T>) {
    && (forall h: nat :: h in s.taken <==> h < s.head && h !in s.reader)
    && (forall h :: h in s.taken ==> h < |s.accepted| && s.taken[h] == s.accepted[h])
  }

  ghost predicate Inv<T>(s: State<T>) {
    Shape(s) && Counters(s) && Slots(s) && Values(s) && Owners(s) && Threads(s) && Taken(s)
  }

  lemma InitInv<T>(cap: nat, zero: T, n: nat)
    requires cap >= 2
    ensures Inv(Init(cap, zero, n))
  {
    var s := Init(cap, zero, n);
    forall t: int | t + cap >= 0 && t < 0 ensures At(s.seqs, t) == t + cap {
      IndexLap(t, cap);
    }
  }

  // The slot of the ticket after the last one given out is the slot of ticket tail - cap.
  lemma NextSlot<T>(s: State<T>)
    requires Inv(s)
    ensures At(s.seqs, s.tail) == Expected(s.cap, s.head, s.writer, s.reader, s.tail - s.cap)
  {
    IndexLap(s.tail - s.cap, s.cap);
  }
}
