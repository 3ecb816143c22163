/** When Push and Pop give up or start over, and lock-freedom. */
module RingProgress {
  import opened Wrappers
  import opened RingInvariant
  import opened RingMachine
  import opened RingSafety

  // --------------------------------------------------------- honest failure

  predicate InPush<T>(pc: PC<T>) {
    pc.PushLoadTail? || pc.PushLoadSeq? || pc.PushCas? || pc.PushWrite? || pc.PushPublish?
  }

  predicate InPop<T>(pc: PC<T>) {
    pc.PopLoadHead? || pc.PopLoadSeq? || pc.PopCas? || pc.PopRead? || pc.PopRelease?
  }

  /** Ticket t, one of the last cap given out, has been popped and its slot given back. */
  predicate Released<T>(s: State<T>, t: int) {
    t < 0 || (t < s.head && t !in s.reader)
  }

  /** Ticket t has been pushed and its value can be read. */
  predicate Published<T>(s: State<T>, t: nat) {
    t < s.tail && t !in s.writer
  }

  // A slot never shows less than a ticket at or above head that was given out for it.
  lemma SlotAtLeast<T>(s: State<T>, t: nat)
    requires Inv(s) && t < s.tail
    ensures At(s.seqs, t) >= t && (t < s.head ==> At(s.seqs, t) >= t + 1)
    decreases s.tail - t
  {
    if t >= s.tail - s.cap {
      assert At(s.seqs, t) == Expected(s.cap, s.head, s.writer, s.reader, t);
    } else {
      IndexLap(t, s.cap);
      SlotAtLeast(s, t + s.cap);
    }
  }

  /**
  A thread inside Push gives up exactly at its load of the sequence number, when no one
  moved the tail since it was loaded and the ticket a lap before is still unreleased: the
  ring is full or the oldest value is still being read.  A lost CAS never gives up.
  */
  lemma PushFailsIff<T>(s: State<T>, i: nat)
    requires Inv(s) && i < |s.threads| && InPush(s.threads[i])
    ensures Step(s, i).threads[i] == PushReturned(false) <==>
              s.threads[i].PushLoadSeq? && s.threads[i].ticket == s.tail
              && !Released(s, s.threads[i].ticket - s.cap)
  {
    assert Holds(s, i);
    if s.threads[i].PushLoadSeq? {
      var t := s.threads[i].ticket;
      if t < s.tail { SlotAtLeast(s, t); } else { NextSlot(s); }
    }
  }

  /**
  A thread inside Pop gives up exactly at its load of the sequence number, when the head
  has not moved and its ticket is not published yet.
  */
  lemma PopFailsIff<T>(s: State<T>, i: nat)
    requires Inv(s) && i < |s.threads| && InPop(s.threads[i])
    ensures Step(s, i).threads[i] == PopReturned(None) <==>
              s.threads[i].PopLoadSeq? && s.threads[i].ticket == s.head && !Published(s, s.threads[i].ticket)
  {
    assert Holds(s, i);
    if s.threads[i].PopLoadSeq? {
      var h := s.threads[i].ticket;
      if h < s.head {
        SlotAtLeast(s, h);
      } else if h == s.tail {
        NextSlot(s);
      } else {
        assert At(s.seqs, h) == Expected(s.cap, s.head, s.writer, s.reader, h);
      }
    }
  }

  /** An attempt starts over only after another thread moved the counter past the loaded value. */
  lemma RetryMeansProgress<T>(s: State<T>, i: nat)
    requires Inv(s) && i < |s.threads|
    ensures (s.threads[i].PushLoadSeq? || s.threads[i].PushCas?) && Step(s, i).threads[i].PushLoadTail? ==>
              s.threads[i].ticket < s.tail
    ensures (s.threads[i].PopLoadSeq? || s.threads[i].PopCas?) && Step(s, i).threads[i].PopLoadHead? ==>
              s.threads[i].ticket < s.head
  {
    assert Holds(s, i);
    if s.threads[i].PushLoadSeq? && s.threads[i].ticket == s.tail {
      NextSlot(s);
    }
    if s.threads[i].PopLoadSeq? && s.threads[i].ticket == s.head {
      if s.head == s.tail {
        NextSlot(s);
      } else {
        assert At(s.seqs, s.head) == Expected(s.cap, s.head, s.writer, s.reader, s.head);
      }
    }
  }

  // ------------------------------------------------------------ lock-freedom

  /** How many events a thread can still have while no thread moves a counter and no call returns. */
  function Rank<T>(pc: PC<T>, head: nat, tail: nat): nat {
    match pc
    case PushLoadTail(_) => 5
    case PushLoadSeq(_, t) => if t == tail then 4 else 7
    case PushCas(_, t) => if t == tail then 3 else 6
    case PushWrite(_, _) => 2
    case PushPublish(_, _) => 1
    case PopLoadHead => 5
    case PopLoadSeq(h) => if h == head then 4 else 7
    case PopCas(h) => if h == head then 3 else 6
    case PopRead(_) => 2
    case PopRelease(_, _) => 1
    case _ => 6
  }

  function TotalRank<T>(threads: seq<PC<T>>, head: nat, tail: nat): (r: nat)
    ensures r <= 7 * |threads|
  {
    if threads == [] then 0 else Rank(threads[0], head, tail) + TotalRank(threads[1..], head, tail)
  }

  lemma {:induction false} TotalRankUpdate<T>(threads: seq<PC<T>>, i: nat, pc: PC<T>, head: nat, tail: nat)
    requires i < |threads|
    ensures TotalRank(threads[i := pc], head, tail) + Rank(threads[i], head, tail)
         == TotalRank(threads, head, tail) + Rank(pc, head, tail)
  {
    if i == 0 {
      assert threads[0 := pc][1..] == threads[1..];
    } else {
      assert threads[i := pc][1..] == threads[1..][i - 1 := pc];
      TotalRankUpdate(threads[1..], i - 1, pc, head, tail);
    }
  }

  /** A thread at rest starts a call, or a thread inside one takes its next step. */
  predicate Active<T>(s: State<T>, e: Event<T>) {
    e.thread < |s.threads| && (e.Advance? <==> !AtRest(s.threads[e.thread]))
  }

  predicate AllActive<T>(s: State<T>, events: seq<Event<T>>)
    requires Shape(s)
    decreases |events|
  {
    events != [] ==> Active(s, events[0]) && AllActive(Exec(s, events[0]), events[1..])
  }

  /** The event ends a call. */
  predicate Returns<T>(s: State<T>, e: Event<T>)
    requires Shape(s)
  {
    Active(s, e) && e.Advance? && AtRest(Step(s, e.thread).threads[e.thread])
  }

  /** How many calls return in a run. */
  function Returned<T>(s: State<T>, events: seq<Event<T>>): nat
    requires Shape(s)
    decreases |events|
  {
    if events == [] then 0
    else (if Returns(s, events[0]) then 1 else 0) + Returned(Exec(s, events[0]), events[1..])
  }

  lemma PushRankFalls<T>(s: State<T>, i: nat)
    requires Inv(s) && i < |s.threads| && InPush(s.threads[i])
    requires Step(s, i).tail == s.tail && !AtRest(Step(s, i).threads[i])
    ensures Rank(Step(s, i).threads[i], s.head, s.tail) < Rank(s.threads[i], s.head, s.tail)
  {
    RetryMeansProgress(s, i);
  }

  lemma PopRankFalls<T>(s: State<T>, i: nat)
    requires Inv(s) && i < |s.threads| && InPop(s.threads[i])
    requires Step(s, i).head == s.head && !AtRest(Step(s, i).threads[i])
    ensures Rank(Step(s, i).threads[i], s.head, s.tail) < Rank(s.threads[i], s.head, s.tail)
  {
    RetryMeansProgress(s, i);
  }

  lemma StepMovesOneThread<T>(s: State<T>, i: nat)
    requires Shape(s) && i < |s.threads|
    ensures Step(s, i).threads == s.threads[i := Step(s, i).threads[i]]
  {
    if InPush(s.threads[i]) { PushMovesOneThread(s, i); } else { PopMovesOneThread(s, i); }
  }

  lemma PushMovesOneThread<T>(s: State<T>, i: nat)
    requires Shape(s) && i < |s.threads| && InPush(s.threads[i])
    ensures Step(s, i).threads == s.threads[i := Step(s, i).threads[i]]
  {
  }

  lemma PopMovesOneThread<T>(s: State<T>, i: nat)
    requires Shape(s) && i < |s.threads| && !InPush(s.threads[i])
    ensures Step(s, i).threads == s.threads[i := Step(s, i).threads[i]]
  {
  }

  lemma ExecMovesOneThread<T>(s: State<T>, e: Event<T>)
    requires Shape(s) && Active(s, e)
    ensures Exec(s, e).threads == s.threads[e.thread := Exec(s, e).threads[e.thread]]
  {
    if e.Advance? { StepMovesOneThread(s, e.thread); }
  }

  lemma OwnRankFalls<T>(s: State<T>, e: Event<T>)
    requires Inv(s) && Active(s, e) && !Returns(s, e)
    requires Exec(s, e).tail == s.tail && Exec(s, e).head == s.head
    ensures Rank(Exec(s, e).threads[e.thread], s.head, s.tail) < Rank(s.threads[e.thread], s.head, s.tail)
  {
    if e.Advance? {
      if InPush(s.threads[e.thread]) { PushRankFalls(s, e.thread); } else { PopRankFalls(s, e.thread); }
    }
  }

  lemma ExecLowersRank<T>(s: State<T>, e: Event<T>)
    requires Inv(s) && Active(s, e) && !Returns(s, e)
    requires Exec(s, e).tail == s.tail && Exec(s, e).head == s.head
    ensures TotalRank(Exec(s, e).threads, s.head, s.tail) < TotalRank(s.threads, s.head, s.tail)
  {
    OwnRankFalls(s, e);
    ExecMovesOneThread(s, e);
    TotalRankUpdate(s.threads, e.thread, Exec(s, e).threads[e.thread], s.head, s.tail);
  }

  lemma CountersGrow<T>(s: State<T>, events: seq<Event<T>>)
    requires Shape(s)
    ensures Run(s, events).head >= s.head && Run(s, events).tail >= s.tail
    decreases |events|
  {
    if events != [] {
      CountersStep(s, events[0]);
      CountersGrow(Exec(s, events[0]), events[1..]);
    }
  }

  lemma CountersStep<T>(s: State<T>, e: Event<T>)
    requires Shape(s)
    ensures Exec(s, e).head >= s.head && Exec(s, e).tail >= s.tail
  {
    if e.Advance? && e.thread < |s.threads| { StepGrows(s, e.thread); }
  }

  lemma StepGrows<T>(s: State<T>, i: nat)
    requires Shape(s) && i < |s.threads|
    ensures Step(s, i).head >= s.head && Step(s, i).tail >= s.tail
  {
  }

  lemma {:induction false} QuietRunIsShort<T>(s: State<T>, events: seq<Event<T>>)
    requires Inv(s) && AllActive(s, events) && Returned(s, events) == 0
    requires Run(s, events).head == s.head && Run(s, events).tail == s.tail
    ensures |events| <= TotalRank(s.threads, s.head, s.tail)
    decreases |events|
  {
    if events != [] {
      var s' := Exec(s, events[0]);
      ExecInv(s, events[0]);
      CountersGrow(s', events[1..]);
      CountersStep(s, events[0]);
      ExecLowersRank(s, events[0]);
      QuietRunIsShort(s', events[1..]);
    }
  }

  /**
  From any reachable state, among any 7n + 1 calls and steps of n threads some thread wins a
  CAS or some call returns, whatever the interleaving.
  */
  lemma SomeThreadProgresses<T>(cap: nat, zero: T, n: nat, before: seq<Event<T>>, events: seq<Event<T>>)
    requires cap >= 2
    requires AllActive(Run(Init(cap, zero, n), before), events)
    requires |events| > 7 * n
    ensures var s := Run(Init(cap, zero, n), before);
            Run(s, events).head + Run(s, events).tail > s.head + s.tail || Returned(s, events) > 0
  {
    InitInv(cap, zero, n);
    RunInv(Init(cap, zero, n), before);
    var s := Run(Init(cap, zero, n), before);
    CountersGrow(s, events);
    if Run(s, events).head == s.head && Run(s, events).tail == s.tail && Returned(s, events) == 0 {
      QuietRunIsShort(s, events);
    }
  }

  // A thread wins at most one CAS a call, so only so many are won before a call returns.

  function Unclaimed<T>(threads: seq<PC<T>>): (u: nat)
    ensures u <= |threads|
  {
    if threads == [] then 0 else (if HoldsTicket(threads[0]) then 0 else 1) + Unclaimed(threads[1..])
  }

  lemma {:induction false} UnclaimedUpdate<T>(threads: seq<PC<T>>, i: nat, pc: PC<T>)
    requires i < |threads|
    ensures Unclaimed(threads[i := pc]) + (if HoldsTicket(threads[i]) then 0 else 1)
         == Unclaimed(threads) + (if HoldsTicket(pc) then 0 else 1)
  {
    if i == 0 {
      assert threads[0 := pc][1..] == threads[1..];
    } else {
      assert threads[i := pc][1..] == threads[1..][i - 1 := pc];
      UnclaimedUpdate(threads[1..], i - 1, pc);
    }
  }

  // Without a return, a thread comes to hold a ticket exactly when it moves a counter.
  lemma TicketMeansCas<T>(s: State<T>, e: Event<T>)
    requires Shape(s) && Active(s, e) && !Returns(s, e)
    ensures var before, after := HoldsTicket(s.threads[e.thread]), HoldsTicket(Exec(s, e).threads[e.thread]);
            if Exec(s, e).head == s.head && Exec(s, e).tail == s.tail then before == after else !before && after
  {
    if e.Advance? {
      if InPush(s.threads[e.thread]) { PushTicket(s, e.thread); } else { PopTicket(s, e.thread); }
    }
  }

  lemma PushTicket<T>(s: State<T>, i: nat)
    requires Shape(s) && i < |s.threads| && InPush(s.threads[i]) && !AtRest(Step(s, i).threads[i])
    ensures Step(s, i).head == s.head
    ensures HoldsTicket(Step(s, i).threads[i]) == (HoldsTicket(s.threads[i]) || Step(s, i).tail != s.tail)
    ensures Step(s, i).tail != s.tail ==> !HoldsTicket(s.threads[i])
  {
  }

  lemma PopTicket<T>(s: State<T>, i: nat)
    requires Shape(s) && i < |s.threads| && InPop(s.threads[i]) && !AtRest(Step(s, i).threads[i])
    ensures Step(s, i).tail == s.tail
    ensures HoldsTicket(Step(s, i).threads[i]) == (HoldsTicket(s.threads[i]) || Step(s, i).head != s.head)
    ensures Step(s, i).head != s.head ==> !HoldsTicket(s.threads[i])
  {
  }

  /** Such runs go on for as long as one likes. */
  lemma ActiveRun<T>(s: State<T>, k: nat) returns (events: seq<Event<T>>)
    requires Shape(s) && |s.threads| > 0
    ensures |events| == k && AllActive(s, events)
    decreases k
  {
    if k == 0 {
      events := [];
    } else {
      var e := if AtRest(s.threads[0]) then CallPop(0) else Advance(0);
      var rest := ActiveRun(Exec(s, e), k - 1);
      events := [e] + rest;
    }
  }

  /** k windows of 7n + 1 events. */
  function Windows(n: nat, k: nat): nat {
    if k == 0 then 0 else (7 * n + 1) + Windows(n, k - 1)
  }

  lemma {:induction false} WindowsProduct(n: nat, k: nat)
    ensures Windows(n, k) == (7 * n + 1) * k
  {
    if k > 0 { WindowsProduct(n, k - 1); }
  }

  lemma {:induction false} WindowsMonotone(n: nat, j: nat, k: nat)
    requires j <= k
    ensures Windows(n, j) <= Windows(n, k)
    decreases k - j
  {
    if j < k { WindowsMonotone(n, j, k - 1); }
  }

  lemma {:induction false} NoReturnIsShort<T>(s: State<T>, events: seq<Event<T>>)
    requires Inv(s) && AllActive(s, events) && Returned(s, events) == 0
    ensures |events| <= TotalRank(s.threads, s.head, s.tail) + Windows(|s.threads|, Unclaimed(s.threads))
    decreases |events|
  {
    if events != [] {
      var e, s' := events[0], Exec(s, events[0]);
      ExecInv(s, e);
      NoReturnIsShort(s', events[1..]);
      ExecMovesOneThread(s, e);
      UnclaimedUpdate(s.threads, e.thread, s'.threads[e.thread]);
      TicketMeansCas(s, e);
      if s'.head == s.head && s'.tail == s.tail {
        ExecLowersRank(s, e);
      }
    }
  }

  /**
  Lock-freedom: from any reachable state, among any 7n + (7n + 1)n + 1 calls and steps of n
  threads some call returns, whatever the interleaving and however often threads call again.
  */
  lemma LockFree<T>(cap: nat, zero: T, n: nat, before: seq<Event<T>>, events: seq<Event<T>>)
    requires cap >= 2
    requires AllActive(Run(Init(cap, zero, n), before), events)
    requires |events| > 7 * n + (7 * n + 1) * n
    ensures Returned(Run(Init(cap, zero, n), before), events) > 0
  {
    InitInv(cap, zero, n);
    RunInv(Init(cap, zero, n), before);
    var s := Run(Init(cap, zero, n), before);
    if Returned(s, events) == 0 {
      NoReturnIsShort(s, events);
      WindowsMonotone(n, Unclaimed(s.threads), n);
      WindowsProduct(n, n);
    }
  }
}
