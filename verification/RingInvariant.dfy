/** Every step of every thread keeps the ring's invariant. */
module RingInvariant {
  import opened RingMachine

  lemma SharedUnchanged<T>(s: State<T>, i: nat, pc: PC<T>)
    requires Inv(s) && i < |s.threads|
    requires !s.threads[i].PushWrite? && !s.threads[i].PushPublish?
    requires !s.threads[i].PopRead? && !s.threads[i].PopRelease?
    requires Holds(s.(threads := s.threads[i := pc]), i)
    ensures Inv(s.(threads := s.threads[i := pc]))
  {
    var s' := s.(threads := s.threads[i := pc]);
    forall k | 0 <= k < |s'.threads| ensures Holds(s', k) {
      if k != i { assert Holds(s, k); }
    }
  }

  lemma StepPushLoadSeq<T>(s: State<T>, i: nat)
    requires Inv(s) && i < |s.threads| && s.threads[i].PushLoadSeq?
    ensures Inv(Step(s, i))
  {
    assert Holds(s, i);
    SharedUnchanged(s, i, Step(s, i).threads[i]);
  }

  ghost predicate TailCasWins<T>(s: State<T>, i: nat) {
    Inv(s) && i < |s.threads| && s.threads[i].PushCas? && s.threads[i].ticket == s.tail
  }

  lemma TailCasCounters<T>(s: State<T>, i: nat)
    requires TailCasWins(s, i)
    ensures Counters(Step(s, i)) && s.tail - s.cap < s.head && s.tail - s.cap !in s.reader
  {
    assert Holds(s, i);
    NextSlot(s);
  }

  lemma TailCasSlots<T>(s: State<T>, i: nat)
    requires TailCasWins(s, i)
    ensures Slots(Step(s, i)) && Owners(Step(s, i))
  {
    TailCasCounters(s, i);
    var s' := Step(s, i);
    assert Holds(s, i);
    forall u: int | s'.tail - s'.cap <= u < s'.tail
      ensures At(s'.seqs, u) == Expected(s'.cap, s'.head, s'.writer, s'.reader, u)
    {
      if u != s.tail { assert At(s.seqs, u) == Expected(s.cap, s.head, s.writer, s.reader, u); }
    }
  }

  lemma TailCasThreads<T>(s: State<T>, i: nat)
    requires TailCasWins(s, i) && Counters(Step(s, i))
    ensures Threads(Step(s, i)) && Values(Step(s, i)) && Taken(Step(s, i))
  {
    var s' := Step(s, i);
    forall k | 0 <= k < |s'.threads| ensures Holds(s', k) {
      TailCasThread(s, i, k);
    }
    TailCasHistory(s, i);
  }

  lemma TailCasThread<T>(s: State<T>, i: nat, k: nat)
    requires TailCasWins(s, i) && Counters(Step(s, i)) && k < |s.threads|
    ensures Holds(Step(s, i), k)
  {
    assert Holds(s, k);
  }

  lemma TailCasHistory<T>(s: State<T>, i: nat)
    requires TailCasWins(s, i) && Counters(Step(s, i))
    ensures Values(Step(s, i)) && Taken(Step(s, i))
  {
  }

  lemma StepPushCas<T>(s: State<T>, i: nat)
    requires Inv(s) && i < |s.threads| && s.threads[i].PushCas?
    ensures Inv(Step(s, i))
  {
    assert Holds(s, i);
    if s.tail != s.threads[i].ticket {
      SharedUnchanged(s, i, PushLoadTail(s.threads[i].v));
    } else {
      TailCasCounters(s, i);
      TailCasSlots(s, i);
      TailCasThreads(s, i);
    }
  }

  lemma StepPushWrite<T>(s: State<T>, i: nat)
    requires Inv(s) && i < |s.threads| && s.threads[i].PushWrite?
    ensures Inv(Step(s, i))
  {
    var s' := Step(s, i);
    assert Holds(s, i);
    forall k | 0 <= k < |s'.threads| ensures Holds(s', k) {
      PushWriteThread(s, i, k);
    }
    PushWriteValues(s, i);
    assert Owners(s');
    assert Slots(s');
  }

  lemma PushWriteThread<T>(s: State<T>, i: nat, k: nat)
    requires Inv(s) && i < |s.threads| && s.threads[i].PushWrite? && k < |s.threads|
    ensures Holds(Step(s, i), k)
  {
    assert Holds(s, i) && Holds(s, k);
    IndexDistinct(s.tail - s.cap, s.cap);
  }

  lemma PushWriteValues<T>(s: State<T>, i: nat)
    requires Inv(s) && i < |s.threads| && s.threads[i].PushWrite?
    ensures Values(Step(s, i))
  {
    var s', t := Step(s, i), s.threads[i].ticket;
    assert Holds(s, i);
    IndexDistinct(s.tail - s.cap, s.cap);
    forall u: int | s'.tail - s'.cap <= u < s'.tail && u != t ensures At(s'.vals, u) == At(s.vals, u) {}
  }

  lemma StepPushPublish<T>(s: State<T>, i: nat)
    requires Inv(s) && i < |s.threads| && s.threads[i].PushPublish?
    ensures Inv(Step(s, i))
  {
    var s' := Step(s, i);
    assert Holds(s, i);
    StoreSeqSlots(s, i);
    StoreSeqThreads(s, i);
    assert Owners(s');
    assert Values(s');
    assert Taken(s');
  }

  // A store to the sequence number of a claimed ticket disturbs no other slot and no other thread.
  lemma StoreSeqSlots<T>(s: State<T>, i: nat)
    requires Inv(s) && i < |s.threads|
    requires s.threads[i].PushPublish? || s.threads[i].PopRelease?
    ensures Slots(Step(s, i))
  {
    var s' := Step(s, i);
    forall u: int | s'.tail - s'.cap <= u < s'.tail
      ensures At(s'.seqs, u) == Expected(s'.cap, s'.head, s'.writer, s'.reader, u)
    {
      StoreSeqSlot(s, i, u);
    }
  }

  lemma StoreSeqSlot<T>(s: State<T>, i: nat, u: int)
    requires Inv(s) && i < |s.threads| && s.tail - s.cap <= u < s.tail
    requires s.threads[i].PushPublish? || s.threads[i].PopRelease?
    ensures var s' := Step(s, i); At(s'.seqs, u) == Expected(s'.cap, s'.head, s'.writer, s'.reader, u)
  {
    if s.threads[i].PushPublish? { PublishSlot(s, i, u); } else { ReleaseSlot(s, i, u); }
  }

  lemma PublishSlot<T>(s: State<T>, i: nat, u: int)
    requires Inv(s) && i < |s.threads| && s.tail - s.cap <= u < s.tail && s.threads[i].PushPublish?
    ensures var s' := Step(s, i); At(s'.seqs, u) == Expected(s'.cap, s'.head, s'.writer, s'.reader, u)
  {
    assert Holds(s, i);
    IndexDistinct(s.tail - s.cap, s.cap);
    assert At(s.seqs, u) == Expected(s.cap, s.head, s.writer, s.reader, u);
  }

  lemma ReleaseSlot<T>(s: State<T>, i: nat, u: int)
    requires Inv(s) && i < |s.threads| && s.tail - s.cap <= u < s.tail && s.threads[i].PopRelease?
    ensures var s' := Step(s, i); At(s'.seqs, u) == Expected(s'.cap, s'.head, s'.writer, s'.reader, u)
  {
    assert Holds(s, i);
    IndexDistinct(s.tail - s.cap, s.cap);
    assert At(s.seqs, u) == Expected(s.cap, s.head, s.writer, s.reader, u);
  }

  lemma StoreSeqThreads<T>(s: State<T>, i: nat)
    requires Inv(s) && i < |s.threads|
    requires s.threads[i].PushPublish? || s.threads[i].PopRelease?
    ensures Threads(Step(s, i))
  {
    var s' := Step(s, i);
    forall k | 0 <= k < |s'.threads| ensures Holds(s', k) {
      StoreSeqThread(s, i, k);
    }
  }

  lemma StoreSeqThread<T>(s: State<T>, i: nat, k: nat)
    requires Inv(s) && i < |s.threads| && k < |s.threads|
    requires s.threads[i].PushPublish? || s.threads[i].PopRelease?
    ensures Holds(Step(s, i), k)
  {
    if s.threads[i].PushPublish? { PublishThread(s, i, k); } else { ReleaseThread(s, i, k); }
  }

  lemma PublishThread<T>(s: State<T>, i: nat, k: nat)
    requires Inv(s) && i < |s.threads| && k < |s.threads| && s.threads[i].PushPublish?
    ensures Holds(Step(s, i), k)
  {
    assert Holds(s, i) && Holds(s, k);
    IndexDistinct(s.tail - s.cap, s.cap);
    IndexLap(s.tail - s.cap, s.cap);
  }

  lemma ReleaseThread<T>(s: State<T>, i: nat, k: nat)
    requires Inv(s) && i < |s.threads| && k < |s.threads| && s.threads[i].PopRelease?
    ensures Holds(Step(s, i), k)
  {
    assert Holds(s, i) && Holds(s, k);
    IndexDistinct(s.tail - s.cap, s.cap);
    NextSlot(s);
    IndexLap(s.tail - s.cap, s.cap);
  }

  lemma StepPopLoadSeq<T>(s: State<T>, i: nat)
    requires Inv(s) && i < |s.threads| && s.threads[i].PopLoadSeq?
    ensures Inv(Step(s, i))
  {
    assert Holds(s, i);
    SharedUnchanged(s, i, Step(s, i).threads[i]);
  }

  ghost predicate HeadCasWins<T>(s: State<T>, i: nat) {
    Inv(s) && i < |s.threads| && s.threads[i].PopCas? && s.threads[i].ticket == s.head
  }

  lemma HeadCasSlots<T>(s: State<T>, i: nat)
    requires HeadCasWins(s, i)
    ensures Counters(Step(s, i)) && Slots(Step(s, i)) && Owners(Step(s, i))
  {
    var s' := Step(s, i);
    assert Holds(s, i);
    HeadPublished(s);
    forall u: int | s'.tail - s'.cap <= u < s'.tail
      ensures At(s'.seqs, u) == Expected(s'.cap, s'.head, s'.writer, s'.reader, u)
    {
      assert At(s.seqs, u) == Expected(s.cap, s.head, s.writer, s.reader, u);
    }
  }

  lemma HeadCasThreads<T>(s: State<T>, i: nat)
    requires HeadCasWins(s, i) && Counters(Step(s, i))
    ensures Threads(Step(s, i)) && Values(Step(s, i)) && Taken(Step(s, i))
  {
    var s' := Step(s, i);
    forall k | 0 <= k < |s'.threads| ensures Holds(s', k) {
      HeadCasThread(s, i, k);
    }
    HeadCasHistory(s, i);
  }

  lemma HeadCasThread<T>(s: State<T>, i: nat, k: nat)
    requires HeadCasWins(s, i) && Counters(Step(s, i)) && k < |s.threads|
    ensures Holds(Step(s, i), k)
  {
    assert Holds(s, i) && Holds(s, k);
    HeadPublished(s);
  }

  lemma HeadCasHistory<T>(s: State<T>, i: nat)
    requires HeadCasWins(s, i) && Counters(Step(s, i))
    ensures Values(Step(s, i)) && Taken(Step(s, i))
  {
    assert Holds(s, i);
    HeadPublished(s);
  }

  lemma StepPopCas<T>(s: State<T>, i: nat)
    requires Inv(s) && i < |s.threads| && s.threads[i].PopCas?
    ensures Inv(Step(s, i))
  {
    assert Holds(s, i);
    if s.head != s.threads[i].ticket {
      SharedUnchanged(s, i, PopLoadHead);
    } else {
      HeadCasSlots(s, i);
      HeadCasThreads(s, i);
    }
  }

  // Only a published ticket shows head + 1 in the slot of head.  With one slot this is
  // where the protocol breaks: released for the next lap would show the same number.
  lemma HeadPublished<T>(s: State<T>)
    requires Inv(s) && At(s.seqs, s.head) == s.head + 1
    ensures s.head < s.tail && s.head !in s.writer
  {
    if s.head == s.tail {
      NextSlot(s);
    } else {
      assert At(s.seqs, s.head) == Expected(s.cap, s.head, s.writer, s.reader, s.head);
    }
  }

  lemma StepPopRead<T>(s: State<T>, i: nat)
    requires Inv(s) && i < |s.threads| && s.threads[i].PopRead?
    ensures Inv(Step(s, i))
  {
    var s' := Step(s, i);
    assert Holds(s, i);
    assert At(s.vals, s.threads[i].ticket) == s.accepted[s.threads[i].ticket];
    forall k | 0 <= k < |s'.threads| ensures Holds(s', k) {
      assert Holds(s, k);
    }
    assert Owners(s');
    assert Slots(s');
    assert Values(s');
  }

  lemma StepPopRelease<T>(s: State<T>, i: nat)
    requires Inv(s) && i < |s.threads| && s.threads[i].PopRelease?
    ensures Inv(Step(s, i))
  {
    var s' := Step(s, i);
    assert Holds(s, i);
    StoreSeqSlots(s, i);
    StoreSeqThreads(s, i);
    ReleaseHistory(s, i);
  }

  lemma ReleaseHistory<T>(s: State<T>, i: nat)
    requires Inv(s) && i < |s.threads| && s.threads[i].PopRelease?
    ensures Owners(Step(s, i)) && Values(Step(s, i)) && Taken(Step(s, i))
  {
    assert Holds(s, i);
  }

  lemma ExecInv<T>(s: State<T>, e: Event<T>)
    requires Inv(s)
    ensures Inv(Exec(s, e))
  {
    var i := e.thread;
    if i < |s.threads| {
      match e
      case CallPush(_, v) => if AtRest(s.threads[i]) { SharedUnchanged(s, i, PushLoadTail(v)); }
      case CallPop(_) => if AtRest(s.threads[i]) { SharedUnchanged(s, i, PopLoadHead); }
      case Advance(_) =>
        match s.threads[i]
        case PushLoadTail(v) => SharedUnchanged(s, i, PushLoadSeq(v, s.tail));
        case PushLoadSeq(_, _) => StepPushLoadSeq(s, i);
        case PushCas(_, _) => StepPushCas(s, i);
        case PushWrite(_, _) => StepPushWrite(s, i);
        case PushPublish(_, _) => StepPushPublish(s, i);
        case PopLoadHead => SharedUnchanged(s, i, PopLoadSeq(s.head));
        case PopLoadSeq(_) => StepPopLoadSeq(s, i);
        case PopCas(_) => StepPopCas(s, i);
        case PopRead(_) => StepPopRead(s, i);
        case PopRelease(_, _) => StepPopRelease(s, i);
        case _ =>
    }
  }

  lemma {:induction false} RunInv<T>(s: State<T>, events: seq<Event<T>>)
    requires Inv(s)
    ensures Inv(Run(s, events))
    decreases |events|
  {
    if events != [] {
      ExecInv(s, events[0]);
      RunInv(Exec(s, events[0]), events[1..]);
    }
  }
}
