/** Safety of every interleaving of the ring, and why it takes two slots. */
module RingSafety {
  import opened RingInvariant
  import opened RingMachine

  // ------------------------------------------------------ safety of every run

  predicate HoldsTicket<T>(pc: PC<T>) {
    pc.PushWrite? || pc.PushPublish? || pc.PopRead? || pc.PopRelease?
  }

  /**
  What a user of the ring relies on: the counters stay within one lap, completed pops
  returned, ticket by ticket, what was pushed with that ticket, every ticket below head
  was returned or is being returned by a thread, and no two threads that hold a claimed
  ticket touch the same slot.
  */
  ghost predicate Safe<T>(s: State<T>) {
    && s.cap > 0
    && s.head <= s.tail <= s.head + s.cap
    && |s.accepted| == s.tail
    && (forall h :: h in s.taken ==> h < s.head && s.taken[h] == s.accepted[h])
    && (forall h: nat :: h < s.head && h !in s.taken ==>
          exists i :: 0 <= i < |s.threads| && (s.threads[i].PopRead? || s.threads[i].PopRelease?)
              && s.threads[i].ticket == h)
    && (forall i, j :: 0 <= i < j < |s.threads| && HoldsTicket(s.threads[i]) && HoldsTicket(s.threads[j]) ==>
          Index(s.threads[i].ticket, s.cap) != Index(s.threads[j].ticket, s.cap))
  }

  lemma InvSafe<T>(s: State<T>)
    requires Inv(s)
    ensures Safe(s)
  {
    forall h: nat | h < s.head && h !in s.taken
      ensures exists i :: 0 <= i < |s.threads| && (s.threads[i].PopRead? || s.threads[i].PopRelease?)
                && s.threads[i].ticket == h
    {
      assert h in s.reader;
      var i := s.reader[h];
      assert i < |s.threads|;
    }
    forall i, j | 0 <= i < j < |s.threads| && HoldsTicket(s.threads[i]) && HoldsTicket(s.threads[j])
      ensures Index(s.threads[i].ticket, s.cap) != Index(s.threads[j].ticket, s.cap)
    {
      SlotsApart(s, i, j);
    }
  }

  lemma SlotsApart<T>(s: State<T>, i: nat, j: nat)
    requires Inv(s) && i < j < |s.threads| && HoldsTicket(s.threads[i]) && HoldsTicket(s.threads[j])
    ensures Index(s.threads[i].ticket, s.cap) != Index(s.threads[j].ticket, s.cap)
  {
    assert Holds(s, i) && Holds(s, j);
    IndexDistinct(s.tail - s.cap, s.cap);
  }

  /** Every interleaving of any number of threads is safe, when the ring has two slots or more. */
  lemma EveryRunSafe<T>(cap: nat, zero: T, n: nat, events: seq<Event<T>>)
    requires cap >= 2
    ensures Safe(Run(Init(cap, zero, n), events))
  {
    InitInv(cap, zero, n);
    RunInv(Init(cap, zero, n), events);
    InvSafe(Run(Init(cap, zero, n), events));
  }

  /** With no pop under way, the popped values in head order are the first pushed values in tail order. */
  lemma QuiescentPopsArePrefix<T>(cap: nat, zero: T, n: nat, events: seq<Event<T>>, popped: seq<T>)
    requires cap >= 2
    requires var s := Run(Init(cap, zero, n), events);
             && (forall i :: 0 <= i < n ==> !s.threads[i].PopRead? && !s.threads[i].PopRelease?)
             && |popped| == s.head
             && (forall h :: 0 <= h < s.head && h in s.taken ==> popped[h] == s.taken[h])
    ensures popped <= Run(Init(cap, zero, n), events).accepted
  {
    EveryRunSafe(cap, zero, n, events);
    var s := Run(Init(cap, zero, n), events);
    forall h | 0 <= h < s.head ensures popped[h] == s.accepted[h] {
      assert h in s.taken;
    }
  }

  // -------------------------------------------------- one slot is not enough

  function OnePush<T>(v: T): seq<Event<T>> {
    [CallPush(0, v), Advance(0), Advance(0), Advance(0), Advance(0), Advance(0)]
  }

  lemma {:induction false} RunAppend<T>(s: State<T>, a: seq<Event<T>>, b: seq<Event<T>>)
    requires Shape(s)
    ensures Run(s, a + b) == Run(Run(s, a), b)
    decreases |a|
  {
    if a == [] {
      assert a + b == b;
    } else {
      assert (a + b)[1..] == a[1..] + b;
      RunAppend(Exec(s, a[0]), a[1..], b);
    }
  }

  lemma RunSix<T>(s: State<T>, es: seq<Event<T>>)
    requires Shape(s) && |es| == 6
    ensures Run(s, es) == Exec(Exec(Exec(Exec(Exec(Exec(s, es[0]), es[1]), es[2]), es[3]), es[4]), es[5])
  {
    var s1 := Exec(s, es[0]);
    var s2 := Exec(s1, es[1]);
    var s3 := Exec(s2, es[2]);
    assert Run(s, es) == Run(s1, es[1..]);
    assert es[1..][1..] == es[2..] && es[2..][1..] == es[3..] && es[3..][1..] == es[4..] && es[4..][1..] == es[5..];
    assert Run(s1, es[1..]) == Run(s2, es[2..]);
    assert Run(s2, es[2..]) == Run(s3, es[3..]);
    var s4 := Exec(s3, es[3]);
    assert Run(s3, es[3..]) == Run(s4, es[4..]);
    var s5 := Exec(s4, es[4]);
    assert Run(s4, es[4..]) == Run(s5, es[5..]);
    assert Run(s5, es[5..]) == Run(Exec(s5, es[5]), es[5..][1..]);
    assert es[5..][1..] == [];
  }

  // In a ring with one slot a push by thread 0 reaches its CAS whenever the slot shows the tail.
  lemma SingleSlotClaims<T>(s: State<T>, v: T)
    requires Shape(s) && s.cap == 1 && |s.threads| > 0 && AtRest(s.threads[0])
    requires s.seqs == [s.tail]
    ensures Exec(Exec(Exec(s, CallPush(0, v)), Advance(0)), Advance(0))
         == s.(threads := s.threads[0 := PushCas(v, s.tail)])
  {
    assert Index(s.tail, 1) == 0;
    var s1 := Exec(s, CallPush(0, v));
    assert s1 == s.(threads := s.threads[0 := PushLoadTail(v)]);
    var s2 := Exec(s1, Advance(0));
    assert s2 == s.(threads := s.threads[0 := PushLoadSeq(v, s.tail)]);
    var s3 := Exec(s2, Advance(0));
    assert s3.threads == s.threads[0 := PushCas(v, s.tail)];
  }

  lemma SingleSlotStores<T>(s: State<T>, v: T)
    requires Shape(s) && s.cap == 1 && |s.threads| > 0 && s.threads[0] == PushCas(v, s.tail)
    requires s.seqs == [s.tail]
    ensures var s' := Exec(Exec(Exec(s, Advance(0)), Advance(0)), Advance(0));
            && s'.tail == s.tail + 1 && s'.head == s.head && s'.seqs == [s.tail + 1]
            && s'.vals == [v] && s'.threads[0] == PushReturned(true) && s'.cap == 1
  {
    assert Index(s.tail, 1) == 0;
    var s1 := Exec(s, Advance(0));
    assert s1.threads[0] == PushWrite(v, s.tail) && s1.seqs == s.seqs && s1.tail == s.tail + 1 && s1.head == s.head;
    var s2 := Exec(s1, Advance(0));
    assert s2.threads[0] == PushPublish(v, s.tail) && s2.vals == [v] && s2.seqs == s.seqs;
  }

  /** With one slot a push by thread 0 succeeds whenever the slot shows the tail. */
  lemma SingleSlotPush<T>(s: State<T>, v: T)
    requires Shape(s) && s.cap == 1 && |s.threads| > 0 && AtRest(s.threads[0])
    requires s.seqs == [s.tail]
    ensures var s' := Run(s, OnePush(v));
            && s'.tail == s.tail + 1 && s'.head == s.head && s'.seqs == [s.tail + 1]
            && s'.vals == [v] && s'.threads[0] == PushReturned(true)
  {
    RunSix(s, OnePush(v));
    SingleSlotClaims(s, v);
    SingleSlotStores(s.(threads := s.threads[0 := PushCas(v, s.tail)]), v);
  }

  function TwoPushes<T>(a: T, b: T): seq<Event<T>> {
    OnePush(a) + OnePush(b)
  }

  /** One thread, two pushes in a row: both succeed, and the second destroys the first value. */
  lemma SingleSlotOverwrites<T>(zero: T, n: nat, a: T, b: T)
    requires n > 0
    ensures var s := Run(Init(1, zero, n), TwoPushes(a, b));
            && s.head == 0 && s.tail == 2 && s.seqs == [2] && s.vals == [b]
            && s.threads[0] == PushReturned(true) && !Safe(s)
  {
    var s0 := Init(1, zero, n);
    SingleSlotPush(s0, a);
    SingleSlotPush(Run(s0, OnePush(a)), b);
    RunAppend(s0, OnePush(a), OnePush(b));
  }

  /** After that, a pop never returns however long its thread runs. */
  lemma {:induction false} SingleSlotPopSpins<T>(s: State<T>, k: nat)
    requires Shape(s) && s.cap == 1 && |s.threads| > 0 && s.head == 0 && s.seqs == [2]
    requires s.threads[0] == PopLoadHead || s.threads[0] == PopLoadSeq(0)
    ensures var s' := Run(s, seq(k, _ => Advance(0)));
            s'.threads[0] == PopLoadHead || s'.threads[0] == PopLoadSeq(0)
    decreases k
  {
    if k > 0 {
      var es := seq(k, _ => Event<T>.Advance(0));
      assert es[1..] == seq(k - 1, _ => Event<T>.Advance(0));
      SingleSlotPopSpins(Exec(s, es[0]), k - 1);
    }
  }

  /** Exactly the capacities from two upwards are safe in every run. */
  lemma SafeIffTwoSlots<T>(cap: nat, zero: T, n: nat)
    requires cap > 0 && n > 0
    ensures (forall events: seq<Event<T>> :: Safe(Run(Init(cap, zero, n), events))) <==> cap >= 2
  {
    if cap >= 2 {
      forall events: seq<Event<T>> ensures Safe(Run(Init(cap, zero, n), events)) {
        EveryRunSafe(cap, zero, n, events);
      }
    } else {
      SingleSlotOverwrites(zero, n, zero, zero);
    }
  }
}
