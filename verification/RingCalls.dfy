/**
What the callers of the ring see.

A call is told from the events alone: the value a Push was called with, the values the
call's own steps put behind the tail, and the values they took off the head.  The
protocol carries the caller's value through every retry, a Push answers true exactly
when it put that value into the ring once, and a Pop answers with exactly what it took.
*/
module RingCalls {
  import opened Wrappers
  import opened RingInvariant
  import opened RingMachine
  import opened RingProgress

  /** The last call of a thread: what it was asked to push, what it appended, what it removed. */
  datatype Call<T> = Call(asked: Option<T>, appended: seq<T>, removed: seq<T>)

  /** The values that stand behind the old tail after an event. */
  function Appended<T>(s: State<T>, s': State<T>): seq<T> {
    if |s.accepted| <= |s'.accepted| then s'.accepted[|s.accepted|..] else []
  }

  /** The values the head has moved past. */
  function Removed<T>(s: State<T>, s': State<T>): seq<T> {
    if s.head <= s'.head <= |s.accepted| then s.accepted[s.head..s'.head] else []
  }

  /** A call made at rest begins a new record; every other event of the thread adds what it moved. */
  function After<T>(s: State<T>, e: Event<T>, i: nat, c: Call<T>): Call<T>
    requires Shape(s)
  {
    if e.thread != i || i >= |s.threads| then c
    else if e.CallPush? && AtRest(s.threads[i]) then Call(Some(e.v), [], [])
    else if e.CallPop? && AtRest(s.threads[i]) then Call(None, [], [])
    else Call(c.asked, c.appended + Appended(s, Exec(s, e)), c.removed + Removed(s, Exec(s, e)))
  }

  function CallOf<T>(s: State<T>, events: seq<Event<T>>, i: nat, c: Call<T>): Call<T>
    requires Shape(s)
    decreases |events|
  {
    if events == [] then c else CallOf(Exec(s, events[0]), events[1..], i, After(s, events[0], i, c))
  }

  /** What a thread knows of its call, by where it stands. */
  ghost predicate Keeps<T>(s: State<T>, i: nat, c: Call<T>)
    requires i < |s.threads|
  {
    match s.threads[i]
    case Idle => c == Call(None, [], [])
    case PushLoadTail(v) => c == Call(Some(v), [], [])
    case PushLoadSeq(v, _) => c == Call(Some(v), [], [])
    case PushCas(v, _) => c == Call(Some(v), [], [])
    case PushWrite(v, _) => c == Call(Some(v), [v], [])
    case PushPublish(v, _) => c == Call(Some(v), [v], [])
    case PushReturned(ok) => c.asked.Some? && c.removed == [] && c.appended == if ok then [c.asked.value] else []
    case PopLoadHead => c == Call(None, [], [])
    case PopLoadSeq(_) => c == Call(None, [], [])
    case PopCas(_) => c == Call(None, [], [])
    case PopRead(h) => h < |s.accepted| && c == Call(None, [], [s.accepted[h]])
    case PopRelease(h, v) => c == Call(None, [], [v])
    case PopReturned(r) => c == Call(None, [], if r.Some? then [r.value] else [])
  }

  lemma PushKeeps<T>(s: State<T>, i: nat, c: Call<T>)
    requires Inv(s) && i < |s.threads| && InPush(s.threads[i]) && Keeps(s, i, c)
    ensures Keeps(Step(s, i), i, After(s, Advance(i), i, c))
  {
  }

  lemma PopKeeps<T>(s: State<T>, i: nat, c: Call<T>)
    requires Inv(s) && i < |s.threads| && !InPush(s.threads[i]) && Keeps(s, i, c)
    ensures Keeps(Step(s, i), i, After(s, Advance(i), i, c))
  {
    if s.threads[i].PopCas? {
      HeadTicketAccepted(s, i);
      PopCasKeeps(s, i, c);
    } else if s.threads[i].PopRead? {
      ReadTicketAccepted(s, i);
      PopReadKeeps(s, i, c);
    } else {
      OtherPopKeeps(s, i, c);
    }
  }

  lemma HeadTicketAccepted<T>(s: State<T>, i: nat)
    requires Inv(s) && i < |s.threads| && s.threads[i].PopCas?
    ensures s.threads[i].ticket == s.head ==> s.head < |s.accepted|
  {
    assert Holds(s, i);
    if s.threads[i].ticket == s.head { HeadPublished(s); }
  }

  lemma PopCasKeeps<T>(s: State<T>, i: nat, c: Call<T>)
    requires Shape(s) && s.head <= |s.accepted| && i < |s.threads| && s.threads[i].PopCas? && Keeps(s, i, c)
    requires s.threads[i].ticket == s.head ==> s.head < |s.accepted|
    ensures Keeps(Step(s, i), i, After(s, Advance(i), i, c))
  {
    var s' := Step(s, i);
    assert s'.accepted == s.accepted && s.accepted[|s.accepted|..] == [];
    if s.threads[i].ticket != s.head { assert s.accepted[s.head..s'.head] == []; }
  }

  lemma PopReadKeeps<T>(s: State<T>, i: nat, c: Call<T>)
    requires Shape(s) && s.head <= |s.accepted| && i < |s.threads| && s.threads[i].PopRead? && Keeps(s, i, c)
    requires At(s.vals, s.threads[i].ticket) == s.accepted[s.threads[i].ticket]
    ensures Keeps(Step(s, i), i, After(s, Advance(i), i, c))
  {
    var s' := Step(s, i);
    assert s'.accepted == s.accepted && s.accepted[|s.accepted|..] == [] && s.accepted[s.head..s'.head] == [];
  }

  lemma ReadTicketAccepted<T>(s: State<T>, i: nat)
    requires Inv(s) && i < |s.threads| && s.threads[i].PopRead?
    ensures s.threads[i].ticket < |s.accepted|
    ensures At(s.vals, s.threads[i].ticket) == s.accepted[s.threads[i].ticket]
  {
    assert Holds(s, i);
  }

  lemma OtherPopKeeps<T>(s: State<T>, i: nat, c: Call<T>)
    requires Shape(s) && s.head <= |s.accepted| && i < |s.threads| && Keeps(s, i, c)
    requires !InPush(s.threads[i]) && !s.threads[i].PopCas? && !s.threads[i].PopRead?
    ensures Keeps(Step(s, i), i, After(s, Advance(i), i, c))
  {
    var s' := Step(s, i);
    assert s'.accepted == s.accepted && s.accepted[|s.accepted|..] == [] && s.accepted[s.head..s'.head] == [];
  }

  // Nothing that was accepted is ever taken back or overwritten.
  lemma AcceptedGrows<T>(s: State<T>, e: Event<T>)
    requires Shape(s)
    ensures s.accepted <= Exec(s, e).accepted
  {
    if e.Advance? && e.thread < |s.threads| && s.threads[e.thread].PushCas? {
    } else {
      NoCasNoValue(s, e);
    }
  }

  lemma NoCasNoValue<T>(s: State<T>, e: Event<T>)
    requires Shape(s)
    requires !(e.Advance? && e.thread < |s.threads| && s.threads[e.thread].PushCas?)
    ensures Exec(s, e).accepted == s.accepted && Exec(s, e).tail == s.tail
  {
  }

  lemma OthersKeep<T>(s: State<T>, e: Event<T>, i: nat, c: Call<T>)
    requires Shape(s) && i < |s.threads| && e.thread != i && Keeps(s, i, c)
    ensures Keeps(Exec(s, e), i, c)
  {
    AcceptedGrows(s, e);
    if e.Advance? && e.thread < |s.threads| { StepMovesOneThread(s, e.thread); }
    assert Exec(s, e).threads[i] == s.threads[i];
  }

  lemma ExecKeeps<T>(s: State<T>, e: Event<T>, i: nat, c: Call<T>)
    requires Inv(s) && i < |s.threads| && Keeps(s, i, c)
    ensures Keeps(Exec(s, e), i, After(s, e, i, c))
  {
    if e.thread != i {
      OthersKeep(s, e, i, c);
    } else if e.Advance? {
      if InPush(s.threads[i]) { PushKeeps(s, i, c); } else { PopKeeps(s, i, c); }
    }
  }

  lemma {:induction false} RunKeeps<T>(s: State<T>, events: seq<Event<T>>, i: nat, c: Call<T>)
    requires Inv(s) && i < |s.threads| && Keeps(s, i, c)
    ensures Inv(Run(s, events)) && Keeps(Run(s, events), i, CallOf(s, events, i, c))
    decreases |events|
  {
    if events != [] {
      ExecInv(s, events[0]);
      ExecKeeps(s, events[0], i, c);
      RunKeeps(Exec(s, events[0]), events[1..], i, After(s, events[0], i, c));
    }
  }

  /** The last call of thread i in a run from the fresh ring. */
  function LastCall<T>(cap: nat, zero: T, n: nat, events: seq<Event<T>>, i: nat): Call<T>
    requires cap > 0
  {
    CallOf(Init(cap, zero, n), events, i, Call(None, [], []))
  }

  lemma LastCallKeeps<T>(cap: nat, zero: T, n: nat, events: seq<Event<T>>, i: nat)
    requires cap >= 2 && i < n
    ensures Inv(Run(Init(cap, zero, n), events))
    ensures Keeps(Run(Init(cap, zero, n), events), i, LastCall(cap, zero, n, events, i))
  {
    InitInv(cap, zero, n);
    RunKeeps(Init(cap, zero, n), events, i, Call(None, [], []));
  }

  /**
  In every run, a Push that answered true appended the value of its call once and nothing
  else, a Push that answered false appended nothing, and neither removed anything.
  */
  lemma PushAnswersItsCall<T>(cap: nat, zero: T, n: nat, events: seq<Event<T>>, i: nat)
    requires cap >= 2 && i < n
    requires Run(Init(cap, zero, n), events).threads[i].PushReturned?
    ensures var ok, call := Run(Init(cap, zero, n), events).threads[i].ok, LastCall(cap, zero, n, events, i);
            && call.asked.Some? && call.removed == []
            && (ok <==> call.appended == [call.asked.value])
            && (!ok <==> call.appended == [])
  {
    LastCallKeeps(cap, zero, n, events, i);
  }

  /** In every run, a Pop that answered a value removed it and nothing else, and one that answered none removed none. */
  lemma PopAnswersItsCall<T>(cap: nat, zero: T, n: nat, events: seq<Event<T>>, i: nat)
    requires cap >= 2 && i < n
    requires Run(Init(cap, zero, n), events).threads[i].PopReturned?
    ensures var r, call := Run(Init(cap, zero, n), events).threads[i].result, LastCall(cap, zero, n, events, i);
            && call.asked.None? && call.appended == []
            && (r.None? <==> call.removed == [])
            && (forall v :: r == Some(v) <==> call.removed == [v])
  {
    LastCallKeeps(cap, zero, n, events, i);
  }

  /** A thread inside Push carries the value of its call, however often its CAS was lost. */
  lemma PushCarriesItsValue<T>(cap: nat, zero: T, n: nat, events: seq<Event<T>>, i: nat)
    requires cap >= 2 && i < n
    requires InPush(Run(Init(cap, zero, n), events).threads[i])
    ensures LastCall(cap, zero, n, events, i).asked == Some(Run(Init(cap, zero, n), events).threads[i].v)
  {
    LastCallKeeps(cap, zero, n, events, i);
  }

  /** An event raises the tail exactly when it appends, and then it appends the value its thread's call asked for. */
  lemma TailTakesTheAskedValue<T>(cap: nat, zero: T, n: nat, events: seq<Event<T>>, e: Event<T>)
    requires cap >= 2 && e.thread < n
    ensures var s := Run(Init(cap, zero, n), events);
            var s', asked := Exec(s, e), LastCall(cap, zero, n, events, e.thread).asked;
            && (s'.tail == s.tail <==> s'.accepted == s.accepted)
            && (s'.tail != s.tail ==>
                  e.Advance? && asked.Some? && s'.tail == s.tail + 1 && s'.accepted == s.accepted + [asked.value])
  {
    LastCallKeeps(cap, zero, n, events, e.thread);
    var s := Run(Init(cap, zero, n), events);
    if !(e.Advance? && s.threads[e.thread].PushCas?) { NoCasNoValue(s, e); }
  }
}
