/**
GenerateHandle called by any number of threads: an atomic increment for the id, a clock
reading, and a CAS loop that keeps the last timestamp rising.  The clock may stall or go
back: each reading is whatever the event says.
*/
module HandleGen {

  datatype PC =
    | Idle
    | ReadClock(id: nat)
    | LoadLast(id: nat, stamp: int)
    | CasLast(id: nat, stamp: int, last: int)
    | Returned(id: nat, stamp: int)

  /** `issued` records the handles in the order their CAS succeeded; no step reads it. */
  datatype State = State(nextHandle: nat, lastTimestamp: int, threads: seq<PC>, issued: seq<(nat, int)>)

  datatype Event = Call(thread: nat) | Advance(thread: nat, clock: int)

  function Exec(s: State, e: Event): (s': State)
    ensures |s'.threads| == |s.threads|
  {
    var i := e.thread;
    if i >= |s.threads| then s
    else match e
      case Call(_) =>
        if s.threads[i].Idle? || s.threads[i].Returned? then
          s.(nextHandle := s.nextHandle + 1, threads := s.threads[i := ReadClock(s.nextHandle + 1)])
        else s
      case Advance(_, clock) =>
        match s.threads[i]
        case ReadClock(id) => s.(threads := s.threads[i := LoadLast(id, clock)])
        case LoadLast(id, stamp) =>
          var last := s.lastTimestamp;
          var stamp' := if stamp <= last then last + 1 else stamp;
          s.(threads := s.threads[i := CasLast(id, stamp', last)])
        case CasLast(id, stamp, last) =>
          if s.lastTimestamp == last then
            s.(lastTimestamp := stamp,
               threads := s.threads[i := Returned(id, stamp)],
               issued := s.issued + [(id, stamp)])
          else
            s.(threads := s.threads[i := LoadLast(id, stamp)])
        case _ => s
  }

  function Run(s: State, events: seq<Event>): (s': State)
    ensures |s'.threads| == |s.threads|
    decreases |events|
  {
    if events == [] then s else Run(Exec(s, events[0]), events[1..])
  }

  predicate Active(pc: PC) {
    pc.ReadClock? || pc.LoadLast? || pc.CasLast?
  }

  ghost predicate ThreadsInv(s: State, first: nat) {
    && (forall i :: 0 <= i < |s.threads| && !s.threads[i].Idle? ==> first < s.threads[i].id <= s.nextHandle)
    && (forall i, j :: 0 <= i < j < |s.threads| && !s.threads[i].Idle? && !s.threads[j].Idle? ==>
          s.threads[i].id != s.threads[j].id)
    && (forall i :: 0 <= i < |s.threads| && s.threads[i].CasLast? ==> s.threads[i].last < s.threads[i].stamp)
    && first <= s.nextHandle
  }

  ghost predicate IssuedInv(s: State, first: nat, start: int) {
    && (forall k :: 0 <= k < |s.issued| ==>
        first < s.issued[k].0 <= s.nextHandle && start < s.issued[k].1 <= s.lastTimestamp)
    && (forall k, m :: 0 <= k < m < |s.issued| ==> s.issued[k].0 != s.issued[m].0 && s.issued[k].1 < s.issued[m].1)
    && start <= s.lastTimestamp
  }

  ghost predicate BothInv(s: State) {
    && (forall k, i :: 0 <= k < |s.issued| && 0 <= i < |s.threads| && Active(s.threads[i]) ==>
          s.issued[k].0 != s.threads[i].id)
    && (forall i :: 0 <= i < |s.threads| && s.threads[i].Returned? ==>
        (s.threads[i].id, s.threads[i].stamp) in s.issued)
  }

  ghost predicate Inv(s: State, first: nat, start: int) {
    ThreadsInv(s, first) && IssuedInv(s, first, start) && BothInv(s)
  }

  lemma KeepsThreads(s: State, e: Event, first: nat, start: int)
    requires Inv(s, first, start)
    ensures ThreadsInv(Exec(s, e), first)
  {
  }

  lemma KeepsIssued(s: State, e: Event, first: nat, start: int)
    requires Inv(s, first, start)
    ensures IssuedInv(Exec(s, e), first, start)
    ensures Exec(s, e).lastTimestamp >= s.lastTimestamp
    ensures |Exec(s, e).issued| > |s.issued| ==> Exec(s, e).lastTimestamp > s.lastTimestamp
  {
  }

  lemma KeepsBoth(s: State, e: Event, first: nat, start: int)
    requires Inv(s, first, start)
    ensures BothInv(Exec(s, e))
  {
    var s', i := Exec(s, e), e.thread;
    forall j | 0 <= j < |s'.threads| && s'.threads[j].Returned?
      ensures (s'.threads[j].id, s'.threads[j].stamp) in s'.issued
    {
      if s.threads[j].Returned? {
        assert (s.threads[j].id, s.threads[j].stamp) in s.issued;
      } else {
        assert s'.issued[|s.issued|] == (s'.threads[j].id, s'.threads[j].stamp);
      }
    }
  }

  lemma ExecInv(s: State, e: Event, first: nat, start: int)
    requires Inv(s, first, start)
    ensures Inv(Exec(s, e), first, start)
    ensures Exec(s, e).lastTimestamp >= s.lastTimestamp
    ensures |Exec(s, e).issued| > |s.issued| ==> Exec(s, e).lastTimestamp > s.lastTimestamp
  {
    KeepsThreads(s, e, first, start);
    KeepsIssued(s, e, first, start);
    KeepsBoth(s, e, first, start);
  }

  lemma {:induction false} RunInv(s: State, events: seq<Event>, first: nat, start: int)
    requires Inv(s, first, start)
    ensures Inv(Run(s, events), first, start)
    decreases |events|
  {
    if events != [] {
      ExecInv(s, events[0], first, start);
      RunInv(Exec(s, events[0]), events[1..], first, start);
    }
  }

  /**
  In every interleaving from any starting counters, all ids are new and distinct, the
  timestamps rise strictly from one winning CAS to the next, above the starting one, and
  every call that returned gave out one of the issued handles.
  */
  lemma HandlesUnique(next: nat, last: int, n: nat, events: seq<Event>)
    ensures var s := Run(State(next, last, seq(n, _ => Idle), []), events);
            && (forall k :: 0 <= k < |s.issued| ==> s.issued[k].0 > next && s.issued[k].1 > last)
            && (forall k, m :: 0 <= k < m < |s.issued| ==>
                s.issued[k].0 != s.issued[m].0 && s.issued[k].1 < s.issued[m].1)
            && (forall i :: 0 <= i < n && s.threads[i].Returned? ==> (s.threads[i].id, s.threads[i].stamp) in s.issued)
            && (forall i, j :: 0 <= i < j < n && s.threads[i].Returned? && s.threads[j].Returned? ==>
                  s.threads[i].id != s.threads[j].id)
  {
    var s0 := State(next, last, seq(n, _ => Idle), []);
    RunInv(s0, events, next, last);
  }

  // ------------------------------------------------------ what a call was given

  /** The id the call drew from the counter and the clock it read. */
  datatype Drawn = Drawn(id: nat, reading: int)

  function After(s: State, e: Event, i: nat, d: Drawn): Drawn {
    if e.thread != i || i >= |s.threads| then d
    else if e.Call? && !Active(s.threads[i]) then Drawn(s.nextHandle + 1, 0)
    else if e.Advance? && s.threads[i].ReadClock? then d.(reading := e.clock)
    else d
  }

  function DrawnBy(s: State, events: seq<Event>, i: nat, d: Drawn): Drawn
    decreases |events|
  {
    if events == [] then d else DrawnBy(Exec(s, events[0]), events[1..], i, After(s, events[0], i, d))
  }

  /** How far the call's stamp may be from its reading. */
  ghost predicate Keeps(s: State, i: nat, d: Drawn)
    requires i < |s.threads|
  {
    match s.threads[i]
    case Idle => true
    case ReadClock(id) => id == d.id
    case LoadLast(id, stamp) => id == d.id && (stamp == d.reading || d.reading <= stamp <= s.lastTimestamp)
    case CasLast(id, stamp, last) =>
      id == d.id && last <= s.lastTimestamp && stamp == if d.reading > last then d.reading else last + 1
    case Returned(id, stamp) => id == d.id && stamp >= d.reading
  }

  lemma ExecKeeps(s: State, e: Event, i: nat, d: Drawn)
    requires i < |s.threads| && Keeps(s, i, d) && Exec(s, e).lastTimestamp >= s.lastTimestamp
    ensures Keeps(Exec(s, e), i, After(s, e, i, d))
  {
  }

  lemma {:induction false} RunKeeps(s: State, events: seq<Event>, i: nat, d: Drawn, first: nat, start: int)
    requires Inv(s, first, start) && i < |s.threads| && Keeps(s, i, d)
    ensures Keeps(Run(s, events), i, DrawnBy(s, events, i, d))
    decreases |events|
  {
    if events != [] {
      ExecInv(s, events[0], first, start);
      ExecKeeps(s, events[0], i, d);
      RunKeeps(Exec(s, events[0]), events[1..], i, After(s, events[0], i, d), first, start);
    }
  }

  /**
  The stamp of a winning CAS is the call's own clock reading when that is above the last
  timestamp, and one above the last timestamp otherwise; the id is the one the call drew.
  No other event issues a handle or moves the last timestamp.
  */
  lemma StampIsReadingOrNext(next: nat, last: int, n: nat, events: seq<Event>, e: Event)
    requires e.thread < n
    ensures var s0 := State(next, last, seq(n, _ => Idle), []);
            IssuesAsDrawn(Run(s0, events), e, DrawnBy(s0, events, e.thread, Drawn(0, 0)))
  {
    var s0 := State(next, last, seq(n, _ => Idle), []);
    RunKeeps(s0, events, e.thread, Drawn(0, 0), next, last);
  }

  ghost predicate IssuesAsDrawn(s: State, e: Event, d: Drawn)
    requires e.thread < |s.threads|
  {
    var s', stamp := Exec(s, e), if d.reading > s.lastTimestamp then d.reading else s.lastTimestamp + 1;
    if e.Advance? && s.threads[e.thread].CasLast? && s.threads[e.thread].last == s.lastTimestamp
    then s'.issued == s.issued + [(d.id, stamp)] && s'.lastTimestamp == stamp
         && s'.threads[e.thread] == Returned(d.id, stamp)
    else s'.issued == s.issued && s'.lastTimestamp == s.lastTimestamp
         && (s'.threads[e.thread].Returned? ==> s.threads[e.thread] == s'.threads[e.thread])
  }
}
