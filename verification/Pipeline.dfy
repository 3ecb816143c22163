/**
The goroutines of one map-reduce pipeline: n partition writers, one reducer, and the main
goroutine that waits for the writers, closes the channels, collects the writers' errors and
receives the reducer's result.  An event names the goroutine that moves and, where the file
system decides, whether its file operation fails; a goroutine that cannot move stays put.
*/
module Pipeline {
  import Worker

  datatype WriterPC = Writing | SentFile | SentError

  datatype ReducerPC = Receiving | SendingResult(failed: bool) | Exited

  datatype MainPC = Waiting | ClosingFiles | ClosingErrors | DrainingErrors | AwaitingResult | Done(ok: bool)

  datatype ResultChannel = Empty | Holding(failed: bool)

  /** `taken` records the partitions the reducer received; no step reads it. */
  datatype State = State(
    writers: seq<WriterPC>,
    files: seq<nat>,
    errors: nat,
    drained: nat,
    filesClosed: bool,
    errorsClosed: bool,
    reducer: ReducerPC,
    result: ResultChannel,
    main: MainPC,
    taken: seq<nat>)

  datatype Event = WriterMoves(i: nat, fails: bool) | ReducerMoves(fails: bool) | MainMoves

  function Init(n: nat): State {
    State(seq(n, i => Writing), [], 0, 0, false, false, Receiving, Empty, Waiting, [])
  }

  predicate AllWritersDone(s: State) {
    forall i :: 0 <= i < |s.writers| ==> !s.writers[i].Writing?
  }

  /** Both channels have room for one message a writer. */
  function Exec(s: State, e: Event): (s': State)
    ensures |s'.writers| == |s.writers|
  {
    match e
    case WriterMoves(i, fails) =>
      if i >= |s.writers| || !s.writers[i].Writing? then s
      else if fails then
        if s.errors < |s.writers| then s.(writers := s.writers[i := SentError], errors := s.errors + 1) else s
      else
        if |s.files| < |s.writers| then s.(writers := s.writers[i := SentFile], files := s.files + [i]) else s
    case ReducerMoves(fails) =>
      (match s.reducer
       case Receiving =>
         if s.files != [] then
           s.(files := s.files[1..], taken := s.taken + [s.files[0]],
              reducer := if fails then SendingResult(true) else Receiving)
         else if s.filesClosed then s.(reducer := SendingResult(fails))
         else s
       case SendingResult(failed) =>
         if s.result == Empty then s.(result := Holding(failed), reducer := Exited) else s
       case Exited => s)
    case MainMoves =>
      (match s.main
       case Waiting => if AllWritersDone(s) then s.(main := ClosingFiles) else s
       case ClosingFiles => s.(filesClosed := true, main := ClosingErrors)
       case ClosingErrors => s.(errorsClosed := true, main := DrainingErrors)
       case DrainingErrors =>
         if s.errors > 0 then s.(errors := s.errors - 1, drained := s.drained + 1)
         else if s.errorsClosed then s.(main := AwaitingResult)
         else s
       case AwaitingResult =>
         if s.result.Holding? then s.(result := Empty, main := Done(s.drained == 0 && !s.result.failed)) else s
       case Done(_) => s)
  }

  function Run(s: State, events: seq<Event>): (s': State)
    ensures |s'.writers| == |s.writers|
    decreases |events|
  {
    if events == [] then s else Run(Exec(s, events[0]), events[1..])
  }

  function Count(ws: seq<WriterPC>, w: WriterPC): (n: nat)
    ensures n <= |ws|
  {
    if ws == [] then 0 else (if ws[0] == w then 1 else 0) + Count(ws[1..], w)
  }

  lemma {:induction false} CountUpdate(ws: seq<WriterPC>, i: nat, to: WriterPC, w: WriterPC)
    requires i < |ws|
    ensures Count(ws[i := to], w) + (if ws[i] == w then 1 else 0) == Count(ws, w) + (if to == w then 1 else 0)
  {
    if i == 0 {
      assert ws[0 := to][1..] == ws[1..];
    } else {
      assert ws[i := to][1..] == ws[1..][i - 1 := to];
      CountUpdate(ws[1..], i - 1, to, w);
    }
  }

  lemma {:induction false} Counts(ws: seq<WriterPC>)
    ensures Count(ws, Writing) + Count(ws, SentFile) + Count(ws, SentError) == |ws|
    ensures Count(ws, Writing) == 0 <==> forall i :: 0 <= i < |ws| ==> !ws[i].Writing?
    ensures Count(ws, SentError) == 0 <==> forall i :: 0 <= i < |ws| ==> !ws[i].SentError?
  {
    if ws != [] {
      Counts(ws[1..]);
      assert forall i :: 0 <= i < |ws[1..]| ==> ws[1..][i] == ws[i + 1];
    }
  }

  predicate PastWaiting(m: MainPC) {
    !m.Waiting?
  }

  ghost predicate Inv(s: State) {
    // messages: one for each writer that sent a file or an error
    && |s.taken| + |s.files| == Count(s.writers, SentFile)
    && s.errors + s.drained == Count(s.writers, SentError)
    && (forall b: nat :: multiset(s.taken)[b] + multiset(s.files)[b]
          == if b < |s.writers| && s.writers[b].SentFile? then 1 else 0)
    // the channels are closed only after every writer is done
    && (PastWaiting(s.main) ==> AllWritersDone(s))
    && (s.filesClosed <==> s.main.ClosingErrors? || s.main.DrainingErrors? || s.main.AwaitingResult? || s.main.Done?)
    && (s.errorsClosed <==> s.main.DrainingErrors? || s.main.AwaitingResult? || s.main.Done?)
    && (s.main.AwaitingResult? || s.main.Done? ==> s.errors == 0)
    // the reducer's result
    && (s.reducer == SendingResult(false) ==> s.files == [] && s.filesClosed)
    && (s.result == Holding(false) ==> s.files == [] && s.filesClosed)
    && (s.result.Holding? ==> s.reducer.Exited? && !s.main.Done?)
    && (s.reducer.Exited? ==> s.result.Holding? || s.main.Done?)
    && (!s.reducer.Exited? ==> s.result == Empty && !s.main.Done?)
    && (s.main == Done(true) ==> s.drained == 0 && s.files == [])
  }

  lemma InitInv(n: nat)
    ensures Inv(Init(n))
  {
    AllWriting(n);
  }

  lemma {:induction false} AllWriting(n: nat)
    ensures Count(seq(n, i => Writing), SentFile) == 0 && Count(seq(n, i => Writing), SentError) == 0
  {
    if n > 0 {
      assert seq(n, i => Writing)[1..] == seq(n - 1, i => Writing);
      AllWriting(n - 1);
    }
  }

  lemma WriterKeepsInv(s: State, i: nat, fails: bool)
    requires Inv(s)
    ensures Inv(Exec(s, WriterMoves(i, fails)))
  {
    var s' := Exec(s, WriterMoves(i, fails));
    if i < |s.writers| && s' != s {
      CountUpdate(s.writers, i, s'.writers[i], SentFile);
      CountUpdate(s.writers, i, s'.writers[i], SentError);
    }
  }

  lemma ReducerKeepsInv(s: State, fails: bool)
    requires Inv(s)
    ensures Inv(Exec(s, ReducerMoves(fails)))
  {
    if s.reducer.Receiving? && s.files != [] {
      assert s.files == [s.files[0]] + s.files[1..];
      forall b: nat
        ensures multiset(s.taken + [s.files[0]])[b] + multiset(s.files[1..])[b]
                  == multiset(s.taken)[b] + multiset(s.files)[b]
      {
      }
    }
  }

  lemma MainKeepsInv(s: State)
    requires Inv(s)
    ensures Inv(Exec(s, MainMoves))
  {
  }

  lemma ExecKeepsInv(s: State, e: Event)
    requires Inv(s)
    ensures Inv(Exec(s, e))
  {
    match e
    case WriterMoves(i, fails) => WriterKeepsInv(s, i, fails);
    case ReducerMoves(fails) => ReducerKeepsInv(s, fails);
    case MainMoves => MainKeepsInv(s);
  }

  lemma {:induction false} RunInv(s: State, events: seq<Event>)
    requires Inv(s)
    ensures Inv(Run(s, events))
    decreases |events|
  {
    if events != [] {
      ExecKeepsInv(s, events[0]);
      RunInv(Exec(s, events[0]), events[1..]);
    }
  }

  /** Writers never block and never meet a closed channel. */
  lemma WritersNeverBlock(n: nat, events: seq<Event>, i: nat, fails: bool)
    requires i < n && Run(Init(n), events).writers[i].Writing?
    ensures var s := Run(Init(n), events);
            && !s.filesClosed && !s.errorsClosed
            && Exec(s, WriterMoves(i, fails)).writers[i] == if fails then SentError else SentFile
  {
    InitInv(n);
    RunInv(Init(n), events);
    Counts(Run(Init(n), events).writers);
  }

  // After the writers are done, the main goroutine or the reducer can move.
  lemma TailMoves(s: State, fails: bool)
    requires Inv(s) && !s.main.Done? && AllWritersDone(s)
    ensures Exec(s, MainMoves) != s || Exec(s, ReducerMoves(fails)) != s
  {
    if s.main.AwaitingResult? && s.result == Empty {
      assert s.reducer.Receiving? ==> s.filesClosed;
    }
  }

  ghost predicate SomeoneMoves(s: State, fails: bool) {
    || Exec(s, MainMoves) != s
    || Exec(s, ReducerMoves(fails)) != s
    || exists i: nat :: i < |s.writers| && Exec(s, WriterMoves(i, fails)) != s
  }

  /** Until the pipeline has returned, some goroutine can move, whatever the file system does. */
  lemma NoDeadlock(n: nat, events: seq<Event>, fails: bool)
    ensures !Run(Init(n), events).main.Done? ==> SomeoneMoves(Run(Init(n), events), fails)
  {
    InitInv(n);
    RunInv(Init(n), events);
    var s := Run(Init(n), events);
    if !s.main.Done? {
      if AllWritersDone(s) {
        TailMoves(s, fails);
      } else {
        var i: nat :| i < |s.writers| && s.writers[i].Writing?;
        WritersNeverBlock(n, events, i, fails);
      }
    }
  }

  /** What is left to do. */
  function Remaining(s: State): nat {
    2 * Count(s.writers, Writing) + |s.files| + s.errors
    + (match s.reducer case Receiving => 2 case SendingResult(_) => 1 case Exited => 0)
    + (match s.main case Waiting => 5 case ClosingFiles => 4 case ClosingErrors => 3
                    case DrainingErrors => 2 case AwaitingResult => 1 case Done(_) => 0)
  }

  lemma MoveLowersRemaining(s: State, e: Event)
    ensures Exec(s, e) == s || Remaining(Exec(s, e)) < Remaining(s)
  {
    match e
    case WriterMoves(i, fails) => if i < |s.writers| { WriterLowersRemaining(s, i, fails); }
    case ReducerMoves(fails) => ReducerLowersRemaining(s, fails);
    case MainMoves => MainLowersRemaining(s);
  }

  lemma WriterLowersRemaining(s: State, i: nat, fails: bool)
    requires i < |s.writers|
    ensures Exec(s, WriterMoves(i, fails)) == s || Remaining(Exec(s, WriterMoves(i, fails))) < Remaining(s)
  {
    CountUpdate(s.writers, i, Exec(s, WriterMoves(i, fails)).writers[i], Writing);
  }

  lemma ReducerLowersRemaining(s: State, fails: bool)
    ensures Exec(s, ReducerMoves(fails)) == s || Remaining(Exec(s, ReducerMoves(fails))) < Remaining(s)
  {
  }

  lemma MainLowersRemaining(s: State)
    ensures Exec(s, MainMoves) == s || Remaining(Exec(s, MainMoves)) < Remaining(s)
  {
  }

  /** How many events of a run moved a goroutine. */
  function Moves(s: State, events: seq<Event>): nat
    decreases |events|
  {
    if events == [] then 0
    else (if Exec(s, events[0]) == s then 0 else 1) + Moves(Exec(s, events[0]), events[1..])
  }

  lemma {:induction false} MovesBounded(s: State, events: seq<Event>)
    ensures Moves(s, events) + Remaining(Run(s, events)) <= Remaining(s)
    decreases |events|
  {
    if events != [] {
      MoveLowersRemaining(s, events[0]);
      MovesBounded(Exec(s, events[0]), events[1..]);
    }
  }

  lemma {:induction false} FreshCount(n: nat)
    ensures Count(seq(n, i => Writing), Writing) == n
  {
    if n > 0 {
      assert seq(n, i => Writing)[1..] == seq(n - 1, i => Writing);
      FreshCount(n - 1);
    }
  }

  /** Every run makes at most 2n + 7 moves; with NoDeadlock, every pipeline returns. */
  lemma EveryRunFinishes(n: nat, events: seq<Event>)
    ensures Moves(Init(n), events) <= 2 * n + 7
    ensures Moves(Init(n), events) == 2 * n + 7 ==> Run(Init(n), events).main.Done?
  {
    FreshCount(n);
    MovesBounded(Init(n), events);
  }

  // ------------------------------------------------------------- the outcome

  /** The event fails the file operation of a writer that has not written yet. */
  predicate WriterFails(s: State, e: Event) {
    e.WriterMoves? && e.fails && e.i < |s.writers| && s.writers[e.i].Writing?
  }

  /** The event fails the reducer as it reads a file, or as it writes its output after the last one. */
  predicate ReducerFails(s: State, e: Event) {
    e.ReducerMoves? && e.fails && s.reducer.Receiving? && (s.files != [] || s.filesClosed)
  }

  predicate AWriterFailed(s: State, events: seq<Event>)
    decreases |events|
  {
    events != [] && (WriterFails(s, events[0]) || AWriterFailed(Exec(s, events[0]), events[1..]))
  }

  predicate TheReducerFailed(s: State, events: seq<Event>)
    decreases |events|
  {
    events != [] && (ReducerFails(s, events[0]) || TheReducerFailed(Exec(s, events[0]), events[1..]))
  }

  /** What a state shows of the failures that led to it. */
  ghost predicate Shows(s: State, writerFailed: bool, reducerFailed: bool) {
    && (writerFailed <==> Count(s.writers, SentError) > 0)
    && (s.reducer.Receiving? ==> !reducerFailed)
    && (s.reducer.SendingResult? ==> s.reducer.failed == reducerFailed)
    && (s.result.Holding? ==> s.result.failed == reducerFailed)
    && (s.reducer.Exited? && !reducerFailed ==> s.files == [] && s.filesClosed)
    && (s.main.Done? ==> s.main.ok == (!writerFailed && !reducerFailed))
  }

  lemma ExecShows(s: State, e: Event, writerFailed: bool, reducerFailed: bool)
    requires Inv(s) && Shows(s, writerFailed, reducerFailed)
    ensures Shows(Exec(s, e), writerFailed || WriterFails(s, e), reducerFailed || ReducerFails(s, e))
  {
    match e
    case WriterMoves(i, fails) =>
      if i < |s.writers| { WriterShows(s, i, fails, writerFailed, reducerFailed); }
    case ReducerMoves(fails) => ReducerShows(s, fails, writerFailed, reducerFailed);
    case MainMoves => MainShows(s, writerFailed, reducerFailed);
  }

  lemma ReducerShows(s: State, fails: bool, writerFailed: bool, reducerFailed: bool)
    requires Inv(s) && Shows(s, writerFailed, reducerFailed)
    ensures Shows(Exec(s, ReducerMoves(fails)), writerFailed, reducerFailed || ReducerFails(s, ReducerMoves(fails)))
  {
  }

  lemma MainShows(s: State, writerFailed: bool, reducerFailed: bool)
    requires Inv(s) && Shows(s, writerFailed, reducerFailed)
    ensures Shows(Exec(s, MainMoves), writerFailed, reducerFailed)
  {
  }

  lemma WriterShows(s: State, i: nat, fails: bool, writerFailed: bool, reducerFailed: bool)
    requires Inv(s) && Shows(s, writerFailed, reducerFailed) && i < |s.writers|
    ensures Shows(Exec(s, WriterMoves(i, fails)), writerFailed || WriterFails(s, WriterMoves(i, fails)), reducerFailed)
  {
    Counts(s.writers);
    CountUpdate(s.writers, i, Exec(s, WriterMoves(i, fails)).writers[i], SentError);
  }

  lemma {:induction false} RunShows(s: State, events: seq<Event>, writerFailed: bool, reducerFailed: bool)
    requires Inv(s) && Shows(s, writerFailed, reducerFailed)
    ensures Inv(Run(s, events))
    ensures Shows(Run(s, events), writerFailed || AWriterFailed(s, events),
              reducerFailed || TheReducerFailed(s, events))
    decreases |events|
  {
    if events != [] {
      var e := events[0];
      ExecKeepsInv(s, e);
      ExecShows(s, e, writerFailed, reducerFailed);
      RunShows(Exec(s, e), events[1..], writerFailed || WriterFails(s, e), reducerFailed || ReducerFails(s, e));
    }
  }

  /**
  A pipeline that has returned returned a nil error exactly when no file operation of its run
  failed, neither a writer's nor the reducer's.
  */
  lemma NilErrorIffNoFailure(n: nat, events: seq<Event>)
    requires Run(Init(n), events).main.Done?
    ensures Run(Init(n), events).main == Done(true) <==>
              !AWriterFailed(Init(n), events) && !TheReducerFailed(Init(n), events)
  {
    InitInv(n);
    AllWriting(n);
    RunShows(Init(n), events, false, false);
  }

  /** Which writers of a run sent their file. */
  function Sent(s: State): (sent: seq<bool>)
    ensures |sent| == |s.writers|
  {
    seq(|s.writers|, i requires 0 <= i < |s.writers| => s.writers[i].SentFile?)
  }

  /**
  A returned run is one of Worker.RunMapReducePipeline's: its error is nil exactly when every
  writer sent its file and the reducer did not fail, and a reducer that did not fail received
  exactly the files sent.
  */
  lemma ReturnedRunIsThePipeline(n: nat, events: seq<Event>)
    requires Run(Init(n), events).main.Done?
    ensures var s, reduces := Run(Init(n), events), !TheReducerFailed(Init(n), events);
            && (s.main.ok <==> reduces && forall b :: 0 <= b < n ==> Sent(s)[b])
            && (reduces ==> Worker.ArrivalOf(s.taken, Sent(s)))
  {
    InitInv(n);
    AllWriting(n);
    RunShows(Init(n), events, false, false);
    var s := Run(Init(n), events);
    NoneSentError(s);
    if !TheReducerFailed(Init(n), events) { TakenIsArrival(s); }
  }

  lemma NoneSentError(s: State)
    requires AllWritersDone(s)
    ensures Count(s.writers, SentError) == 0 <==> forall b :: 0 <= b < |s.writers| ==> Sent(s)[b]
  {
    Counts(s.writers);
    assert forall b :: 0 <= b < |s.writers| ==> (Sent(s)[b] <==> !s.writers[b].SentError?);
  }

  lemma TakenIsArrival(s: State)
    requires Inv(s) && s.files == []
    ensures Worker.ArrivalOf(s.taken, Sent(s))
  {
    forall b: nat ensures multiset(s.taken)[b] == if b < |Sent(s)| && Sent(s)[b] then 1 else 0 {
      assert multiset(s.files)[b] == 0;
    }
  }

  predicate NoneFails(events: seq<Event>) {
    forall k :: 0 <= k < |events| ==> events[k].MainMoves? || !events[k].fails
  }

  lemma {:induction false} NoneFailed(s: State, events: seq<Event>)
    requires NoneFails(events)
    ensures !AWriterFailed(s, events) && !TheReducerFailed(s, events)
    decreases |events|
  {
    if events != [] {
      assert events[0].MainMoves? || !events[0].fails;
      NoneFailed(Exec(s, events[0]), events[1..]);
    }
  }

  lemma {:induction false} RunSnoc(s: State, events: seq<Event>, e: Event)
    ensures Run(s, events + [e]) == Exec(Run(s, events), e)
    decreases |events|
  {
    if events == [] {
      assert events + [e] == [e];
    } else {
      assert (events + [e])[1..] == events[1..] + [e];
      RunSnoc(Exec(s, events[0]), events[1..], e);
    }
  }

  /** A run in which nothing fails can always be brought to its end. */
  lemma CanFinish(n: nat, before: seq<Event>) returns (events: seq<Event>)
    requires NoneFails(before)
    ensures NoneFails(events) && before <= events && Run(Init(n), events).main.Done?
    decreases Remaining(Run(Init(n), before))
  {
    var s := Run(Init(n), before);
    if s.main.Done? {
      events := before;
    } else {
      NoDeadlock(n, before, false);
      var e :| e in [MainMoves, ReducerMoves(false)] + seq(n, (i: nat) => WriterMoves(i, false)) && Exec(s, e) != s by {
        if i: nat :| i < n && Exec(s, WriterMoves(i, false)) != s {
          assert seq(n, (j: nat) => WriterMoves(j, false))[i] == WriterMoves(i, false);
        }
      }
      MoveLowersRemaining(s, e);
      RunSnoc(Init(n), before, e);
      events := CanFinish(n, before + [e]);
    }
  }

  /** For any number of partitions there is a run that returns a nil error. */
  lemma SomeRunSucceeds(n: nat) returns (events: seq<Event>)
    ensures NoneFails(events) && Run(Init(n), events).main == Done(true)
  {
    events := CanFinish(n, []);
    NoneFailed(Init(n), events);
    NilErrorIffNoFailure(n, events);
  }

  /** A nil error means that every partition was sent and read, each exactly once. */
  lemma NilErrorMeansAllConsumed(n: nat, events: seq<Event>)
    requires Run(Init(n), events).main == Done(true)
    ensures Worker.EachOnce(Run(Init(n), events).taken, n)
    ensures forall i :: 0 <= i < n ==> Run(Init(n), events).writers[i].SentFile?
  {
    InitInv(n);
    RunInv(Init(n), events);
    var s := Run(Init(n), events);
    Counts(s.writers);
    assert s.drained == 0;
    forall b: nat ensures multiset(s.taken)[b] == if b < n then 1 else 0 {
      assert multiset(s.files)[b] == 0;
    }
  }

  /** The arrival order of a run that ended without error gives a group-by of the map output. */
  lemma CompletedRunIsGroupBy(
      n: nat, events: seq<Event>, kvs: seq<Worker.KeyValue>, hash: string -> nat,
      all: seq<Worker.KeyValue>, f: Worker.Reducer)
    requires n > 0 && Run(Init(n), events).main == Done(true)
    requires Worker.SortedByKey(all)
    requires multiset(all) == multiset(Worker.Arrived(Run(Init(n), events).taken, kvs, hash, n))
    ensures Worker.IsGroupBy(kvs, f, Worker.Groups(all, f))
    ensures Worker.OrderInsensitive(f) ==> Worker.Groups(all, f) == Worker.GroupBy(kvs, f)
  {
    NilErrorMeansAllConsumed(n, events);
    Worker.PipelineIsGroupBy(kvs, hash, n, Run(Init(n), events).taken, all, f);
  }
}
