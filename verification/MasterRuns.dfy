/**
Every run of the master's protocol: starts, failed dispatches, submissions in any order and
any number, and the unlocked collations that finish later, in any interleaving.
*/
module MasterRuns {
  import opened Types
  import opened Master
  import Names
  import Permutations

  function Run(s: State, events: seq<Event>): State
    decreases |events|
  {
    if events == [] then s else Run(Exec(s, events[0]), events[1..])
  }

  // ----------------------------------------------- complete and canonical results

  /** One chunk count an id, and one output a chunk. */
  datatype World = World(count: nat -> nat, output: (nat, int) -> string)

  predicate GoodRequest(w: World, r: ResultRequest) {
    0 <= r.ChunkIndex < w.count(r.handle.Id) && r.OutputData == w.output(r.handle.Id, r.ChunkIndex)
  }

  predicate GoodEvent(w: World, e: Event) {
    match e
    case StartJob(id, chunks) => chunks > 0 && chunks == w.count(id)
    case Submit(r) => GoodRequest(w, r)
    case _ => true
  }

  ghost predicate HasIndex(items: set<ResultRequest>, i: int) {
    exists r :: r in items && r.ChunkIndex == i
  }

  ghost predicate CompleteSnap(w: World, snap: Snap) {
    && (forall r :: r in snap.items ==> r.handle.Id == snap.handle.Id && GoodRequest(w, r))
    && (forall i :: 0 <= i < w.count(snap.handle.Id) ==> HasIndex(snap.items, i))
    && (forall a, b :: a in snap.items && b in snap.items && a.ChunkIndex == b.ChunkIndex ==> a == b)
  }

  ghost predicate Inv(w: World, s: State) {
    && WellKeyed(s.results)
    && (forall key :: key in s.results ==> GoodRequest(w, s.results[key]))
    && (forall id :: id in s.jobs ==> s.jobs[id] == w.count(id))
    && (forall k :: 0 <= k < |s.inFlight| ==> CompleteSnap(w, s.inFlight[k]))
    && (forall k :: 0 <= k < |s.written| ==> CompleteSnap(w, s.written[k]))
  }

  function Range(n: nat): (s: set<int>)
    ensures forall i :: i in s <==> 0 <= i < n
  {
    if n == 0 then {} else Range(n - 1) + {n - 1}
  }

  lemma {:induction false} RangeSize(n: nat)
    ensures |Range(n)| == n
  {
    if n > 0 { RangeSize(n - 1); }
  }

  lemma FullSubset<A>(a: set<A>, b: set<A>)
    requires a <= b && |a| >= |b|
    ensures a == b
  {
    assert b == a + (b - a);
    assert |b| == |a| + |b - a|;
  }

  /**
  Counting alone says that the received indices are exactly 0..n-1 if and only if none lies
  outside: an index out of range can stand in for one that is missing.
  */
  lemma EnoughResultsCompleteIff(results: Results, id: nat, n: nat)
    requires WellKeyed(results) && |KeysOf(results, id)| >= n
    ensures IndicesOf(results, id) == Range(n) <==> forall i :: i in IndicesOf(results, id) ==> 0 <= i < n
  {
    CountIsIndices(results, id);
    RangeSize(n);
    if forall i :: i in IndicesOf(results, id) ==> 0 <= i < n {
      FullSubset(IndicesOf(results, id), Range(n));
    }
  }

  // A table of just two results of one id.
  lemma TwoResults(a: ResultRequest, b: ResultRequest)
    requires a.handle.Id == b.handle.Id && a.ChunkIndex != b.ChunkIndex
    ensures Key(a) != Key(b)
    ensures var results := map[Key(a) := a, Key(b) := b];
            && WellKeyed(results)
            && ItemsOf(results, a.handle.Id) == {a, b}
            && KeysOf(results, a.handle.Id) == {Key(a), Key(b)}
  {
    var results := map[Key(a) := a, Key(b) := b];
    Names.ResultKeyInjective(a.handle.Id, a.ChunkIndex, b.handle.Id, b.ChunkIndex);
    PrefixSelects(results, a.handle.Id, Key(a));
    PrefixSelects(results, a.handle.Id, Key(b));
    assert results[Key(a)] == a && results[Key(b)] == b;
  }

  lemma OneResult(a: ResultRequest)
    ensures WellKeyed(map[Key(a) := a]) && KeysOf(map[Key(a) := a], a.handle.Id) == {Key(a)}
  {
    PrefixSelects(map[Key(a) := a], a.handle.Id, Key(a));
  }

  /** A job of two chunks collates once it has two results of different indices, whichever they are. */
  lemma TwoSubmissions(h: Handle, a: ResultRequest, b: ResultRequest)
    requires a.handle == h && b.handle == h && a.ChunkIndex != b.ChunkIndex
    ensures Run(Init(), [StartJob(h.Id, 2), Submit(a), Submit(b)])
         == State(map[Key(a) := a, Key(b) := b], map[h.Id := 2], [Snap(h, {a, b})], [])
  {
    var es := [StartJob(h.Id, 2), Submit(a), Submit(b)];
    OneResult(a);
    TwoResults(a, b);
    var s2 := State(map[Key(a) := a], map[h.Id := 2], [], []);
    assert es[1..] == [Submit(a), Submit(b)] && es[1..][1..] == [Submit(b)] && es[1..][1..][1..] == [];
    assert Exec(Exec(Init(), es[0]), es[1]) == s2;
    assert |{Key(a), Key(b)}| == 2;
    assert s2.results[Key(b) := b] == map[Key(a) := a, Key(b) := b];
    assert Run(Init(), es) == Run(s2, [Submit(b)]) == Exec(s2, Submit(b));
  }

  /** Two results, one of them out of range, collate a job of two chunks without its chunk 1. */
  lemma OutOfRangeStandsIn(h: Handle, a: ResultRequest, b: ResultRequest)
    requires a.handle == h && b.handle == h && a.ChunkIndex == 0 && b.ChunkIndex == 7
    ensures var s := Run(Init(), [StartJob(h.Id, 2), Submit(a), Submit(b)]);
            |s.inFlight| == 1 && s.inFlight[0].items == {a, b}
  {
    TwoSubmissions(h, a, b);
  }

  // ------------------------------------------------- two handles of one id

  /**
  A snapshot holds only results of the collating handle exactly when the table holds no result
  of another handle under its id.
  */
  lemma OwnSnapshotIff(s: State, r: ResultRequest)
    requires WellKeyed(s.results) && Collates(s, r)
    ensures var snap := Exec(s, Submit(r)).inFlight[|s.inFlight|];
            (forall item :: item in snap.items ==> item.handle == r.handle) <==>
            forall key :: key in s.results && key != Key(r) && s.results[key].handle.Id == r.handle.Id ==>
              s.results[key].handle == r.handle
  {
    var results, id := s.results[Key(r) := r], r.handle.Id;
    var snap := Exec(s, Submit(r)).inFlight[|s.inFlight|];
    StoreKeepsKeys(s.results, r);
    assert snap.items == ItemsOf(results, id);
    forall key | key in results ensures Prefix(id) <= key <==> results[key].handle.Id == id {
      PrefixSelects(results, id, key);
    }
    if forall item :: item in snap.items ==> item.handle == r.handle {
      forall key | key in s.results && key != Key(r) && s.results[key].handle.Id == id
        ensures s.results[key].handle == r.handle
      {
        assert results[key] == s.results[key];
        assert results[key] in ItemsOf(results, id);
      }
    }
  }

  /**
  An id issued twice: once the job of the first handle has collated, the first submission of
  the second handle's job collates it with the first one's other chunk.
  */
  lemma OtherHandlesChunk(g: Handle, h: Handle, a: ResultRequest, b: ResultRequest, c: ResultRequest)
    requires g != h && g.Id == h.Id
    requires a.handle == g && b.handle == g && a.ChunkIndex == 0 && b.ChunkIndex == 1
    requires c.handle == h && c.ChunkIndex == 0
    ensures var first := Run(Init(), [StartJob(g.Id, 2), Submit(a), Submit(b)]);
            Run(first, [FinishCollation(0, true), StartJob(h.Id, 2), Submit(c)]).inFlight == [Snap(h, {c, b})]
  {
    TwoSubmissions(g, a, b);
    TwoResults(a, b);
    assert Key(a) == Key(c);
    var s := State(map[Key(a) := a, Key(b) := b], map[g.Id := 2], [Snap(g, {a, b})], []);
    var es := [FinishCollation(0, true), StartJob(h.Id, 2), Submit(c)];
    assert es[1..] == [StartJob(h.Id, 2), Submit(c)] && es[1..][1..] == [Submit(c)] && es[1..][1..][1..] == [];
    var s2 := State(s.results, map[h.Id := 2], [], [Snap(g, {a, b})]);
    assert Exec(Exec(s, es[0]), es[1]) == s2;
    assert Run(s, es) == Run(s2, [Submit(c)]) == Exec(s2, Submit(c));
    ReplacesOne(s2, a, b, c);
  }

  lemma ReplacesOne(s: State, a: ResultRequest, b: ResultRequest, c: ResultRequest)
    requires a.handle.Id == b.handle.Id == c.handle.Id && Key(a) == Key(c) && c.ChunkIndex != b.ChunkIndex
    requires s.results == map[Key(a) := a, Key(b) := b] && s.jobs == map[c.handle.Id := 2] && s.inFlight == []
    ensures Exec(s, Submit(c)).inFlight == [Snap(c.handle, {c, b})]
  {
    TwoResults(c, b);
    assert s.results[Key(c) := c] == map[Key(c) := c, Key(b) := b];
    assert |{Key(c), Key(b)}| == 2;
  }

  lemma SubmitKeepsTable(w: World, s: State, r: ResultRequest)
    requires Inv(w, s) && GoodRequest(w, r)
    ensures var results := s.results[Key(r) := r];
            WellKeyed(results) && forall key :: key in results ==> GoodRequest(w, results[key])
  {
    StoreKeepsKeys(s.results, r);
  }

  lemma CollatingTableIsFull(w: World, s: State, r: ResultRequest)
    requires Inv(w, s) && GoodRequest(w, r) && Collates(s, r)
    ensures IndicesOf(s.results[Key(r) := r], r.handle.Id) == Range(w.count(r.handle.Id))
  {
    var id, results := r.handle.Id, s.results[Key(r) := r];
    SubmitKeepsTable(w, s, r);
    forall i | i in IndicesOf(results, id) ensures 0 <= i < w.count(id) {
      var key :| key in results && Prefix(id) <= key && results[key].ChunkIndex == i;
      PrefixSelects(results, id, key);
    }
    EnoughResultsCompleteIff(results, id, w.count(id));
  }

  lemma SubmitKeepsInv(w: World, s: State, r: ResultRequest)
    requires Inv(w, s) && GoodRequest(w, r)
    ensures Inv(w, Exec(s, Submit(r)))
  {
    SubmitKeepsTable(w, s, r);
    if Collates(s, r) {
      CollatingTableIsFull(w, s, r);
      SnapComplete(w, s.results[Key(r) := r], r.handle);
    }
  }

  lemma FinishKeepsInv(w: World, s: State, k: nat, ok: bool)
    requires Inv(w, s)
    ensures Inv(w, Exec(s, FinishCollation(k, ok)))
  {
    var s' := Exec(s, FinishCollation(k, ok));
    if k < |s.inFlight| {
      forall j | 0 <= j < |s'.inFlight| ensures CompleteSnap(w, s'.inFlight[j]) {
        assert s'.inFlight[j] == s.inFlight[if j < k then j else j + 1];
      }
    }
  }

  lemma SnapComplete(w: World, results: Results, h: Handle)
    requires WellKeyed(results) && forall key :: key in results ==> GoodRequest(w, results[key])
    requires IndicesOf(results, h.Id) == Range(w.count(h.Id))
    ensures CompleteSnap(w, Snap(h, ItemsOf(results, h.Id)))
  {
    var items := ItemsOf(results, h.Id);
    forall r | r in items ensures r.handle.Id == h.Id && GoodRequest(w, r) {
      var key :| key in results && Prefix(h.Id) <= key && results[key] == r;
      PrefixSelects(results, h.Id, key);
    }
    forall i | 0 <= i < w.count(h.Id) ensures HasIndex(items, i) {
      assert i in IndicesOf(results, h.Id);
      var key :| key in results && Prefix(h.Id) <= key && results[key].ChunkIndex == i;
      assert results[key] in items;
    }
    forall a, b | a in items && b in items && a.ChunkIndex == b.ChunkIndex ensures a == b {
      var ka :| ka in results && Prefix(h.Id) <= ka && results[ka] == a;
      var kb :| kb in results && Prefix(h.Id) <= kb && results[kb] == b;
      if ka != kb { DistinctIndices(results, h.Id, ka, kb); }
    }
  }

  lemma {:induction false} RunInv(w: World, s: State, events: seq<Event>)
    requires Inv(w, s) && forall k :: 0 <= k < |events| ==> GoodEvent(w, events[k])
    ensures Inv(w, Run(s, events))
    decreases |events|
  {
    if events != [] {
      assert GoodEvent(w, events[0]);
      match events[0] {
        case Submit(r) => SubmitKeepsInv(w, s, r);
        case FinishCollation(k, ok) => FinishKeepsInv(w, s, k, ok);
        case _ =>
      }
      RunInv(w, Exec(s, events[0]), events[1..]);
    }
  }

  /** The one output of an id: its newline-terminated chunk outputs in index order. */
  function Canonical(w: World, id: nat, n: nat): string {
    if n == 0 then "" else Canonical(w, id, n - 1) + Terminated(w.output(id, n - 1))
  }

  lemma FirstInRange(xs: seq<int>, n: nat)
    requires xs != [] && forall i :: 0 <= i < |xs| ==> 0 <= xs[i] < n
    ensures 0 <= xs[0] < n
  {
  }

  lemma GreatestIsLast(xs: seq<int>, n: nat, k: nat)
    requires forall i, j :: 0 <= i < j < |xs| ==> xs[i] < xs[j]
    requires forall i :: 0 <= i < |xs| ==> 0 <= xs[i] < n
    requires k < |xs| && xs[k] == n - 1
    ensures k == |xs| - 1
  {
    var top := xs[|xs| - 1];
    assert top < n;
  }

  lemma {:induction false} AscendingCover(xs: seq<int>, n: nat)
    requires forall i, j :: 0 <= i < j < |xs| ==> xs[i] < xs[j]
    requires forall i :: 0 <= i < |xs| ==> 0 <= xs[i] < n
    requires forall v :: 0 <= v < n ==> v in xs
    ensures |xs| == n && forall i :: 0 <= i < n ==> xs[i] == i
    decreases n
  {
    if n == 0 {
      if xs != [] { FirstInRange(xs, n); assert false; }
    } else {
      assert n - 1 in xs;
      var k :| 0 <= k < |xs| && xs[k] == n - 1;
      var last := |xs| - 1;
      GreatestIsLast(xs, n, k);
      forall v | 0 <= v < n - 1 ensures v in xs[..last] {
        assert v in xs;
        var m :| 0 <= m < |xs| && xs[m] == v;
        assert xs[..last][m] == v;
      }
      AscendingCover(xs[..last], n - 1);
      assert forall i :: 0 <= i < last ==> xs[..last][i] == xs[i];
    }
  }

  /** However the sort lists a complete snapshot, the chunks are 0..n-1 and the output is the canonical one. */
  lemma CompleteListing(w: World, snap: Snap, chunks: seq<ResultRequest>)
    requires CompleteSnap(w, snap) && Lists(chunks, snap.items)
    ensures |chunks| == w.count(snap.handle.Id)
    ensures forall i :: 0 <= i < |chunks| ==> chunks[i].ChunkIndex == i
    ensures Combine(chunks) == Canonical(w, snap.handle.Id, w.count(snap.handle.Id))
  {
    var n := w.count(snap.handle.Id);
    var xs := seq(|chunks|, i requires 0 <= i < |chunks| => chunks[i].ChunkIndex);
    Permutations.ListingDistinct(chunks, snap.items);
    forall i, j | 0 <= i < j < |chunks| ensures xs[i] < xs[j] {
      assert chunks[i] in snap.items && chunks[j] in snap.items;
      assert !IndexLess(chunks[j], chunks[i]);
    }
    forall i | 0 <= i < |chunks| ensures 0 <= xs[i] < n {
      assert chunks[i] in snap.items;
    }
    forall v | 0 <= v < n ensures v in xs {
      assert HasIndex(snap.items, v);
      var r :| r in snap.items && r.ChunkIndex == v;
      assert r in chunks;
      var k :| 0 <= k < |chunks| && chunks[k] == r;
      assert xs[k] == v;
    }
    AscendingCover(xs, n);
    forall i | 0 <= i < |chunks|
      ensures chunks[i].ChunkIndex == i && GoodRequest(w, chunks[i]) && chunks[i].handle.Id == snap.handle.Id
    {
      assert xs[i] == i && chunks[i] in snap.items;
    }
    CombineIsCanonical(w, snap.handle.Id, chunks);
  }

  lemma {:induction false} CombineIsCanonical(w: World, id: nat, chunks: seq<ResultRequest>)
    requires forall i :: 0 <= i < |chunks| ==>
      chunks[i].ChunkIndex == i && chunks[i].handle.Id == id && chunks[i].OutputData == w.output(id, i)
    ensures Combine(chunks) == Canonical(w, id, |chunks|)
  {
    if chunks != [] {
      var front, last := chunks[..|chunks| - 1], chunks[|chunks| - 1];
      assert last.ChunkIndex == |chunks| - 1 && last.OutputData == w.output(id, |chunks| - 1);
      CombineIsCanonical(w, id, front);
    }
  }

  /**
  In every run whose starts agree on the chunk count of an id and whose workers are
  deterministic, every result ever written lists the chunks 0..n-1 in order and has the
  canonical combined output of its id, whatever was retried, lost, reordered or repeated.
  */
  lemma EveryResultComplete(w: World, events: seq<Event>, k: nat, chunks: seq<ResultRequest>)
    requires forall j :: 0 <= j < |events| ==> GoodEvent(w, events[j])
    requires k < |Run(Init(), events).written|
    requires Lists(chunks, Run(Init(), events).written[k].items)
    ensures var id := Run(Init(), events).written[k].handle.Id;
            && |chunks| == w.count(id)
            && (forall i :: 0 <= i < |chunks| ==> chunks[i].ChunkIndex == i)
            && Combine(chunks) == Canonical(w, id, w.count(id))
  {
    RunInv(w, Init(), events);
    CompleteListing(w, Run(Init(), events).written[k], chunks);
  }

  /** So does every result file a server holds after such a run. */
  lemma EveryFileCanonical(w: World, events: seq<Event>, files: map<nat, Collated>, id: nat)
    requires forall j :: 0 <= j < |events| ==> GoodEvent(w, events[j])
    requires FilesFrom(files, Run(Init(), events).written) && id in files
    ensures files[id].handle.Id == id && files[id].ChunkCount == |files[id].Chunks| == w.count(id)
    ensures forall i :: 0 <= i < |files[id].Chunks| ==> files[id].Chunks[i].ChunkIndex == i
    ensures files[id].CombinedOutput == Canonical(w, id, w.count(id))
    ensures HoldsEach(files[id].CombinedOutput, files[id].Chunks)
  {
    CombineHoldsEach(files[id].Chunks);
    var written := Run(Init(), events).written;
    var k :| 0 <= k < |written| && written[k].handle.Id == id && IsCollation(files[id], written[k]);
    EveryResultComplete(w, events, k, files[id].Chunks);
  }

  // ------------------------------------------------------ the table of jobs

  /** The event ends the job of an id: nothing was dispatched, or a result of it was written. */
  predicate EndsJob(s: State, e: Event, id: nat) {
    || e == NothingDispatched(id)
    || (e.FinishCollation? && e.ok && e.k < |s.inFlight| && s.inFlight[e.k].handle.Id == id)
  }

  /** A job is there from its start until it ends; no submission and no failed write touches it. */
  lemma JobsStep(s: State, e: Event, id: nat)
    ensures id in Exec(s, e).jobs <==> (e.StartJob? && e.id == id) || (id in s.jobs && !EndsJob(s, e, id))
    ensures id in Exec(s, e).jobs ==>
              Exec(s, e).jobs[id] == if e.StartJob? && e.id == id then e.chunks else s.jobs[id]
  {
  }

  ghost predicate NoStart(events: seq<Event>, id: nat) {
    forall k :: 0 <= k < |events| ==> !(events[k].StartJob? && events[k].id == id)
  }

  lemma {:induction false} StaysEnded(s: State, events: seq<Event>, id: nat)
    requires id !in s.jobs && NoStart(events, id)
    ensures id !in Run(s, events).jobs && Collations(s, events, id) == 0
    decreases |events|
  {
    if events != [] {
      JobsStep(s, events[0], id);
      StaysEnded(Exec(s, events[0]), events[1..], id);
    }
  }

  /**
  Once a result of an id is written, no submission of the id collates before the next start:
  a late or repeated one is stored and nothing else.
  */
  lemma LateSubmissionIsUntracked(s: State, k: nat, later: seq<Event>, r: ResultRequest)
    requires k < |s.inFlight| && s.inFlight[k].handle.Id == r.handle.Id && NoStart(later, r.handle.Id)
    ensures var s1 := Run(Exec(s, FinishCollation(k, true)), later);
            && Collations(Exec(s, FinishCollation(k, true)), later, r.handle.Id) == 0
            && !Collates(s1, r) && Exec(s1, Submit(r)) == s1.(results := s1.results[Key(r) := r])
  {
    JobsStep(s, FinishCollation(k, true), r.handle.Id);
    StaysEnded(Exec(s, FinishCollation(k, true)), later, r.handle.Id);
  }

  /** The snapshots the submissions of a run took. */
  function Taken(s: State, events: seq<Event>): multiset<Snap>
    decreases |events|
  {
    if events == [] then multiset{}
    else TakenNow(s, events[0]) + Taken(Exec(s, events[0]), events[1..])
  }

  function TakenNow(s: State, e: Event): multiset<Snap> {
    if e.Submit? && e.request.handle.Id in s.jobs
       && |IndicesOf(s.results[Key(e.request) := e.request], e.request.handle.Id)| >= s.jobs[e.request.handle.Id]
    then multiset{Snap(e.request.handle, ItemsOf(s.results[Key(e.request) := e.request], e.request.handle.Id))}
    else multiset{}
  }

  /** The snapshots whose result file could not be written. */
  function Dropped(s: State, events: seq<Event>): multiset<Snap>
    decreases |events|
  {
    if events == [] then multiset{}
    else DroppedNow(s, events[0]) + Dropped(Exec(s, events[0]), events[1..])
  }

  function DroppedNow(s: State, e: Event): multiset<Snap> {
    if e.FinishCollation? && !e.ok && e.k < |s.inFlight| then multiset{s.inFlight[e.k]} else multiset{}
  }

  lemma SnapshotsStep(s: State, e: Event)
    requires WellKeyed(s.results)
    ensures WellKeyed(Exec(s, e).results)
    ensures multiset(Exec(s, e).inFlight) + multiset(Exec(s, e).written) + DroppedNow(s, e)
         == multiset(s.inFlight) + multiset(s.written) + TakenNow(s, e)
  {
    if e.Submit? {
      StoreKeepsKeys(s.results, e.request);
      CountIsIndices(s.results[Key(e.request) := e.request], e.request.handle.Id);
    } else if e.FinishCollation? && e.k < |s.inFlight| {
      assert s.inFlight == s.inFlight[..e.k] + [s.inFlight[e.k]] + s.inFlight[e.k + 1..];
    }
  }

  lemma ChainBalances<A>(
      start: multiset<A>, mid: multiset<A>, end: multiset<A>,
      lost0: multiset<A>, lost1: multiset<A>, got0: multiset<A>, got1: multiset<A>)
    requires mid + lost0 == start + got0 && end + lost1 == mid + got1
    ensures end + (lost0 + lost1) == start + (got0 + got1)
  {
    assert end + (lost0 + lost1) == (end + lost1) + lost0;
    assert (mid + got1) + lost0 == (mid + lost0) + got1;
  }

  /** Every snapshot a submission took is under way, written once, or dropped by a failed write; no other is. */
  lemma {:induction false} SnapshotsConserved(s: State, events: seq<Event>)
    requires WellKeyed(s.results)
    ensures multiset(Run(s, events).inFlight) + multiset(Run(s, events).written) + Dropped(s, events)
         == multiset(s.inFlight) + multiset(s.written) + Taken(s, events)
    decreases |events|
  {
    if events != [] {
      SnapshotsStep(s, events[0]);
      var s', rest := Exec(s, events[0]), events[1..];
      SnapshotsConserved(s', rest);
      ChainBalances(
        multiset(s.inFlight) + multiset(s.written), multiset(s'.inFlight) + multiset(s'.written),
        multiset(Run(s', rest).inFlight) + multiset(Run(s', rest).written),
        DroppedNow(s, events[0]), Dropped(s', rest), TakenNow(s, events[0]), Taken(s', rest));
    }
  }

  // -------------------------------------------------- exactly one collation

  predicate CollatesNow(s: State, e: Event, id: nat) {
    e.Submit? && e.request.handle.Id == id && Collates(s, e.request)
  }

  /** How many submissions of an id collate in a run. */
  function Collations(s: State, events: seq<Event>, id: nat): nat
    decreases |events|
  {
    if events == [] then 0
    else (if CollatesNow(s, events[0], id) then 1 else 0) + Collations(Exec(s, events[0]), events[1..], id)
  }

  /** The table holds exactly the chunks 0 .. n-1 of the id. */
  predicate Full(s: State, id: nat, n: nat) {
    IndicesOf(s.results, id) == Range(n)
  }

  /** The id's submissions in a run: their indices, in order. */
  function SubmittedIndices(events: seq<Event>, id: nat): seq<int> {
    if events == [] then []
    else
      (if events[0].Submit? && events[0].request.handle.Id == id then [events[0].request.ChunkIndex] else [])
      + SubmittedIndices(events[1..], id)
  }

  ghost predicate NoOtherStart(events: seq<Event>, id: nat) {
    forall k :: 0 <= k < |events| ==>
      !(events[k].StartJob? && events[k].id == id) && !(events[k].NothingDispatched? && events[k].id == id)
  }

  ghost predicate NewAndInRange(indices: seq<int>, seen: set<int>, n: nat) {
    && (forall i :: 0 <= i < |indices| ==> 0 <= indices[i] < n && indices[i] !in seen)
    && (forall i, j :: 0 <= i < j < |indices| ==> indices[i] != indices[j])
  }

  ghost predicate Underway(s: State, id: nat, n: nat) {
    && WellKeyed(s.results)
    && IndicesOf(s.results, id) <= Range(n)
    && (IndicesOf(s.results, id) != Range(n) ==>
          id in s.jobs && s.jobs[id] == n && forall k :: 0 <= k < |s.inFlight| ==> s.inFlight[k].handle.Id != id)
  }

  lemma OwnSubmission(s: State, r: ResultRequest, n: nat)
    requires Underway(s, r.handle.Id, n)
    requires 0 <= r.ChunkIndex < n && r.ChunkIndex !in IndicesOf(s.results, r.handle.Id)
    ensures Underway(Exec(s, Submit(r)), r.handle.Id, n)
    ensures Collates(s, r) <==> IndicesOf(Exec(s, Submit(r)).results, r.handle.Id) == Range(n)
  {
    var id, results := r.handle.Id, s.results[Key(r) := r];
    StoreKeepsKeys(s.results, r);
    CountIsIndices(results, id);
    RangeSize(n);
    assert IndicesOf(s.results, id) != Range(n);
    if |IndicesOf(results, id)| >= n { FullSubset(IndicesOf(results, id), Range(n)); }
  }

  lemma OtherSubmission(s: State, r: ResultRequest, id: nat, n: nat)
    requires Underway(s, id, n) && r.handle.Id != id
    ensures Underway(Exec(s, Submit(r)), id, n)
  {
    StoreKeepsKeys(s.results, r);
  }

  lemma OtherEvent(s: State, e: Event, id: nat, n: nat)
    requires Underway(s, id, n) && !e.Submit?
    requires !(e.StartJob? && e.id == id) && !(e.NothingDispatched? && e.id == id)
    ensures Underway(Exec(s, e), id, n) && Exec(s, e).results == s.results
  {
    if e.FinishCollation? && e.k < |s.inFlight| { assert s.inFlight[e.k] in s.inFlight; }
  }

  lemma UnderwayStep(s: State, e: Event, id: nat, n: nat)
    requires Underway(s, id, n) && NoOtherStart([e], id)
    requires e.Submit? && e.request.handle.Id == id ==>
               0 <= e.request.ChunkIndex < n && e.request.ChunkIndex !in IndicesOf(s.results, id)
    ensures Underway(Exec(s, e), id, n)
    ensures IndicesOf(Exec(s, e).results, id) == IndicesOf(s.results, id) +
              if e.Submit? && e.request.handle.Id == id then {e.request.ChunkIndex} else {}
    ensures e.Submit? && e.request.handle.Id == id ==>
              (Collates(s, e.request) <==> IndicesOf(Exec(s, e).results, id) == Range(n))
  {
    match e
    case Submit(r) =>
      StoreKeepsKeys(s.results, r);
      if r.handle.Id == id { OwnSubmission(s, r, n); } else { OtherSubmission(s, r, id, n); }
    case _ =>
      assert [e][0] == e;
      OtherEvent(s, e, id, n);
  }

  predicate Own(e: Event, id: nat) {
    e.Submit? && e.request.handle.Id == id
  }

  /** The table gathers exactly the submitted indices. */
  lemma {:induction false} IndicesGathered(s: State, events: seq<Event>, id: nat)
    requires WellKeyed(s.results)
    ensures IndicesOf(Run(s, events).results, id)
              == IndicesOf(s.results, id) + (set i | i in SubmittedIndices(events, id))
    decreases |events|
  {
    if events != [] {
      GatherOne(s, events[0], id);
      IndicesGathered(Exec(s, events[0]), events[1..], id);
    }
  }

  lemma GatherOne(s: State, e: Event, id: nat)
    requires WellKeyed(s.results)
    ensures WellKeyed(Exec(s, e).results)
    ensures IndicesOf(Exec(s, e).results, id)
              == IndicesOf(s.results, id) + if Own(e, id) then {e.request.ChunkIndex} else {}
  {
    if e.Submit? { StoreKeepsKeys(s.results, e.request); }
  }

  lemma OwnIsFirst(events: seq<Event>, id: nat, seen: set<int>, n: nat)
    requires events != [] && NewAndInRange(SubmittedIndices(events, id), seen, n)
    ensures Own(events[0], id) ==> 0 <= events[0].request.ChunkIndex < n && events[0].request.ChunkIndex !in seen
    ensures NewAndInRange(SubmittedIndices(events[1..], id),
                          seen + if Own(events[0], id) then {events[0].request.ChunkIndex} else {}, n)
  {
    var e, indices, later := events[0], SubmittedIndices(events, id), SubmittedIndices(events[1..], id);
    var shift := if Own(e, id) then 1 else 0;
    if Own(e, id) { assert indices[0] == e.request.ChunkIndex; }
    assert forall i :: 0 <= i < |later| ==> later[i] == indices[i + shift];
  }

  lemma StillNew(s: State, events: seq<Event>, id: nat, n: nat)
    requires events != [] && Underway(s, id, n) && NoOtherStart(events, id)
    requires NewAndInRange(SubmittedIndices(events, id), IndicesOf(s.results, id), n)
    ensures Own(events[0], id) ==>
              0 <= events[0].request.ChunkIndex < n && events[0].request.ChunkIndex !in IndicesOf(s.results, id)
    ensures Underway(Exec(s, events[0]), id, n)
    ensures NewAndInRange(SubmittedIndices(events[1..], id), IndicesOf(Exec(s, events[0]).results, id), n)
  {
    OwnIsFirst(events, id, IndicesOf(s.results, id), n);
    UnderwayStep(s, events[0], id, n);
  }

  lemma {:induction false} CollatesOnceFrom(s: State, events: seq<Event>, id: nat, n: nat)
    requires Underway(s, id, n) && NoOtherStart(events, id)
    requires NewAndInRange(SubmittedIndices(events, id), IndicesOf(s.results, id), n)
    ensures Collations(s, events, id) == if !Full(s, id, n) && Full(Run(s, events), id, n) then 1 else 0
    decreases |events|
  {
    if events != [] {
      StillNew(s, events, id, n);
      CollatesOnceFrom(Exec(s, events[0]), events[1..], id, n);
      FirstStepCollates(s, events, id, n);
      StaysFull(Exec(s, events[0]), events[1..], id, n);
    }
  }

  // The first event collates exactly when it completes the table.
  lemma FirstStepCollates(s: State, events: seq<Event>, id: nat, n: nat)
    requires events != [] && Underway(s, id, n) && NoOtherStart(events, id)
    requires NewAndInRange(SubmittedIndices(events, id), IndicesOf(s.results, id), n)
    ensures Full(s, id, n) ==> Full(Exec(s, events[0]), id, n)
    ensures CollatesNow(s, events[0], id) <==> !Full(s, id, n) && Full(Exec(s, events[0]), id, n)
  {
    StillNew(s, events, id, n);
    UnderwayStep(s, events[0], id, n);
  }

  lemma StaysFull(s: State, events: seq<Event>, id: nat, n: nat)
    requires WellKeyed(s.results) && NewAndInRange(SubmittedIndices(events, id), IndicesOf(s.results, id), n)
    ensures Full(s, id, n) ==> Full(Run(s, events), id, n)
  {
    if Full(s, id, n) {
      NothingLeft(SubmittedIndices(events, id), n);
      IndicesGathered(s, events, id);
    }
  }

  lemma NothingLeft(later: seq<int>, n: nat)
    requires NewAndInRange(later, Range(n), n)
    ensures later == []
  {
    if later != [] {
      FirstInRange(later, n);
      assert false;
    }
  }

  /**
  A job started once on a table with no results of its id, some chunk dispatched, each chunk
  submitted once in any order, anything happening to other ids: exactly one submission
  collates.
  */
  lemma ExactlyOneCollation(s: State, events: seq<Event>, id: nat, n: nat)
    requires WellKeyed(s.results) && KeysOf(s.results, id) == {}
    requires forall k :: 0 <= k < |s.inFlight| ==> s.inFlight[k].handle.Id != id
    requires n > 0 && NoOtherStart(events, id)
    requires multiset(SubmittedIndices(events, id)) == multiset(Range(n))
    ensures Collations(Exec(s, StartJob(id, n)), events, id) == 1
  {
    var s1 := Exec(s, StartJob(id, n));
    IndicesFromKeys(s.results, id);
    assert IndicesOf(s1.results, id) == {};
    var indices := SubmittedIndices(events, id);
    Permutations.ListingDistinct(indices, Range(n));
    forall i | 0 <= i < |indices| ensures indices[i] in Range(n) {
      assert indices[i] in indices;
    }
    CollatesOnceFrom(s1, events, id, n);
    IndicesGathered(s1, events, id);
    assert (set i | i in indices) == Range(n);
    assert 0 in Range(n);
  }

  /**
  The table is never cleared: once every chunk of an id is in it, a restarted job collates on
  its very first submission, again completely.
  */
  lemma RestartCollatesAtOnce(w: World, s: State, r: ResultRequest)
    requires Inv(w, s) && GoodRequest(w, r)
    requires IndicesOf(s.results, r.handle.Id) == Range(w.count(r.handle.Id))
    ensures var s1 := Exec(s, StartJob(r.handle.Id, w.count(r.handle.Id)));
            && Collates(s1, r)
            && CompleteSnap(w, Exec(s1, Submit(r)).inFlight[|s.inFlight|])
  {
    var id := r.handle.Id;
    var s1 := Exec(s, StartJob(id, w.count(id)));
    EnoughAlready(s.results, r, w.count(id));
    SubmitKeepsInv(w, s1, r);
  }

  lemma EnoughAlready(results: Results, r: ResultRequest, n: nat)
    requires WellKeyed(results) && IndicesOf(results, r.handle.Id) == Range(n)
    ensures |KeysOf(results[Key(r) := r], r.handle.Id)| >= n
  {
    StoreKeepsKeys(results, r);
    CountIsIndices(results[Key(r) := r], r.handle.Id);
    RangeSize(n);
    var after := IndicesOf(results[Key(r) := r], r.handle.Id);
    assert after == Range(n) + (after - Range(n));
  }
}
