/**
The master's job protocol: the table of expected chunk counts, the dispatch tally, and the
submission handler that counts, snapshots and collates results.
*/
module Master {
  import opened Wrappers
  import opened Types
  import Names
  import Sorting

  datatype ResultRequest = ResultRequest(
    handle: Handle, ChunkIndex: int, WorkerAddr: string, OutputFile: string, OutputData: string, GeneratedAt: string)

  datatype Collated = Collated(handle: Handle, ChunkCount: nat, Chunks: seq<ResultRequest>, CombinedOutput: string)

  type Results = map<string, ResultRequest>

  // ------------------------------------------------------------ the result table

  function Key(r: ResultRequest): string {
    Names.ResultKey(r.handle.Id, r.ChunkIndex)
  }

  /** Every entry sits under its own key. */
  ghost predicate WellKeyed(results: Results) {
    forall key :: key in results ==> key == Key(results[key])
  }

  function Prefix(id: nat): string {
    Names.Decimal(id) + ":"
  }

  /** The keys the counting loop finds for an id. */
  function KeysOf(results: Results, id: nat): set<string> {
    set key | key in results && Prefix(id) <= key
  }

  function ItemsOf(results: Results, id: nat): set<ResultRequest> {
    set key | key in results && Prefix(id) <= key :: results[key]
  }

  function IndicesOf(results: Results, id: nat): set<int> {
    set key | key in results && Prefix(id) <= key :: results[key].ChunkIndex
  }

  /** The prefix test selects exactly the id's own results. */
  lemma PrefixSelects(results: Results, id: nat, key: string)
    requires WellKeyed(results) && key in results
    ensures Prefix(id) <= key <==> results[key].handle.Id == id
  {
    Names.KeyPrefixIff(id, results[key].handle.Id, results[key].ChunkIndex);
  }

  lemma StoreKeepsKeys(results: Results, r: ResultRequest)
    requires WellKeyed(results)
    ensures WellKeyed(results[Key(r) := r])
    ensures IndicesOf(results[Key(r) := r], r.handle.Id) == IndicesOf(results, r.handle.Id) + {r.ChunkIndex}
    ensures forall id: nat :: id != r.handle.Id ==> KeysOf(results[Key(r) := r], id) == KeysOf(results, id)
    ensures forall id: nat :: id != r.handle.Id ==> IndicesOf(results[Key(r) := r], id) == IndicesOf(results, id)
  {
    var id, results' := r.handle.Id, results[Key(r) := r];
    PrefixSelects(results', id, Key(r));
    forall i: int ensures i in IndicesOf(results', id) <==> i in IndicesOf(results, id) || i == r.ChunkIndex {
      if i in IndicesOf(results, id) {
        var key :| key in results && Prefix(id) <= key && results[key].ChunkIndex == i;
        PrefixSelects(results, id, key);
        if key == Key(r) { Names.ResultKeyInjective(id, i, id, r.ChunkIndex); }
        assert key in results' && results'[key].ChunkIndex == i;
      }
    }
    forall other: nat | other != id
      ensures KeysOf(results', other) == KeysOf(results, other)
                && IndicesOf(results', other) == IndicesOf(results, other)
    {
      Names.KeyPrefixIff(other, id, r.ChunkIndex);
      assert KeysOf(results', other) == KeysOf(results, other);
      IndicesFromKeys(results, other);
      IndicesFromKeys(results', other);
      assert forall key :: key in KeysOf(results, other) ==> results'[key] == results[key];
    }
  }

  lemma IndicesFromKeys(results: Results, id: nat)
    ensures IndicesOf(results, id) == set key | key in KeysOf(results, id) :: results[key].ChunkIndex
  {
  }

  lemma DistinctIndices(results: Results, id: nat, a: string, b: string)
    requires WellKeyed(results) && a in KeysOf(results, id) && b in KeysOf(results, id) && a != b
    ensures results[a].ChunkIndex != results[b].ChunkIndex
  {
    PrefixSelects(results, id, a);
    PrefixSelects(results, id, b);
    assert Key(results[a]) == a && Key(results[b]) == b;
  }

  /** Different results of one id have different indices: as many keys as indices. */
  lemma {:induction false} AsManyKeysAsIndices(results: Results, id: nat, keys: set<string>)
    requires WellKeyed(results) && keys <= KeysOf(results, id)
    ensures |keys| == |set key | key in keys :: results[key].ChunkIndex|
    decreases |keys|
  {
    var image := set key | key in keys :: results[key].ChunkIndex;
    if keys != {} {
      var key :| key in keys;
      var rest := keys - {key};
      var image' := set k | k in rest :: results[k].ChunkIndex;
      AsManyKeysAsIndices(results, id, rest);
      assert image == image' + {results[key].ChunkIndex};
      forall other | other in rest ensures results[other].ChunkIndex != results[key].ChunkIndex {
        DistinctIndices(results, id, key, other);
      }
    }
  }

  lemma CountIsIndices(results: Results, id: nat)
    requires WellKeyed(results)
    ensures |KeysOf(results, id)| == |IndicesOf(results, id)|
  {
    AsManyKeysAsIndices(results, id, KeysOf(results, id));
    IndicesFromKeys(results, id);
  }

  // --------------------------------------------------------------- collation

  predicate IndexLess(a: ResultRequest, b: ResultRequest) {
    a.ChunkIndex < b.ChunkIndex
  }

  /** A listing of a snapshot as the sort by chunk index leaves it. */
  ghost predicate Lists(chunks: seq<ResultRequest>, items: set<ResultRequest>) {
    && Sorting.Sorted(chunks, IndexLess)
    && multiset(chunks) == multiset(items)
  }

  predicate EndsWithNewline(s: string) {
    s != "" && s[|s| - 1] == '\n'
  }

  /** A chunk's output with a newline added where it lacks one. */
  function Terminated(s: string): string {
    if EndsWithNewline(s) then s else s + "\n"
  }

  /** The newline-terminated outputs, one after another. */
  function Combine(chunks: seq<ResultRequest>): (s: string)
    ensures chunks != [] ==> EndsWithNewline(s)
  {
    if chunks == [] then ""
    else Combine(chunks[..|chunks| - 1]) + Terminated(chunks[|chunks| - 1].OutputData)
  }

  lemma CombineStep(chunks: seq<ResultRequest>, i: nat)
    requires i < |chunks|
    ensures Combine(chunks[..i + 1]) == Combine(chunks[..i]) + Terminated(chunks[i].OutputData)
    ensures i > 0 ==> EndsWithNewline(Combine(chunks[..i]))
  {
    assert chunks[..i + 1][..i] == chunks[..i];
  }

  /** Where the output of chunk i begins: behind the outputs before it,
      and a newline for each that does not end in one. */
  function Offset(chunks: seq<ResultRequest>, i: nat): nat
    requires i <= |chunks|
  {
    if i == 0 then 0
    else
      var s := chunks[i - 1].OutputData;
      Offset(chunks, i - 1) + |s| + if s == "" || s[|s| - 1] != '\n' then 1 else 0
  }

  /** A text that is the outputs at their offsets and, behind those without one, a newline; nothing else. */
  ghost predicate HoldsEach(text: string, chunks: seq<ResultRequest>) {
    && |text| == Offset(chunks, |chunks|)
    && (forall i :: 0 <= i < |chunks| ==> HoldsOne(text, chunks, i))
  }

  ghost predicate HoldsOne(text: string, chunks: seq<ResultRequest>, i: nat)
    requires i < |chunks|
  {
    var s, at := chunks[i].OutputData, Offset(chunks, i);
    && at + |s| <= |text|
    && text[at..at + |s|] == s
    && (s == "" || s[|s| - 1] != '\n' ==> at + |s| < |text| && text[at + |s|] == '\n')
  }

  /** The outputs one after another. */
  function Concatenation(chunks: seq<ResultRequest>): string {
    if chunks == [] then "" else Concatenation(chunks[..|chunks| - 1]) + chunks[|chunks| - 1].OutputData
  }

  lemma {:induction false} OffsetOfPrefix(chunks: seq<ResultRequest>, n: nat, i: nat)
    requires i <= n <= |chunks|
    ensures Offset(chunks[..n], i) == Offset(chunks, i)
  {
    if i > 0 { OffsetOfPrefix(chunks, n, i - 1); }
  }

  lemma Placed(before: string, s: string, end: string)
    ensures var text := before + (s + end);
            && text[|before|..|before| + |s|] == s
            && (end != "" ==> text[|before| + |s|] == end[0])
            && before <= text
  {
    assert (s + end)[..|s|] == s;
    var text := before + (s + end);
    assert text[|before|..] == s + end;
  }

  lemma StillHolds(text: string, longer: string, chunks: seq<ResultRequest>, n: nat, i: nat)
    requires i < n <= |chunks| && HoldsOne(text, chunks[..n], i) && text <= longer
    ensures HoldsOne(longer, chunks, i)
  {
    OffsetOfPrefix(chunks, n, i);
    assert chunks[..n][i] == chunks[i];
    var at, end := Offset(chunks, i), Offset(chunks, i) + |chunks[i].OutputData|;
    assert longer[at..end] == text[at..end];
  }

  // The text so far, and then chunk n's output.
  lemma HoldsNext(text: string, chunks: seq<ResultRequest>, n: nat)
    requires n < |chunks| && |text| == Offset(chunks, n)
    ensures var longer := text + Terminated(chunks[n].OutputData);
            text <= longer && HoldsOne(longer, chunks, n) && |longer| == Offset(chunks, n + 1)
  {
    var s := chunks[n].OutputData;
    if EndsWithNewline(s) {
      assert s + "" == s;
      Placed(text, s, "");
    } else {
      Placed(text, s, "\n");
    }
  }

  /** The combined output holds every output whole, in index order, and adds nothing but missing newlines. */
  lemma {:induction false} CombineHoldsEach(chunks: seq<ResultRequest>)
    ensures HoldsEach(Combine(chunks), chunks)
  {
    if chunks != [] {
      var n := |chunks| - 1;
      CombineHoldsEach(chunks[..n]);
      OffsetOfPrefix(chunks, n, n);
      HoldsNext(Combine(chunks[..n]), chunks, n);
      HoldsAll(Combine(chunks[..n]), Combine(chunks), chunks, n);
    }
  }

  lemma HoldsAll(text: string, longer: string, chunks: seq<ResultRequest>, n: nat)
    requires n + 1 == |chunks| && HoldsEach(text, chunks[..n]) && text <= longer
    requires HoldsOne(longer, chunks, n) && |longer| == Offset(chunks, n + 1)
    ensures HoldsEach(longer, chunks)
  {
    forall i | 0 <= i < |chunks| ensures HoldsOne(longer, chunks, i) {
      if i < n {
        assert HoldsOne(text, chunks[..n], i);
        StillHolds(text, longer, chunks, n, i);
      }
    }
  }

  /** When every output ends in a newline, the combined output is their concatenation. */
  lemma {:induction false} CombineConcatenates(chunks: seq<ResultRequest>)
    requires forall i :: 0 <= i < |chunks| ==>
               chunks[i].OutputData != "" && chunks[i].OutputData[|chunks[i].OutputData| - 1] == '\n'
    ensures Combine(chunks) == Concatenation(chunks)
  {
    if chunks != [] {
      var front := chunks[..|chunks| - 1];
      assert forall i :: 0 <= i < |front| ==> front[i] == chunks[i];
      CombineConcatenates(front);
    }
  }

  /** Sort the snapshot and build the combined output. */
  method Collate(handle: Handle, items: seq<ResultRequest>) returns (payload: Collated)
    ensures Sorting.Sorted(payload.Chunks, IndexLess) && multiset(payload.Chunks) == multiset(items)
    ensures payload.handle == handle && payload.ChunkCount == |payload.Chunks|
    ensures payload.CombinedOutput == Combine(payload.Chunks) && HoldsEach(payload.CombinedOutput, payload.Chunks)
  {
    var chunks := Sorting.SortSlice(items, IndexLess);
    var combined := "";
    for i := 0 to |chunks|
      invariant combined == Combine(chunks[..i])
    {
      CombineStep(chunks, i);
      if i > 0 && !EndsWithNewline(combined) {
        combined := combined + "\n";
      }
      combined := combined + chunks[i].OutputData;
      if !EndsWithNewline(chunks[i].OutputData) {
        combined := combined + "\n";
      }
    }
    assert chunks[..|chunks|] == chunks;
    CombineHoldsEach(chunks);
    payload := Collated(handle, |chunks|, chunks, combined);
  }

  // ---------------------------------------------------------- the protocol's steps

  /** What the locked part of a submission took: sorting forgets the order of the table. */
  datatype Snap = Snap(handle: Handle, items: set<ResultRequest>)

  /** `written` records the collations in the order their result files were written. */
  datatype State = State(
    results: Results, jobs: map<nat, nat>, inFlight: seq<Snap>, written: seq<Snap>)

  datatype Event =
    | StartJob(id: nat, chunks: nat)
    | NothingDispatched(id: nat)
    | Submit(request: ResultRequest)
    | FinishCollation(k: nat, ok: bool)

  function Init(): State {
    State(map[], map[], [], [])
  }

  predicate Collates(s: State, r: ResultRequest) {
    r.handle.Id in s.jobs && |KeysOf(s.results[Key(r) := r], r.handle.Id)| >= s.jobs[r.handle.Id]
  }

  function Exec(s: State, e: Event): State {
    match e
    case StartJob(id, chunks) => s.(jobs := s.jobs[id := chunks])
    case NothingDispatched(id) => s.(jobs := s.jobs - {id})
    case Submit(r) =>
      var results := s.results[Key(r) := r];
      s.(results := results,
         inFlight := if Collates(s, r) then s.inFlight + [Snap(r.handle, ItemsOf(results, r.handle.Id))]
             else s.inFlight)
    case FinishCollation(k, ok) =>
      if k >= |s.inFlight| then s
      else
        var snap := s.inFlight[k];
        var rest := s.inFlight[..k] + s.inFlight[k + 1..];
        if ok then s.(inFlight := rest, written := s.written + [snap], jobs := s.jobs - {snap.handle.Id})
        else s.(inFlight := rest)
  }

  // -------------------------------------------------------------- the server

  datatype Outcome =
    | NotTracked
    | Waiting(received: nat, expected: nat)
    | Complete(items: seq<ResultRequest>)

  datatype StartReply = Accepted | Partial(failed: nat) | AllFailed | NoMetadata | NoChunks | NoWorkers

  /** Each result file is one listing of some snapshot that was written. */
  ghost predicate FilesFrom(files: map<nat, Collated>, written: seq<Snap>) {
    forall id :: id in files ==>
      exists k :: 0 <= k < |written| && written[k].handle.Id == id && IsCollation(files[id], written[k])
  }

  ghost predicate IsCollation(payload: Collated, snap: Snap) {
    && payload.handle == snap.handle
    && Lists(payload.Chunks, snap.items)
    && payload.ChunkCount == |payload.Chunks|
    && payload.CombinedOutput == Combine(payload.Chunks)
  }

  lemma FileAdded(files: map<nat, Collated>, written: seq<Snap>, payload: Collated, snap: Snap)
    requires FilesFrom(files, written) && IsCollation(payload, snap)
    ensures FilesFrom(files[snap.handle.Id := payload], written + [snap])
  {
    var files', written' := files[snap.handle.Id := payload], written + [snap];
    forall id | id in files'
      ensures exists k :: 0 <= k < |written'| && written'[k].handle.Id == id && IsCollation(files'[id], written'[k])
    {
      if id == snap.handle.Id {
        assert written'[|written|] == snap;
      } else {
        var k :| 0 <= k < |written| && written[k].handle.Id == id && IsCollation(files[id], written[k]);
        assert written'[k] == written[k];
      }
    }
  }

  lemma OneMore<A>(some: set<A>, seen: set<A>, x: A)
    requires x !in seen
    ensures |some * (seen + {x})| == |some * seen| + if x in some then 1 else 0
  {
    assert some * (seen + {x}) == some * seen + if x in some then {x} else {};
  }

  /** inFlight and written are the protocol's record of the collations. */
  class Server {
    var results: Results
    var jobs: map<nat, nat>
    var resultFiles: map<nat, Collated>
    ghost var inFlight: seq<Snap>
    ghost var written: seq<Snap>

    ghost predicate Valid()
      reads this
    {
      WellKeyed(results) && FilesFrom(resultFiles, written)
    }

    ghost function View(): State
      reads this
    {
      State(results, jobs, inFlight, written)
    }

    constructor ()
      ensures Valid() && View() == Init() && resultFiles == map[]
    {
      results, jobs, resultFiles, inFlight, written := map[], map[], map[], [], [];
    }

    /** The locked part of a submission: store, look the job up, count, snapshot. */
    method StoreAndCount(request: ResultRequest) returns (outcome: Outcome)
      requires Valid()
      modifies this`results, this`inFlight
      ensures Valid() && View() == Exec(old(View()), Submit(request))
      ensures outcome.NotTracked? <==> request.handle.Id !in jobs
      ensures outcome.Waiting? <==>
                request.handle.Id in jobs && |IndicesOf(results, request.handle.Id)| < jobs[request.handle.Id]
      ensures outcome.Waiting? ==>
                outcome.received == |IndicesOf(results, request.handle.Id)|
                    && outcome.expected == jobs[request.handle.Id]
      ensures outcome.Complete? <==> Collates(old(View()), request)
      ensures outcome.Complete? ==> multiset(outcome.items) == multiset(ItemsOf(results, request.handle.Id))
    {
      var id := request.handle.Id;
      StoreKeepsKeys(results, request);
      results := results[Key(request) := request];
      if id !in jobs {
        return NotTracked;
      }
      var expected := jobs[id];
      var received := CountReceived(id);
      CountIsIndices(results, id);
      if received < expected {
        return Waiting(received, expected);
      }
      var items := Snapshot(id);
      inFlight := inFlight + [Snap(request.handle, ItemsOf(results, id))];
      return Complete(items);
    }

    method CountReceived(id: nat) returns (received: nat)
      ensures received == |KeysOf(results, id)|
    {
      received := 0;
      ghost var own := KeysOf(results, id);
      var todo := results.Keys;
      ghost var seen: set<string> := {};
      while todo != {}
        invariant seen + todo == results.Keys && seen !! todo
        invariant received == |own * seen|
        decreases todo
      {
        var key :| key in todo;
        OneMore(own, seen, key);
        if Prefix(id) <= key {
          received := received + 1;
        }
        todo, seen := todo - {key}, seen + {key};
      }
      assert own * seen == own;
    }

    method Snapshot(id: nat) returns (items: seq<ResultRequest>)
      requires WellKeyed(results)
      ensures multiset(items) == multiset(ItemsOf(results, id))
    {
      items := [];
      var todo := results.Keys;
      ghost var taken: set<ResultRequest> := {};
      while todo != {}
        invariant todo <= results.Keys
        invariant multiset(items) == multiset(taken)
        invariant forall r :: r in taken <==>
                  exists key :: key in results.Keys - todo && Prefix(id) <= key && results[key] == r
        decreases todo
      {
        var key :| key in todo;
        if Prefix(id) <= key {
          forall other | other in results.Keys - todo ensures results[other] != results[key] {
            assert Key(results[other]) == other && Key(results[key]) == key;
          }
          items := items + [results[key]];
          taken := taken + {results[key]};
        }
        todo := todo - {key};
      }
      assert taken == ItemsOf(results, id);
    }

    /**
    RPCSubmitMapReduceResult with no other submission in between; `writable` says whether the
    result file can be written.
    */
    method RPCSubmitMapReduceResult(request: ResultRequest, writable: bool) returns (outcome: Outcome)
      requires Valid()
      modifies this
      ensures Valid()
      ensures outcome.Complete? <==> Collates(old(View()), request)
      ensures results == old(results)[Key(request) := request]
      ensures jobs == if outcome.Complete? && writable then old(jobs) - {request.handle.Id} else old(jobs)
      ensures var stored := Exec(old(View()), Submit(request));
              View() == if outcome.Complete? then Exec(stored, FinishCollation(|old(inFlight)|, writable)) else stored
      ensures if outcome.Complete? && writable
              then request.handle.Id in resultFiles
                && IsCollation(resultFiles[request.handle.Id],
                    Snap(request.handle, ItemsOf(results, request.handle.Id)))
                && resultFiles == old(resultFiles)[request.handle.Id := resultFiles[request.handle.Id]]
              else resultFiles == old(resultFiles)
    {
      ghost var before := inFlight;
      outcome := StoreAndCount(request);
      if outcome.Complete? {
        ghost var snap := inFlight[|before|];
        inFlight := before;
        assert before == before + [];
        if writable {
          var payload := Collate(request.handle, outcome.items);
          FileAdded(resultFiles, written, payload, snap);
          resultFiles := resultFiles[request.handle.Id := payload];
          written := written + [snap];
          jobs := jobs - {request.handle.Id};
        }
      }
    }

    /** The loop over the dispatch outcomes. */
    static method Tally(dispatched: seq<bool>) returns (ok: nat, failed: nat)
      ensures ok == multiset(dispatched)[true] && failed == multiset(dispatched)[false]
      ensures ok == 0 <==> forall i :: 0 <= i < |dispatched| ==> !dispatched[i]
      ensures failed == 0 <==> forall i :: 0 <= i < |dispatched| ==> dispatched[i]
    {
      ok, failed := 0, 0;
      for i := 0 to |dispatched|
        invariant ok == multiset(dispatched[..i])[true] && failed == multiset(dispatched[..i])[false]
        invariant ok == 0 <==> forall j :: 0 <= j < i ==> !dispatched[j]
        invariant failed == 0 <==> forall j :: 0 <= j < i ==> dispatched[j]
      {
        assert dispatched[..i + 1] == dispatched[..i] + [dispatched[i]];
        if dispatched[i] { ok := ok + 1; } else { failed := failed + 1; }
      }
      assert dispatched[..|dispatched|] == dispatched;
    }

    /**
    RPCStartMapReduce: `chunks` is the length of the chunk list, if the metadata could be
    fetched, and `workers` the number of workers that have the plugin.  The job is recorded
    before dispatch, and dropped again when no chunk at all could be dispatched.
    */
    method RPCStartMapReduce(handle: Handle, chunks: Option<nat>, workers: nat, dispatched: seq<bool>)
      returns (reply: StartReply)
      requires Valid() && (chunks.Some? ==> |dispatched| == chunks.value)
      modifies this`jobs
      ensures Valid()
      ensures reply.NoMetadata? <==> chunks.None?
      ensures reply.NoChunks? <==> chunks == Some(0)
      ensures reply.NoWorkers? <==> chunks.Some? && chunks.value > 0 && workers == 0
      ensures var tried := chunks.Some? && chunks.value > 0 && workers > 0;
              && (reply.AllFailed? <==> tried && forall i :: 0 <= i < |dispatched| ==> !dispatched[i])
              && (reply.Accepted? <==> tried && forall i :: 0 <= i < |dispatched| ==> dispatched[i])
              && (reply.Partial? ==> reply.failed == multiset(dispatched)[false])
      ensures match reply
              case AllFailed =>
                View() == Exec(Exec(old(View()), StartJob(handle.Id, chunks.value)), NothingDispatched(handle.Id))
              case Accepted => View() == Exec(old(View()), StartJob(handle.Id, chunks.value))
              case Partial(_) => View() == Exec(old(View()), StartJob(handle.Id, chunks.value))
              case _ => View() == old(View())
    {
      if chunks.None? {
        return NoMetadata;
      }
      if chunks.value == 0 {
        return NoChunks;
      }
      if workers == 0 {
        return NoWorkers;
      }
      jobs := jobs[handle.Id := chunks.value];
      var ok, failed := Tally(dispatched);
      if ok == 0 {
        jobs := jobs - {handle.Id};
        return AllFailed;
      }
      if failed > 0 {
        return Partial(failed);
      }
      return Accepted;
    }
  }
}
