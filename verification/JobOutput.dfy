/**
A job from file to result: the master tiles the file, each worker maps and reduces its chunk,
the master joins what they send.
*/
module JobOutput {
  import opened Types
  import Chunks
  import Master
  import MasterRuns
  import Worker

  type MapFunction = seq<Byte> -> seq<Worker.KeyValue>

  /** What a worker may send for some map output: any arrival order, any outcome of the sort by key. */
  ghost predicate WorkerOutput(
      output: string, kvs: seq<Worker.KeyValue>, hash: string -> nat, nReduce: nat, reducef: Worker.Reducer)
    requires nReduce > 0
  {
    exists arrival, all ::
      && Worker.EachOnce(arrival, nReduce)
      && Worker.SortedByKey(all)
      && multiset(all) == multiset(Worker.Arrived(arrival, kvs, hash, nReduce))
      && output == Worker.Render(Worker.Groups(all, reducef))
  }

  lemma WorkerOutputIsGroupBy(
      output: string, kvs: seq<Worker.KeyValue>, hash: string -> nat, nReduce: nat, reducef: Worker.Reducer)
    requires nReduce > 0 && Worker.OrderInsensitive(reducef) && WorkerOutput(output, kvs, hash, nReduce, reducef)
    ensures output == Worker.Render(Worker.GroupBy(kvs, reducef))
  {
    var arrival, all :|
      && Worker.EachOnce(arrival, nReduce)
      && Worker.SortedByKey(all)
      && multiset(all) == multiset(Worker.Arrived(arrival, kvs, hash, nReduce))
      && output == Worker.Render(Worker.Groups(all, reducef));
    Worker.PipelineIsGroupBy(kvs, hash, nReduce, arrival, all, reducef);
  }

  /** What the worker reads of chunk i. */
  function Piece(content: seq<Byte>, M: nat, i: nat): seq<Byte>
    requires content != []
  {
    Chunks.ReadInline(content, Chunks.ChunkAt(|content|, M, i))
  }

  /** The rendered group-by of piece i. */
  function PieceOutput(content: seq<Byte>, M: nat, i: nat, mapf: MapFunction, reducef: Worker.Reducer): string
    requires content != []
  {
    Worker.Render(Worker.GroupBy(mapf(Piece(content, M, i)), reducef))
  }

  /** The same, or a newline when there is nothing to render. */
  function PieceLines(content: seq<Byte>, M: nat, i: nat, mapf: MapFunction, reducef: Worker.Reducer): string
    requires content != []
  {
    var text := PieceOutput(content, M, i, mapf, reducef);
    if text == "" then "\n" else text
  }

  /** The direct result: the lines of each piece, in order. */
  function DirectOutput(content: seq<Byte>, M: nat, n: nat, mapf: MapFunction, reducef: Worker.Reducer): string
    requires content != []
  {
    if n == 0 then ""
    else
      DirectOutput(content, M, n - 1, mapf, reducef) + PieceLines(content, M, n - 1, mapf, reducef)
  }

  /** Every worker's answer for the job's chunks is one its pipeline may give. */
  ghost predicate WorkersAnswer(
      w: MasterRuns.World, id: nat, content: seq<Byte>, M: nat, mapf: MapFunction, hash: string -> nat,
      nReduce: nat, reducef: Worker.Reducer, n: nat)
    requires content != [] && nReduce > 0
  {
    forall i: nat :: i < n ==> WorkerOutput(w.output(id, i), mapf(Piece(content, M, i)), hash, nReduce, reducef)
  }

  lemma AnswerIsGroupBy(
      w: MasterRuns.World, id: nat, content: seq<Byte>, M: nat, mapf: MapFunction, hash: string -> nat,
      nReduce: nat, reducef: Worker.Reducer, n: nat, i: nat)
    requires content != [] && nReduce > 0 && Worker.OrderInsensitive(reducef) && i < n
    requires WorkersAnswer(w, id, content, M, mapf, hash, nReduce, reducef, n)
    ensures w.output(id, i) == PieceOutput(content, M, i, mapf, reducef)
  {
    WorkerOutputIsGroupBy(w.output(id, i), mapf(Piece(content, M, i)), hash, nReduce, reducef);
  }

  lemma PieceEndsLine(content: seq<Byte>, M: nat, i: nat, mapf: MapFunction, reducef: Worker.Reducer)
    requires content != []
    ensures Master.Terminated(PieceOutput(content, M, i, mapf, reducef)) == PieceLines(content, M, i, mapf, reducef)
  {
    Worker.RenderLines(Worker.GroupBy(mapf(Piece(content, M, i)), reducef), []);
  }

  /** The master's line for chunk i is the direct one. */
  ghost predicate SameLines(
      w: MasterRuns.World, id: nat, content: seq<Byte>, M: nat, mapf: MapFunction, reducef: Worker.Reducer, i: nat)
    requires content != []
  {
    Master.Terminated(w.output(id, i)) == PieceLines(content, M, i, mapf, reducef)
  }

  lemma {:induction false} CanonicalIsDirect(
      w: MasterRuns.World, id: nat, content: seq<Byte>, M: nat, mapf: MapFunction, reducef: Worker.Reducer, n: nat)
    requires content != []
    requires forall i: nat :: i < n ==> SameLines(w, id, content, M, mapf, reducef, i)
    ensures MasterRuns.Canonical(w, id, n) == DirectOutput(content, M, n, mapf, reducef)
  {
    if n > 0 {
      CanonicalIsDirect(w, id, content, M, mapf, reducef, n - 1);
      assert SameLines(w, id, content, M, mapf, reducef, n - 1);
    }
  }

  /**
  Every result file a server holds, after any run of starts, retries, lost, late, reordered and
  repeated submissions: its combined output is the direct one of the file's pieces, and the
  pieces are the whole file exactly when there are enough of them.
  */
  lemma EveryJobIsDirect(
      w: MasterRuns.World, events: seq<Master.Event>, files: map<nat, Master.Collated>, id: nat,
      content: seq<Byte>, M: nat, mapf: MapFunction, hash: string -> nat, nReduce: nat, reducef: Worker.Reducer)
    requires content != [] && M > 0 && nReduce > 0 && Worker.OrderInsensitive(reducef)
    requires forall j :: 0 <= j < |events| ==> MasterRuns.GoodEvent(w, events[j])
    requires Master.FilesFrom(files, MasterRuns.Run(Master.Init(), events).written) && id in files
    requires WorkersAnswer(w, id, content, M, mapf, hash, nReduce, reducef, w.count(id))
    ensures files[id].CombinedOutput == DirectOutput(content, M, w.count(id), mapf, reducef)
    ensures Chunks.ReadAll(content, Chunks.ChunksUpTo(|content|, M, w.count(id))) == content <==>
            w.count(id) * M >= |content|
  {
    MasterRuns.EveryFileCanonical(w, events, files, id);
    forall i: nat | i < w.count(id) ensures SameLines(w, id, content, M, mapf, reducef, i) {
      AnswerIsGroupBy(w, id, content, M, mapf, hash, nReduce, reducef, w.count(id), i);
      PieceEndsLine(content, M, i, mapf, reducef);
    }
    CanonicalIsDirect(w, id, content, M, mapf, reducef, w.count(id));
    EnoughPieces(content, M, w.count(id));
  }

  lemma EnoughPieces(content: seq<Byte>, M: nat, n: nat)
    requires content != [] && M > 0
    ensures Chunks.ReadAll(content, Chunks.ChunksUpTo(|content|, M, n)) == content <==> n * M >= |content|
  {
    if n > 0 { Chunks.ChunksTileIff(content, M, n); }
  }
}
