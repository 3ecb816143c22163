/**
How the master cuts a content file into chunks of the file system's chunk size, and what a
worker reads for a chunk when the request carries the content inline.
*/
module Chunks {
  import opened Types

  datatype ChunkInfo = ChunkInfo(Index: int, Offset: int, Size: int)

  function Max(a: int, b: int): int {
    if a > b then a else b
  }

  /** Chunk `index` of a file of some length, for chunk size M. */
  function ChunkAt(length: int, M: nat, index: nat): ChunkInfo {
    var offset := index * M;
    ChunkInfo(index, offset, if length - offset < M then Max(length - offset, 0) else M)
  }

  function ChunksUpTo(length: int, M: nat, n: nat): (cs: seq<ChunkInfo>)
    ensures |cs| == n
  {
    if n == 0 then [] else ChunksUpTo(length, M, n - 1) + [ChunkAt(length, M, n - 1)]
  }

  /** The chunk list of a content file; a whole-file chunk stands in when there is nothing to cut. */
  function ChunkList(length: int, chunkCount: int, M: nat): seq<ChunkInfo> {
    if chunkCount <= 0 || length == 0 then [ChunkInfo(0, 0, 0)] else ChunksUpTo(length, M, chunkCount)
  }

  /** The chunk list of a content file, as the file system describes it. */
  method BuildChunks(length: int, chunkCount: int, M: nat) returns (chunks: seq<ChunkInfo>)
    ensures chunks == ChunkList(length, chunkCount, M)
    ensures chunkCount <= 0 || length == 0 ==> chunks == [ChunkInfo(0, 0, 0)]
    ensures chunkCount > 0 && length != 0 ==> |chunks| == chunkCount && forall i :: 0 <= i < |chunks| ==>
              chunks[i].Index == i && chunks[i].Offset == i * M
              && (chunks[i].Offset + M <= length ==> chunks[i].Size == M)
              && (chunks[i].Offset <= length < chunks[i].Offset + M ==> chunks[i].Offset + chunks[i].Size == length)
              && (length < chunks[i].Offset ==> chunks[i].Size == 0)
  {
    if chunkCount <= 0 || length == 0 {
      return [ChunkInfo(0, 0, 0)];
    }
    chunks := [];
    var index := 0;
    while index < chunkCount
      invariant 0 <= index <= chunkCount
      invariant chunks == ChunksUpTo(length, M, index)
      invariant forall i :: 0 <= i < index ==> chunks[i] == ChunkAt(length, M, i)
    {
      var offset := index * M;
      var size: int := M;
      var remaining := length - offset;
      if remaining < size {
        size := Max(remaining, 0);
      }
      chunks := chunks + [ChunkInfo(index, offset, size)];
      index := index + 1;
    }
  }

  /** The inline read of a chunk.  Size 0 asks for everything from the offset on. */
  function ReadInline(content: seq<Byte>, c: ChunkInfo): seq<Byte>
    requires content != []
  {
    var start := Max(c.Offset, 0);
    if start >= |content| then []
    else
      var end := if c.Size > 0 && start + c.Size < |content| then start + c.Size else |content|;
      content[start..end]
  }

  function ReadAll(content: seq<Byte>, cs: seq<ChunkInfo>): seq<Byte>
    requires content != []
  {
    if cs == [] then [] else ReadAll(content, cs[..|cs| - 1]) + ReadInline(content, cs[|cs| - 1])
  }

  function TotalSize(cs: seq<ChunkInfo>): int {
    if cs == [] then 0 else TotalSize(cs[..|cs| - 1]) + cs[|cs| - 1].Size
  }

  function Min(a: int, b: int): int {
    if a < b then a else b
  }

  /** The first n chunks cover exactly the first n * M bytes, cut at the end of the file. */
  lemma {:induction false} ChunksCover(content: seq<Byte>, M: nat, n: nat)
    requires content != [] && M > 0
    ensures n * M >= 0
    ensures TotalSize(ChunksUpTo(|content|, M, n)) == Min(n * M, |content|)
    ensures ReadAll(content, ChunksUpTo(|content|, M, n)) == content[..Min(n * M, |content|)]
  {
    if n > 0 {
      ChunksCover(content, M, n - 1);
      var before, c := ChunksUpTo(|content|, M, n - 1), ChunkAt(|content|, M, n - 1);
      assert n * M == (n - 1) * M + M;
      assert ChunksUpTo(|content|, M, n)[..n - 1] == before;
      OneChunk(content, (n - 1) * M, M, c);
    }
  }

  lemma OneChunk(content: seq<Byte>, offset: nat, M: nat, c: ChunkInfo)
    requires content != [] && M > 0 && c.Offset == offset
    requires c.Size == if |content| - offset < M then Max(|content| - offset, 0) else M
    ensures Min(offset, |content|) + c.Size == Min(offset + M, |content|)
    ensures content[..Min(offset, |content|)] + ReadInline(content, c) == content[..Min(offset + M, |content|)]
  {
  }

  /**
  Reading all chunks gives the file back exactly when there are enough of them, or the list is
  the whole-file chunk; chunks past the end have size 0 and read nothing, although size 0
  means "to the end".
  */
  lemma ChunksTileIff(content: seq<Byte>, M: nat, count: int)
    requires content != [] && M > 0
    ensures ReadAll(content, ChunkList(|content|, count, M)) == content <==> count <= 0 || count * M >= |content|
    ensures count > 0 && count * M >= |content| ==> TotalSize(ChunkList(|content|, count, M)) == |content|
  {
    if count <= 0 {
      WholeFileChunk(content);
    } else {
      ChunksCover(content, M, count);
      if count * M >= |content| {
        assert content[..|content|] == content;
      } else {
        assert |content[..count * M]| < |content|;
      }
    }
  }

  lemma WholeFileChunk(content: seq<Byte>)
    requires content != []
    ensures ReadAll(content, [ChunkInfo(0, 0, 0)]) == content
  {
    var cs := [ChunkInfo(0, 0, 0)];
    assert cs[..0] == [];
    assert ReadAll(content, cs[..0]) == [];
  }

  /** Different chunks never overlap, and each starts where the one before ends. */
  lemma ChunksContiguous(length: nat, M: nat, i: nat, j: nat)
    requires M > 0 && i < j
    ensures ChunkAt(length, M, i).Offset + ChunkAt(length, M, i).Size <= ChunkAt(length, M, j).Offset
    ensures j == i + 1 && ChunkAt(length, M, j).Offset < length ==>
              ChunkAt(length, M, i).Offset + ChunkAt(length, M, i).Size == ChunkAt(length, M, j).Offset
  {
    ProductSteps(i, j, M);
  }

  lemma {:induction false} ProductSteps(i: nat, j: nat, M: nat)
    requires i < j
    ensures j * M >= i * M + M
    ensures j == i + 1 ==> j * M == i * M + M
    decreases j
  {
    assert j * M == (j - 1) * M + M;
    if i < j - 1 { ProductSteps(i, j - 1, M); }
  }
}
