/** IngestionPipeline.process of src/ingestion/pipeline.py, once the text has been chunked. */
module Pipelines {
  import opened Common
  import opened JobTables

  type Embedding = seq<real>

  datatype ChunkData = ChunkData(content: string, embedding: Embedding, index: nat)

  /**
   enumerate(zip(chunks, embeddings)): numbers run from 0 without a gap, and a short answer of
   the embedder cuts the list.
   */
  method Process(chunks: seq<string>, embeddings: seq<Embedding>) returns (results: seq<ChunkData>)
    ensures |results| == Min(|chunks|, |embeddings|)
    ensures forall i | 0 <= i < |results| :: results[i] == ChunkData(chunks[i], embeddings[i], i)
  {
    results := [];
    if chunks == [] {
      return;
    }
    var i := 0;
    while i < |chunks| && i < |embeddings|
      invariant 0 <= i <= |chunks| && i <= |embeddings| && |results| == i
      invariant forall k | 0 <= k < i :: results[k] == ChunkData(chunks[k], embeddings[k], k)
    {
      results := results + [ChunkData(chunks[i], embeddings[i], i)];
      i := i + 1;
    }
  }

  /** The rows complete_job builds from its argument. */
  function RowsFrom(doc: DocId, data: seq<ChunkData>): seq<ChunkRow> {
    seq(|data|, i requires 0 <= i < |data| => ChunkRow(doc, data[i].index, data[i].content))
  }

  function ContentsOf(data: seq<ChunkData>): seq<string> {
    seq(|data|, i requires 0 <= i < |data| => data[i].content)
  }

  /** On what process returns, complete_job's rows are the ones the job tables model builds. */
  lemma RowsAreNumbered(doc: DocId, data: seq<ChunkData>)
    requires forall i | 0 <= i < |data| :: data[i].index == i
    ensures RowsFrom(doc, data) == Rows(doc, ContentsOf(data))
  {
    assert |RowsFrom(doc, data)| == |Rows(doc, ContentsOf(data))|;
    assert forall i | 0 <= i < |data| :: RowsFrom(doc, data)[i] == Rows(doc, ContentsOf(data))[i];
  }
}
