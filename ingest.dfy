/**
 * The part of `main` that prepares the text for the vector store: the PDF
 * documents and the JSONL documents, in that order, chunked with the default
 * sizes.
 */
module Ingest {
  import opened Wrappers
  import opened Documents
  import opened JsonlLoader
  import opened Chunker
  import opened Seqs

  /** The step `create_chunks` uses with its default arguments. */
  const DefaultStep := DefaultChunkSize - DefaultChunkOverlap

  /**
   * Loads the JSONL records, appends them to the PDF documents and chunks the
   * result: the chunks of the PDF documents come first, then those of the
   * JSONL documents, and the default sizes never raise.
   */
  method PrepareChunks(pdfDocuments: seq<Document>, records: seq<Record>) returns (chunks: seq<Document>)
    ensures chunks == AllChunks(pdfDocuments, DefaultChunkSize, DefaultStep)
      + AllChunks(JsonlDocuments(records), DefaultChunkSize, DefaultStep)
  {
    var jsonlDocuments := LoadJsonl(records);
    var combined := pdfDocuments + jsonlDocuments;
    var r := CreateChunks(combined, DefaultChunkSize, DefaultChunkOverlap);
    AllChunksAppend(pdfDocuments, jsonlDocuments, DefaultChunkSize, DefaultStep);
    chunks := r.value;
  }

  /**
   * Every chunk cut from the JSONL documents is non-empty, at most 500
   * characters long, and tagged with the source "JSONL".
   */
  lemma JsonlChunksTagged(records: seq<Record>)
    ensures forall c :: c in AllChunks(JsonlDocuments(records), DefaultChunkSize, DefaultStep) ==>
      0 < |TextOf(c)| <= DefaultChunkSize
      && "source" in MetadataOf(c) && MetadataOf(c)["source"] == Str(JsonlSource)
  {
    var docs := JsonlDocuments(records);
    var chunks := AllChunks(docs, DefaultChunkSize, DefaultStep);
    assert forall d :: d in docs ==> "source" in MetadataOf(d) && MetadataOf(d)["source"] == Str(JsonlSource) by {
      JsonlDocumentsTagged(records);
    }
    assert forall c :: c in chunks ==> exists k :: 0 <= k < |docs| && c.metadata == Some(MetadataOf(docs[k])) by {
      ChunksInheritMetadata(docs, DefaultChunkSize, DefaultStep);
    }
    ChunksNonEmptyBounded(docs, DefaultChunkSize, DefaultChunkOverlap);
    forall c | c in chunks
      ensures "source" in MetadataOf(c) && MetadataOf(c)["source"] == Str(JsonlSource)
    {
      var k :| 0 <= k < |docs| && c.metadata == Some(MetadataOf(docs[k]));
      assert docs[k] in docs;
    }
  }

  /**
   * A file of one record whose page content fits in one step, and no PDF
   * documents, gives exactly one chunk: the record's document itself.
   */
  lemma SingleShortRecordOneChunk(rec: Record)
    requires ToDocument(rec).Some? && |TextOf(ToDocument(rec).value)| <= DefaultStep
    ensures AllChunks([], DefaultChunkSize, DefaultStep)
      + AllChunks(JsonlDocuments([rec]), DefaultChunkSize, DefaultStep) == [ToDocument(rec).value]
  {
    var d := ToDocument(rec).value;
    assert [] + [rec] == [rec];
    FlatMapSnoc(RecordDocuments, [], rec);
    AllChunksOfOne(d, DefaultChunkSize, DefaultStep);
    ShortTextOneChunk(d, DefaultChunkSize, DefaultChunkOverlap);
  }
}
