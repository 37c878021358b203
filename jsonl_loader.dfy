/**
 * `load_jsonl_file`: every line of the JSONL file is a query/response record;
 * records with some text become documents tagged with their id and the source
 * "JSONL", the others are skipped. Records arrive here already decoded.
 */
module JsonlLoader {
  import opened Wrappers
  import opened Documents
  import opened PyStr
  import opened Seqs

  /**
   * One decoded line. A field is `None` when its key is absent from the JSON
   * object; `data.get(key, "")` then supplies the empty string.
   */
  datatype Record = Record(query: Option<string>, response: Option<string>, id: Option<Value>)

  const QueryLabel := "Query: "
  const ResponseLabel := "\nResponse: "
  const JsonlSource := "JSONL"

  /** `s` ends with `suffix`. */
  predicate EndsWith(s: string, suffix: string) {
    |suffix| <= |s| && s[|s| - |suffix|..] == suffix
  }

  /**
   * The page content of a record with stripped `query` and `response`: both
   * labelled when both are present, otherwise the one that is present alone.
   */
  function PageContent(query: string, response: string): (r: string)
    ensures r == [] <==> query == [] && response == []
    ensures query == [] ==> r == response
    ensures response == [] ==> r == query
    ensures query != [] && response != [] ==>
      QueryLabel + query <= r && EndsWith(r, ResponseLabel + response)
      && |r| == |QueryLabel| + |query| + |ResponseLabel| + |response|
  {
    if query != [] && response != [] then
      var r := QueryLabel + query + ResponseLabel + response;
      assert r[|r| - |ResponseLabel + response|..] == ResponseLabel + response;
      r
    else if query != [] then query
    else response
  }

  /** Stripped fields give a page content with no whitespace at either end. */
  lemma PageContentStripped(query: string, response: string)
    requires IsStripped(query) && IsStripped(response)
    ensures IsStripped(PageContent(query, response))
  {
    if query != [] && response != [] {
      var r := PageContent(query, response);
      assert r[0] == 'Q';
      assert r[|r| - 1] == response[|response| - 1];
    }
  }

  /** The metadata of the document made from a record with id `id`. */
  function RecordMetadata(id: Option<Value>): (m: Metadata)
    ensures m.Keys == {"id", "source"}
    ensures m["source"] == Str(JsonlSource)
    ensures m["id"] == id.GetOr(Str(""))
  {
    map["id" := id.GetOr(Str("")), "source" := Str(JsonlSource)]
  }

  /**
   * The document one record contributes, if any: none when both fields are
   * missing or whitespace; otherwise the page content of the stripped fields,
   * which is non-empty and stripped, and the record's metadata.
   */
  function ToDocument(rec: Record): (r: Option<Document>)
    ensures r.None? <==> AllSpace(rec.query.GetOr("")) && AllSpace(rec.response.GetOr(""))
    ensures r.Some? ==>
      r.value.pageContent.Some? && TextOf(r.value) != [] && IsStripped(TextOf(r.value))
      && r.value.metadata == Some(RecordMetadata(rec.id))
    ensures r.Some? ==>
      r.value.pageContent == Some(PageContent(Strip(rec.query.GetOr("")), Strip(rec.response.GetOr(""))))
  {
    FromFields(Strip(rec.query.GetOr("")), Strip(rec.response.GetOr("")), rec.id)
  }

  /** The document for the stripped fields `query` and `response`, if either has text. */
  function FromFields(query: string, response: string, id: Option<Value>): (r: Option<Document>)
    requires IsStripped(query) && IsStripped(response)
    ensures r.None? <==> query == [] && response == []
    ensures r.Some? ==>
      r.value.pageContent.Some? && TextOf(r.value) != [] && IsStripped(TextOf(r.value))
      && r.value.metadata == Some(RecordMetadata(id))
    ensures r.Some? ==> r.value.pageContent == Some(PageContent(query, response))
  {
    if query == [] && response == [] then None
    else
      PageContentStripped(query, response);
      Some(Document(Some(PageContent(query, response)), Some(RecordMetadata(id))))
  }

  /**
   * Whitespace around a field does not matter: a record whose fields are
   * padded with whitespace loads exactly like the unpadded one.
   */
  lemma ToDocumentIgnoresPadding(p: string, query: string, q: string, p': string, response: string, q': string, id: Option<Value>)
    requires AllSpace(p) && AllSpace(q) && IsStripped(query)
    requires AllSpace(p') && AllSpace(q') && IsStripped(response)
    ensures ToDocument(Record(Some(p + query + q), Some(p' + response + q'), id))
      == ToDocument(Record(Some(query), Some(response), id))
  {
    StripUnique(p, query, q);
    StripUnique(p', response, q');
    StripStripped(query);
    StripStripped(response);
  }

  /** The documents one line contributes: none, or the one it loads to. */
  function RecordDocuments(rec: Record): seq<Document> {
    match ToDocument(rec)
    case Some(d) => [d]
    case None => []
  }

  /** The documents `load_jsonl_file` returns for the records of a file, in line order. */
  function JsonlDocuments(records: seq<Record>): seq<Document> {
    FlatMap(RecordDocuments, records)
  }

  /** The loop of `load_jsonl_file`, proved to compute `JsonlDocuments`. */
  method LoadJsonl(records: seq<Record>) returns (documents: seq<Document>)
    ensures documents == JsonlDocuments(records)
  {
    documents := [];
    for k := 0 to |records|
      invariant documents == JsonlDocuments(records[..k])
    {
      assert records[..k + 1][..k] == records[..k];
      var rec := records[k];
      var query := Strip(rec.query.GetOr(""));
      var response := Strip(rec.response.GetOr(""));
      if query != [] || response != [] {
        var pageContent := PageContent(query, response);
        documents := documents + [Document(Some(pageContent), Some(RecordMetadata(rec.id)))];
      }
    }
    assert records[..|records|] == records;
  }

  /** Loading two runs of lines is loading each and concatenating, so line order is kept. */
  lemma JsonlDocumentsAppend(a: seq<Record>, b: seq<Record>)
    ensures JsonlDocuments(a + b) == JsonlDocuments(a) + JsonlDocuments(b)
  {
    FlatMapAppend(RecordDocuments, a, b);
  }

  /**
   * Every loaded document has non-empty stripped text and is tagged with the
   * source "JSONL"; its metadata is that of one of the records.
   */
  lemma {:induction false} JsonlDocumentsTagged(records: seq<Record>)
    ensures forall d :: d in JsonlDocuments(records) ==>
      TextOf(d) != [] && IsStripped(TextOf(d))
      && "source" in MetadataOf(d) && MetadataOf(d)["source"] == Str(JsonlSource)
      && exists k :: 0 <= k < |records| && d.metadata == Some(RecordMetadata(records[k].id))
    decreases |records|
  {
    if records != [] {
      var init := records[..|records| - 1];
      JsonlDocumentsTagged(init);
      forall d | d in JsonlDocuments(records)
        ensures TextOf(d) != [] && IsStripped(TextOf(d))
          && "source" in MetadataOf(d) && MetadataOf(d)["source"] == Str(JsonlSource)
          && exists k :: 0 <= k < |records| && d.metadata == Some(RecordMetadata(records[k].id))
      {
        if d in JsonlDocuments(init) {
          var k :| 0 <= k < |init| && d.metadata == Some(RecordMetadata(init[k].id));
          assert records[k] == init[k];
        } else {
          assert d.metadata == Some(RecordMetadata(records[|records| - 1].id));
        }
      }
    }
  }

  /**
   * There are never more documents than records, and exactly as many when
   * every record has a query or a response with non-whitespace text.
   */
  lemma {:induction false} JsonlDocumentsCount(records: seq<Record>)
    ensures |JsonlDocuments(records)| <= |records|
    ensures (forall k :: 0 <= k < |records| ==> ToDocument(records[k]).Some?) ==>
      |JsonlDocuments(records)| == |records|
    decreases |records|
  {
    if records != [] {
      var init := records[..|records| - 1];
      JsonlDocumentsCount(init);
      assert forall k :: 0 <= k < |init| ==> init[k] == records[k];
    }
  }
}
