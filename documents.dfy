/** The document records that flow through the ingestion pipeline. */
module Documents {
  import opened Wrappers

  /** A metadata value: the loaders store strings (paths, tags, ids) and page numbers. */
  datatype Value = Str(s: string) | Int(n: int)

  type Metadata = map<string, Value>

  /**
   * A loaded document or a chunk of one. Both attributes are optional because
   * the chunker reads them defensively (`hasattr`): a document without
   * `page_content` counts as having no text, one without `metadata` as having
   * empty metadata.
   */
  datatype Document = Document(pageContent: Option<string>, metadata: Option<Metadata>)

  /** The text the chunker sees; a missing text and an empty one behave alike. */
  function TextOf(d: Document): string {
    d.pageContent.GetOr("")
  }

  /** The metadata the chunker copies onto every chunk of `d`. */
  function MetadataOf(d: Document): Metadata {
    d.metadata.GetOr(map[])
  }
}
