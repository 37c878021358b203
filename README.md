# Ingestion of the law chatbot's corpus, in Dafny

The law chatbot answers legal questions from passages of a fixed corpus. Before
it can answer, a batch job turns the corpus into chunks of text:

- `load_jsonl_file` reads question/response records and turns each record
  that has some text into a document.
- `main` appends those documents after the PDF documents.
- `create_chunks` cuts every document into overlapping windows of
  `chunk_size` characters (500 by default). Consecutive windows start
  `chunk_size - chunk_overlap` characters apart (50 characters of overlap by
  default). Each window carries its document's metadata.

The chunks are then embedded and stored in a vector index. This project models
the loader, the chunker and the concatenation in `main`, and proves what they
guarantee about the chunks.

Modules:

- `Wrappers` (`wrappers.dfy`): `Option` and `Result`.
- `Documents` (`documents.dfy`): documents and their metadata. A document
  may lack `page_content` or `metadata`. The chunker reads both through
  `hasattr`, which `TextOf` and `MetadataOf` model.
- `PyStr` (`pystr.dfy`): Python's `str.strip()` and slicing `s[i:j]`.
- `Seqs` (`seqs.dfy`): concatenation of what each input yields, used for the
  documents of a JSONL file and the chunks of a document list.
- `Chunker` (`chunker.dfy`): `create_chunks`.
  - `CreateChunks` keeps the source's two nested loops. The inner loop is the
    method `ChunkText`.
  - `CreateChunks` is proved to compute the function `Chunks`. The lemmas
    state what `Chunks` guarantees.
- `JsonlLoader` (`jsonl_loader.dfy`): `load_jsonl_file`.
  - Its loop, `LoadJsonl`, is proved to compute `JsonlDocuments`.
- `Ingest` (`ingest.dfy`): lines 49-53 of `main`.

Python behaviour that the model spells out:

- `range(0, len(text), step)` with a step of zero raises `ValueError`.
  - It raises only when it is evaluated, so only for the first document with
    non-empty text. `Chunks` returns `Err(ZeroStep)` in that case.
  - A negative step (overlap larger than size) gives an empty range, so no
    chunks and no error.
- `text[i:i + chunk_size]` follows Python's slice rules: a negative end
  counts back from the end and ends are clamped. This matters for a negative
  `chunk_size`.
- `str.strip()` removes exactly the characters for which `str.isspace()`
  holds.

Two consequences of the chunking loop, which keeps going while a window
*starts* inside the text:

- The number of chunks of a text of length `L > 0` is `ceil(L / step)`, even
  when `L <= chunk_size`. With the defaults, 500 characters give two chunks:
  the whole text, then its last 50 characters again
  (`WithinWindowGivesTwoChunks`).
- A chunk that is not the last can be shorter than `chunk_size`. A
  480-character text gives `[0, 480)` and then `[450, 480)`, which overlap by
  30 characters. `ConsecutiveChunksOverlap` states what does hold: the tail
  of each chunk after its first `step` characters begins the next chunk, and
  that tail has `chunk_overlap` characters when the chunk is full.

## Model

| member | source | states |
|---|---|---|
| Chunker.CreateChunks | lawchatbot/create_memory_for_chatbot.py:36-46 | The loop over documents returns exactly `Chunks(docs, size, overlap)`. With a zero step, that is the `ValueError` raised at the first document with text, and an empty list when no document has text. |
| Chunker.ChunkText | lawchatbot/create_memory_for_chatbot.py:42-44 | The inner loop appends one chunk per start in `range(0, len(text), step)`, in increasing order of start. |
| Chunker.ChunkCount | lawchatbot/create_memory_for_chatbot.py:41-42 | A document gets `ceil(L / step)` chunks. That is zero exactly when its text is empty or missing, and otherwise the least `n` with `n * step >= L`. |
| Chunker.ChunkAt | lawchatbot/create_memory_for_chatbot.py:42-44 | Chunk `j` is `text[j*step .. min(j*step + size, L)]` with the document's metadata. Its start lies inside the text, so it is non-empty, and it is at most `size` long. |
| Chunker.ShortTextOneChunk | lawchatbot/create_memory_for_chatbot.py:42-44 | A non-empty text no longer than one step becomes a single chunk: the whole text, with the document's metadata. |
| Chunker.WithinWindowGivesTwoChunks | lawchatbot/create_memory_for_chatbot.py:42-43 | A text longer than one step, within one window and at most two steps long (always the case when `chunk_overlap <= chunk_size / 2`, e.g. the defaults) gives two chunks: the whole text, then its part from `step` on. |
| Chunker.Reconstruct | lawchatbot/create_memory_for_chatbot.py:42-43 | Keep the first `step` characters of every chunk except the last, plus the whole last chunk. The result is exactly the document's text. |
| Chunker.ConsecutiveChunksOverlap | lawchatbot/create_memory_for_chatbot.py:42-43 | Each chunk except the last has at least `step` characters. What follows its first `step` characters is a prefix of the next chunk, and is `overlap` long when the chunk is full. |
| Chunker.AllChunksAppend | lawchatbot/create_memory_for_chatbot.py:38-44 | Document order is kept: the chunks of `a + b` are the chunks of `a` followed by the chunks of `b`. |
| Chunker.AllChunksOfOne | lawchatbot/create_memory_for_chatbot.py:38-44 | A one-document list gives exactly that document's chunks. |
| Chunker.EmptyDocumentsContributeNothing | lawchatbot/create_memory_for_chatbot.py:39-41 | A document with empty or missing text adds no chunks, wherever it stands in the list. |
| Chunker.NegativeStepNoChunks | lawchatbot/create_memory_for_chatbot.py:42 | `chunk_overlap > chunk_size` gives no chunks at all and no error. |
| Chunker.ChunksInheritMetadata | lawchatbot/create_memory_for_chatbot.py:38-44 | Every chunk carries, unchanged, the metadata of one of the input documents. A document without metadata gives `{}`. |
| Chunker.ChunksNonEmptyBounded | lawchatbot/create_memory_for_chatbot.py:41-43 | With a positive size and step, every chunk has between 1 and `chunk_size` characters. |
| PyStr.Strip | lawchatbot/create_memory_for_chatbot.py:26-27 | `strip()` returns `s` minus its leading and trailing whitespace. The result has no whitespace at either end, and it is empty exactly when `s` is all whitespace. |
| PyStr.StripUnique | lawchatbot/create_memory_for_chatbot.py:26-27 | Whitespace, then a text with no whitespace at either end, then whitespace: `strip()` returns that text. |
| PyStr.StripStripped | lawchatbot/create_memory_for_chatbot.py:26-27 | A text with no whitespace at either end is left unchanged by `strip()`. |
| PyStr.StripIdempotent | lawchatbot/create_memory_for_chatbot.py:26-27 | Stripping twice is the same as stripping once. |
| PyStr.SliceInRange | lawchatbot/create_memory_for_chatbot.py:43 | `text[i:i+size]`, with `i` inside the text and `size >= 0`, is the characters from `i` up to `min(i + size, L)`. |
| JsonlLoader.PageContent | lawchatbot/create_memory_for_chatbot.py:29 | The page content is empty exactly when both fields are empty, and is the one non-empty field when only one is present. With both present, it starts with `Query: ` and the query, ends with a newline, `Response: ` and the response, and holds nothing between them. |
| JsonlLoader.PageContentStripped | lawchatbot/create_memory_for_chatbot.py:26-29 | Stripped fields give a page content with no whitespace at either end. |
| JsonlLoader.RecordMetadata | lawchatbot/create_memory_for_chatbot.py:31 | The metadata has exactly the keys `id` and `source`. `source` is `"JSONL"`, and `id` is the record's id, or `""` when the record has none. |
| JsonlLoader.ToDocument | lawchatbot/create_memory_for_chatbot.py:26-32 | A record is skipped exactly when both of its fields are missing or all whitespace. Otherwise its document's text is `PageContent` of the stripped query and response, which is non-empty and stripped, and its metadata is the record's. |
| JsonlLoader.FromFields | lawchatbot/create_memory_for_chatbot.py:28-32 | For stripped fields, there is no document exactly when both are empty. Otherwise the document's text is `PageContent(query, response)`, non-empty and stripped, with the record's metadata. |
| JsonlLoader.ToDocumentIgnoresPadding | lawchatbot/create_memory_for_chatbot.py:26-27 | Whitespace around either field does not change the document a record loads to. |
| JsonlLoader.LoadJsonl | lawchatbot/create_memory_for_chatbot.py:21-34 | The loop over the lines returns exactly `JsonlDocuments(records)`: the documents of the non-blank records, in line order. |
| JsonlLoader.JsonlDocumentsAppend | lawchatbot/create_memory_for_chatbot.py:24-32 | Loading two runs of lines gives the documents of the first, then those of the second. |
| JsonlLoader.JsonlDocumentsTagged | lawchatbot/create_memory_for_chatbot.py:28-32 | Every loaded document has non-empty stripped text and carries source `"JSONL"`. Its metadata is that of one of the records. |
| JsonlLoader.JsonlDocumentsCount | lawchatbot/create_memory_for_chatbot.py:28-32 | There are never more documents than records. There are exactly as many when every record has a query or a response with non-whitespace text; a record such as `{"query": "  "}` is skipped. |
| Ingest.PrepareChunks | lawchatbot/create_memory_for_chatbot.py:49-53 | The chunks of the PDF documents come first, then those of the JSONL documents. The default sizes never raise. |
| Ingest.JsonlChunksTagged | lawchatbot/create_memory_for_chatbot.py:31-53 | Every chunk of a JSONL document has 1 to 500 characters and carries source `"JSONL"`. |
| Ingest.SingleShortRecordOneChunk | lawchatbot/create_memory_for_chatbot.py:49-53 | One record whose page content fits in one step, with no PDF documents, gives exactly one chunk: the record's own document. |

## Left out

- `load_pdf_files`: reading PDFs through the document loaders is outside the model. `PrepareChunks` takes the PDF documents as its input.
- Reading the file and `json.loads`: records arrive already decoded, as a `Record` with optional `query`, `response` and `id`. Decoding errors are not modelled, and neither are lines that are not JSON objects.
- A `query` or `response` that is present but not a string: Python raises `AttributeError` at `.strip()`, and the model has no such value.
- An `id` that is neither a string nor an integer: `Value` has only those two kinds.
- Aliasing: every chunk of a document shares one metadata dictionary object. The model copies the metadata as a value, so later mutation of a shared dictionary is not captured.
- `CreateChunks`: returns `Err(ZeroStep)` where Python raises `ValueError`.
- Embedding, the FAISS index and saving it (lines 56-62): external libraries, outside the model.
- Retrieval, prompts and answers (`lawchatbot/lawchatbot.py`), the chat UI and the HTTP API are not part of this model.
- The `print` diagnostics (lines 18, 33, 45, 54, 60, 62) have no effect on the result and are left out.
