/**
 * The sliding-window chunker of the ingestion job (`create_chunks`): every
 * document with non-empty text is cut into windows of `chunkSize` characters
 * that start at offsets 0, step, 2*step, ... below the text length, where
 * step = chunkSize - chunkOverlap; every window becomes a chunk that carries
 * its document's metadata.
 */
module Chunker {
  import opened Wrappers
  import opened Documents
  import opened PyStr
  import opened Seqs

  /** The defaults of `create_chunks`, which the ingestion job uses. */
  const DefaultChunkSize := 500
  const DefaultChunkOverlap := 50

  /** Python's `range` raises `ValueError` when its step is zero. */
  datatype ChunkError = ZeroStep

  /** A chunk with the given text and metadata. */
  function MakeChunk(text: string, metadata: Metadata): Document {
    Document(Some(text), Some(metadata))
  }

  /** The chunks for the window starts `i, i + step, ...` below `|text|`. */
  function ChunksFrom(text: string, metadata: Metadata, size: int, step: int, i: nat): seq<Document>
    requires step > 0
    decreases |text| - i
  {
    if i >= |text| then []
    else [MakeChunk(Slice(text, i, i + size), metadata)] + ChunksFrom(text, metadata, size, step, i + step)
  }

  /**
   * The chunks of one document for a non-zero step: none for an empty or
   * missing text, none for a negative step (an empty `range`), and otherwise
   * one per window start.
   */
  function DocumentChunks(d: Document, size: int, step: int): seq<Document>
    requires step != 0
  {
    if TextOf(d) == [] || step < 0 then []
    else ChunksFrom(TextOf(d), MetadataOf(d), size, step, 0)
  }

  /** The chunks of every document, in document order, for a non-zero step. */
  function AllChunks(docs: seq<Document>, size: int, step: int): seq<Document>
    requires step != 0
  {
    FlatMap(ChunksOf(size, step), docs)
  }

  /** `DocumentChunks` with the sizes fixed, as a function of the document. */
  function ChunksOf(size: int, step: int): Document -> seq<Document>
    requires step != 0
  {
    d => DocumentChunks(d, size, step)
  }

  /** Some document has non-empty text. */
  predicate HasText(docs: seq<Document>) {
    exists k :: 0 <= k < |docs| && TextOf(docs[k]) != []
  }

  /**
   * What `create_chunks(docs, size, overlap)` returns. A zero step raises as
   * soon as `range` is evaluated, which happens for the first document with
   * non-empty text; when no document has text, nothing is chunked and nothing
   * raises.
   */
  function Chunks(docs: seq<Document>, size: int, overlap: int): Result<seq<Document>, ChunkError> {
    if size == overlap then (if HasText(docs) then Err(ZeroStep) else Ok([]))
    else Ok(AllChunks(docs, size, size - overlap))
  }

  /** The loop of `create_chunks`, proved to compute `Chunks`. */
  method CreateChunks(docs: seq<Document>, chunkSize: int, chunkOverlap: int)
    returns (r: Result<seq<Document>, ChunkError>)
    ensures r == Chunks(docs, chunkSize, chunkOverlap)
  {
    var step := chunkSize - chunkOverlap;
    var chunks: seq<Document> := [];
    var k := 0;
    while k < |docs|
      invariant 0 <= k <= |docs|
      invariant step == 0 ==> chunks == [] && !HasText(docs[..k])
      invariant step != 0 ==> chunks == AllChunks(docs[..k], chunkSize, step)
    {
      var text := TextOf(docs[k]);
      var metadata := MetadataOf(docs[k]);
      ghost var before := chunks;
      if text != [] {
        if step == 0 {
          assert TextOf(docs[k]) != [];
          return Err(ZeroStep);
        }
        if step > 0 {
          var windows := ChunkText(text, metadata, chunkSize, step);
          chunks := chunks + windows;
        }
        // for a negative step, range(0, |text|, step) is empty
      }
      assert docs[..k + 1] == docs[..k] + [docs[k]];
      if step != 0 {
        assert chunks == before + DocumentChunks(docs[k], chunkSize, step);
        AllChunksSnoc(docs[..k], docs[k], chunkSize, step);
      } else {
        ghost var seen := docs[..k + 1];
        assert !HasText(seen) by {
          forall j | 0 <= j < k + 1 ensures TextOf(seen[j]) == [] {
            if j < k { assert seen[j] == docs[..k][j]; }
          }
        }
      }
      k := k + 1;
    }
    assert docs[..|docs|] == docs;
    return Ok(chunks);
  }

  /** The inner loop of `create_chunks`: one chunk per start in `range(0, |text|, step)`. */
  method ChunkText(text: string, metadata: Metadata, size: int, step: int) returns (windows: seq<Document>)
    requires step > 0
    ensures windows == ChunksFrom(text, metadata, size, step, 0)
  {
    windows := [];
    var i := 0;
    while i < |text|
      invariant windows + ChunksFrom(text, metadata, size, step, i) == ChunksFrom(text, metadata, size, step, 0)
    {
      windows := windows + [MakeChunk(Slice(text, i, i + size), metadata)];
      i := i + step;
    }
  }

  lemma MulStrictMono(a: int, b: int, step: int)
    requires step > 0
    ensures a < b ==> a * step + step <= b * step
  {
    if a < b {
      var c := b - a - 1;
      assert c * step >= 0;
      assert b * step == a * step + c * step + step;
    }
  }

  /** The `q` with `q * step <= x < (q + 1) * step` is `x / step`. */
  lemma DivUnique(x: int, step: int, q: int)
    requires step > 0 && q * step <= x < q * step + step
    ensures x / step == q
  {
    var d := x / step;
    assert d * step <= x < d * step + step;
    MulStrictMono(d, q, step);
    MulStrictMono(q, d, step);
  }

  lemma DivBounds(x: int, step: int)
    requires step > 0
    ensures (x / step) * step <= x < (x / step) * step + step
  {
  }

  lemma ShiftOffset(i: int, j: int, step: int)
    ensures (i + step) + (j - 1) * step == i + j * step
  {
  }

  lemma {:induction false} ChunksFromCount(text: string, metadata: Metadata, size: int, step: int, i: nat)
    requires step > 0
    ensures |ChunksFrom(text, metadata, size, step, i)|
      == if i >= |text| then 0 else (|text| - i + step - 1) / step
    decreases |text| - i
  {
    if i < |text| {
      ChunksFromCount(text, metadata, size, step, i + step);
      var n := |ChunksFrom(text, metadata, size, step, i + step)|;
      if i + step < |text| {
        DivBounds(|text| - i - 1, step);
      }
      assert n * step <= |text| - i - 1 < n * step + step;
      ShiftOffset(0, n + 1, step);
      DivUnique(|text| - i + step - 1, step, n + 1);
    }
  }

  /** The `j`-th window start counting from `i`: `i + j * step`, reached by `j` steps. */
  function Offset(i: int, j: nat, step: int): int
    decreases j
  {
    if j == 0 then i else Offset(i + step, j - 1, step)
  }

  lemma {:induction false} OffsetIsLinear(i: int, j: nat, step: int)
    ensures Offset(i, j, step) == i + j * step
    decreases j
  {
    if j > 0 {
      OffsetIsLinear(i + step, j - 1, step);
      ShiftOffset(i, j, step);
    }
  }

  lemma {:induction false} ChunksFromAt(text: string, metadata: Metadata, size: int, step: int, i: nat, j: nat)
    requires step > 0 && j < |ChunksFrom(text, metadata, size, step, i)|
    ensures 0 <= Offset(i, j, step) < |text|
    ensures ChunksFrom(text, metadata, size, step, i)[j]
      == MakeChunk(Slice(text, Offset(i, j, step), Offset(i, j, step) + size), metadata)
    decreases j
  {
    if j > 0 {
      ChunksFromAt(text, metadata, size, step, i + step, j - 1);
    }
  }

  // ---------------------------------------------------------------------
  // One document
  // ---------------------------------------------------------------------

  /**
   * A document with text of length L > 0 gives ceil(L / step) chunks: the
   * smallest n with n * step >= L. An empty or missing text gives none.
   */
  lemma ChunkCount(d: Document, size: int, overlap: int)
    requires overlap < size
    ensures var n := |DocumentChunks(d, size, size - overlap)|;
      var len := |TextOf(d)|;
      var step := size - overlap;
      n == (if len == 0 then 0 else (len + step - 1) / step)
      && (n == 0 <==> len == 0)
      && (len > 0 ==> (n - 1) * step < len <= n * step)
  {
    var step := size - overlap;
    var text := TextOf(d);
    if text != [] {
      ChunksFromCount(text, MetadataOf(d), size, step, 0);
      var n := |DocumentChunks(d, size, step)|;
      DivBounds(|text| + step - 1, step);
      ShiftOffset(0, n, step);
    }
  }

  /**
   * Chunk `j` of a document is `text[j * step .. min(j * step + size, L)]`
   * with the document's own metadata: its start lies inside the text, so it
   * is non-empty, and it is at most `size` long.
   */
  lemma ChunkAt(d: Document, size: int, overlap: int, j: nat)
    requires 0 < size && overlap < size
    requires j < |DocumentChunks(d, size, size - overlap)|
    ensures 0 <= j * (size - overlap) < |TextOf(d)|
    ensures var text := TextOf(d);
      var start := j * (size - overlap);
      var end := if start + size < |text| then start + size else |text|;
      end - start <= size
      && DocumentChunks(d, size, size - overlap)[j] == MakeChunk(text[start..end], MetadataOf(d))
  {
    ChunkAtOffset(d, size, overlap, j);
    OffsetIsLinear(0, j, size - overlap);
  }

  /** `ChunkAt`, with the start of chunk `j` counted out step by step. */
  lemma ChunkAtOffset(d: Document, size: int, overlap: int, j: nat)
    requires 0 < size && overlap < size
    requires j < |DocumentChunks(d, size, size - overlap)|
    ensures 0 <= Offset(0, j, size - overlap) < |TextOf(d)|
    ensures var text := TextOf(d);
      var start := Offset(0, j, size - overlap);
      var end := if start + size < |text| then start + size else |text|;
      end - start <= size
      && DocumentChunks(d, size, size - overlap)[j] == MakeChunk(text[start..end], MetadataOf(d))
  {
    var step := size - overlap;
    var text := TextOf(d);
    assert DocumentChunks(d, size, step) == ChunksFrom(text, MetadataOf(d), size, step, 0);
    ChunksFromAt(text, MetadataOf(d), size, step, 0, j);
    var start := Offset(0, j, step);
    var end := if start + size < |text| then start + size else |text|;
    SliceInRange(text, start, start + size);
  }

  /** A text no longer than the step fits in a single chunk, which is the whole text. */
  lemma ShortTextOneChunk(d: Document, size: int, overlap: int)
    requires 0 <= overlap < size
    requires 0 < |TextOf(d)| <= size - overlap
    ensures DocumentChunks(d, size, size - overlap) == [MakeChunk(TextOf(d), MetadataOf(d))]
  {
    var step := size - overlap;
    ChunkCount(d, size, overlap);
    DivUnique(|TextOf(d)| + step - 1, step, 1);
    ChunkAt(d, size, overlap, 0);
    assert TextOf(d)[0..|TextOf(d)|] == TextOf(d);
  }

  /**
   * A text longer than one step, no longer than one window and at most two
   * steps long (always the case when `overlap <= size / 2`, as with the
   * defaults) gives two chunks: the whole text, then its part from the step
   * on, which the first chunk already contains. With the default sizes this
   * covers every text of 451 to 500 characters.
   */
  lemma WithinWindowGivesTwoChunks(d: Document, size: int, overlap: int)
    requires 0 <= overlap < size
    requires size - overlap < |TextOf(d)| <= size && |TextOf(d)| <= 2 * (size - overlap)
    ensures var cs := DocumentChunks(d, size, size - overlap);
      |cs| == 2 && TextOf(cs[0]) == TextOf(d) && TextOf(cs[1]) == TextOf(d)[size - overlap..]
  {
    var step := size - overlap;
    var text := TextOf(d);
    ChunkCount(d, size, overlap);
    DivUnique(|text| + step - 1, step, 2);
    ChunkAt(d, size, overlap, 0);
    ChunkAt(d, size, overlap, 1);
    assert text[0..|text|] == text;
  }

  /**
   * Python's `"".join(c[:step] for c in chunks[:-1]) + chunks[-1]`: the
   * first `step` characters of every chunk but the last, then the last one.
   */
  function Reassemble(chunks: seq<Document>, step: nat): string {
    if |chunks| == 0 then []
    else if |chunks| == 1 then TextOf(chunks[0])
    else Prefix(TextOf(chunks[0]), step) + Reassemble(chunks[1..], step)
  }

  lemma ReassembleCons(first: Document, rest: seq<Document>, step: nat)
    requires rest != []
    ensures Reassemble([first] + rest, step) == Prefix(TextOf(first), step) + Reassemble(rest, step)
  {
    assert ([first] + rest)[1..] == rest;
  }

  /** A window followed by the text after it is the text from the window's start on. */
  lemma WindowThenRest(text: string, i: nat, step: nat, size: int)
    requires i + step < |text| && step <= size
    ensures Prefix(Slice(text, i, i + size), step) + text[i + step..] == text[i..]
  {
    var w := Slice(text, i, i + size);
    SliceInRange(text, i, i + size);
    assert w[..step] == text[i..i + step];
    assert text[i..] == text[i..i + step] + text[i + step..];
  }

  lemma {:induction false} ReassembleFrom(text: string, metadata: Metadata, size: int, step: int, i: nat)
    requires 0 < step <= size && i <= |text|
    ensures Reassemble(ChunksFrom(text, metadata, size, step, i), step) == text[i..]
    decreases |text| - i
  {
    if i < |text| {
      var first := MakeChunk(Slice(text, i, i + size), metadata);
      var rest := ChunksFrom(text, metadata, size, step, i + step);
      if i + step < |text| {
        calc {
          Reassemble(ChunksFrom(text, metadata, size, step, i), step);
          { assert ChunksFrom(text, metadata, size, step, i) == [first] + rest;
            assert rest != [];
            ReassembleCons(first, rest, step); }
          Prefix(TextOf(first), step) + Reassemble(rest, step);
          { ReassembleFrom(text, metadata, size, step, i + step); }
          Prefix(Slice(text, i, i + size), step) + text[i + step..];
          { WindowThenRest(text, i, step, size); }
          text[i..];
        }
      } else {
        assert ChunksFrom(text, metadata, size, step, i) == [first];
        SliceInRange(text, i, i + size);
      }
    }
  }

  /**
   * Keeping the first `step` characters of every chunk but the last, and the
   * whole last chunk, gives back the document's text.
   */
  lemma Reconstruct(d: Document, size: int, overlap: int)
    requires 0 <= overlap < size
    ensures Reassemble(DocumentChunks(d, size, size - overlap), size - overlap) == TextOf(d)
  {
    ReassembleFrom(TextOf(d), MetadataOf(d), size, size - overlap, 0);
    assert TextOf(d)[0..] == TextOf(d);
  }

  /**
   * Consecutive chunks agree where they overlap: what follows the first
   * `step` characters of chunk `j` begins chunk `j + 1`, and it is exactly
   * `overlap` characters long when chunk `j` is full.
   */
  lemma ConsecutiveChunksOverlap(d: Document, size: int, overlap: int, j: nat)
    requires 0 <= overlap < size
    requires j + 1 < |DocumentChunks(d, size, size - overlap)|
    ensures var cs := DocumentChunks(d, size, size - overlap);
      var a := TextOf(cs[j]);
      size - overlap <= |a| && a[size - overlap..] <= TextOf(cs[j + 1])
      && (|a| == size ==> |a[size - overlap..]| == overlap)
  {
    var step := size - overlap;
    var text := TextOf(d);
    var cs := DocumentChunks(d, size, step);
    var s0 := j * step;
    ChunkAt(d, size, overlap, j);
    ChunkAt(d, size, overlap, j + 1);
    ShiftOffset(0, j + 1, step);
    assert (j + 1) * step == s0 + step;
    var e0 := if s0 + size < |text| then s0 + size else |text|;
    var e1 := if s0 + step + size < |text| then s0 + step + size else |text|;
    assert TextOf(cs[j]) == text[s0..e0];
    assert TextOf(cs[j + 1]) == text[s0 + step..e1];
    WindowsOverlap(text, s0, step, size);
  }

  /** The part of the window at `start` beyond its first `step` characters begins the window at `start + step`. */
  lemma WindowsOverlap(text: string, start: nat, step: nat, size: int)
    requires step <= size && start + step < |text|
    ensures var e0 := if start + size < |text| then start + size else |text|;
      var e1 := if start + step + size < |text| then start + step + size else |text|;
      step <= e0 - start && text[start..e0][step..] <= text[start + step..e1]
  {
    var e0 := if start + size < |text| then start + size else |text|;
    var e1 := if start + step + size < |text| then start + step + size else |text|;
    assert text[start..e0][step..] == text[start + step..e0];
  }

  // ---------------------------------------------------------------------
  // Many documents
  // ---------------------------------------------------------------------

  /** A single document gives exactly its own chunks. */
  lemma AllChunksOfOne(d: Document, size: int, step: int)
    requires step != 0
    ensures AllChunks([d], size, step) == DocumentChunks(d, size, step)
  {
    assert [] + [d] == [d];
    AllChunksSnoc([], d, size, step);
  }

  /**
   * Chunking keeps document order: the chunks of `a + b` are the chunks of
   * `a` followed by the chunks of `b`.
   */
  lemma AllChunksAppend(a: seq<Document>, b: seq<Document>, size: int, step: int)
    requires step != 0
    ensures AllChunks(a + b, size, step) == AllChunks(a, size, step) + AllChunks(b, size, step)
  {
    FlatMapAppend(ChunksOf(size, step), a, b);
  }

  /** Appending one document appends its chunks. */
  lemma AllChunksSnoc(a: seq<Document>, x: Document, size: int, step: int)
    requires step != 0
    ensures AllChunks(a + [x], size, step) == AllChunks(a, size, step) + DocumentChunks(x, size, step)
  {
    FlatMapSnoc(ChunksOf(size, step), a, x);
  }

  /** A document with empty or missing text contributes no chunks wherever it stands. */
  lemma EmptyDocumentsContributeNothing(a: seq<Document>, d: Document, b: seq<Document>, size: int, step: int)
    requires step != 0 && TextOf(d) == []
    ensures AllChunks(a + [d] + b, size, step) == AllChunks(a + b, size, step)
  {
    AllChunksAppend(a + [d], b, size, step);
    AllChunksAppend(a, [d], size, step);
    AllChunksAppend(a, b, size, step);
    AllChunksOfOne(d, size, step);
  }

  /** `chunkOverlap > chunkSize` makes every `range` empty: no chunks at all, and no error. */
  lemma {:induction false} NegativeStepNoChunks(docs: seq<Document>, size: int, overlap: int)
    requires overlap > size
    ensures Chunks(docs, size, overlap) == Ok([])
  {
    AllChunksNegativeStep(docs, size, size - overlap);
  }

  lemma {:induction false} AllChunksNegativeStep(docs: seq<Document>, size: int, step: int)
    requires step < 0
    ensures AllChunks(docs, size, step) == []
    decreases |docs|
  {
    if docs != [] {
      AllChunksNegativeStep(docs[..|docs| - 1], size, step);
    }
  }

  lemma ChunksFromMetadata(text: string, metadata: Metadata, size: int, step: int, c: Document)
    requires step > 0 && c in ChunksFrom(text, metadata, size, step, 0)
    ensures c.metadata == Some(metadata)
  {
    var j :| 0 <= j < |ChunksFrom(text, metadata, size, step, 0)| && ChunksFrom(text, metadata, size, step, 0)[j] == c;
    ChunksFromAt(text, metadata, size, step, 0, j);
  }

  /** Every chunk carries the metadata of one of the input documents, unchanged. */
  lemma {:induction false} ChunksInheritMetadata(docs: seq<Document>, size: int, step: int)
    requires step != 0
    ensures forall c :: c in AllChunks(docs, size, step) ==>
      exists k :: 0 <= k < |docs| && c.metadata == Some(MetadataOf(docs[k]))
    decreases |docs|
  {
    if docs != [] {
      var n := |docs| - 1;
      var init := docs[..n];
      ChunksInheritMetadata(init, size, step);
      forall c | c in AllChunks(docs, size, step)
        ensures exists k :: 0 <= k < |docs| && c.metadata == Some(MetadataOf(docs[k]))
      {
        if c in AllChunks(init, size, step) {
          var k :| 0 <= k < |init| && c.metadata == Some(MetadataOf(init[k]));
          assert docs[k] == init[k];
        } else {
          var d := docs[n];
          assert c in DocumentChunks(d, size, step);
          ChunksFromMetadata(TextOf(d), MetadataOf(d), size, step, c);
        }
      }
    }
  }


  lemma DocumentChunkBounded(d: Document, size: int, overlap: int, c: Document)
    requires 0 < size && overlap < size && c in DocumentChunks(d, size, size - overlap)
    ensures 0 < |TextOf(c)| <= size
  {
    var cs := DocumentChunks(d, size, size - overlap);
    var j :| 0 <= j < |cs| && cs[j] == c;
    ChunkAt(d, size, overlap, j);
  }

  /** With a positive size, every chunk of every document is non-empty and at most `size` long. */
  lemma {:induction false} ChunksNonEmptyBounded(docs: seq<Document>, size: int, overlap: int)
    requires 0 < size && overlap < size
    ensures forall c :: c in AllChunks(docs, size, size - overlap) ==> 0 < |TextOf(c)| <= size
    decreases |docs|
  {
    if docs != [] {
      var n := |docs| - 1;
      ChunksNonEmptyBounded(docs[..n], size, overlap);
      forall c | c in AllChunks(docs, size, size - overlap)
        ensures 0 < |TextOf(c)| <= size
      {
        if c !in AllChunks(docs[..n], size, size - overlap) {
          DocumentChunkBounded(docs[n], size, overlap, c);
        }
      }
    }
  }
}
