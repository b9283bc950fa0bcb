/**
 * The chunk and metadata lists of `build_index` in solution_micaela/build_index.py:
 * every document is chunked with `max_len = 800` (and the default overlap of 100),
 * and each chunk is paired with its document's name and its position among that
 * document's chunks. When no chunk at all is produced the build stops before any
 * embedding is computed.
 */
module IndexBuild {
  import opened Text
  import opened Chunking

  /** A knowledge-base file: its base name and its (already stripped) text. */
  datatype Document = Document(source: string, text: string)

  /** `{'source': ..., 'chunk': i}` */
  datatype ChunkMeta = ChunkMeta(source: string, chunk: nat)

  /** The build either aborts or hands the parallel lists to the embedding step. */
  datatype BuildOutcome = Aborted | Embed(texts: seq<string>, metadata: seq<ChunkMeta>)

  const IndexMaxLen: int := 800
  const IndexOverlap: int := 100

  function DocChunks(d: Document): seq<string>
  {
    Chunk(d.text, IndexMaxLen, IndexOverlap)
  }

  /** `{'source': source, 'chunk': i}` for `i` in `0 .. n-1`. */
  function Numbered(source: string, n: nat): (ms: seq<ChunkMeta>)
    ensures |ms| == n
    ensures forall i :: 0 <= i < n ==> ms[i] == ChunkMeta(source, i)
  {
    seq(n, i requires 0 <= i < n => ChunkMeta(source, i))
  }

  /** The chunk list of every document, in document order. */
  function ChunkLists(docs: seq<Document>): (css: seq<seq<string>>)
    ensures |css| == |docs|
    ensures forall k :: 0 <= k < |docs| ==> css[k] == DocChunks(docs[k])
  {
    seq(|docs|, k requires 0 <= k < |docs| => DocChunks(docs[k]))
  }

  /** `all_texts`: the chunk lists concatenated in order. */
  function Flatten(css: seq<seq<string>>): seq<string>
    decreases |css|
  {
    if css == [] then [] else Flatten(css[..|css| - 1]) + css[|css| - 1]
  }

  /** `metadata`: for document `k`, its name with the numbers `0 .. |css[k]| - 1`. */
  function MetaOf(docs: seq<Document>, css: seq<seq<string>>): seq<ChunkMeta>
    requires |docs| == |css|
    decreases |css|
  {
    if css == [] then []
    else
      var n := |css| - 1;
      MetaOf(docs[..n], css[..n]) + Numbered(docs[n].source, |css[n]|)
  }

  /** What `build_index` does after loading the documents. */
  function Build(docs: seq<Document>): BuildOutcome
  {
    var css := ChunkLists(docs);
    var texts := Flatten(css);
    if texts == [] then Aborted else Embed(texts, MetaOf(docs, css))
  }

  /** The inner loop `for i, c in enumerate(chunks)`: append each chunk and its metadata. */
  method AppendChunks(texts: seq<string>, metas: seq<ChunkMeta>, source: string, chunks: seq<string>)
    returns (texts': seq<string>, metas': seq<ChunkMeta>)
    ensures texts' == texts + chunks
    ensures metas' == metas + Numbered(source, |chunks|)
  {
    texts', metas' := texts, metas;
    for i := 0 to |chunks|
      invariant texts' == texts + chunks[..i]
      invariant metas' == metas + Numbered(source, i)
    {
      assert chunks[..i + 1] == chunks[..i] + [chunks[i]];
      assert Numbered(source, i + 1) == Numbered(source, i) + [ChunkMeta(source, i)];
      texts' := texts' + [chunks[i]];
      metas' := metas' + [ChunkMeta(source, i)];
    }
    assert chunks[..|chunks|] == chunks;
  }

  lemma FlattenSnoc(docs: seq<Document>, css: seq<seq<string>>, k: nat)
    requires |docs| == |css| && k < |css|
    ensures Flatten(css[..k + 1]) == Flatten(css[..k]) + css[k]
    ensures MetaOf(docs[..k + 1], css[..k + 1]) == MetaOf(docs[..k], css[..k]) + Numbered(docs[k].source, |css[k]|)
  {
    assert css[..k + 1][..k] == css[..k] && docs[..k + 1][..k] == docs[..k];
  }

  /** The loop over the documents of `build_index`, then the abort test. */
  method BuildIndex(docs: seq<Document>) returns (out: BuildOutcome)
    ensures out == Build(docs)
  {
    ghost var css := ChunkLists(docs);
    var allTexts: seq<string> := [];
    var metadata: seq<ChunkMeta> := [];
    for k := 0 to |docs|
      invariant allTexts == Flatten(css[..k])
      invariant metadata == MetaOf(docs[..k], css[..k])
    {
      var d := docs[k];
      var chunks := ChunkText(d.text, IndexMaxLen, IndexOverlap);
      FlattenSnoc(docs, css, k);
      allTexts, metadata := AppendChunks(allTexts, metadata, d.source, chunks);
    }
    assert css[..|docs|] == css && docs[..|docs|] == docs;
    if allTexts == [] {
      return Aborted;
    }
    return Embed(allTexts, metadata);
  }

  // ---------------------------------------------------------------------------
  // Properties

  /** The number of chunks of the first `k` documents: where document `k`'s chunks begin. */
  function Offset(css: seq<seq<string>>, k: nat): nat
    requires k <= |css|
  {
    |Flatten(css[..k])|
  }

  lemma {:induction false} MetaLength(docs: seq<Document>, css: seq<seq<string>>)
    requires |docs| == |css|
    ensures |MetaOf(docs, css)| == |Flatten(css)|
    decreases |css|
  {
    if css != [] {
      MetaLength(docs[..|css| - 1], css[..|css| - 1]);
    }
  }

  /** The lists for the first `k` documents are prefixes of the full lists. */
  lemma {:induction false} FlattenPrefix(docs: seq<Document>, css: seq<seq<string>>, k: nat)
    requires |docs| == |css| && k <= |css|
    ensures Flatten(css[..k]) <= Flatten(css)
    ensures MetaOf(docs[..k], css[..k]) <= MetaOf(docs, css)
    decreases |css| - k
  {
    if k < |css| {
      FlattenPrefix(docs, css, k + 1);
      assert css[..k + 1][..k] == css[..k] && docs[..k + 1][..k] == docs[..k];
    } else {
      assert css[..k] == css && docs[..k] == docs;
    }
  }

  lemma FlattenAt(docs: seq<Document>, css: seq<seq<string>>, k: nat, i: nat)
    requires |docs| == |css| && k < |css| && i < |css[k]|
    ensures Offset(css, k) + i < |Flatten(css)| == |MetaOf(docs, css)|
    ensures Flatten(css)[Offset(css, k) + i] == css[k][i]
    ensures MetaOf(docs, css)[Offset(css, k) + i] == ChunkMeta(docs[k].source, i)
  {
    var cpre, cupto := css[..k], css[..k + 1];
    var dpre, dupto := docs[..k], docs[..k + 1];
    assert cupto[..k] == cpre && cupto[k] == css[k];
    assert dupto[..k] == dpre && dupto[k] == docs[k];
    FlattenPrefix(docs, css, k + 1);
    MetaLength(docs, css);
    MetaLength(dpre, cpre);
    assert Flatten(cupto) == Flatten(cpre) + css[k];
    assert MetaOf(dupto, cupto) == MetaOf(dpre, cpre) + Numbered(docs[k].source, |css[k]|);
  }

  /** Document `k`'s chunks sit at positions `Offset(.., k) ..` of `all_texts`, in
      emission order, and the metadata at the same positions names that document
      and numbers its chunks 0, 1, ..., n-1. */
  lemma Provenance(docs: seq<Document>, k: nat, i: nat)
    requires k < |docs| && i < |DocChunks(docs[k])|
    ensures var b := Build(docs);
      && b.Embed?
      && Offset(ChunkLists(docs), k) + i < |b.texts| == |b.metadata|
      && b.texts[Offset(ChunkLists(docs), k) + i] == DocChunks(docs[k])[i]
      && b.metadata[Offset(ChunkLists(docs), k) + i] == ChunkMeta(docs[k].source, i)
  {
    FlattenAt(docs, ChunkLists(docs), k, i);
  }

  lemma {:induction false} FlattenBounded(css: seq<seq<string>>, maxLen: int)
    requires forall k, i :: 0 <= k < |css| && 0 <= i < |css[k]| ==> 0 < |css[k][i]| <= maxLen
    ensures forall j :: 0 <= j < |Flatten(css)| ==> 0 < |Flatten(css)[j]| <= maxLen
    decreases |css|
  {
    if css != [] {
      var n := |css| - 1;
      assert forall k :: 0 <= k < n ==> css[..n][k] == css[k];
      FlattenBounded(css[..n], maxLen);
      var pre := Flatten(css[..n]);
      forall j | 0 <= j < |Flatten(css)| ensures 0 < |Flatten(css)[j]| <= maxLen {
        if j >= |pre| {
          assert Flatten(css)[j] == css[n][j - |pre|];
        } else {
          assert Flatten(css)[j] == pre[j];
        }
      }
    }
  }

  /** `all_texts` and `metadata` have equal length, and every text is a non-empty
      chunk of at most 800 characters. */
  lemma CorpusBounds(docs: seq<Document>)
    ensures var b := Build(docs);
      b.Embed? ==>
        && |b.texts| == |b.metadata|
        && forall j :: 0 <= j < |b.texts| ==> 0 < |b.texts[j]| <= IndexMaxLen
  {
    var css := ChunkLists(docs);
    MetaLength(docs, css);
    forall k | 0 <= k < |css| ensures forall i :: 0 <= i < |css[k]| ==> 0 < |css[k][i]| <= IndexMaxLen {
      ChunkBounds(docs[k].text, IndexMaxLen, IndexOverlap);
    }
    FlattenBounded(css, IndexMaxLen);
  }

  lemma {:induction false} FlattenEmptyIff(css: seq<seq<string>>)
    ensures Flatten(css) == [] <==> forall k :: 0 <= k < |css| ==> css[k] == []
    decreases |css|
  {
    if css != [] {
      var n := |css| - 1;
      FlattenEmptyIff(css[..n]);
      assert forall k :: 0 <= k < n ==> css[..n][k] == css[k];
    }
  }

  /** The build aborts exactly when every document is empty or all whitespace. */
  lemma AbortedIff(docs: seq<Document>)
    ensures Build(docs) == Aborted <==> forall k :: 0 <= k < |docs| ==> AllSpace(docs[k].text)
  {
    var css := ChunkLists(docs);
    FlattenEmptyIff(css);
    forall k | 0 <= k < |docs|
      ensures css[k] == [] <==> AllSpace(docs[k].text)
    {
      ChunkEmptyIff(docs[k].text, IndexMaxLen, IndexOverlap);
    }
  }
}
