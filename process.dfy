/** Document processing: the chunks the splitter produces are sanitised in
    place, the index and the chain are built over them, and at question time
    the retrieved chunks are joined into the prompt's context. Loading the
    PDF, splitting it, embedding, indexing and the language model are outside
    the model: their results arrive as parameters. */
module Process {
  import opened Strings
  import opened Sanitizer

  /** An opaque reference to a loaded model (the embedder or the LLM). */
  datatype Handle = Handle(id: nat)

  /** What the splitter records about a chunk besides its text. */
  datatype Metadata = Metadata(startIndex: nat, page: nat)

  /** A chunk as the splitter returns it; `pageContent` is reassigned in place. */
  class Document {
    var pageContent: Text
    var metadata: Metadata

    constructor (content: Text, metadata: Metadata)
      ensures pageContent == content && this.metadata == metadata
    {
      pageContent := content;
      this.metadata := metadata;
    }
  }

  /** The question-answering chain built for one document: the texts stored
      in its vector index, the embedder that index uses and the LLM that
      answers. */
  datatype RagChain = RagChain(index: seq<Text>, embeddings: Handle, llm: Handle)

  /** The separator between retrieved chunks, "\n\n". */
  const Separator: Text := [0x0A, 0x0A]

  /** The context handed to the prompt: the texts of the retrieved chunks,
      in retrieval order, joined with a blank line between neighbours. */
  function FormatDocs(retrieved: seq<Text>): (context: Text)
    ensures retrieved == [] ==> context == []
    ensures |retrieved| == 1 ==> context == retrieved[0]
  {
    Join(retrieved, Separator)
  }

  /** Where the `k`-th chunk starts in the formatted context: after the
      chunks before it and one separator each. */
  function Offset(texts: seq<Text>, k: nat): nat
    requires k <= |texts|
  {
    TotalLength(texts[..k]) + 2 * k
  }

  /** The context is as long as all chunks plus one separator between each
      neighbouring pair. */
  lemma {:induction false} FormatDocsLength(retrieved: seq<Text>)
    requires retrieved != []
    ensures |FormatDocs(retrieved)| == TotalLength(retrieved) + 2 * (|retrieved| - 1)
    decreases |retrieved|
  {
    if |retrieved| > 1 {
      FormatDocsLength(retrieved[1..]);
    }
  }

  /** The `k`-th retrieved chunk appears verbatim at `Offset(retrieved, k)`,
      followed by the separator unless it is the last: the chunks appear in
      retrieval order and nothing else is inserted. */
  lemma {:induction false} FormatDocsAt(retrieved: seq<Text>, k: nat)
    requires k < |retrieved|
    ensures Offset(retrieved, k) + |retrieved[k]| <= |FormatDocs(retrieved)|
    ensures FormatDocs(retrieved)[Offset(retrieved, k)..Offset(retrieved, k) + |retrieved[k]|] == retrieved[k]
    ensures k + 1 < |retrieved| ==>
              Offset(retrieved, k) + |retrieved[k]| + 2 <= |FormatDocs(retrieved)| &&
              FormatDocs(retrieved)[Offset(retrieved, k) + |retrieved[k]|..Offset(retrieved, k) + |retrieved[k]| + 2] == Separator
    decreases k
  {
    var head := retrieved[0];
    if |retrieved| == 1 {
      assert retrieved[..0] == [];
    } else {
      var rest := retrieved[1..];
      assert FormatDocs(retrieved) == head + Separator + FormatDocs(rest);
      if k == 0 {
        assert retrieved[..0] == [];
      } else {
        FormatDocsAt(rest, k - 1);
        assert retrieved[..k][1..] == rest[..k - 1];
        assert Offset(retrieved, k) == |head| + 2 + Offset(rest, k - 1);
        assert rest[k - 1] == retrieved[k];
      }
    }
  }

  /** Appending one more retrieved chunk appends a separator and its text. */
  lemma {:induction false} FormatDocsAppend(retrieved: seq<Text>, d: Text)
    requires retrieved != []
    ensures FormatDocs(retrieved + [d]) == FormatDocs(retrieved) + Separator + d
    decreases |retrieved|
  {
    var all := retrieved + [d];
    assert all[0] == retrieved[0];
    assert FormatDocs(all) == retrieved[0] + Separator + FormatDocs(all[1..]);
    if |retrieved| == 1 {
      assert all[1..] == [d];
    } else {
      assert all[1..] == retrieved[1..] + [d];
      FormatDocsAppend(retrieved[1..], d);
    }
  }

  /** The chunk objects held in `docs`. */
  ghost function Chunks(docs: array<Document>): set<Document>
    reads docs
  {
    set i | 0 <= i < docs.Length :: docs[i]
  }

  /** The loop that sanitises each chunk's text in place. Every chunk's text
      is sanitised and nothing else changes: the array keeps its length and
      order and the metadata stays. The same object may sit at several
      positions, so a chunk not yet visited may already be sanitised; since
      sanitising is idempotent, it sanitises to the same text either way. */
  method SanitizeInPlace(docs: array<Document>)
    modifies Chunks(docs)
    ensures forall i :: 0 <= i < docs.Length ==>
              docs[i].pageContent == RemoveInvalidSurrogates(old(docs[i].pageContent))
    ensures forall i :: 0 <= i < docs.Length ==> docs[i].metadata == old(docs[i].metadata)
  {
    var i := 0;
    while i < docs.Length
      invariant 0 <= i <= docs.Length
      invariant forall k :: 0 <= k < i ==>
                  docs[k].pageContent == RemoveInvalidSurrogates(old(docs[k].pageContent))
      invariant forall k :: i <= k < docs.Length ==>
                  RemoveInvalidSurrogates(docs[k].pageContent) == RemoveInvalidSurrogates(old(docs[k].pageContent))
      invariant forall k :: 0 <= k < docs.Length ==> docs[k].metadata == old(docs[k].metadata)
    {
      var doc := docs[i];
      SanitiseIdempotent(old(doc.pageContent));
      doc.pageContent := RemoveInvalidSurrogates(doc.pageContent);
      i := i + 1;
    }
  }

  /** `process_pdf` from the chunks onwards: sanitise every chunk, build the
      chain over them with the session's embedder and LLM, and report how
      many chunks were indexed. `docs` is what the loader and the splitter
      produced. */
  method ProcessPdf(docs: array<Document>, embeddings: Handle, llm: Handle)
    returns (chain: RagChain, numChunks: nat)
    modifies Chunks(docs)
    ensures numChunks == docs.Length == |chain.index|
    ensures forall i :: 0 <= i < docs.Length ==>
              docs[i].pageContent == RemoveInvalidSurrogates(old(docs[i].pageContent)) &&
              chain.index[i] == docs[i].pageContent
    ensures forall i :: 0 <= i < docs.Length ==> docs[i].metadata == old(docs[i].metadata)
    ensures chain.embeddings == embeddings && chain.llm == llm
  {
    SanitizeInPlace(docs);
    var index: seq<Text> := [];
    var i := 0;
    while i < docs.Length
      invariant 0 <= i <= docs.Length && |index| == i
      invariant forall k :: 0 <= k < i ==> index[k] == docs[k].pageContent
    {
      index := index + [docs[i].pageContent];
      i := i + 1;
    }
    chain := RagChain(index, embeddings, llm);
    numChunks := docs.Length;
  }
}
