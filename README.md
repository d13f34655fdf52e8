# RAG PDF assistant: the bespoke logic, modelled and verified in Dafny

The assistant lets a user upload a PDF, indexes its chunks and answers
questions about it through a retrieval-augmented generation chain. Almost all
of the work (PDF loading, semantic chunking, embeddings, the vector index, the
prompt template, the language model, the user interface) is done by external
libraries. This project models the logic the application itself contributes:

- **Surrogate sanitiser** (`Sanitizer`): every chunk's text has each code
  point of the surrogate range U+D800..U+DFFF deleted (section 3.8 of the
  Unicode Standard reserves that range for UTF-16 encoding). Text is a
  sequence of integer code points in 0..0x10FFFF, because a Python string can
  hold lone surrogates and a Dafny `char` cannot.
- **Document processing** (`Process`): the loop that sanitises every chunk
  object in place (an `array` of `Document` objects whose `pageContent` field
  is reassigned), the chain built over the sanitised chunks, the chunk count
  returned, and the formatter that joins retrieved chunks with a blank line.
- **Answer extraction** (`Answer`): the expression that turns the chain's raw
  output into the answer. It tests for `"Answer:"` but splits on `"Answer: "`
  and takes the second piece, stripped. The model pins down what that really
  does: the answer is the text between the first and the second `"Answer: "`
  (or the end), and an output with `"Answer:"` but no `"Answer: "` fails with
  an index error.
- **Session** (`Session`): a class over the four session keys (`rag_chain`,
  `models_loaded`, `embeddings`, `llm`), each either absent or present, and
  one run of the application script: missing keys are initialised, models are
  loaded once and the run restarts, processing a PDF replaces the chain, and a
  question is answered only when a chain exists.
- **Python string operations** (`Strings`): `in`, `find`, `split`, `join` and
  `strip` over code-point sequences, with `strip` removing exactly the
  characters for which `str.isspace()` holds.

Two consequences of the code are worth stating on their own:

- Extraction does not return everything after the marker: it returns the
  text up to the next `"Answer: "`, stripped, and fails with an index error
  when `"Answer:"` is never followed by a space
  (`Answer.ExtractStopsAtSecondMarker`, `Answer.ExtractWithoutSpaceFails`).
- An exception inside processing never reaches the assignment at app.py:38,
  so a chain built from an earlier PDF stays. Exceptions are not modelled
  (see below).

## Model

| member | source | states |
|---|---|---|
| `Sanitizer.RemoveInvalidSurrogates` | process.py:11-12 | no surrogate code point is left, and the result is shorter than the input by exactly the number of surrogates in it |
| `Sanitizer.CleanTextUnchanged` | process.py:12 | text without surrogates comes back unchanged |
| `Sanitizer.SanitiseKeepsOthers` | process.py:12 | every non-surrogate code point occurs in the result exactly as often as in the input |
| `Sanitizer.SanitiseConcat` | process.py:12 | sanitising a concatenation is concatenating the sanitised parts, so the kept code points stay in their order |
| `Sanitizer.SanitiseSingle` | process.py:12 | a single code point survives exactly when it is not a surrogate |
| `Sanitizer.SanitiseIdempotent` | process.py:12 | sanitising twice gives the same text as sanitising once |
| `Process.FormatDocs` | process.py:43-44 | no retrieved chunk gives the empty context; one chunk gives its text unchanged |
| `Process.FormatDocsLength` | process.py:44 | for a non-empty retrieval the context length is the sum of the chunk lengths plus 2 for each of the `n-1` separators |
| `Process.FormatDocsAt` | process.py:44 | chunk `k` appears verbatim at the offset after the earlier chunks and their separators, followed by `"\n\n"` unless it is last: retrieval order is kept and nothing else is inserted |
| `Process.FormatDocsAppend` | process.py:44 | one more retrieved chunk appends a separator and its text to the context |
| `Process.SanitizeInPlace` | process.py:33-34 | each chunk's text becomes its sanitised old text, its metadata is unchanged, and the array keeps its length and order (also when one object sits at several positions) |
| `Process.ProcessPdf` | process.py:31-54 | chunks are sanitised in place, the chain indexes exactly the sanitised texts in order with the session's embedder and LLM, and the returned count is the number of chunks (none is dropped) |
| `Strings.Contains` | app.py:46 | Python's `in` holds exactly when the pattern occurs at some index |
| `Strings.FindFrom` | app.py:46 | the result is the first index at or after the start where the pattern occurs, or none when it occurs nowhere there |
| `Strings.Join` | process.py:44 | joining no parts gives the empty text; otherwise the result is as long as the parts together plus one separator per neighbouring pair |
| `Strings.Split` | app.py:46 | splitting always yields at least one piece |
| `Strings.JoinSplit` | app.py:46 | joining the pieces of a split with the separator gives back the original string |
| `Strings.SplitPiecesFree` | app.py:46 | no piece of a split contains the separator |
| `Strings.SplitSecondPiece` | app.py:46 | when the separator first occurs at `i` and next at `j` (or `j` is the end), there is a second piece and it is exactly the text between them |
| `Strings.IsSpaceListed` | app.py:46 | the whitespace test behind `strip()` holds for exactly the code points for which `str.isspace()` holds, listed one by one |
| `Strings.StripLeading` | app.py:46 | the result is the longest suffix not starting with whitespace, and everything removed is whitespace |
| `Strings.StripTrailing` | app.py:46 | the result is the longest prefix not ending with whitespace, and everything removed is whitespace |
| `Strings.Strip` | app.py:46 | the result is no longer than the input and has no whitespace at either end |
| `Strings.StripSlice` | app.py:46 | the result is the slice of the input that starts right after the leading whitespace, and only whitespace follows it: nothing inside is removed |
| `Strings.StripAround` | app.py:46 | stripping whitespace-surrounded text that has no whitespace at its ends gives exactly that text |
| `Strings.StripClean` | app.py:46 | text with no whitespace at its ends is its own strip |
| `Answer.ContainsTestMarker` | app.py:46 | an output holding `"Answer: "` also holds `"Answer:"` |
| `Answer.ExtractAnswer` | app.py:46 | without `"Answer:"` the output is returned exactly, unstripped; extraction fails exactly when `"Answer:"` occurs but `"Answer: "` never does; with `"Answer: "` the answer has no whitespace at either end |
| `Answer.ExtractBetweenMarkers` | app.py:46 | when `"Answer: "` first occurs at `i` and next at `j` (or `j` is the end), the answer is the stripped text between them |
| `Answer.ExtractAfterMarker` | app.py:46 | text before the marker is dropped: `"Context: ... Answer: Paris."` gives `"Paris."` |
| `Answer.ExtractStopsAtSecondMarker` | app.py:46 | `"Answer: yes Answer: no"` gives `"yes"`: what follows the second marker is lost |
| `Answer.ExtractWithoutSpaceFails` | app.py:46 | `"Answer:yes"` fails with an index error |
| `Session.SessionState.constructor` | app.py:7-14 | a new session store holds none of the four keys and has processed no PDF |
| `Session.SessionState.Init` | app.py:7-14 | each missing key gets its default (no chain, models not loaded, no handles) and each present key keeps its value |
| `Session.SessionState.EnsureModels` | app.py:27-33 | loading happens exactly when `models_loaded` is false; afterwards it is true and both handles are set, and the chain is untouched |
| `Session.SessionState.ProcessPdf` | app.py:36-39 | only with a file uploaded and the button clicked, the chunk texts are sanitised in place, the chain is replaced by one indexing exactly those texts, and the chunk count is returned; otherwise the chain and the chunks stay; no other key changes |
| `Session.SessionState.Ask` | app.py:41-46 | no chain means no question box; an empty question is not sent; otherwise the answer is the extraction from the chain's output, and a chain implies a processed PDF |
| `Session.SessionState.Run` | app.py:7-47 | a run restarts exactly when models were not loaded before it, and then holds the freshly loaded handles, keeps the chain and touches no chunk; loaded models are never reloaded; otherwise it reports the chunk count exactly when a PDF was processed (the chunks then sanitised and indexed by the new chain, and untouched otherwise) and answers exactly when a chain exists and the question is non-empty; the session invariant is kept |
| `Session.FourRuns` | app.py:7-47 | a new session restarts on its first run; a second run without a PDF offers no question box; the run that processes a PDF reports the chunk count and shows the question box still empty; the next run answers the typed question with the extraction from the new chain's output |

## Left out

- Model loading (`load_model.py`): the Hugging Face embedder and LLM, their
  dtype, device placement and resource caching are foreign calls; their results
  enter `EnsureModels` and `Run` as opaque handles. `load_llm` declaring two
  parameters while the application passes one is not modelled.
- The temporary file written for the upload, its removal and the PDF loader
  are file I/O; their result enters as the array of chunk objects.
- The semantic chunker (percentile threshold, buffer, minimum chunk size) works
  on floating-point embeddings inside a library; the chunks it returns are
  parameters, so properties about chunk sizes or lossless concatenation of
  chunks are not stated.
- The vector store, the retriever, the prompt template fetched from the hub and
  the language model call are external: the chain is a value recording what it
  indexes and which models it uses, and the chain's raw output enters `Ask`
  and `Run` as a parameter. Which chunks retrieval returns is not modelled;
  `FormatDocs` is stated for any retrieved sequence.
- Exceptions from external calls (an unreadable PDF, a failing embedder, an
  unreachable hub) are not modelled; the methods describe runs that complete.
- Streamlit rendering, spinners, messages and widget events are UI; the
  widget values of one run enter `Run` as an `Interaction`, and the restart
  after loading the models is the `Rerun` outcome.
- Truthiness of the chain object is taken as "present": a built chain counts
  as set, no chain as unset.
