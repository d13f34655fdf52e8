/** The interactive session: the four keys the application keeps in its
    per-user session store and one run of the application script over them.
    The script runs again on every user interaction; a run initialises the
    keys that are missing, loads the models once (and then restarts the run),
    rebuilds the chain when a PDF is submitted, and answers a question only
    when a chain exists. Model loading, widgets and the chain's invocation
    are outside the model: their results arrive as parameters. */
module Session {
  import opened Wrappers
  import opened Strings
  import Process
  import opened Sanitizer
  import opened Answer

  /** A key of the session store: missing, or present with a value. */
  datatype Slot<T> = Absent | Present(value: T)

  /** What the widgets hold in one run: whether a file is uploaded, whether
      the "Process PDF" button was clicked, and the question typed. */
  datatype Interaction = Interaction(fileUploaded: bool, processClicked: bool, question: Text)

  /** What the question step does in one run. */
  datatype AskOutcome =
    | NoChain                                          // no chain yet: no question box
    | NoQuestion                                       // the question box is empty
    | Answered(answer: Result<Text, ExtractError>)     // the chain was invoked

  /** How a run ends: restarted right after loading the models, or rendered
      with the chunk count of a processed PDF (if any) and the question step. */
  datatype RunOutcome =
    | Rerun
    | Rendered(numChunks: Option<nat>, asked: AskOutcome)

  class SessionState {
    var ragChain: Slot<Option<Process.RagChain>>
    var modelsLoaded: Slot<bool>
    var embeddings: Slot<Option<Process.Handle>>
    var llm: Slot<Option<Process.Handle>>
    /** How many PDFs this session has processed. */
    ghost var pdfsProcessed: nat

    /** All four keys are present. */
    ghost predicate Initialised()
      reads this
    {
      ragChain.Present? && modelsLoaded.Present? && embeddings.Present? && llm.Present?
    }

    /** Loaded models come with both handles; a chain exists only after a PDF
        was processed, and it uses the session's current models. */
    ghost predicate Valid()
      reads this
    {
      && (modelsLoaded == Present(true) ==>
            embeddings.Present? && embeddings.value.Some? && llm.Present? && llm.value.Some?)
      && (ragChain.Present? && ragChain.value.Some? ==>
            && modelsLoaded == Present(true)
            && pdfsProcessed > 0
            && ragChain.value.value.embeddings == embeddings.value.value
            && ragChain.value.value.llm == llm.value.value)
    }

    /** A new session: the store is empty. */
    constructor ()
      ensures Valid() && !Initialised()
      ensures ragChain == Absent && modelsLoaded == Absent && embeddings == Absent && llm == Absent
      ensures pdfsProcessed == 0
    {
      ragChain, modelsLoaded, embeddings, llm := Absent, Absent, Absent, Absent;
      pdfsProcessed := 0;
    }

    /** Sets each missing key to its default (no chain, models not loaded,
        no handles) and leaves every present key as it is. */
    method Init()
      requires Valid()
      modifies this
      ensures Valid() && Initialised()
      ensures ragChain == if old(ragChain).Present? then old(ragChain) else Present(None)
      ensures modelsLoaded == if old(modelsLoaded).Present? then old(modelsLoaded) else Present(false)
      ensures embeddings == if old(embeddings).Present? then old(embeddings) else Present(None)
      ensures llm == if old(llm).Present? then old(llm) else Present(None)
      ensures pdfsProcessed == old(pdfsProcessed)
    {
      if ragChain.Absent? {
        ragChain := Present(None);
      }
      if modelsLoaded.Absent? {
        modelsLoaded := Present(false);
      }
      if embeddings.Absent? {
        embeddings := Present(None);
      }
      if llm.Absent? {
        llm := Present(None);
      }
    }

    /** Loads the models unless they are loaded already. `loadedEmbeddings`
        and `loadedLlm` are what the model loaders return. `loading` says
        whether loading happened, after which the run restarts. */
    method EnsureModels(loadedEmbeddings: Process.Handle, loadedLlm: Process.Handle) returns (loading: bool)
      requires Valid() && Initialised()
      modifies this
      ensures Valid() && Initialised() && modelsLoaded == Present(true)
      ensures loading == (old(modelsLoaded) == Present(false))
      ensures loading ==> embeddings == Present(Some(loadedEmbeddings)) && llm == Present(Some(loadedLlm))
      ensures !loading ==> embeddings == old(embeddings) && llm == old(llm)
      ensures ragChain == old(ragChain) && pdfsProcessed == old(pdfsProcessed)
    {
      loading := !modelsLoaded.value;
      if loading {
        embeddings := Present(Some(loadedEmbeddings));
        llm := Present(Some(loadedLlm));
        modelsLoaded := Present(true);
      }
    }

    /** When a file is uploaded and "Process PDF" is clicked, processes its
        chunks `docs` and replaces the chain with the new one; no other key
        changes. Returns the chunk count when it processed. */
    method ProcessPdf(fileUploaded: bool, processClicked: bool, docs: array<Process.Document>)
      returns (numChunks: Option<nat>)
      requires Valid() && Initialised() && modelsLoaded == Present(true)
      modifies this, Process.Chunks(docs)
      ensures Valid() && Initialised()
      ensures numChunks.Some? <==> fileUploaded && processClicked
      ensures modelsLoaded == old(modelsLoaded) && embeddings == old(embeddings) && llm == old(llm)
      ensures numChunks.Some? ==>
                && numChunks.value == docs.Length
                && ragChain.Present? && ragChain.value.Some?
                && |ragChain.value.value.index| == docs.Length
                && (forall i :: 0 <= i < docs.Length ==>
                      && docs[i].pageContent == RemoveInvalidSurrogates(old(docs[i].pageContent))
                      && ragChain.value.value.index[i] == docs[i].pageContent)
                && pdfsProcessed == old(pdfsProcessed) + 1
      ensures numChunks.None? ==>
                && ragChain == old(ragChain) && pdfsProcessed == old(pdfsProcessed)
                && forall i :: 0 <= i < docs.Length ==> docs[i].pageContent == old(docs[i].pageContent)
    {
      if fileUploaded && processClicked {
        var chain, n := Process.ProcessPdf(docs, embeddings.value.value, llm.value.value);
        ragChain := Present(Some(chain));
        pdfsProcessed := pdfsProcessed + 1;
        numChunks := Some(n);
      } else {
        numChunks := None;
      }
    }

    /** The question step: only with a chain and a non-empty question is the
        chain invoked; `output` is what the invocation returns. */
    method Ask(question: Text, output: Text) returns (outcome: AskOutcome)
      requires Valid() && Initialised()
      ensures outcome == NoChain <==> ragChain.value.None?
      ensures outcome == NoQuestion <==> ragChain.value.Some? && question == []
      ensures outcome.Answered? ==> outcome.answer == ExtractAnswer(output) && pdfsProcessed > 0
    {
      if ragChain.value.None? {
        outcome := NoChain;
      } else if question == [] {
        outcome := NoQuestion;
      } else {
        outcome := Answered(ExtractAnswer(output));
      }
    }

    /** One run of the application script. */
    method Run(interaction: Interaction, loadedEmbeddings: Process.Handle, loadedLlm: Process.Handle,
               docs: array<Process.Document>, output: Text)
      returns (outcome: RunOutcome)
      requires Valid()
      modifies this, Process.Chunks(docs)
      ensures Valid() && Initialised() && modelsLoaded == Present(true)
      ensures outcome == Rerun <==> old(modelsLoaded) != Present(true)
      ensures outcome == Rerun ==>
                && ragChain == (if old(ragChain).Present? then old(ragChain) else Present(None))
                && embeddings == Present(Some(loadedEmbeddings)) && llm == Present(Some(loadedLlm))
                && pdfsProcessed == old(pdfsProcessed)
      ensures outcome == Rerun || outcome.numChunks.None? ==>
                forall i :: 0 <= i < docs.Length ==> docs[i].pageContent == old(docs[i].pageContent)
      ensures outcome.Rendered? && outcome.numChunks.Some? ==>
                && ragChain.value.Some? && |ragChain.value.value.index| == docs.Length
                && forall i :: 0 <= i < docs.Length ==>
                  docs[i].pageContent == RemoveInvalidSurrogates(old(docs[i].pageContent)) &&
                  ragChain.value.value.index[i] == docs[i].pageContent
      ensures old(modelsLoaded) == Present(true) ==> embeddings == old(embeddings) && llm == old(llm)
      ensures outcome.Rendered? ==>
                && outcome.numChunks == (if interaction.fileUploaded && interaction.processClicked
                                         then Some(docs.Length) else None)
                && (outcome.numChunks.None? ==>
                      && ragChain == (if old(ragChain).Present? then old(ragChain) else Present(None))
                      && pdfsProcessed == old(pdfsProcessed))
                && (outcome.numChunks.Some? ==> ragChain.value.Some? && pdfsProcessed == old(pdfsProcessed) + 1)
                && outcome.asked == (if ragChain.value.None? then NoChain
                                     else if interaction.question == [] then NoQuestion
                                     else Answered(ExtractAnswer(output)))
      ensures outcome.Rendered? && outcome.asked.Answered? ==> pdfsProcessed > 0
    {
      Init();
      assert modelsLoaded.value <==> old(modelsLoaded) == Present(true);
      var loading := EnsureModels(loadedEmbeddings, loadedLlm);
      if loading {
        return Rerun;
      }
      var numChunks := ProcessPdf(interaction.fileUploaded, interaction.processClicked, docs);
      var asked := Ask(interaction.question, output);
      outcome := Rendered(numChunks, asked);
    }
  }

  /** A new session over four interactions: the first run loads the models
      and restarts; a question typed before any PDF gets no question box;
      processing a PDF shows the question box for the first time, still empty;
      on the next run, with the file still uploaded and the button no longer
      clicked, the question typed there is answered by the new chain. */
  method FourRuns(loadedEmbeddings: Process.Handle, loadedLlm: Process.Handle,
                  docs: array<Process.Document>, question: Text, output: Text)
    returns (first: RunOutcome, second: RunOutcome, third: RunOutcome, fourth: RunOutcome)
    requires question != []
    modifies Process.Chunks(docs)
    ensures first == Rerun
    ensures second == Rendered(None, NoChain)
    ensures third == Rendered(Some(docs.Length), NoQuestion)
    ensures fourth == Rendered(None, Answered(ExtractAnswer(output)))
  {
    var session := new SessionState();
    first := session.Run(Interaction(false, false, []), loadedEmbeddings, loadedLlm, docs, output);
    second := session.Run(Interaction(false, false, question), loadedEmbeddings, loadedLlm, docs, output);
    third := session.Run(Interaction(true, true, []), loadedEmbeddings, loadedLlm, docs, output);
    fourth := session.Run(Interaction(true, false, question), loadedEmbeddings, loadedLlm, docs, output);
  }
}
