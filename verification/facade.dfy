/** The orchestration layer of `RAGPretrainedModel`: what `index` and
    `add_to_index` do before handing control to the late-interaction engine.

    The engine, the corpus processor and the splitter / preprocessing callables
    are opaque here. The corpus processor is the uninterpreted `process`
    parameter; a splitter is a value of type `S` and a preprocessing argument
    (one callable or a list of them) a value of type `P`, which the facade only
    forwards. Each operation returns the facade's new state together with
    either the call it would make on the engine or the error it raises. */
module Facade {
  import opened Results
  import opened PyBuiltins

  /** Default of `max_document_length` in `index`. */
  const DefaultMaxDocumentLength: int := 256

  /** The engine's `overwrite` argument: the Python value `True` or `"reuse"`. */
  datatype Overwrite = Bool(b: bool) | Reuse

  /** One collection entry `{"document_id": ..., "content": ...}`. */
  datatype Record<Id> = Record(documentId: Id, content: string)

  /** The arguments a `CorpusProcessor` is constructed with. */
  datatype ProcessorConfig<S, P> = ProcessorConfig(documentSplitterFn: Option<S>, preprocessingFn: Option<P>)

  /** The loaded late-interaction model, seen only through `config.doc_maxlen`. */
  datatype Engine = Engine(docMaxlen: int)

  /** The facade's fields: the loaded model (`None` until one is loaded) and the
      corpus processor built by the last call that needed one. */
  datatype State<S, P> = State(model: Option<Engine>, corpusProcessor: Option<ProcessorConfig<S, P>>)

  /** `IdsLengthMismatch` and `DuplicateIds` are the two `ValueError`s of
      `index`; `ModelNotLoaded` is the failure of reaching into `self.model`
      while it is still `None`. */
  datatype FacadeError = IdsLengthMismatch | DuplicateIds | ModelNotLoaded

  /** The state after a call, and what the call produced. */
  datatype Step<S, P, C> = Step(state: State<S, P>, outcome: Result<C, FacadeError>)

  /** `CorpusProcessor(...).process_corpus(documents, document_ids, chunk_size)`. */
  type Processor<!Id, !S, !P> = (ProcessorConfig<S, P>, seq<string>, Option<seq<Id>>, int) -> seq<Record<Id>>

  /** Arguments of `index`. */
  datatype IndexRequest<Id, M, S, P> = IndexRequest(
    documents: seq<string>,
    documentIds: seq<Id>,
    documentMetadatas: Option<seq<M>>,
    indexName: Option<string>,
    overwriteIndex: bool,
    maxDocumentLength: int,
    splitDocuments: bool,
    documentSplitterFn: Option<S>,
    preprocessingFn: Option<P>)

  /** The arguments `index` passes to the engine's `index`. */
  datatype IndexCall<Id, M> = IndexCall(
    collection: seq<Record<Id>>,
    metadata: Option<map<Id, M>>,
    indexName: Option<string>,
    maxDocumentLength: int,
    overwrite: Overwrite)

  /** Arguments of `add_to_index`. */
  datatype AddRequest<M, S, P> = AddRequest(
    newDocuments: seq<string>,
    newMetadata: Option<seq<M>>,
    indexName: Option<string>,
    splitDocuments: bool,
    documentSplitterFn: Option<S>,
    preprocessingFn: Option<P>)

  /** What `add_to_index` hands over as `new_documents`: the caller's strings,
      or the corpus processor's output in their place. */
  datatype AddPayload<Id> = Documents(documents: seq<string>) | Chunks(chunks: seq<Record<Id>>)

  /** The arguments `add_to_index` passes to the engine's `add_to_index`. */
  datatype AddCall<Id, M> = AddCall(newDocuments: AddPayload<Id>, newMetadata: Option<seq<M>>, indexName: Option<string>)

  /** Whether a call routes its documents through a corpus processor: either
      flag alone is enough, and only both absent bypasses it. */
  function UsesProcessor<P>(splitDocuments: bool, preprocessingFn: Option<P>): (r: bool)
    ensures splitDocuments ==> r
    ensures preprocessingFn.Some? ==> r
    ensures !splitDocuments && preprocessingFn.None? ==> !r
  {
    splitDocuments || preprocessingFn.Some?
  }

  /** The processor a call constructs: the splitter is kept only when splitting
      is requested. */
  function ProcessorFor<S, P>(splitDocuments: bool, documentSplitterFn: Option<S>, preprocessingFn: Option<P>): (c: ProcessorConfig<S, P>)
    ensures c.documentSplitterFn.Some? ==> splitDocuments
    ensures splitDocuments ==> c.documentSplitterFn == documentSplitterFn
    ensures c.preprocessingFn == preprocessingFn
  {
    ProcessorConfig(if splitDocuments then documentSplitterFn else None, preprocessingFn)
  }

  /** The ids of a collection, in order: reads the records back. */
  function IdsOf<Id>(c: seq<Record<Id>>): (ids: seq<Id>)
    ensures |ids| == |c|
  {
    seq(|c|, i requires 0 <= i < |c| => c[i].documentId)
  }

  /** The contents of a collection, in order: reads the records back. */
  function ContentsOf<Id>(c: seq<Record<Id>>): (contents: seq<string>)
    ensures |contents| == |c|
  {
    seq(|c|, i requires 0 <= i < |c| => c[i].content)
  }

  /** Identity validation: the length check comes first, then uniqueness,
      tested as `index` does (line 119) by comparing `len(set(ids))` with `len(ids)`. */
  function Validate<Id(==, !new)>(documents: seq<string>, documentIds: seq<Id>): (r: Option<FacadeError>)
    ensures r == Some(IdsLengthMismatch) <==> |documentIds| != |documents|
    ensures r == Some(DuplicateIds) <==> |documentIds| == |documents| && !Distinct(documentIds)
    ensures r == None <==> |documentIds| == |documents| && Distinct(documentIds)
  {
    SetOfSize(documentIds);
    if |documentIds| != |documents| then Some(IdsLengthMismatch)
    else if |SetOf(documentIds)| != |documentIds| then Some(DuplicateIds)
    else None
  }

  /** The collection built without a corpus processor: one record per
      (id, document) pair of `zip(document_ids, documents)`. */
  function DirectCollection<Id>(documentIds: seq<Id>, documents: seq<string>): (c: seq<Record<Id>>)
    ensures |c| == Min(|documentIds|, |documents|)
    ensures forall i :: 0 <= i < |c| ==> c[i] == Record(documentIds[i], documents[i])
  {
    var z := Zip(documentIds, documents);
    seq(|z|, i requires 0 <= i < |z| => Record(z[i].0, z[i].1))
  }

  /** Metadata binding `{id: meta for id, meta in zip(ids, metadatas)}`, or
      `None` when no metadata is given. The lengths are not compared: the
      shorter list decides how many ids get an entry. */
  function BindMetadata<Id, M>(documentIds: seq<Id>, documentMetadatas: Option<seq<M>>): (b: Option<map<Id, M>>)
    ensures b.None? <==> documentMetadatas.None?
    ensures b.Some? ==> forall i :: 0 <= i < Min(|documentIds|, |documentMetadatas.value|) ==> documentIds[i] in b.value
    ensures b.Some? ==> forall k :: k in b.value ==>
      exists i :: 0 <= i < Min(|documentIds|, |documentMetadatas.value|) && documentIds[i] == k
  {
    match documentMetadatas
    case None => None
    case Some(metadatas) =>
      var pairs := Zip(documentIds, metadatas);
      assert forall i :: 0 <= i < |pairs| ==> pairs[i].0 == documentIds[i];
      Some(DictOf(pairs))
  }

  /** Overwrite translation: `True` when `overwrite_index` is set, `"reuse"`
      otherwise; the engine never receives `False`, so the flag can always be
      read back from the argument. */
  function OverwriteArg(overwriteIndex: bool): (o: Overwrite)
    ensures o != Bool(false)
    ensures o.Bool? <==> overwriteIndex
  {
    if overwriteIndex then Bool(true) else Reuse
  }

  /** `RAGPretrainedModel.index`. */
  function Index<Id(==, !new), M, S, P>(st: State<S, P>, process: Processor<Id, S, P>, req: IndexRequest<Id, M, S, P>)
    : (r: Step<S, P, IndexCall<Id, M>>)
    // fail-fast validation, length first: nothing is built and the state is untouched
    ensures |req.documentIds| != |req.documents| ==> r == Step(st, Failure(IdsLengthMismatch))
    ensures |req.documentIds| == |req.documents| && !Distinct(req.documentIds) ==> r == Step(st, Failure(DuplicateIds))
    ensures r.outcome.Success? <==> |req.documentIds| == |req.documents| && Distinct(req.documentIds) && st.model.Some?
    ensures r.state.model == st.model
    // past validation, the processor field changes exactly when a processor is needed
    ensures Validate(req.documents, req.documentIds) == None ==>
      r.state.corpusProcessor ==
        if UsesProcessor(req.splitDocuments, req.preprocessingFn)
        then Some(ProcessorFor(req.splitDocuments, req.documentSplitterFn, req.preprocessingFn))
        else st.corpusProcessor
    ensures Validate(req.documents, req.documentIds) == None && st.model.None? ==> r.outcome == Failure(ModelNotLoaded)
    // the engine call
    ensures r.outcome.Success? && UsesProcessor(req.splitDocuments, req.preprocessingFn) ==>
      r.outcome.value.collection ==
        process(ProcessorFor(req.splitDocuments, req.documentSplitterFn, req.preprocessingFn),
                req.documents, Some(req.documentIds), req.maxDocumentLength)
    ensures r.outcome.Success? && !UsesProcessor(req.splitDocuments, req.preprocessingFn) ==>
      && |r.outcome.value.collection| == |req.documents|
      && forall i :: 0 <= i < |req.documents| ==>
           r.outcome.value.collection[i] == Record(req.documentIds[i], req.documents[i])
    ensures r.outcome.Success? ==>
      && r.outcome.value.metadata == BindMetadata(req.documentIds, req.documentMetadatas)
      && r.outcome.value.indexName == req.indexName
      && r.outcome.value.maxDocumentLength == req.maxDocumentLength
      && (r.outcome.value.overwrite == Bool(true) <==> req.overwriteIndex)
      && (r.outcome.value.overwrite == Reuse <==> !req.overwriteIndex)
  {
    match Validate(req.documents, req.documentIds)
    case Some(e) => Step(st, Failure(e))
    case None =>
      var (st', collection) :=
        if UsesProcessor(req.splitDocuments, req.preprocessingFn) then
          var config := ProcessorFor(req.splitDocuments, req.documentSplitterFn, req.preprocessingFn);
          (st.(corpusProcessor := Some(config)),
           process(config, req.documents, Some(req.documentIds), req.maxDocumentLength))
        else
          (st, DirectCollection(req.documentIds, req.documents));
      var metadata := BindMetadata(req.documentIds, req.documentMetadatas);
      var overwrite := OverwriteArg(req.overwriteIndex);
      if st.model.None? then Step(st', Failure(ModelNotLoaded))
      else Step(st', Success(IndexCall(collection, metadata, req.indexName, req.maxDocumentLength, overwrite)))
  }

  /** `RAGPretrainedModel.add_to_index`. */
  function AddToIndex<Id, M, S, P>(st: State<S, P>, process: Processor<Id, S, P>, req: AddRequest<M, S, P>)
    : (r: Step<S, P, AddCall<Id, M>>)
    ensures r.outcome.Success? <==> st.model.Some?
    ensures r.state.model == st.model
    ensures r.state.corpusProcessor ==
      if UsesProcessor(req.splitDocuments, req.preprocessingFn)
      then Some(ProcessorFor(req.splitDocuments, req.documentSplitterFn, req.preprocessingFn))
      else st.corpusProcessor
    // processed exactly when splitting or preprocessing is asked for, at the model's chunk size
    ensures r.outcome.Success? ==>
      (r.outcome.value.newDocuments.Chunks? <==> UsesProcessor(req.splitDocuments, req.preprocessingFn))
    ensures r.outcome.Success? && UsesProcessor(req.splitDocuments, req.preprocessingFn) ==>
      r.outcome.value.newDocuments.chunks ==
        process(ProcessorFor(req.splitDocuments, req.documentSplitterFn, req.preprocessingFn),
                req.newDocuments, None, st.model.value.docMaxlen)
    ensures r.outcome.Success? && !UsesProcessor(req.splitDocuments, req.preprocessingFn) ==>
      r.outcome.value.newDocuments == Documents(req.newDocuments)
    // metadata and index name are forwarded as given
    ensures r.outcome.Success? ==>
      r.outcome.value.newMetadata == req.newMetadata && r.outcome.value.indexName == req.indexName
  {
    if UsesProcessor(req.splitDocuments, req.preprocessingFn) then
      var config := ProcessorFor(req.splitDocuments, req.documentSplitterFn, req.preprocessingFn);
      var st' := st.(corpusProcessor := Some(config));
      match st.model
      case None => Step(st', Failure(ModelNotLoaded))
      case Some(engine) =>
        Step(st', Success(AddCall(Chunks(process(config, req.newDocuments, None, engine.docMaxlen)),
                                  req.newMetadata, req.indexName)))
    else
      match st.model
      case None => Step(st, Failure(ModelNotLoaded))
      case Some(_) => Step(st, Success(AddCall(Documents(req.newDocuments), req.newMetadata, req.indexName)))
  }
}
