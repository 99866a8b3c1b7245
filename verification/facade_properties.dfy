/** Properties of the facade that relate several calls or several inputs:
    metadata binding, the record collection as an invertible encoding of the
    input, fail-fast validation and the defaults. */
module FacadeProperties {
  import opened Results
  import opened PyBuiltins
  import opened Facade

  /** With unique ids, every id that `zip` pairs with a metadata entry is bound
      to exactly that entry, and no entry is overwritten: the map has one key
      per pair. */
  lemma BindMetadataExact<Id, M>(documentIds: seq<Id>, documentMetadatas: seq<M>)
    requires Distinct(documentIds)
    ensures var n := Min(|documentIds|, |documentMetadatas|);
      && BindMetadata(documentIds, Some(documentMetadatas)).Some?
      && |BindMetadata(documentIds, Some(documentMetadatas)).value| == n
      && forall i :: 0 <= i < n ==>
           BindMetadata(documentIds, Some(documentMetadatas)).value[documentIds[i]] == documentMetadatas[i]
  {
    var pairs := Zip(documentIds, documentMetadatas);
    assert forall i :: 0 <= i < |pairs| ==> pairs[i].0 == documentIds[i];
    DictOfSizeDistinctKeys(pairs);
    forall i | 0 <= i < |pairs|
      ensures DictOf(pairs)[documentIds[i]] == documentMetadatas[i]
    {
      DictOfLastWins(pairs, i);
    }
  }

  /** Metadata lists shorter than the id list are not rejected: with unique
      ids, every id past the end of the metadata list simply has no entry. */
  lemma ShortMetadataLeavesIdsUnbound<Id, M>(documentIds: seq<Id>, documentMetadatas: seq<M>, i: int)
    requires Distinct(documentIds)
    requires |documentMetadatas| <= i < |documentIds|
    ensures documentIds[i] !in BindMetadata(documentIds, Some(documentMetadatas)).value
  {
  }

  /** On valid input with a model loaded, `index` hands the engine a metadata
      map that sends the i-th id to the i-th metadata dict for every position
      `zip` reaches. */
  lemma IndexBindsMetadata<Id(!new), M, S, P>(st: State<S, P>, process: Processor<Id, S, P>, req: IndexRequest<Id, M, S, P>)
    requires |req.documentIds| == |req.documents| && Distinct(req.documentIds) && st.model.Some?
    requires req.documentMetadatas.Some?
    ensures var call := Index(st, process, req).outcome.value;
      var n := Min(|req.documentIds|, |req.documentMetadatas.value|);
      && call.metadata.Some?
      && |call.metadata.value| == n
      && forall i :: 0 <= i < n ==> call.metadata.value[req.documentIds[i]] == req.documentMetadatas.value[i]
  {
    BindMetadataExact(req.documentIds, req.documentMetadatas.value);
  }

  /** The records built without a processor encode the input losslessly: the
      ids and the contents can be read back, in input order. */
  lemma DirectCollectionRoundTrip<Id>(documentIds: seq<Id>, documents: seq<string>)
    requires |documentIds| == |documents|
    ensures IdsOf(DirectCollection(documentIds, documents)) == documentIds
    ensures ContentsOf(DirectCollection(documentIds, documents)) == documents
  {
    var c := DirectCollection(documentIds, documents);
    assert forall i :: 0 <= i < |c| ==> IdsOf(c)[i] == documentIds[i];
    assert forall i :: 0 <= i < |c| ==> ContentsOf(c)[i] == documents[i];
  }

  /** On valid input with a model loaded, `index` without splitting or
      preprocessing hands the engine the ids and documents back unchanged,
      record by record, and leaves the corpus processor as it was. */
  lemma IndexDirectPreservesInput<Id(!new), M, S, P>(st: State<S, P>, process: Processor<Id, S, P>, req: IndexRequest<Id, M, S, P>)
    requires |req.documentIds| == |req.documents| && Distinct(req.documentIds) && st.model.Some?
    requires !req.splitDocuments && req.preprocessingFn.None?
    ensures IdsOf(Index(st, process, req).outcome.value.collection) == req.documentIds
    ensures ContentsOf(Index(st, process, req).outcome.value.collection) == req.documents
    ensures Index(st, process, req).state == st
  {
    DirectCollectionRoundTrip(req.documentIds, req.documents);
  }

  /** Validation is fail-fast: when it rejects the input, the corpus processor
      is never consulted (any two processors give the same outcome), the state
      is untouched, and the length error wins over the duplicate error. */
  lemma IndexFailFast<Id(!new), M, S, P>(st: State<S, P>, p1: Processor<Id, S, P>, p2: Processor<Id, S, P>, req: IndexRequest<Id, M, S, P>)
    requires |req.documentIds| != |req.documents| || !Distinct(req.documentIds)
    ensures Index(st, p1, req) == Index(st, p2, req)
    ensures Index(st, p1, req).state == st
    ensures Index(st, p1, req).outcome ==
      Failure(if |req.documentIds| != |req.documents| then IdsLengthMismatch else DuplicateIds)
  {
  }

  /** Two identical ids over two documents are rejected as duplicates. */
  lemma DuplicateIdsRejected<M, S, P>(st: State<S, P>, process: Processor<string, S, P>, req: IndexRequest<string, M, S, P>)
    requires req.documentIds == ["a", "a"] && |req.documents| == 2
    ensures Index(st, process, req) == Step(st, Failure(DuplicateIds))
  {
    assert req.documentIds[0] == req.documentIds[1];
  }

  /** `add_to_index` without splitting or preprocessing never consults the
      corpus processor (any two processors give the same outcome) and leaves
      the state as it was. */
  lemma AddToIndexDirectIgnoresProcessor<Id, M, S, P>(st: State<S, P>, p1: Processor<Id, S, P>, p2: Processor<Id, S, P>, req: AddRequest<M, S, P>)
    requires !UsesProcessor(req.splitDocuments, req.preprocessingFn)
    ensures AddToIndex(st, p1, req) == AddToIndex(st, p2, req)
    ensures AddToIndex(st, p1, req).state == st
  {
  }

  /** Re-running `index` with the same request from the state it produced
      leaves that state as it is. */
  lemma IndexStateIdempotent<Id(!new), M, S, P>(st: State<S, P>, process: Processor<Id, S, P>, req: IndexRequest<Id, M, S, P>)
    ensures Index(Index(st, process, req).state, process, req).state == Index(st, process, req).state
  {
  }

  /** `index` called with only documents and ids: the default splitter is used
      with no preprocessing, documents are chunked at 256, metadata is `None`,
      and an existing index is overwritten. */
  lemma IndexDefaults<Id(!new), M, S, P>(st: State<S, P>, process: Processor<Id, S, P>, documents: seq<string>, documentIds: seq<Id>, defaultSplitter: S)
    requires |documents| == |documentIds| && Distinct(documentIds) && st.model.Some?
    ensures var req := IndexRequest(documents, documentIds, None, None, true, DefaultMaxDocumentLength, true, Some(defaultSplitter), None);
      var r: Step<S, P, IndexCall<Id, M>> := Index(st, process, req);
      && r.state.corpusProcessor == Some(ProcessorConfig(Some(defaultSplitter), None))
      && r.outcome == Success(IndexCall(process(ProcessorConfig(Some(defaultSplitter), None), documents, Some(documentIds), DefaultMaxDocumentLength),
                                        None, None, DefaultMaxDocumentLength, Bool(true)))
  {
  }
}
