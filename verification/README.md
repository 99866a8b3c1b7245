# RAGatouille index orchestration, modelled in Dafny

This project models the orchestration logic of RAGatouille's `RAGPretrainedModel`
facade: the work `index` and `add_to_index` do before control passes to the
ColBERT late-interaction engine.

- `index` runs four steps in order. It validates identity: the number of ids must
  equal the number of documents, and then the ids must be unique. It builds the
  collection, either through a corpus processor or as one
  `{document_id, content}` record per document. It binds metadata as an
  id → metadata map. It translates the boolean `overwrite_index` into the
  engine's `True | "reuse"` argument.
- `add_to_index` decides whether new documents go through a corpus processor.
  When they do, the chunk size comes from the loaded model's `doc_maxlen`.

Each operation is a pure function. It takes the facade's state, the corpus
processor as an uninterpreted function, and the call's arguments. It returns the
new state together with either the engine call it would make (every argument
handed to the engine) or the error it raises. The facade's state is the two
fields these operations touch: the loaded model, seen only through
`doc_maxlen`, and the current corpus processor.

Files:
- `results.dfy` (module `Results`): `Option` and `Result`.
- `py_builtins.dfy` (module `PyBuiltins`): the Python built-ins the facade
  relies on. `zip` truncates to the shorter list. `set(list)` collapses
  duplicates, and the check `len(set(ids)) == len(ids)` is proved equivalent to
  pairwise distinctness. A dict comprehension lets the last pair win.
- `facade.dfy` (module `Facade`): the data model and the two operations.
- `facade_properties.dfy` (module `FacadeProperties`): lemmas relating calls and
  inputs.

Behaviour of the code in `ragatouille/RAGPretrainedModel.py` worth noting:
- The metadata list's length is never compared with the document count. `zip`
  silently drops the excess, and ids past the end of a short metadata list get
  no entry.
- The class defines no `delete_from_index`.
- `add_to_index` takes its chunk size from the model's `doc_maxlen`, not from
  the `max_document_length` the index was built with.
- `add_to_index` forwards the metadata list as given, without checking its
  length, even when the documents were replaced by the processor's chunks.

## Model

| member | source | states |
|---|---|---|
| PyBuiltins.Zip | ragatouille/RAGPretrainedModel.py:133 | `zip` pairs the i-th elements for every i below the shorter length and drops the rest |
| PyBuiltins.SetOf | ragatouille/RAGPretrainedModel.py:119 | `set(ids)` holds exactly the elements of the id list |
| PyBuiltins.DistinctSnoc | ragatouille/RAGPretrainedModel.py:119 | a list extended by one id is duplicate-free exactly when the list was and the new id is not already in it |
| PyBuiltins.SetOfSize | ragatouille/RAGPretrainedModel.py:119 | `len(set(ids))` never exceeds `len(ids)`, and equals it exactly when no id is repeated |
| PyBuiltins.DictOf | ragatouille/RAGPretrainedModel.py:136 | the metadata comprehension's keys are exactly the ids reached by `zip` |
| PyBuiltins.DictOfLastWins | ragatouille/RAGPretrainedModel.py:136 | a key bound by the comprehension holds the value of the last pair carrying that key |
| PyBuiltins.DictOfSizeDistinctKeys | ragatouille/RAGPretrainedModel.py:136 | with distinct keys no entry is overwritten: the map has one entry per pair |
| Facade.UsesProcessor | ragatouille/RAGPretrainedModel.py:122 | splitting alone or a preprocessing function alone routes the documents through a corpus processor; with both absent it is bypassed (the same test is at line 166) |
| Facade.ProcessorFor | ragatouille/RAGPretrainedModel.py:123-126 | the constructed processor carries a splitter only when splitting is requested, then exactly the caller's splitter, and always the caller's preprocessing function (the same construction is at lines 167-170) |
| Facade.Validate | ragatouille/RAGPretrainedModel.py:116-120 | a length mismatch is reported whenever the lengths differ, before uniqueness is looked at; otherwise a duplicate error exactly when the ids are not pairwise distinct; no error exactly when both checks pass |
| Facade.DirectCollection | ragatouille/RAGPretrainedModel.py:133 | without a processor the collection has one record per zipped pair, and record i is `(document_ids[i], documents[i])` |
| Facade.BindMetadata | ragatouille/RAGPretrainedModel.py:135-138 | the binding is `None` exactly when no metadata is given; otherwise its keys are exactly the ids that `zip` pairs with a metadata entry |
| Facade.OverwriteArg | ragatouille/RAGPretrainedModel.py:140-142 | the engine receives `True` exactly when `overwrite_index` is set and `"reuse"` otherwise, never `False` |
| Facade.Index | ragatouille/RAGPretrainedModel.py:116-149 | validation fails fast, length error first, with the state untouched. Past validation the corpus processor is replaced exactly when splitting or preprocessing is asked for, and it gets the splitter only when splitting. The collection is the processor's output at `max_document_length`, or one record per document in input order. Metadata, index name, `max_document_length` and the overwrite argument are forwarded. With no model loaded the call fails after the processor was assigned; otherwise it succeeds, given that the processor never raises (see Left out). |
| Facade.AddToIndex | ragatouille/RAGPretrainedModel.py:166-180 | documents go through a processor exactly when splitting or preprocessing is asked for, at the model's `doc_maxlen` and without ids; otherwise they are passed unchanged and the state is untouched; metadata and index name are forwarded as given; the call fails exactly when no model is loaded, given that the processor never raises (see Left out) |
| FacadeProperties.BindMetadataExact | ragatouille/RAGPretrainedModel.py:135-136 | with unique ids, id i maps to metadata i for every i below the shorter length, and the map has exactly that many entries |
| FacadeProperties.ShortMetadataLeavesIdsUnbound | ragatouille/RAGPretrainedModel.py:135-136 | a metadata list shorter than the id list is accepted, and the ids past its end get no entry |
| FacadeProperties.IndexBindsMetadata | ragatouille/RAGPretrainedModel.py:135-149 | on unique ids of the right count with a model loaded, the metadata map `index` hands the engine binds id i to metadata i, one entry per zipped pair |
| FacadeProperties.DirectCollectionRoundTrip | ragatouille/RAGPretrainedModel.py:133 | reading the ids and the contents back out of the direct records gives the input lists exactly |
| FacadeProperties.IndexDirectPreservesInput | ragatouille/RAGPretrainedModel.py:122-133 | on unique ids of the right count with a model loaded and without splitting or preprocessing, `index` passes the ids and documents through unchanged and in order, and leaves the corpus processor as it was |
| FacadeProperties.IndexFailFast | ragatouille/RAGPretrainedModel.py:116-127 | on invalid ids the outcome does not depend on the corpus processor, the state is unchanged, and the length error takes precedence over the duplicate error |
| FacadeProperties.DuplicateIdsRejected | ragatouille/RAGPretrainedModel.py:119-120 | ids `["a", "a"]` over two documents fail with the duplicate error and change nothing |
| FacadeProperties.AddToIndexDirectIgnoresProcessor | ragatouille/RAGPretrainedModel.py:166-180 | without splitting or preprocessing, `add_to_index` does not depend on the corpus processor and leaves the facade state unchanged |
| FacadeProperties.IndexStateIdempotent | ragatouille/RAGPretrainedModel.py:122-126 | repeating `index` with the same request leaves the facade state as the first call left it |
| FacadeProperties.IndexDefaults | ragatouille/RAGPretrainedModel.py:95-101 | with default arguments the default splitter is used with no preprocessing, chunks and `max_document_length` are 256, metadata is `None`, and the overwrite argument is `True` |

## Left out

- Facade.Index: the corpus processor is a total function, so the model has no path on which `process_corpus` raises. In the code it runs the caller's `document_splitter_fn` and `preprocessing_fn` (lines 127-131). If one of them raises, `self.corpus_processor` has already been replaced (line 123) and the engine is not called. The engine's own effects are not modelled either: its `index` call may fail, and the model keeps the loaded model, including `config.doc_maxlen`, unchanged, although nothing in `RAGPretrainedModel.py` settles whether the engine alters it.
- Facade.AddToIndex: the same two assumptions hold. The processor and the callables it runs never raise (lines 167-174). The engine's `add_to_index` is not modelled as changing its config, although `doc_maxlen` sets the chunk size of later calls.
- Loading a model through `from_pretrained` / `from_index` (lines 47-89) is not modelled. It loads checkpoints, places work on GPUs and reads paths. The model is represented only as present or absent, with its `doc_maxlen`.
- The engine's own `index` and `add_to_index` are represented only by the recorded call arguments. Their return values and errors are opaque.
- `search` (lines 182-215) is a pure pass-through to the engine, whose scoring and ranking are floating-point and not part of this code.
- `CorpusProcessor` and `llama_index_sentence_splitter` are not part of this model. The processor is an uninterpreted function, so nothing is claimed about chunking.
- Splitter and preprocessing callables are opaque values that are only forwarded. Whether a single callable or a list is passed makes no difference to the facade.
- `document_ids` is always a list of hashable ids here. A single string is also accepted by the code: `len` and `set` treat it as its characters, and `zip` then uses each character as an id. Ids that cannot be hashed make `set(document_ids)` at line 119 raise `TypeError`; that error path is not modelled, because ids are a type with equality.
- The docstring of `index` (line 107) says ids are optional and are generated when not supplied. The code does not do this: `document_ids` has no default (line 94), and passing `None` raises `TypeError` at `len(document_ids)` (line 116) before any validation. The model makes ids mandatory, as the code does.
- `RAGatouilleLangChainRetriever` and `as_langchain_retriever` (lines 217-231) are a thin LangChain adapter.
- The HTTP handlers in `serve/app/api/endpoints/document_management.py` only map exceptions to HTTP 500. They call a `delete_from_index` the class does not define, and pass `add_to_index` keyword arguments it does not accept.
- Deleting documents is absent from the class, so no deletion is modelled.
