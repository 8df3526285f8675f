# rag-ai-agent-be: the indexing and retrieval engine, in Dafny

This project models the core of a retrieval-augmented question-answering backend. The
backend indexes PDF documents and answers questions from them:

- **Indexing.** It lists the PDFs, in an S3 bucket or in a sample directory. It downloads
  them to a local cache, which may be *ephemeral*: the copy is deleted after indexing. It
  decides from a JSON manifest of file hashes which documents changed, then extracts,
  cleans, chunks and embeds their text. The resulting vectors go into a FAISS
  inner-product index, saved beside a `.metadata.npy` file of chunk texts.
- **Answering.** It embeds the question and searches the index. It gates the hits by a
  score threshold, or hands them to a reranker. It merges each hit with its neighbouring
  chunks into passages, and builds the language-model prompt from those passages, the
  conversation and the question.

Each core source file is one Dafny module:

| module | models |
|---|---|
| `Manifest` | the manifest store: a class whose map field is the persisted JSON object |
| `S3Helper`, `FileSystem`, `PyPath` | S3 listing and download, the local cache, hashing, `os.path` |
| `IndexBuilder` | incremental selection, indexing, finalising, building and rebuilding |
| `FileProcessor` | one file through extract, preprocess, chunk and embed, where every failure gives `([], [])` |
| `FaissIndexer` | `FaissStore` (dimension check, row/text alignment, `-1` padding, paired paths) |
| `MergeUtils` | the neighbour-window merge, as written and corrected |
| `VectorStoreManager`, `PipelineCore` | the threshold gate or reranker, the intent short-circuit, and retrieval fallbacks |
| `LegacyIndexBuilder`, `LegacyVectorStoreManager` | the earlier set-manifest builder and the sequential builder |
| `TextChunker`, `TextPreprocessor`, `NormalizeTokens` | the string transformers |
| `BedrockCohereReranker`, `PromptBuilder` | reranker post-processing and prompt assembly |
| `PyStr`, `PySeq`, `Settings`, `Wrappers` | Python string and slice semantics, configuration, `Option` and `Result` |

Code that updates state in place is imperative Dafny:

- classes with `modifies` clauses: `Manifest.ManifestFile`, `FileSystem.Disk`, `FaissIndexer.FaissStore`;
- loops with invariants: the selection, indexing, merge, chunk-merge, replacement, hashing and prompt loops.

Each such method is proved against a specification function, and the properties the
source promises are lemmas about that function.

### How collaborators are modelled

- **Collaborators are function parameters.** The extractor, embedder, splitter, reranker
  service, retriever, intent detector, language model and SHA-256 each return a value or
  a failure.
- **Exceptions.**
  - An exception that propagates is an `Err` of the `Result` type.
  - An exception the source catches takes the source's fallback path.
- **The thread pool is an in-order loop.** Futures are consumed in submission order.

### Quirks reproduced as written

- **Only selected keys are indexed.** A build indexes only the keys it selected, so a
  run that only prunes builds from nothing and returns None
  (`IndexBuilder.BuildGlobalIndex`).
- **Ephemeral copies are deleted before they are hashed.** In ephemeral S3 mode the per-file worker
  deletes the cached copy, and the result loop then hashes it. Every non-empty run
  therefore fails with FileNotFoundError (`IndexBuilder.EphemeralRunFails`). Hashing is
  modelled as the error path, not as a precondition.
- **Local runs still hash the cache path.** With S3 off, the result loop hashes
  `CACHE_DIR/key`, which local runs never write (`IndexBuilder.LocalRunNeedsCachedCopy`).
- **`prune_manifest` returns a pair.** It is annotated as returning a dictionary, but
  returns the pair (pruned manifest, stale keys); the model returns the pair.
- **Merge neighbours are rank neighbours.** The merge looks for hits in the rank-ordered
  list of candidate texts. Its "neighbours" are therefore adjacent hits, not adjacent
  places in a document (`VectorStoreManager.RankNeighboursMerge`).
- **The normaliser's docstring example is wrong.** It promises `'E 22_2 / E 22_2 B'` for
  `'E22.2/E22.2B'`. The code gives `'E 22_2/E 22_2 B'` (`NormalizeTokens.E222Instance`),
  and the model follows the code.
- **The "consistent casing" comment is not implemented.** Letter case is never changed
  (`NormalizeTokens.NormalizeKeepsCase`).

## Model

| member | source | states |
|---|---|---|
| Manifest.EmptyDict | backend/main/utils/manifest_helper.py:20 | the empty manifest `{}` is well formed and maps no key |
| Manifest.Without | backend/main/utils/manifest_helper.py:56 | popping a key from the key order removes exactly that key and keeps the order duplicate-free |
| Manifest.Put | backend/main/utils/manifest_helper.py:41-48 | `manifest[s3_key] = {...}` maps the key to the new entry, other keys untouched, key order still lists each key once |
| Manifest.Pop | backend/main/utils/manifest_helper.py:56 | `manifest.pop(key, None)` removes the key if present and ignores an absent one |
| Manifest.PopAll | backend/main/utils/manifest_helper.py:55-56 | popping a list of keys keeps the dictionary well formed |
| Manifest.PutSetsOnlyKey | backend/main/utils/manifest_helper.py:40-49 | after an upsert the key holds the new entry, and every other key is present iff it was before, with the same entry |
| Manifest.PutTwiceLastWins | backend/main/utils/manifest_helper.py:41 | a second update of the same key overwrites the first: last write wins |
| Manifest.PopAllRemovesExactly | backend/main/utils/manifest_helper.py:54-57 | removing a list deletes exactly the listed keys, ignores absent ones and leaves every other entry unchanged |
| Manifest.KeysNotInSpec | backend/main/utils/manifest_helper.py:66 | the comprehension yields exactly the keys not in `current_keys`, as a subsequence of the manifest order |
| Manifest.PruneSpec | backend/main/utils/manifest_helper.py:65-72 | the stale keys are exactly the manifest keys not in `current_keys`, in manifest order; afterwards every remaining key is current and every kept entry unchanged |
| Manifest.ManifestFile.Loaded | backend/main/utils/manifest_helper.py:12-20 | what loading yields is always a well-formed dictionary |
| Manifest.ManifestFile.Missing | backend/main/utils/manifest_helper.py:14 | a missing manifest file loads as the empty dictionary |
| Manifest.ManifestFile.Load | backend/main/utils/manifest_helper.py:12-20 | a missing file or one that fails to parse yields `{}`; otherwise the stored dictionary |
| Manifest.ManifestFile.Save | backend/main/utils/manifest_helper.py:23-29 | the file is rewritten wholesale with the given dictionary |
| Manifest.ManifestFile.UpdateEntry | backend/main/utils/manifest_helper.py:32-49 | the new file is the loaded manifest with the key set to (hash, timestamp, chunk count, embedding count, size, source) |
| Manifest.ManifestFile.RemoveKeys | backend/main/utils/manifest_helper.py:52-57 | the pop loop leaves exactly the loaded entries whose keys were not listed, unchanged, and saves them |
| Manifest.ManifestFile.Prune | backend/main/utils/manifest_helper.py:60-72 | returns the stale keys and the pruned manifest; the file is rewritten only when some key was stale, otherwise it and the returned manifest are unchanged |
| FileSystem.Disk.constructor | backend/main/retrieval/vector_store/index_builder.py:30-38 | a file system holding the given ordinary files and no index or metadata files |
| FileSystem.Disk.Remove | backend/main/retrieval/vector_store/index_builder.py:25 | `os.remove` deletes the path, and raises FileNotFoundError when it is missing; nothing else changes |
| PyPath.PathJoin | backend/main/utils/s3_helper.py:27 | `os.path.join`: an absolute second part replaces the first, otherwise the result ends with the second part |
| PyPath.RFind | main/retrieval/vector_store/faiss_indexer.py:61 | the last index of the character, or -1 when it is absent |
| PyPath.SplitExtRoot | main/retrieval/vector_store/faiss_indexer.py:61 | `os.path.splitext(p)[0]` is a prefix of `p` |
| PyPath.IndexSuffixRoot | main/retrieval/vector_store/faiss_indexer.py:60-62 | for a path `<stem>.index` the root is the stem, so the derived index path is the path itself |
| S3Helper.PdfKeys | backend/main/utils/s3_helper.py:12-14 | the PDF filter never lengthens the listing |
| S3Helper.PdfKeysAppend | backend/main/utils/s3_helper.py:11-14 | filtering a listing page by page is filtering it whole |
| S3Helper.PdfKeysMembership | backend/main/utils/s3_helper.py:13 | a key is listed iff it is in the bucket listing and its lower-cased name ends in ".pdf" |
| S3Helper.UpperCaseExtensionListed | backend/main/utils/s3_helper.py:13 | an upper-case ".PDF" extension is accepted |
| S3Helper.ListPdfsInBucket | backend/main/utils/s3_helper.py:6-15 | the page loop keeps exactly the PDF keys of all pages, in listing order |
| S3Helper.DownloadPdf | backend/main/utils/s3_helper.py:18-42 | the result and the new files are those of `DownloadResult`/`FilesAfterDownload`: sample path without S3, NotImplementedError for mode "none", the object fetched only when the cache path is missing, "::ephemeral" appended in ephemeral mode |
| S3Helper.LocalModeUsesSampleDir | backend/main/utils/s3_helper.py:26-27 | with USE_S3 false the result is join(SAMPLE_DIR, key) for every cache mode and nothing is written |
| S3Helper.DownloadedFileIsCached | backend/main/utils/s3_helper.py:29-42 | a successful S3 download is not in mode "none", leaves the object's bytes at join(CACHE_DIR, key) (an existing copy is kept) and returns that path, with "::ephemeral" exactly in ephemeral mode |
| S3Helper.DownloadIdempotent | backend/main/utils/s3_helper.py:34-37 | a repeated call returns the same result and writes nothing more |
| S3Helper.EphemeralSuffixBorderFree | backend/main/utils/s3_helper.py:40 | "::ephemeral" has no proper prefix that is also a suffix, so its occurrences cannot overlap |
| S3Helper.EphemeralMarkerStrips | backend/main/retrieval/vector_store/index_builder.py:24 | removing "::ephemeral" from a returned ephemeral path recovers the cache path, for keys that do not themselves contain the marker |
| S3Helper.DownloadPdfStream | backend/main/utils/s3_helper.py:45-49 | the object's bytes when the key exists, NoSuchKey otherwise |
| S3Helper.HashFile | backend/main/utils/s3_helper.py:52-57 | feeding the file in 8192-byte blocks until an empty read hashes the whole file; a missing file raises FileNotFoundError |
| IndexBuilder.ListPdfFiles | main/utils/pdf_helper.py:9-17 | the listing is the bucket's PDF keys on S3, the sample directory's PDF names otherwise, and every listed key ends in ".pdf" in some letter case |
| IndexBuilder.CleanupIfEphemeral | backend/main/retrieval/vector_store/index_builder.py:22-27 | a path ending in "::ephemeral" has its unmarked form deleted (a failed deletion is only logged); any other path deletes nothing |
| IndexBuilder.CleanupOfDownloadedPath | backend/main/retrieval/vector_store/index_builder.py:22-27 | cleaning up a marked cache path deletes exactly the cache path; an unmarked path deletes nothing |
| IndexBuilder.CachePaths | backend/main/retrieval/vector_store/index_builder.py:31-32 | the cache paths are exactly join(CACHE_DIR, key) for the pruned keys |
| IndexBuilder.CleanupStaleCache | backend/main/retrieval/vector_store/index_builder.py:30-38 | every pruned key's cached copy is deleted if present, and no other file |
| IndexBuilder.DownloadStep | backend/main/retrieval/vector_store/index_builder.py:49-50 | one `download_pdf` outside mode "none": the unmarked path is the key's path, only that path may be added, and cleanup deletes it exactly in ephemeral mode on S3 |
| IndexBuilder.SelectStepFrame | backend/main/retrieval/vector_store/index_builder.py:43-58 | one selection step changes no file but its own key's |
| IndexBuilder.SelectStepKeys | backend/main/retrieval/vector_store/index_builder.py:54-55 | one step appends its key exactly when forced, not in the manifest, or the stored hash differs from the file's hash |
| IndexBuilder.SelectErrorSticks | backend/main/retrieval/vector_store/index_builder.py:49-51 | an exception in the selection loop ends the whole call |
| IndexBuilder.SelectKey | backend/main/retrieval/vector_store/index_builder.py:44-58 | one key's iteration extends the selection exactly as one more key of `SelectFrom` does, or raises its exception |
| IndexBuilder.GetKeysToIndex | backend/main/retrieval/vector_store/index_builder.py:41-59 | the loop returns the selection `SelectFrom` defines, or its first exception, and leaves the files as `SelectFrom` says |
| IndexBuilder.NoneModeSelectsAll | backend/main/retrieval/vector_store/index_builder.py:44-47 | in mode "none" every key is selected in order and no file is touched |
| IndexBuilder.SelectFrame | backend/main/retrieval/vector_store/index_builder.py:41-59 | the selection loop touches no file other than the paths of the keys it visits |
| IndexBuilder.SelectionIsFilter | backend/main/retrieval/vector_store/index_builder.py:42-59 | outside mode "none" the selection is exactly the keys that are forced, new, or hash differently, in listing order; every key had its file |
| IndexBuilder.SelectStepKeepsFile | backend/main/retrieval/vector_store/index_builder.py:54-58 | after one step the key's file remains iff it was selected or the run is not ephemeral on S3 |
| IndexBuilder.SelectSplit | backend/main/retrieval/vector_store/index_builder.py:43 | a successful run is a successful run of a prefix followed by the rest |
| IndexBuilder.SkippedKeysCleanedUp | backend/main/retrieval/vector_store/index_builder.py:56-58 | skipped keys lose their ephemeral copy and selected keys keep theirs |
| IndexBuilder.SelectedFromKeys | backend/main/retrieval/vector_store/index_builder.py:46-55 | only listed keys are selected |
| IndexBuilder.RecordEntry | backend/main/retrieval/vector_store/index_builder.py:88-98 | the manifest upsert keeps the manifest well formed |
| IndexBuilder.IndexStep | backend/main/retrieval/vector_store/index_builder.py:83-98 | one result-loop iteration keeps the manifest well formed |
| IndexBuilder.IndexFrom | backend/main/retrieval/vector_store/index_builder.py:83-98 | the result loop keeps the manifest well formed |
| IndexBuilder.IndexErrorSticks | backend/main/retrieval/vector_store/index_builder.py:84 | an exception from a future ends `index_files` |
| IndexBuilder.Task | backend/main/retrieval/vector_store/index_builder.py:69-79 | the per-file worker streams and processes the bytes in mode "none", otherwise downloads, processes the unmarked path and cleans up an ephemeral copy |
| IndexBuilder.IndexKey | backend/main/retrieval/vector_store/index_builder.py:84-98 | one key's task and manifest update extend the gathered chunks, embeddings, files and manifest exactly as one more key of `IndexFrom` does, or raise its exception |
| IndexBuilder.IndexFiles | backend/main/retrieval/vector_store/index_builder.py:62-100 | the loop returns the chunks and embeddings `IndexFrom` gathers, leaves the files and manifest it defines, and in mode "none" never writes the manifest |
| IndexBuilder.IndexStepFacts | backend/main/retrieval/vector_store/index_builder.py:84-98 | one step appends the key's chunks and embeddings, and outside mode "none" upserts an entry with their counts, the run's timestamp and source "s3" |
| IndexBuilder.IndexSnoc | backend/main/retrieval/vector_store/index_builder.py:83 | a run over keys is a run over all but the last followed by one step |
| IndexBuilder.IndexedInKeyOrder | backend/main/retrieval/vector_store/index_builder.py:81-86 | the gathered chunks and embeddings are exactly each key's, concatenated in key order |
| IndexBuilder.IndexRecordsEveryKey | backend/main/retrieval/vector_store/index_builder.py:88-98 | outside mode "none" every processed key's entry records its chunk and embedding counts, timestamp and source "s3"; every other entry is unchanged |
| IndexBuilder.StreamingTouchesNothing | backend/main/retrieval/vector_store/index_builder.py:70-88 | in mode "none" the run succeeds iff the bucket holds every key, and changes neither files nor manifest |
| IndexBuilder.EphemeralRunFails | backend/main/retrieval/vector_store/index_builder.py:74-96 | in ephemeral mode on S3 the per-file worker deletes the copy that the result loop then hashes, so any non-empty run fails on its first key |
| IndexBuilder.IndexManifestKeys | backend/main/retrieval/vector_store/index_builder.py:91 | only indexed keys gain a manifest entry |
| IndexBuilder.LocalRunNeedsCachedCopy | backend/main/retrieval/vector_store/index_builder.py:89-96 | with USE_S3 false the result loop still hashes join(CACHE_DIR, key), so a key without a cached copy fails with FileNotFoundError |
| IndexBuilder.FinalizeIndex | backend/main/retrieval/vector_store/index_builder.py:103-112 | no chunks or no embeddings gives None and writes nothing; otherwise the build succeeds iff the embeddings are rectangular (else ValueError), and the index holds the embeddings with the chunks as metadata, saved to the paired paths |
| IndexBuilder.ReuseSavedIndex | backend/main/retrieval/vector_store/index_builder.py:131-137 | the saved index is loaded when its path exists, else None |
| IndexBuilder.IndexAndFinalize | backend/main/retrieval/vector_store/index_builder.py:142-144 | the new index holds exactly the selected keys' chunks and embeddings in key order, and is None when nothing is selected |
| IndexBuilder.SelectThenIndex | backend/main/retrieval/vector_store/index_builder.py:129-144 | the selected keys are the selection rule run over the listing from the pruned manifest; nothing selected and nothing pruned reuses the saved index; nothing selected after a prune gives None and no new files; otherwise the new index holds exactly the selected keys' chunks and embeddings |
| IndexBuilder.BuildGlobalIndex | backend/main/retrieval/vector_store/index_builder.py:115-144 | empty listing gives None and changes nothing; stale keys are pruned; nothing selected and nothing pruned reuses the saved index; a prune-only run gives None; otherwise the index is built from the selected keys only |
| IndexBuilder.Excluded | backend/main/retrieval/vector_store/index_builder.py:149 | `set(exclude_keys or [])` holds exactly the listed exclusions |
| IndexBuilder.Unexcluded | backend/main/retrieval/vector_store/index_builder.py:151 | the keys to index are exactly the listed keys not excluded |
| IndexBuilder.FetchStep | backend/main/retrieval/vector_store/index_builder.py:166-169 | one download iteration adds one result |
| IndexBuilder.FetchAll | backend/main/retrieval/vector_store/index_builder.py:166-169 | the download loop adds one result per key |
| IndexBuilder.FetchErrorSticks | backend/main/retrieval/vector_store/index_builder.py:167 | a download exception ends `rebuild_index` |
| IndexBuilder.RebuildStep | backend/main/retrieval/vector_store/index_builder.py:171-186 | one result iteration keeps the manifest well formed |
| IndexBuilder.RecordAll | backend/main/retrieval/vector_store/index_builder.py:171-186 | the result loop keeps the manifest well formed |
| IndexBuilder.RecordErrorSticks | backend/main/retrieval/vector_store/index_builder.py:180 | an exception in the result loop ends the call |
| IndexBuilder.RebuildGather | backend/main/retrieval/vector_store/index_builder.py:164-186 | both loops keep the manifest well formed |
| IndexBuilder.RebuildIndex | backend/main/retrieval/vector_store/index_builder.py:147-195 | indexes every listed key not excluded; nothing left gives None and changes nothing; no chunks or embeddings gives None; otherwise the index holds the gathered chunks and embeddings |
| IndexBuilder.FetchResults | backend/main/retrieval/vector_store/index_builder.py:164-169 | the download loop returns the results `FetchAll` defines and leaves its files |
| IndexBuilder.RecordResults | backend/main/retrieval/vector_store/index_builder.py:171-186 | the result loop returns what `RecordAll` gathers and leaves its files and manifest |
| IndexBuilder.FetchStepOutput | backend/main/retrieval/vector_store/index_builder.py:167-169 | one download step appends what `process_file` makes of the key's file |
| IndexBuilder.FetchSnoc | backend/main/retrieval/vector_store/index_builder.py:166 | a download run is a run over all but the last key followed by one step |
| IndexBuilder.Outputs | backend/main/retrieval/vector_store/index_builder.py:169 | one output per key |
| IndexBuilder.FetchOutputs | backend/main/retrieval/vector_store/index_builder.py:166-169 | the download loop's results are each key's `process_file` output, in key order |
| IndexBuilder.RecordInKeyOrder | backend/main/retrieval/vector_store/index_builder.py:171-174 | the result loop concatenates the keys' chunks and embeddings in key order |
| IndexBuilder.RebuildInKeyOrder | backend/main/retrieval/vector_store/index_builder.py:164-174 | `rebuild_index` gathers every key's chunks and embeddings in key order |
| IndexBuilder.FetchKeepsCopies | backend/main/retrieval/vector_store/index_builder.py:167 | downloading keeps every file and leaves each key's cached copy on S3 |
| IndexBuilder.RecordDeletesNothing | backend/main/retrieval/vector_store/index_builder.py:186 | `cleanup_if_ephemeral` on the unmarked cache path deletes nothing |
| IndexBuilder.RebuildKeepsCopies | backend/main/retrieval/vector_store/index_builder.py:167-186 | `rebuild_index` leaves every key's cached copy in place, even in ephemeral mode |
| IndexBuilder.RebuildCannotStream | backend/main/retrieval/vector_store/index_builder.py:167 | on S3 in mode "none" the first `download_pdf` raises NotImplementedError |
| FileProcessor.ProcessFile | backend/main/pipeline/file_processor.py:12-42 | chunks are empty exactly when embeddings are; a non-empty result is the extract, preprocess, chunk, embed chain run on the file |
| FileProcessor.StageFailureGivesNothing | backend/main/pipeline/file_processor.py:40-42 | an exception in any stage gives two empty lists |
| FileProcessor.BlankTextSkipsLaterStages | backend/main/pipeline/file_processor.py:16-18 | blank extracted text gives two empty lists whatever the later stages would do |
| FileProcessor.NoChunksSkipsEmbedding | backend/main/pipeline/file_processor.py:24-26 | no chunks gives two empty lists and the embedder is never consulted |
| FileProcessor.SuccessIsTheStageChain | backend/main/pipeline/file_processor.py:15-38 | when every stage succeeds with non-blank text, chunks and embeddings, the result is exactly those chunks and embeddings |
| FileProcessor.EqualLengthsWithFaithfulEmbedder | backend/main/pipeline/file_processor.py:28-38 | with an embedder that returns one vector per chunk, the two lists have the same length |
| FaissIndexer.FlattenBounds | main/retrieval/vector_store/faiss_indexer.py:28-32 | faiss returns k pairs per query row, each id either -1 or a stored row |
| FaissIndexer.CollectSpec | main/retrieval/vector_store/faiss_indexer.py:31-35 | every result pairs the text of some returned id with that id's score, and there are no more results than pairs |
| FaissIndexer.CollectAllPadding | main/retrieval/vector_store/faiss_indexer.py:33-34 | pairs that are all -1 padding give no results |
| FaissIndexer.FlattenAppend | main/retrieval/vector_store/faiss_indexer.py:31 | walking query rows in order concatenates their pairs |
| FaissIndexer.CollectErrorSticks | main/retrieval/vector_store/faiss_indexer.py:35 | an IndexError on a pair ends the search |
| FaissIndexer.FlattenSplit | main/retrieval/vector_store/faiss_indexer.py:31-32 | the pairs are those of the earlier rows, this row, then the later rows |
| FaissIndexer.SearchStopsAtError | main/retrieval/vector_store/faiss_indexer.py:31-35 | once a pair raises, the whole search raises that error |
| FaissIndexer.SearchResultFacts | main/retrieval/vector_store/faiss_indexer.py:22-37 | with one text per stored row the search cannot fail; it returns at most k results per query row, each a stored text |
| FaissIndexer.CollectSnoc | main/retrieval/vector_store/faiss_indexer.py:33-35 | one more pair: -1 is skipped, an id out of Python's index range raises IndexError, any other id (negative ones counted from the end) appends its text and score |
| FaissIndexer.FlattenSnoc | main/retrieval/vector_store/faiss_indexer.py:31 | the pairs of the first q+1 rows are those of the first q followed by row q's |
| FaissIndexer.FaissStore.constructor | main/retrieval/vector_store/faiss_indexer.py:8-12 | an empty index of the given dimension and no texts |
| FaissIndexer.FaissStore.Add | main/retrieval/vector_store/faiss_indexer.py:14-20 | rows of another width raise ValueError and change nothing; otherwise the rows are appended to the index and the documents to the texts, keeping one text per row when the counts agree |
| FaissIndexer.FaissStore.Search | main/retrieval/vector_store/faiss_indexer.py:22-37 | the results are the non-padding pairs' texts and scores in order; with one text per row the search succeeds with at most k results per query row, each a stored text |
| FaissIndexer.FaissStore.Save | main/retrieval/vector_store/faiss_indexer.py:39-41 | the index is written at its path and the texts at the path with ".npy" added when missing; nothing else changes |
| FaissIndexer.FaissStore.Load | main/retrieval/vector_store/faiss_indexer.py:43-48 | a missing index or metadata file raises FileNotFoundError and changes nothing; otherwise both are read back |
| FaissIndexer.NpyPath | main/retrieval/vector_store/faiss_indexer.py:41 | `np.save` writes to a path ending in ".npy", the given one when it already ends so |
| FaissIndexer.SaveThenLoad | main/retrieval/vector_store/faiss_indexer.py:39-48 | saving to an ".npy" metadata path and loading from the same paths returns the same index and texts |
| FaissIndexer.IndexFilePaths | main/retrieval/vector_store/faiss_indexer.py:61-68 | the index and metadata files are the path's root plus ".index" and ".metadata.npy" |
| FaissIndexer.IndexPathIsKept | main/retrieval/vector_store/faiss_indexer.py:61-62 | a path already ending in ".index" keeps its name |
| FaissIndexer.BuildFaissIndex | main/retrieval/vector_store/faiss_indexer.py:53-58 | no embeddings raises IndexError, ragged rows raise ValueError; otherwise a new store of the rows' width holding them and the documents |
| FaissIndexer.SaveFaissIndex | main/retrieval/vector_store/faiss_indexer.py:60-62 | the index and texts are written to the paired paths and nothing else changes |
| FaissIndexer.LoadFaissIndex | main/retrieval/vector_store/faiss_indexer.py:64-69 | loads iff both paired files exist, into a new store of dimension 384; otherwise FileNotFoundError |
| FaissIndexer.SaveThenLoadFaissIndex | main/retrieval/vector_store/faiss_indexer.py:60-69 | saving then loading returns the same index and texts, in a store of dimension 384 |
| FaissIndexer.QueryFaissIndex | main/retrieval/vector_store/faiss_indexer.py:71-75 | the query's pairs become texts and scores; with one text per row it succeeds with at most k stored texts |
| MergeUtils.IndexOf | main/retrieval/rerankers/merge_utils.py:19-23 | `list.index`: the first position holding the text, None (ValueError) exactly when it is absent |
| MergeUtils.Found | main/retrieval/rerankers/merge_utils.py:17-23 | one position per result whose text is a chunk, each a valid chunk index |
| MergeUtils.FoundMembership | main/retrieval/rerankers/merge_utils.py:17-23 | a position is found iff it is the first position of some result's text |
| MergeUtils.Ascending | main/retrieval/rerankers/merge_utils.py:25 | `sorted(set(...))`: strictly ascending and holding exactly the set's members |
| MergeUtils.Centres | main/retrieval/rerankers/merge_utils.py:25 | the centres are the found positions, strictly ascending and each a chunk index |
| MergeUtils.Range | main/retrieval/rerankers/merge_utils.py:53 | `range(start, end)` holds exactly the integers from start up to end |
| MergeUtils.MergeAdjacentChunks | main/retrieval/rerankers/merge_utils.py:8-55 | the loop returns the passages the merge as written defines: at most one per centre, none for no results |
| MergeUtils.RankedIndices | main/retrieval/rerankers/merge_utils.py:17-25 | the ranked indices are the centres |
| MergeUtils.MergeWindows | main/retrieval/rerankers/merge_utils.py:26-53 | the window loop yields the passages of the fold over the ranked indices |
| MergeUtils.MergeCentre | main/retrieval/rerankers/merge_utils.py:28-53 | one iteration leaves the passages, covered positions and last end that `MergeStep` defines: a covered centre changes nothing, any other appends its window and covers it |
| MergeUtils.MergeCount | main/retrieval/rerankers/merge_utils.py:28-52 | the fold only appends, at most one passage per centre |
| MergeUtils.UsedGrows | main/retrieval/rerankers/merge_utils.py:53 | the used set only grows |
| MergeUtils.CoveredCentresSkipped | main/retrieval/rerankers/merge_utils.py:29-30 | centres already used add nothing and change nothing |
| MergeUtils.PlainWindowIsRun | main/retrieval/rerankers/merge_utils.py:33-42 | for a centre in the list the plain window is the newline-joined run from w chunks before it to w after it, clipped to the list |
| MergeUtils.PlainWindows | main/retrieval/rerankers/merge_utils.py:33-42 | without proximity merging each passage is PlainWindow(chunks, w, c) of some centre c; no requires on the centres |
| MergeUtils.CorrectionOnlyAffectsProximity | main/retrieval/rerankers/merge_utils.py:37-38 | without proximity merging the corrected and as-written merges agree |
| MergeUtils.MergedPassagesAreRuns | main/retrieval/rerankers/merge_utils.py:33-42 | in the corrected merge every passage is the joined text of a run of chunks containing some found centre |
| MergeUtils.CorrectedStepHoldsCentre | main/retrieval/rerankers/merge_utils.py:33-52 | a corrected step on an unused centre appends exactly one passage, which holds the centre |
| MergeUtils.CorrectedPassagesHoldCentres | main/retrieval/rerankers/merge_utils.py:28-53 | every passage the corrected fold appends holds one of the centres |
| MergeUtils.OverlappingWindows | main/retrieval/rerankers/merge_utils.py:28-53 | centres 3 and 5 with window 1 give two passages that share chunk "e" |
| MergeUtils.ThreePassagesForFourCentres | main/retrieval/rerankers/merge_utils.py:28-53 | centres 3, 4, 5, 9 with window 1: centre 4 is already used and adds nothing, so three passages |
| MergeUtils.SingleResultCentre | main/retrieval/rerankers/merge_utils.py:17-25 | a single result naming the first chunk has the one centre 0 |
| MergeUtils.ProximityEmptiesFirstWindow | main/retrieval/rerankers/merge_utils.py:26-38 | with proximity merging the first window starts at -1, so the slice is empty and the passage is ""; the corrected merge gives "a\nb" |
| VectorStoreManager.CandidateDocs | backend/main/retrieval/vector_store/vector_store_manager.py:18-19 | the candidates are the hits' non-empty texts, no more than the hits |
| VectorStoreManager.CandidateDocsMembership | backend/main/retrieval/vector_store/vector_store_manager.py:18 | a text is a candidate iff it is non-empty and some hit carries it |
| VectorStoreManager.MaxScore | backend/main/retrieval/vector_store/vector_store_manager.py:27 | the largest score: no hit scores more and some hit scores exactly it |
| VectorStoreManager.Retrieve | backend/main/retrieval/vector_store/vector_store_manager.py:14-34 | no hits gives nothing; without a reranker, some hit at or above the threshold gives the merged hits, none gives nothing; at most one passage per candidate, each a run of candidates around a found centre |
| VectorStoreManager.DefaultMergeIsAsWritten | backend/main/retrieval/vector_store/vector_store_manager.py:21-34 | without proximity merging retrieval gives the as-written merge of the reranked or raw hits, or nothing below the threshold |
| VectorStoreManager.TwoHitCentres | backend/main/retrieval/vector_store/vector_store_manager.py:18-19 | the hits "x" and "y" name the candidate positions 0 and 1 |
| VectorStoreManager.RankNeighboursMerge | backend/main/retrieval/vector_store/vector_store_manager.py:27-31 | two hits above the threshold with window 1 merge into the one passage "x\ny" |
| VectorStoreManager.RetrieveRelevantDocs | backend/main/retrieval/vector_store/vector_store_manager.py:11-34 | fails exactly when the search raises; otherwise returns what `Retrieve` gives for the search results, and cannot fail on a store with one text per row |
| VectorStoreManager.RerankerIgnoresThreshold | backend/main/retrieval/vector_store/vector_store_manager.py:21-25 | with a reranker the score threshold is never consulted |
| PipelineCore.NewPipeline | backend/main/pipeline_core.py:16-26 | the retriever type is the first non-empty of the argument, the configured type and "faiss"; top-k 40, top-n 10 and threshold 0.2 come from the configuration |
| PipelineCore.RefreshIndex | backend/main/pipeline_core.py:29-35 | the retriever's index is returned exactly when it has an `index` attribute that is not None |
| PipelineCore.EffectiveTopK | backend/main/pipeline_core.py:39 | `top_k or self.top_k_faiss`: None and 0 fall back, any other value is kept |
| PipelineCore.QueryKnowledgeBase | backend/main/pipeline_core.py:38-55 | the result is non-empty exactly when retrieval succeeds with a non-empty list, and is then that list; failures and empty answers give [] |
| PipelineCore.ZeroTopKFallsBack | backend/main/pipeline_core.py:39 | a top-k of 0 asks for the same as none, which asks for `top_k_faiss` |
| PipelineCore.QuickReply | backend/main/pipeline_core.py:64-74 | every quick intent has a non-empty reply; "empty" falls back to the default response |
| PipelineCore.GenerateResponse | backend/main/pipeline_core.py:58-83 | a quick intent gets its reply; otherwise no documents gives the apology, and documents give the model's answer to the prompt built from their "\n\n"-joined text |
| PipelineCore.PromptHoldsEveryDoc | backend/main/pipeline_core.py:81-82 | the prompt opens with the instructions and contains every retrieved document |
| PipelineCore.QuickRepliesSkipRetrieval | backend/main/pipeline_core.py:73-74 | for a quick intent neither the retriever nor the model is consulted |
| PipelineCore.PromptHoldsContext | backend/main/pipeline_core.py:82 | the prompt contains the context |
| PipelineCore.JoinHoldsParts | backend/main/pipeline_core.py:81 | a joined string contains each of its parts |
| LegacyIndexBuilder.IndexedSet.constructor | main/retrieval/vector_store/index_builder.py:33 | the manifest holds the given set of file names |
| LegacyIndexBuilder.SetOf | main/retrieval/vector_store/index_builder.py:69-107 | `set(files)` holds exactly the listed files |
| LegacyIndexBuilder.FilesToIndex | main/retrieval/vector_store/index_builder.py:29-34 | forced: every listed file in order; otherwise exactly the listed files not yet indexed |
| LegacyIndexBuilder.Processed | main/retrieval/vector_store/index_builder.py:50-56 | no files give no chunks and no embeddings |
| LegacyIndexBuilder.ProcessedSnoc | main/retrieval/vector_store/index_builder.py:52-56 | one more file appends that file's chunks and embeddings |
| LegacyIndexBuilder.ProcessedAppend | main/retrieval/vector_store/index_builder.py:51-56 | processing two lists concatenates their results |
| LegacyIndexBuilder.ProcessedAligned | main/retrieval/vector_store/index_builder.py:50-56 | with a one-vector-per-chunk embedder the two lists have equal length |
| LegacyIndexBuilder.ProcessFiles | main/retrieval/vector_store/index_builder.py:44-56 | the loop gathers every file's chunks and embeddings in file order |
| LegacyIndexBuilder.BuildGlobalIndex | main/retrieval/vector_store/index_builder.py:22-72 | no files gives None; nothing new reuses the saved index or gives None; otherwise the index holds the new files' chunks and embeddings, and the manifest gains the new files only when not forced and an index was built |
| LegacyIndexBuilder.RebuildIndex | main/retrieval/vector_store/index_builder.py:75-109 | nothing left after exclusions gives None; otherwise the index holds the remaining files' chunks and embeddings, and the manifest becomes exactly those files once an index was built |
| LegacyVectorStoreManager.FilePath | main/retrieval/vector_store/vector_store_manager.py:39-45 | on S3 Textract reads the key itself and other extractors a downloaded copy (a missing key fails); locally the sample directory joined with the name |
| LegacyVectorStoreManager.FileStep | main/retrieval/vector_store/vector_store_manager.py:38-72 | chunks are empty exactly when embeddings are; non-empty output is the extract, chunk, embed chain of non-blank text |
| LegacyVectorStoreManager.AccumulatedSnoc | main/retrieval/vector_store/vector_store_manager.py:38-72 | one more file combines the accumulated result with that file's |
| LegacyVectorStoreManager.AccumulatedUnfold | main/retrieval/vector_store/vector_store_manager.py:38 | a non-empty listing is its prefix followed by its last file |
| LegacyVectorStoreManager.AccumulatedAppend | main/retrieval/vector_store/vector_store_manager.py:38-72 | two listings combine their results |
| LegacyVectorStoreManager.SkippedFileChangesNothing | main/retrieval/vector_store/vector_store_manager.py:50-64 | a skipped file leaves the accumulated result as if it were not listed |
| LegacyVectorStoreManager.BlankTextIsSkipped | main/retrieval/vector_store/vector_store_manager.py:50-52 | blank text is skipped |
| LegacyVectorStoreManager.TextractStepIgnoresBucket | main/retrieval/vector_store/vector_store_manager.py:40-41 | with Textract on S3 a file's step does not depend on the bucket's downloadable contents |
| LegacyVectorStoreManager.TextractReadsKeysDirectly | main/retrieval/vector_store/vector_store_manager.py:39-41 | with Textract on S3 the whole loop does not depend on the bucket's downloadable contents |
| LegacyVectorStoreManager.ProcessListing | main/retrieval/vector_store/vector_store_manager.py:38-72 | the loop returns the accumulated result of the listing |
| LegacyVectorStoreManager.BuildGlobalIndex | main/retrieval/vector_store/vector_store_manager.py:22-83 | an existing index is loaded unless forced; no files gives None; otherwise the index holds the accumulated chunks and embeddings and is saved |
| LegacyVectorStoreManager.LegacyRetrieve | main/retrieval/vector_store/vector_store_manager.py:87-104 | no hits gives nothing; never an empty text; without a reranker the candidates when some score reaches the threshold, else nothing; with one, the reranked non-empty texts |
| LegacyVectorStoreManager.RetrieveRelevantDocs | main/retrieval/vector_store/vector_store_manager.py:87-104 | fails exactly when the search raises; otherwise what `LegacyRetrieve` gives, every text a stored one without a reranker |
| TextChunker.LimitNewlines | backend/main/chunker/text_chunker.py:26 | empty exactly when the input is, and starts with a newline exactly when the input does |
| TextChunker.LimitNewlinesAddsOnlyNewlines | backend/main/chunker/text_chunker.py:26 | the rewrite brings in no character but newlines |
| TextChunker.LimitNewlinesKeepsBlanksCollapsed | backend/main/chunker/text_chunker.py:25-26 | collapsed runs of spaces and tabs stay collapsed |
| TextChunker.LimitNewlinesLimits | backend/main/chunker/text_chunker.py:26 | the result never holds three newlines in a row |
| TextChunker.PrepareForChunking | backend/main/chunker/text_chunker.py:11-28 | the prepared text is empty or starts and ends with a non-whitespace character |
| TextChunker.ReplaceRemovesChar | backend/main/chunker/text_chunker.py:13 | replacing every carriage return by text without one leaves none |
| TextChunker.SliceKeepsNormalised | backend/main/chunker/text_chunker.py:28 | any slice of normalised text is normalised |
| TextChunker.StripKeepsNormalised | backend/main/chunker/text_chunker.py:28 | stripping keeps text normalised |
| TextChunker.CollapsedIsNormalised | backend/main/chunker/text_chunker.py:25-26 | collapsing blanks then newlines in text without carriage returns gives text with single spaces, no tabs and no triple newline |
| TextChunker.NormalisedHasSingleSpaces | backend/main/chunker/text_chunker.py:25 | normalised text has no tab and no two spaces in a row |
| TextChunker.PreparedTextShape | backend/main/chunker/text_chunker.py:11-28 | prepared text has no carriage return, no tab, no double space, no triple newline and no whitespace at either end |
| TextChunker.StripAll | backend/main/chunker/text_chunker.py:58-81 | each chunk, stripped, in order |
| TextChunker.HeadingEnd | backend/main/chunker/text_chunker.py:80-89 | a heading's run ends at or after `j` and within the chunks |
| TextChunker.HeadingEndStops | backend/main/chunker/text_chunker.py:80-89 | a heading takes in every chunk up to its run's end, and the chunk at the end (if any) cannot be taken in |
| TextChunker.RunEnd | backend/main/chunker/text_chunker.py:76-107 | every run takes at least its own chunk |
| TextChunker.RunRules | backend/main/chunker/text_chunker.py:62-107 | a heading takes in the chunks that are list items or short without a stop; any other chunk takes the next one exactly when it looks like a list, does not end in '.', ':' or ';', and the next starts a list item |
| TextChunker.MergeFrom | backend/main/chunker/text_chunker.py:54-109 | at most one merged chunk per input chunk, and none exactly when no chunks remain |
| TextChunker.RunBounds | backend/main/chunker/text_chunker.py:54-109 | the runs cover the chunks in order without gaps, and each merged chunk is its run joined by newlines |
| TextChunker.AbsorbAfterHeading | backend/main/chunker/text_chunker.py:79-89 | the inner loop stops where the heading's run ends and returns the run joined by newlines |
| TextChunker.MergeRunAt | backend/main/chunker/text_chunker.py:58-107 | one outer iteration returns the run starting at `i` joined by newlines and the index after it |
| TextChunker.MergeHeadingWithFollowingList | backend/main/chunker/text_chunker.py:49-109 | the loop returns the merged chunks, no more than its input |
| TextChunker.MergeKeepsText | backend/main/chunker/text_chunker.py:49-109 | merging loses and adds nothing: the merged chunks joined by newlines are the stripped chunks joined by newlines |
| TextChunker.MergedChunksAreTrimmed | backend/main/chunker/text_chunker.py:85-106 | merging non-blank stripped chunks gives non-blank stripped chunks |
| TextChunker.NonBlankPieces | backend/main/chunker/text_chunker.py:43 | blank pieces are dropped and every kept piece is non-blank and stripped |
| TextChunker.PiecesStayAsTheyAre | backend/main/chunker/text_chunker.py:43-58 | stripping the kept pieces again changes nothing |
| TextChunker.ChunkText | backend/main/chunker/text_chunker.py:31-46 | every chunk has text and no whitespace at either end |
| TextChunker.EmptyTextHasNoChunks | backend/main/chunker/text_chunker.py:31-46 | empty text gives no chunks |
| TextChunker.ShortTextIsOneChunk | backend/main/chunker/text_chunker.py:36-46 | text the splitter leaves whole comes back as the one prepared chunk |
| BedrockCohereReranker.Picked | main/vector_store/bedrock_cohere_reranker.py:39-44 | at most one pair per entry, each pairing a candidate's text with a score |
| BedrockCohereReranker.WithScore | main/vector_store/bedrock_cohere_reranker.py:47 | the pairs with one score, in order |
| BedrockCohereReranker.WithScoreAppend | main/vector_store/bedrock_cohere_reranker.py:47 | selecting by score distributes over concatenation |
| BedrockCohereReranker.Insert | main/vector_store/bedrock_cohere_reranker.py:47 | inserting into a descending list keeps it descending and adds exactly the pair |
| BedrockCohereReranker.SortByScoreDesc | main/vector_store/bedrock_cohere_reranker.py:47 | `sort(key=score, reverse=True)`: descending by score and a permutation of the input |
| BedrockCohereReranker.InsertKeepsTies | main/vector_store/bedrock_cohere_reranker.py:47 | the insertion puts the pair after every pair with the same score |
| BedrockCohereReranker.SortKeepsTies | main/vector_store/bedrock_cohere_reranker.py:47 | the sort is stable: pairs with equal scores keep their order |
| BedrockCohereReranker.SortedIsFixed | main/vector_store/bedrock_cohere_reranker.py:47 | an already descending list is left as it is |
| BedrockCohereReranker.Rerank | main/vector_store/bedrock_cohere_reranker.py:17-51 | a failure gives []; otherwise the pairs of the entries naming a candidate, sorted by descending score, each text a candidate |
| BedrockCohereReranker.PickedCount | main/vector_store/bedrock_cohere_reranker.py:43-44 | exactly one pair per entry that names a candidate |
| PromptBuilder.Conversation | main/llm/prompt_builder.py:5-7 | no history gives the empty conversation |
| PromptBuilder.BuildPrompt | main/llm/prompt_builder.py:1-16 | the prompt opens with the fixed instructions and ends with the context and the question |
| PromptBuilder.ConversationSnoc | main/llm/prompt_builder.py:6-7 | one more exchange appends its numbered turn |
| PromptBuilder.ConversationStartsAtOne | main/llm/prompt_builder.py:6 | turns are numbered from 1 |
| PromptBuilder.PromptLayout | main/llm/prompt_builder.py:9-16 | the prompt is exactly the instructions, then the conversation, then the context and question section |
| TextPreprocessor.FractionMapIsAscii | main/utils/text_preprocessor.py:7-17 | every glyph in the table lies outside ASCII and every replacement is ASCII |
| TextPreprocessor.GlyphsDistinct | main/utils/text_preprocessor.py:7-17 | no glyph appears twice in the table |
| TextPreprocessor.NoGlyphsInEmpty | main/utils/text_preprocessor.py:29-35 | empty text logs no replaced glyph |
| TextPreprocessor.NormalizeDashes | main/utils/text_preprocessor.py:38 | each character from U+2010 to U+2014 becomes '-' and every other character stays, position by position |
| TextPreprocessor.FixPdfSymbols | main/utils/text_preprocessor.py:19-46 | the loop returns the cleaned text and the list of table glyphs that occur in the text, in table order; empty text comes back as it is |
| TextPreprocessor.FractionStep | main/utils/text_preprocessor.py:32-35 | at each turn the glyph occurs in the partly replaced text iff it occurs in the original, and is then replaced and logged |
| TextPreprocessor.SpelledShape | main/utils/text_preprocessor.py:7-17 | a glyph is spelled in ASCII; any other character spells itself |
| TextPreprocessor.SpelledSnoc | main/utils/text_preprocessor.py:32-35 | one more table entry changes only the spelling of its own glyph, if not spelled already |
| TextPreprocessor.ExpandSnoc | main/utils/text_preprocessor.py:32-35 | replacing one more glyph in the expanded text is expanding with one more entry |
| TextPreprocessor.ExpandNothing | main/utils/text_preprocessor.py:32 | an empty table changes nothing |
| TextPreprocessor.ReplaceFractionsIsExpand | main/utils/text_preprocessor.py:32-35 | the sequential replacement loop equals replacing every character by its spelling at once |
| TextPreprocessor.ExpandHasNoGlyph | main/utils/text_preprocessor.py:32-35 | no glyph of the table survives the replacements |
| TextPreprocessor.ExpandMembership | main/utils/text_preprocessor.py:32-35 | a non-ASCII character that is not a glyph is in the result iff it is in the text |
| TextPreprocessor.ExpandIdentity | main/utils/text_preprocessor.py:33 | text without glyphs is left as it is |
| TextPreprocessor.LaterGlyphUntouched | main/utils/text_preprocessor.py:33 | earlier replacements neither add nor remove a later glyph |
| TextPreprocessor.ExpandKeeps | main/utils/text_preprocessor.py:32-35 | characters that are neither glyphs nor used in replacements survive in order |
| TextPreprocessor.SpelledIsReplacement | main/utils/text_preprocessor.py:34 | a glyph's spelling consists of replacement characters |
| TextPreprocessor.DashesKeep | main/utils/text_preprocessor.py:38 | characters other than dashes survive dash normalisation in order |
| TextPreprocessor.DashesIdentity | main/utils/text_preprocessor.py:38 | text without dash variants is left as it is |
| TextPreprocessor.FixedShape | main/utils/text_preprocessor.py:31-41 | the cleaned text holds no fraction glyph, no dash variant, and no run of two blanks |
| TextPreprocessor.FixSpellsFractions | main/utils/text_preprocessor.py:31-41 | for non-empty text the fix is: spell the glyphs, unify the dashes, collapse the blanks |
| TextPreprocessor.FixKeeps | main/utils/text_preprocessor.py:31-41 | characters the fix does not touch survive in order |
| TextPreprocessor.FixKeepsNewlines | main/utils/text_preprocessor.py:31-41 | the fix keeps every newline |
| TextPreprocessor.FixIdempotent | main/utils/text_preprocessor.py:19-46 | fixing fixed text changes nothing |
| TextPreprocessor.SplitTokenAt | main/utils/text_preprocessor.py:55-57 | a match covers the lead, at least one whitespace character and the tail, within the text |
| TextPreprocessor.SubSplitFrom | main/utils/text_preprocessor.py:55-57 | a substitution no longer than its shortest match never lengthens the text |
| TextPreprocessor.SubSplitNoMatch | main/utils/text_preprocessor.py:55-57 | with no match from `i` on the rest of the text is copied |
| TextPreprocessor.NoLeadNoMatch | main/utils/text_preprocessor.py:55-57 | text without the lead digit is left as it is |
| TextPreprocessor.MergeSplitTokensShrinks | main/utils/text_preprocessor.py:49-59 | merging never lengthens the text, and text without '1' or '3' is left as it is |
| TextPreprocessor.RecoverIsMerge | main/utils/text_preprocessor.py:102-110 | `recover_fraction_lines` does exactly what `merge_split_tokens` does |
| TextPreprocessor.SplitHalfExpands | main/utils/text_preprocessor.py:9-35 | "1 ½\"" spells out as "1 1/2\"" |
| TextPreprocessor.FixSpellsSplitHalf | main/utils/text_preprocessor.py:19-46 | `fix_pdf_symbols("1 ½\"")` is "1 1/2\"" |
| TextPreprocessor.QuarterMissesHalf | main/utils/text_preprocessor.py:55 | the quarter pattern does not match "1 1/2\"" |
| TextPreprocessor.HalfJoinsHalf | main/utils/text_preprocessor.py:56 | the half pattern turns "1 1/2\"" into "1½\"" |
| TextPreprocessor.MergeJoinsSplitHalf | main/utils/text_preprocessor.py:49-59 | `merge_split_tokens("1 1/2\"")` is "1½\"" |
| TextPreprocessor.BoundaryBlocksMerge | main/utils/text_preprocessor.py:55 | the word boundary stops "11 1/4\"" from merging |
| TextPreprocessor.PreprocessedShape | main/utils/text_preprocessor.py:62-99 | the cleaned text has no whitespace at either end, no tab and no two spaces together |
| NormalizeTokens.CodeAt | backend/main/utils/normalize_tokens.py:11 | a match at `i` has positive length and ends within the text |
| NormalizeTokens.CodeAtIsCode | backend/main/utils/normalize_tokens.py:11 | a match is a letter, digits, '.', digits and an optional letter, standing between word boundaries |
| NormalizeTokens.CodeAtFindsCode | backend/main/utils/normalize_tokens.py:11 | conversely, every such code between word boundaries is matched |
| NormalizeTokens.SpacedShape | backend/main/utils/normalize_tokens.py:12 | a code becomes letter, space, major, '_', minor, then a space and the suffix only when there is one |
| NormalizeTokens.SpacedKeeps | backend/main/utils/normalize_tokens.py:12 | the replacement keeps every character of the code except the dot, in order |
| NormalizeTokens.SubCodesKeeps | backend/main/utils/normalize_tokens.py:11-12 | the substitution keeps every character that is not whitespace, '.' or '_', in order |
| NormalizeTokens.NormalizeKeeps | backend/main/utils/normalize_tokens.py:3-16 | normalising keeps every character that is not whitespace, '.' or '_', in order |
| NormalizeTokens.NormalizeKeepsCase | backend/main/utils/normalize_tokens.py:14-15 | no letter changes case: the letters come out exactly as they went in |
| NormalizeTokens.SubCodesNone | backend/main/utils/normalize_tokens.py:12 | text without matches passes the substitution unchanged |
| NormalizeTokens.NoCodeOnlyWhitespace | backend/main/utils/normalize_tokens.py:11-15 | text without codes only has its whitespace collapsed and stripped |
| NormalizeTokens.NormalizedShape | backend/main/utils/normalize_tokens.py:15 | the result has no whitespace at either end and only single spaces inside |
| NormalizeTokens.TwoCodes | backend/main/utils/normalize_tokens.py:11-12 | two codes around a non-word separator are both replaced and the separator kept |
| NormalizeTokens.NormalizeTwoCodes | backend/main/utils/normalize_tokens.py:8-15 | two codes around a non-space, non-word separator normalise to the two spaced codes with the separator between them and no added spaces |
| NormalizeTokens.E222Instance | backend/main/utils/normalize_tokens.py:8 | "E22.2/E22.2B" is two codes around '/', so it normalises to "E 22_2/E 22_2 B" |
| NormalizeTokens.NormalizeE72B | backend/main/utils/normalize_tokens.py:7 | "E7.2B" normalises to "E 7_2 B" |
| NormalizeTokens.CodeAfterDot | backend/main/utils/normalize_tokens.py:11 | a match found after the dot has positive length and ends within the text |
| NormalizeTokens.SpacedCollapsed | backend/main/utils/normalize_tokens.py:12-15 | a spaced code is non-empty and has only single spaces, so the whitespace collapse leaves it alone |
| PyStr.Lower | main/utils/pdf_helper.py:16 | `str.lower` maps every character to its lower case, keeping the length |
| PyStr.LStrip | backend/main/chunker/text_chunker.py:28 | leading whitespace removed: a suffix of the text, all whitespace before it, not starting with whitespace |
| PyStr.RStrip | backend/main/chunker/text_chunker.py:28 | trailing whitespace removed: a prefix of the text, all whitespace after it, not ending in whitespace |
| PyStr.Strip | backend/main/chunker/text_chunker.py:28 | `str.strip`: empty, or starting and ending with a non-whitespace character |
| PyStr.StripIsSlice | backend/main/chunker/text_chunker.py:28 | the stripped text is a slice of the text |
| PyStr.BlankIffAllSpace | backend/main/pipeline/file_processor.py:16 | `not text.strip()` holds iff every character is whitespace |
| PyStr.ReplaceAbsent | backend/main/retrieval/vector_store/index_builder.py:50 | `str.replace` of a pattern that does not occur changes nothing |
| PyStr.ReplaceAppendedPattern | backend/main/retrieval/vector_store/index_builder.py:25-50 | removing "::ephemeral" from a path that was marked with it gives the unmarked path back |
| PyStr.ReplaceChar | main/utils/text_preprocessor.py:34 | replacing a character by text without it leaves none of it, and adds only the replacement's characters |
| PyStr.JoinAppend | backend/main/chunker/text_chunker.py:85 | joining one more part appends the separator and the part |
| PyStr.JoinConcat | main/retrieval/rerankers/merge_utils.py:42 | joining two non-empty lists is joining each with the separator between |
| PyStr.JoinEnds | backend/main/pipeline_core.py:81 | the joined text starts with the first part and ends with the last |
| PyStr.RunLength | backend/main/chunker/text_chunker.py:26 | the length of the longest prefix whose characters all satisfy the predicate |
| PyStr.SplitLines | backend/main/chunker/text_chunker.py:59 | `str.splitlines()` gives no lines exactly for empty text |
| PyStr.NatToString | main/llm/prompt_builder.py:7 | the decimal digits of a number, never empty |
| PyStr.CollapseRunsHead | backend/main/chunker/text_chunker.py:25 | a collapsed text starts with a space when the text starts with a run character, else with the same character |
| PyStr.CollapseRunsCollapsed | backend/main/chunker/text_chunker.py:25 | after `re.sub(r"[ \t]+", " ", s)` every run is a single space |
| PyStr.CollapseRunsIdentity | backend/main/chunker/text_chunker.py:25 | text whose runs are already single spaces is left as it is |
| PyStr.CollapseRunsAddsOnlySpaces | backend/main/chunker/text_chunker.py:25 | collapsing brings in no character but the space |
| PyStr.CollapseRunsKeeps | backend/main/utils/normalize_tokens.py:15 | characters outside the runs survive the collapse in order |
| PyStr.StripKeeps | backend/main/utils/normalize_tokens.py:15 | non-whitespace characters survive `strip` in order |
| PyStr.StripOfStripped | backend/main/chunker/text_chunker.py:43-58 | text with no whitespace at either end is its own strip |
| PyStr.StripIdempotent | backend/main/chunker/text_chunker.py:43-58 | stripping twice is stripping once |
| PyStr.RunsCollapsedSlice | main/utils/text_preprocessor.py:97 | a slice of text with single-space runs has single-space runs |
| PyStr.JoinCollapsed | backend/main/utils/normalize_tokens.py:15 | joining two texts with single-space runs by a separator that does not start a new run keeps the runs single |
| PySeq.Slice | main/retrieval/rerankers/merge_utils.py:41 | Python slicing: in-range bounds give the plain slice, and a start of -1 with an end before the last position gives nothing |
| PySeq.SliceBound | main/retrieval/rerankers/merge_utils.py:41 | a Python slice bound: kept when in range, counted from the end when negative, clamped to the length |

## Left out

- **Network and cloud calls.** The boto3 listing pages, object bodies and Bedrock
  responses are parameters (`pages`, `bucket`, `response`). Textract, Cohere, Ollama and
  the Bedrock retriever are functions passed in.
- **Concurrency.** The `ThreadPoolExecutor` fan-out is an in-order loop, because results
  are consumed in submission order. Interleavings of the workers' file writes are not
  modelled. When a future raises, the source still waits for every remaining task at the
  executor's exit (their downloads, processing and ephemeral deletions all run); the
  model stops at the first failure and states nothing about the files on that path.
- **Floating point.** Not modelled:
  - `faiss.normalize_L2` and its in-place change to the caller's array;
  - the inner-product ranking, which is the parameter `hit`/`hits` (the ids and scores
    faiss returns);
  - the sentence-transformer embeddings.

  Scores are `real`, and vectors are sequences of `real`.
- **The `process_file` arity mismatch.** `process_file` takes two parameters
  (backend/main/pipeline/file_processor.py:12). The backend index builder calls it with
  a third argument: `debug_name=` at line 77, and a positional one at line 169. As
  written, those calls raise TypeError. The model makes the call with the path and the
  extractor, as the rest of the builder evidently intends.
- **The earlier builder's `process_file`.** main/retrieval/vector_store/index_builder.py
  imports `process_file` from main/pipeline/file_processor.py, which is not part of this
  model. `LegacyIndexBuilder` uses the backend `FileProcessor.ProcessFile` in its place:
  extract, preprocess, chunk, embed, with every failure collapsed to `([], [])`.
- **The langchain splitter** is the parameter `split`.
- **The middle rewrites are opaque parameters.**
  - `prepare_for_chunking`: the three regular-expression rewrites (text_chunker.py lines
    16-22) are the parameter `rewrite`.
  - `preprocess_text`: the bullet and line-break rewrites (text_preprocessor.py lines
    73-94) are the parameter `middle`.

  Only the final collapse and strip are modelled.
- **Regex classes and `str.lower`.** `\d`, `\w`, `\b` and `str.lower` are modelled on
  ASCII. `\s` and `str.strip` follow Python's `str.isspace` set.
- **Debug output.** Logging and the `Config.DEBUG` debug files are not modelled. The
  glyph list `fix_pdf_symbols` logs is an output of `TextPreprocessor.FixPdfSymbols`.
- **Factories and dispatch.** `get_reranker`, `get_llm`, `get_retriever`, the extractor
  and intent-detector factories, and the provider dispatch they do are not modelled. Their
  products are parameters.
- **UI surfaces.** The CLI, web API and chat front ends are not modelled.
- **Omitted steps of the earlier vector store manager.** The file that `download_pdf`
  writes there (main/utils/s3_helper.py) is not part of this model, and neither is the
  earlier pipeline core. The downloaded path is a parameter.
- **File timestamps.** The manifest timestamp is the run's clock reading, passed in.
- **Helper datatypes.** The `.npy` object array and the FAISS index file are
  opaque blobs, in maps separate from ordinary files.
- S3Helper.HashFile: SHA-256 is an uninterpreted parameter. The model does not state that
  the digest is 64 lowercase hexadecimal characters, nor any FIPS 180-4 property. It
  states only that the whole file is fed in 8192-byte blocks.
- Manifest.ManifestFile.Save: a failed write is caught and only logged by
  `save_index_manifest` (backend/main/utils/manifest_helper.py:25-29). A failed open
  leaves the old file, and a dump that fails part-way leaves a truncated file that the
  next load reads as `{}`. The model's write always succeeds, and so do `UpdateEntry`,
  `RemoveKeys` and `Prune`, which save through it.
- S3Helper.DownloadPdf: `os.path.exists(local_path)` is modelled as the cache path being
  an ordinary file. A cache path that holds an index or `.npy` blob counts as absent in
  the model, while `os.path.exists` would see it.
- FaissIndexer.LoadFaissIndex: the loaded index's own dimension is kept as stored. A
  later `add` with `dim` 384 against a differently sized index fails inside faiss; the
  model reports this as a collaborator failure, not as faiss's assertion text.
- VectorStoreManager.Retrieve: states the merge of the corrected reading (see Findings)
  and its passage shape. `VectorStoreManager.DefaultMergeIsAsWritten` ties it to the
  as-written merge whenever proximity merging is off, which is the configured default.
- VectorStoreManager.RerankerIgnoresThreshold: Dafny proves it from the definition
  alone, since with a reranker the threshold is never read.
- TextPreprocessor.RecoverIsMerge: holds by definition, since the two functions perform
  the same three substitutions.
- TextPreprocessor.PreprocessedShape: states the shape of the final collapse and strip
  only. What the opaque middle rewrites produce is not stated.
- TextChunker.ChunkText: states that every chunk is trimmed and non-empty, and how runs
  are merged. The splitter's sizes and overlaps are not modelled.

## Findings

| source | as written | input that shows it | evidently intended | confidence | as-written member | corrected member |
|---|---|---|---|---|---|---|
| main/retrieval/rerankers/merge_utils.py:26-38 | with proximity merging, `last_end` starts at -1, so a first window starting at 0 or 1 gets start `min(start, -1) = -1`; the slice `all_chunks[-1:end]` then counts from the end and is usually empty | chunks `["a","b","c","d"]`, one result `"a"`, window 1, proximity on: the passage is `""` instead of `"a\nb"` | pull a window back only onto an earlier window (`last_end >= 0`), so every passage holds its centre | high (not executed) | MergeUtils.ProximityEmptiesFirstWindow | MergeUtils.CorrectedPassagesHoldCentres |
